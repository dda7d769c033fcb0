/** The data helpers app.py defines for itself: `read_people`, and the copy
    of `read_catalog` whose normalisation is missing. (Its copies of the
    e-mail helpers are the members of module Email.) */
module App {
  import opened Wrappers
  import opened Table
  import Text
  import Catalog

  // ---------------------------------------------------------------------------
  // read_people

  /** `read_people()` given the text of people.txt; `None` stands for a file
      that is missing or cannot be read, both of which give no names. */
  function ReadPeople(file: Option<string>): (names: seq<string>)
    ensures file.None? ==> names == []
    ensures forall k :: 0 <= k < |names| ==>
              names[k] != [] && Text.IsStripped(names[k]) && Text.NoneOf(names[k], Text.IsLineBreak)
  {
    if file.None? then []
    else
      var lines := Text.Split(file.value, Text.IsLineBreak);
      Text.CleanPiecesAvoid(lines, Text.IsLineBreak);
      Text.CleanPieces(lines)
  }

  /** A roster written one name per line is read back name for name, in order. */
  lemma ReadPeopleJoin(names: seq<string>)
    requires forall k :: 0 <= k < |names| ==>
               names[k] != [] && Text.IsStripped(names[k]) && Text.NoneOf(names[k], Text.IsLineBreak)
    ensures ReadPeople(Some(Text.Join(names, "\n"))) == names
  {
    if names == [] {
      assert Text.Split([], Text.IsLineBreak) == [[]];
      assert Text.Strip([]) == [];
    } else {
      Text.SplitJoin(names, '\n', Text.IsLineBreak);
      Text.CleanPiecesOfClean(names);
    }
  }

  /** Any roster, blank and indented lines included: reading it gives the
      stripped lines that are not blank, in order. */
  lemma ReadPeopleLines(lines: seq<string>)
    requires forall k :: 0 <= k < |lines| ==> Text.NoneOf(lines[k], Text.IsLineBreak)
    ensures ReadPeople(Some(Text.Join(lines, "\n"))) == Text.CleanPieces(lines)
  {
    if lines == [] {
      assert Text.Split([], Text.IsLineBreak) == [[]];
      assert Text.Strip([]) == [];
    } else {
      Text.SplitJoin(lines, '\n', Text.IsLineBreak);
    }
  }

  // ---------------------------------------------------------------------------
  // read_catalog, as app.py writes it

  /** app.py's `read_catalog()`: the empty fallback, and otherwise the frame
      exactly as read — the normalisation is elided there. */
  function ReadCatalogAsWritten(raw: Frame<Catalog.Column>): (df: Frame<Catalog.Column>)
    ensures Empty(raw) ==> Catalog.Normalized(raw, df)
    ensures !Empty(raw) ==> df == raw
  {
    if Empty(raw) then Frame(Catalog.Columns, []) else raw
  }

  /** A catalog whose only column is `item`, holding " Gloves ". */
  function GlovesOnly(): Frame<Catalog.Column> {
    Frame([Catalog.Item], [map[Catalog.Item := Str(" Gloves ")]])
  }

  /** On that catalog app.py's `read_catalog` is not the normalised catalog:
      the six other columns are missing and the name keeps its spaces,
      where data/catalog.py gives seven columns and "Gloves". */
  lemma AsWrittenSkipsNormalisation()
    ensures WellFormed(GlovesOnly()) && !Empty(GlovesOnly())
    ensures !Catalog.Normalized(GlovesOnly(), ReadCatalogAsWritten(GlovesOnly()))
    ensures Get(ReadCatalogAsWritten(GlovesOnly()).rows[0], Catalog.Item) == Str(" Gloves ")
  {
    var raw := GlovesOnly();
    assert Catalog.Multiplier in Catalog.Columns && Catalog.Multiplier !in raw.columns;
    assert Catalog.Multiplier in Catalog.AbsentFrom(Catalog.Columns, raw.columns);
    assert |raw.columns + Catalog.AbsentFrom(Catalog.Columns, raw.columns)| > |raw.columns|;
  }

  /** data/catalog.py's `read_catalog` on the same catalog has every
      catalog column and the stripped name. */
  lemma CorrectedOnGloves(df: Frame<Catalog.Column>)
    requires Catalog.Normalized(GlovesOnly(), df)
    ensures forall c :: c in Catalog.Columns ==> c in df.columns
    ensures |df.rows| == 1
    ensures Get(df.rows[0], Catalog.Item) == Str("Gloves")
  {
    var raw := GlovesOnly();
    assert !Empty(raw);
    assert Catalog.RowNormalized(raw.rows[0], 0, df.rows[0]);
    assert Get(raw.rows[0], Catalog.Item) == Str(" Gloves ");
    StripGloves();
  }

  lemma StripGloves()
    ensures Text.Strip(" Gloves ") == "Gloves"
  {
    assert Text.TrimLeft(" Gloves ") == "Gloves ";
    assert Text.TrimRight("Gloves ") == "Gloves";
  }
}
