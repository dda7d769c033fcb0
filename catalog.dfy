/** `read_catalog` of data/catalog.py: the catalog frame read from
    catalog.csv is completed to the seven catalog columns and each of those
    columns is normalised, in place, one after the other. */
module Catalog {
  import opened Wrappers
  import opened Table
  import Text

  /** A column label of the catalog file: one of the seven catalog columns,
      or any other header (whose name is none of the seven). */
  datatype Column = Item | ProductNumber | Multiplier | ItemsPerOrder | CurrentQty | SortOrder | Price
                  | Other(name: string)

  /** The header text of a column. */
  function Name(c: Column): string {
    match c
    case Item => "item"
    case ProductNumber => "product_number"
    case Multiplier => "multiplier"
    case ItemsPerOrder => "items_per_order"
    case CurrentQty => "current_qty"
    case SortOrder => "sort_order"
    case Price => "price"
    case Other(name) => name
  }

  /** The catalog's columns, in the order the code lists them. */
  const Columns: seq<Column> := [Item, ProductNumber, Multiplier, ItemsPerOrder, CurrentQty, SortOrder, Price]

  const ColumnSet: set<Column> := {Item, ProductNumber, Multiplier, ItemsPerOrder, CurrentQty, SortOrder, Price}

  /** The names in `required` that `present` lacks, in the order of `required`. */
  function AbsentFrom(required: seq<Column>, present: seq<Column>): (r: seq<Column>)
    ensures forall c :: c in r <==> c in required && c !in present
  {
    if required == [] then []
    else
      var last := required[|required| - 1];
      AbsentFrom(required[..|required| - 1], present) + (if last in present then [] else [last])
  }

  /** Nothing is absent when every required name is present. */
  lemma {:induction false} AbsentFromNone(required: seq<Column>, present: seq<Column>)
    requires forall c :: c in required ==> c in present
    ensures AbsentFrom(required, present) == []
  {
    if required != [] {
      var init := required[..|required| - 1];
      assert forall c :: c in init ==> c in required;
      AbsentFromNone(init, present);
      assert required[|required| - 1] in required;
    }
  }

  /** `df[c] = pd.NA` for a column that does not exist yet. */
  function AddColumn(df: Frame<Column>, c: Column): (r: Frame<Column>)
    ensures r.columns == df.columns + [c] && |r.rows| == |df.rows|
    ensures forall i :: 0 <= i < |r.rows| ==> r.rows[i].Keys == df.rows[i].Keys + {c}
    ensures forall i, k :: 0 <= i < |r.rows| ==> Get(r.rows[i], k) == if k == c then NA else Get(df.rows[i], k)
  {
    Frame(df.columns + [c], seq(|df.rows|, i requires 0 <= i < |df.rows| => df.rows[i][c := NA]))
  }

  /** How `read_catalog` rewrites a catalog column: `.astype(str).str.strip()`,
      a coerced number with a fixed default, or (for `sort_order`) a coerced
      number defaulting to the row's position. */
  datatype Rule = AsText | NumberDefault(default: int) | NumberOrPosition

  /** `.astype(str).str.strip()` */
  function TextCell(c: Cell): (r: Cell)
    ensures r.Str? && Text.IsStripped(r.s)
  {
    Str(Text.Strip(AsStr(c)))
  }

  /** `pd.to_numeric(..., errors="coerce").fillna(default).astype(int)` */
  function NumberOr(c: Cell, default: int): (r: Cell)
    ensures r.Num?
    ensures ToNumeric(c).Some? ==> r.n == ToNumeric(c).value
    ensures ToNumeric(c).None? ==> r.n == default
  {
    match ToNumeric(c)
    case Some(n) => Num(n)
    case None => Num(default)
  }

  /** The new value of a cell at row position `i` under `rule`. */
  function Apply(rule: Rule, x: Cell, i: nat): Cell {
    match rule
    case AsText => TextCell(x)
    case NumberDefault(d) => NumberOr(x, d)
    case NumberOrPosition => NumberOr(x, i)
  }

  /** The rule the code applies to each catalog column. */
  function RuleOf(c: Column): Rule
    requires c in ColumnSet
  {
    match c
    case Item => AsText
    case ProductNumber => AsText
    case Multiplier => NumberDefault(1)
    case ItemsPerOrder => NumberDefault(1)
    case CurrentQty => NumberDefault(0)
    case Price => NumberDefault(0)
    case SortOrder => NumberOrPosition
  }

  /** The normalised value of the cell `x` of column `c` at row position `i`;
      a column outside the catalog's seven is left alone. */
  function Normal(c: Column, x: Cell, i: nat): Cell {
    if c in ColumnSet then Apply(RuleOf(c), x, i) else x
  }

  /** `df[c] = <rule applied to df[c]>`, one column rewritten in place. */
  function SetColumn(df: Frame<Column>, c: Column, rule: Rule): (r: Frame<Column>)
    ensures r.columns == df.columns && |r.rows| == |df.rows|
  {
    Frame(df.columns, seq(|df.rows|, i requires 0 <= i < |df.rows| => df.rows[i][c := Apply(rule, Get(df.rows[i], c), i)]))
  }

  /** `SetColumn` rewrites column `c` of every row by `rule` and leaves every
      other cell as it was. */
  lemma SetColumnCells(df: Frame<Column>, c: Column, rule: Rule)
    ensures forall i :: 0 <= i < |df.rows| ==> SetColumn(df, c, rule).rows[i].Keys == df.rows[i].Keys + {c}
    ensures forall i, k :: 0 <= i < |df.rows| ==>
              Get(SetColumn(df, c, rule).rows[i], k) == if k == c then Apply(rule, Get(df.rows[i], c), i) else Get(df.rows[i], k)
  {
  }

  /** Row `after`, at position `i`, is row `before` normalised: it has all the
      catalog columns, the two names are stripped text, a number in the four
      numeric columns is kept and a missing or malformed one becomes 1, 1, 0
      and 0, `sort_order` falls back to the row's position, and every other
      column is left alone. */
  ghost predicate RowNormalized(before: map<Column, Cell>, i: nat, after: map<Column, Cell>) {
    && after.Keys == before.Keys + ColumnSet
    && forall c :: Get(after, c) == Normal(c, Get(before, c), i)
  }

  /** `df` is what `read_catalog` returns for `raw`: an empty input gives the
      empty frame with exactly the catalog columns; otherwise the input's
      columns come first, followed by the catalog columns it lacked, and the
      rows keep their number and order, each one normalised. */
  ghost predicate Normalized(raw: Frame<Column>, df: Frame<Column>) {
    if Empty(raw) then df == Frame(Columns, [])
    else
      && df.columns == raw.columns + AbsentFrom(Columns, raw.columns)
      && |df.rows| == |raw.rows|
      && forall i :: 0 <= i < |df.rows| ==> RowNormalized(raw.rows[i], i, df.rows[i])
  }

  /** Part way through the normalisation: every row has all catalog columns,
      the columns in `done` are normalised and the rest are as read. */
  ghost predicate NormalizedSoFar(raw: Frame<Column>, df: Frame<Column>, done: set<Column>) {
    && |df.rows| == |raw.rows|
    && forall i :: 0 <= i < |df.rows| ==>
         && df.rows[i].Keys == raw.rows[i].Keys + ColumnSet
         && forall c :: Get(df.rows[i], c) == if c in done then Normal(c, Get(raw.rows[i], c), i) else Get(raw.rows[i], c)
  }

  /** One normalisation statement of `read_catalog` extends `done` by its column. */
  lemma SetColumnStep(raw: Frame<Column>, df: Frame<Column>, done: set<Column>, c: Column, rule: Rule)
    requires NormalizedSoFar(raw, df, done)
    requires c in ColumnSet && c !in done && rule == RuleOf(c)
    ensures NormalizedSoFar(raw, SetColumn(df, c, rule), done + {c})
  {
    var r := SetColumn(df, c, rule);
    SetColumnCells(df, c, rule);
    forall i | 0 <= i < |r.rows|
      ensures r.rows[i].Keys == raw.rows[i].Keys + ColumnSet
      ensures forall k :: Get(r.rows[i], k) == if k in done + {c} then Normal(k, Get(raw.rows[i], k), i) else Get(raw.rows[i], k)
    {
      assert r.rows[i].Keys == df.rows[i].Keys + {c};
      forall k ensures Get(r.rows[i], k) == if k in done + {c} then Normal(k, Get(raw.rows[i], k), i) else Get(raw.rows[i], k) {
        if k == c {
          assert Get(df.rows[i], c) == Get(raw.rows[i], c);
        }
      }
    }
  }

  /** A header read from a file: `Other` only for a name that is none of the
      seven catalog names, which have their own labels. */
  predicate Labelled(df: Frame<Column>) {
    forall k :: 0 <= k < |df.columns| ==> df.columns[k].Other? ==> df.columns[k].name !in CatalogNames
  }

  const CatalogNames: set<string> := {"item", "product_number", "multiplier", "items_per_order", "current_qty", "sort_order", "price"}

  /** `read_catalog` over the frame that `safe_read_csv` returned. */
  method ReadCatalog(raw: Frame<Column>) returns (df: Frame<Column>)
    requires WellFormed(raw) && Labelled(raw)
    ensures Normalized(raw, df)
    ensures WellFormed(df) && Labelled(df)
  {
    if Empty(raw) {
      return Frame(Columns, []);
    }
    df := AddMissingColumns(raw);
    CompletedKeys(raw, df);
    df := NormalizeTypes(raw, df);
    Finished(raw, df);
    LabelledCompleted(raw, df);
  }

  /** The column loop of `read_catalog`: `df[c] = pd.NA` for each catalog
      column the file lacks, in catalog order. */
  method AddMissingColumns(raw: Frame<Column>) returns (df: Frame<Column>)
    requires WellFormed(raw)
    ensures Completing(raw, df, Columns[..|Columns|])
  {
    df := raw;
    for k := 0 to |Columns|
      invariant Completing(raw, df, Columns[..k])
    {
      var c := Columns[k];
      CompletingStep(raw, df, Columns[..k], c);
      assert Columns[..k + 1] == Columns[..k] + [c];
      if c !in df.columns {
        df := AddColumn(df, c);
      }
    }
  }

  /** Appending catalog columns keeps the labels proper. */
  lemma LabelledCompleted(raw: Frame<Column>, df: Frame<Column>)
    requires Labelled(raw) && df.columns == raw.columns + AbsentFrom(Columns, raw.columns)
    ensures Labelled(df)
  {
    forall k | 0 <= k < |df.columns| ensures df.columns[k].Other? ==> df.columns[k].name !in CatalogNames {
      if k < |raw.columns| {
        assert df.columns[k] == raw.columns[k];
      } else {
        assert df.columns[k] in AbsentFrom(Columns, raw.columns);
      }
    }
  }

  /** In a frame with proper labels a header name names one column: equal
      names are equal labels. */
  lemma NameInjective(df: Frame<Column>, c: Column, d: Column)
    requires Labelled(df) && c in df.columns && d in df.columns && Name(c) == Name(d)
    ensures c == d
  {
    var i :| 0 <= i < |df.columns| && df.columns[i] == c;
    var j :| 0 <= j < |df.columns| && df.columns[j] == d;
  }

  /** The normalisation statements of `read_catalog`, applied to the frame
      whose catalog columns all exist. */
  method NormalizeTypes(ghost raw: Frame<Column>, df0: Frame<Column>) returns (df: Frame<Column>)
    requires NormalizedSoFar(raw, df0, {})
    ensures NormalizedSoFar(raw, df, ColumnSet)
    ensures df.columns == df0.columns
  {
    df := df0;
    ghost var done: set<Column> := {};
    SetColumnStep(raw, df, done, Item, AsText);
    df, done := SetColumn(df, Item, AsText), done + {Item};
    SetColumnStep(raw, df, done, ProductNumber, AsText);
    df, done := SetColumn(df, ProductNumber, AsText), done + {ProductNumber};
    SetColumnStep(raw, df, done, Multiplier, NumberDefault(1));
    df, done := SetColumn(df, Multiplier, NumberDefault(1)), done + {Multiplier};
    SetColumnStep(raw, df, done, ItemsPerOrder, NumberDefault(1));
    df, done := SetColumn(df, ItemsPerOrder, NumberDefault(1)), done + {ItemsPerOrder};
    SetColumnStep(raw, df, done, CurrentQty, NumberDefault(0));
    df, done := SetColumn(df, CurrentQty, NumberDefault(0)), done + {CurrentQty};
    SetColumnStep(raw, df, done, Price, NumberDefault(0));
    df, done := SetColumn(df, Price, NumberDefault(0)), done + {Price};

    // Sort order fallback
    SetColumnStep(raw, df, done, SortOrder, NumberOrPosition);
    df, done := SetColumn(df, SortOrder, NumberOrPosition), done + {SortOrder};
    assert done == ColumnSet;
  }

  /** After the catalog columns `seen` have been looked at: those the file
      lacked are appended, every row is well formed, and no cell has changed
      (an added cell holds `pd.NA`, which is how a missing one reads). */
  ghost predicate Completing(raw: Frame<Column>, df: Frame<Column>, seen: seq<Column>) {
    && WellFormed(raw)
    && df.columns == raw.columns + AbsentFrom(seen, raw.columns)
    && |df.rows| == |raw.rows|
    && WellFormed(df)
    && forall i, c :: 0 <= i < |df.rows| ==> Get(df.rows[i], c) == Get(raw.rows[i], c)
  }

  /** One turn of the column loop. */
  lemma CompletingStep(raw: Frame<Column>, df: Frame<Column>, seen: seq<Column>, c: Column)
    requires Completing(raw, df, seen) && c !in seen
    ensures Completing(raw, if c in df.columns then df else AddColumn(df, c), seen + [c])
  {
    assert (seen + [c])[..|seen|] == seen;
    assert c in df.columns <==> c in raw.columns;
    if c !in df.columns {
      AddColumnWellFormed(df, c);
      AddColumnKeepsCells(raw, df, c);
    }
  }

  /** A column the file lacks reads as `pd.NA` before and after it is added. */
  lemma AddColumnKeepsCells(raw: Frame<Column>, df: Frame<Column>, c: Column)
    requires WellFormed(raw) && c !in raw.columns && |df.rows| == |raw.rows|
    requires forall i, x :: 0 <= i < |df.rows| ==> Get(df.rows[i], x) == Get(raw.rows[i], x)
    ensures forall i, x :: 0 <= i < |df.rows| ==> Get(AddColumn(df, c).rows[i], x) == Get(raw.rows[i], x)
  {
    var r := AddColumn(df, c);
    forall i, x | 0 <= i < |r.rows| ensures Get(r.rows[i], x) == Get(raw.rows[i], x) {
      if x == c {
        assert c !in raw.rows[i];
      }
    }
  }

  /** Adding a column to every row keeps the frame well formed. */
  lemma AddColumnWellFormed(df: Frame<Column>, c: Column)
    requires WellFormed(df)
    ensures WellFormed(AddColumn(df, c))
  {
    var r := AddColumn(df, c);
    assert (set x | x in r.columns) == (set x | x in df.columns) + {c};
  }

  /** After the column loop every row has the catalog columns on top of its
      own, and so no normalisation step has happened yet. */
  lemma CompletedKeys(raw: Frame<Column>, df: Frame<Column>)
    requires Completing(raw, df, Columns[..|Columns|]) && !Empty(raw)
    ensures df.columns == raw.columns + AbsentFrom(Columns, raw.columns)
    ensures WellFormed(df)
    ensures NormalizedSoFar(raw, df, {})
  {
    assert Columns[..|Columns|] == Columns;
    assert (set c | c in df.columns) == (set c | c in raw.columns) + ColumnSet;
  }

  /** With all seven columns done the frame is the normal form. */
  lemma Finished(raw: Frame<Column>, df: Frame<Column>)
    requires WellFormed(raw) && !Empty(raw) && NormalizedSoFar(raw, df, ColumnSet)
    requires df.columns == raw.columns + AbsentFrom(Columns, raw.columns)
    ensures Normalized(raw, df)
    ensures WellFormed(df)
  {
    assert (set c | c in df.columns) == (set c | c in raw.columns) + ColumnSet;
  }

  /** Normalising a normalised cell again changes nothing. */
  lemma NormalIdempotent(c: Column, x: Cell, i: nat)
    ensures Normal(c, Normal(c, x, i), i) == Normal(c, x, i)
  {
    if c in ColumnSet {
      match RuleOf(c)
      case AsText => Text.StripOfStripped(TextCell(x).s);
      case NumberDefault(_) =>
      case NumberOrPosition =>
    }
  }

  /** Normalising twice changes nothing: a frame `read_catalog` returned is
      already its own normal form. */
  lemma NormalizeIdempotent(raw: Frame<Column>, df: Frame<Column>)
    requires Normalized(raw, df)
    ensures Normalized(df, df)
  {
    if !Empty(raw) {
      assert |df.rows| > 0 && |df.columns| > 0;
      assert forall c :: c in Columns ==> c in df.columns;
      AbsentFromNone(Columns, df.columns);
      assert df.columns + [] == df.columns;
      forall i | 0 <= i < |df.rows| ensures RowNormalized(df.rows[i], i, df.rows[i]) {
        var row := df.rows[i];
        assert RowNormalized(raw.rows[i], i, row);
        forall c ensures Get(row, c) == Normal(c, Get(row, c), i) {
          NormalIdempotent(c, Get(raw.rows[i], c), i);
        }
      }
    }
  }

  /** The normalised row is determined: two rows that both normalise the same
      row at the same position are equal. */
  lemma RowNormalizedUnique(before: map<Column, Cell>, i: nat, a: map<Column, Cell>, b: map<Column, Cell>)
    requires RowNormalized(before, i, a) && RowNormalized(before, i, b)
    ensures a == b
  {
    forall k | k in a ensures a[k] == b[k] {
      assert Get(a, k) == Get(b, k);
    }
  }

  /** A catalog column that the file lacks is missing in every row: the two
      names read "<NA>", and the numbers take their defaults. */
  lemma AbsentColumnDefaults(raw: Frame<Column>, df: Frame<Column>, c: Column, i: nat)
    requires WellFormed(raw) && Normalized(raw, df) && !Empty(raw)
    requires c in Columns && c !in raw.columns && i < |df.rows|
    ensures c in df.columns
    ensures c == Item || c == ProductNumber ==> Get(df.rows[i], c) == Str("<NA>")
    ensures c == Multiplier || c == ItemsPerOrder ==> Get(df.rows[i], c) == Num(1)
    ensures c == CurrentQty || c == Price ==> Get(df.rows[i], c) == Num(0)
    ensures c == SortOrder ==> Get(df.rows[i], c) == Num(i)
  {
    MissingRead(raw, df, c, i);
    MissingCell(c, i);
  }

  /** A cell of a column the file lacks is normalised from `pd.NA`. */
  lemma MissingRead(raw: Frame<Column>, df: Frame<Column>, c: Column, i: nat)
    requires WellFormed(raw) && Normalized(raw, df) && !Empty(raw)
    requires c in Columns && c !in raw.columns && i < |df.rows|
    ensures c in df.columns
    ensures Get(df.rows[i], c) == Normal(c, NA, i)
  {
    assert c !in raw.rows[i];
    assert RowNormalized(raw.rows[i], i, df.rows[i]);
  }

  /** How a missing cell of each catalog column is normalised. */
  lemma MissingCell(c: Column, i: nat)
    requires c in ColumnSet
    ensures Normal(c, NA, i) == match RuleOf(c)
                                case AsText => Str("<NA>")
                                case NumberDefault(d) => Num(d)
                                case NumberOrPosition => Num(i)
  {
    if RuleOf(c) == AsText {
      Text.StripOfStripped("<NA>");
    }
  }
}
