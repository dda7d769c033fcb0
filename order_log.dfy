/** The orders log of db/supabase_client.py: building the rows that
    `append_log` inserts, the empty fallback of `read_log`, and the
    "last order per item" table of `last_info_map`. */
module OrderLog {
  import opened Wrappers
  import opened Table
  import Text

  // ---------------------------------------------------------------------------
  // append_log

  /** One row of the order frame handed to `append_log`. */
  datatype OrderLine = OrderLine(item: Cell, productNumber: Cell, qty: Cell)

  /** One row of the `orders_log` table. */
  datatype LogRecord = LogRecord(item: Cell, productNumber: string, qty: int, orderedAt: string, orderer: string)

  /** Python's `int(cell)`: an integer is kept, text is parsed after the
      whitespace `int` ignores, and `NaN` or `pd.NA` raise (here `None`).
      On the integer and text cells modelled this is the conversion
      `to_numeric` makes. */
  function IntOf(c: Cell): (r: Option<int>)
    ensures c.Num? ==> r == Some(c.n)
    ensures c.NaN? || c.NA? ==> r.None?
  {
    ToNumeric(c)
  }

  /** `int(str(n))` is `n`: the integer form of an integer's text is the integer. */
  lemma IntOfShowInt(n: int)
    ensures IntOf(Str(Text.ShowInt(n))) == Some(n)
  {
    Text.ParseShowInt(n);
    Text.StripOfStripped(Text.ShowInt(n));
  }

  /** The rows sent to the database and the timestamp `append_log` returns. */
  datatype Appended = Appended(rows: seq<LogRecord>, stamp: string)

  /** `append_log(order_df, orderer)` with `now` the formatted clock reading.
      A quantity that `int` cannot convert raises before anything is
      inserted: the failure carries the position of the first such line. */
  method AppendLog(order: seq<OrderLine>, orderer: string, now: string) returns (result: Result<Appended, nat>)
    ensures result.Success? <==> forall k :: 0 <= k < |order| ==> IntOf(order[k].qty).Some?
    ensures result.Failure? ==> result.error < |order| && IntOf(order[result.error].qty).None?
                                && forall k :: 0 <= k < result.error ==> IntOf(order[k].qty).Some?
    ensures result.Success? ==>
              && result.value.stamp == now
              && |result.value.rows| == |order|
              && forall k :: 0 <= k < |order| ==>
                   var row := result.value.rows[k];
                   && row.item == order[k].item
                   && row.productNumber == AsStr(order[k].productNumber)
                   && Some(row.qty) == IntOf(order[k].qty)
                   && row.orderedAt == now
                   && row.orderer == orderer
  {
    var rows: seq<LogRecord> := [];
    for k := 0 to |order|
      invariant |rows| == k
      invariant forall j :: 0 <= j < k ==> IntOf(order[j].qty).Some?
      invariant forall j :: 0 <= j < k ==>
                  rows[j] == LogRecord(order[j].item, AsStr(order[j].productNumber), IntOf(order[j].qty).value, now, orderer)
    {
      var r := order[k];
      var qty := IntOf(r.qty);
      if qty.None? {
        return Failure(k);
      }
      rows := rows + [LogRecord(r.item, AsStr(r.productNumber), qty.value, now, orderer)];
    }
    return Success(Appended(rows, now));
  }

  // ---------------------------------------------------------------------------
  // read_log

  /** A query result as a table: its column labels and its rows. Unlike a
      `Table.Frame`, whose rows map labels to untyped cells, the rows here
      are typed records (the log and output rows have fixed fields), so the
      labels are carried only for the column list the code returns. */
  datatype Records<R> = Records(columns: seq<string>, rows: seq<R>)

  /** `df.empty`, the same test as `Table.Empty`: no rows, or no columns. */
  predicate IsEmpty<R>(t: Records<R>) {
    |t.rows| == 0 || |t.columns| == 0
  }

  const LogColumns: seq<string> := ["item", "product_number", "qty", "ordered_at", "orderer"]

  /** `read_log()` given what the query returned: no data or an empty list
      becomes an empty table with the five log columns; otherwise the
      records are the rows. */
  function ReadLog(data: Option<seq<LogRecord>>): (t: Records<LogRecord>)
    ensures t.columns == LogColumns
    ensures IsEmpty(t) <==> data.None? || data.value == []
    ensures data.Some? ==> t.rows == data.value
  {
    if data.None? || data.value == [] then Records(LogColumns, [])
    else Records(LogColumns, data.value)
  }

  // ---------------------------------------------------------------------------
  // Timestamps and sorting by them

  /** A log record with its `ordered_at` after `pd.to_datetime(...,
      errors="coerce")`; `None` is `NaT`. */
  datatype Stamped = Stamped(rec: LogRecord, at: Option<int>)

  /** The order `sort_values("ordered_at")` puts timestamps in: ascending,
      with `NaT` after every timestamp. */
  predicate TsLe(a: Option<int>, b: Option<int>) {
    b.None? || (a.Some? && a.value <= b.value)
  }

  lemma TsLeTotal(a: Option<int>, b: Option<int>)
    ensures TsLe(a, b) || TsLe(b, a)
  {
  }

  lemma TsLeTransitive(a: Option<int>, b: Option<int>, c: Option<int>)
    requires TsLe(a, b) && TsLe(b, c)
    ensures TsLe(a, c)
  {
  }

  predicate SortedByTime(s: seq<Stamped>) {
    forall i, j :: 0 <= i < j < |s| ==> TsLe(s[i].at, s[j].at)
  }

  /** Every element of `s` is at or after `t`. */
  predicate AllAfter(t: Option<int>, s: seq<Stamped>) {
    forall e :: e in s ==> TsLe(t, e.at)
  }

  /** The head of a sorted sequence is at or before all the rest. */
  lemma SortedHead(s: seq<Stamped>)
    requires SortedByTime(s) && s != []
    ensures SortedByTime(s[1..]) && AllAfter(s[0].at, s[1..])
  {
    forall e | e in s[1..] ensures TsLe(s[0].at, e.at) {
      var j :| 0 <= j < |s[1..]| && s[1..][j] == e;
      assert s[j + 1] == e;
    }
  }

  /** A sorted sequence with an element put in front that is at or before all
      of it is sorted. */
  lemma SortedCons(x: Stamped, s: seq<Stamped>)
    requires SortedByTime(s) && AllAfter(x.at, s)
    ensures SortedByTime([x] + s)
  {
    forall i, j | 0 <= i < j < |[x] + s| ensures TsLe(([x] + s)[i].at, ([x] + s)[j].at) {
      if i == 0 {
        assert ([x] + s)[j] == s[j - 1];
        assert s[j - 1] in s;
      }
    }
  }

  /** Places `x` in a sorted sequence after every element strictly before it. */
  function InsertByTime(x: Stamped, s: seq<Stamped>): (r: seq<Stamped>)
    requires SortedByTime(s)
    ensures SortedByTime(r)
    ensures multiset(r) == multiset(s) + multiset{x}
  {
    if s == [] then [x]
    else if TsLe(x.at, s[0].at) then
      SortedHead(s);
      forall e | e in s ensures TsLe(x.at, e.at) {
        if e != s[0] {
          assert e in s[1..];
          TsLeTransitive(x.at, s[0].at, e.at);
        }
      }
      SortedCons(x, s);
      [x] + s
    else
      SortedHead(s);
      var r := InsertByTime(x, s[1..]);
      TsLeTotal(x.at, s[0].at);
      forall e | e in r ensures TsLe(s[0].at, e.at) {
        assert e in multiset(r);
      }
      SortedCons(s[0], r);
      assert s == [s[0]] + s[1..];
      [s[0]] + r
  }

  /** One order `sort_values("ordered_at")` may produce: the records sorted
      by timestamp, a permutation of the input. */
  function SortByTime(s: seq<Stamped>): (r: seq<Stamped>)
    ensures SortedByTime(r)
    ensures multiset(r) == multiset(s)
  {
    if s == [] then []
    else
      assert s == [s[0]] + s[1..];
      InsertByTime(s[0], SortByTime(s[1..]))
  }

  // ---------------------------------------------------------------------------
  // groupby(["item", "product_number"]).tail(1)

  datatype Key = Key(item: Cell, productNumber: string)

  function KeyOf(e: Stamped): Key {
    Key(e.rec.item, e.rec.productNumber)
  }

  /** The keys occurring in `s`. */
  function Keys(s: seq<Stamped>): set<Key> {
    set e | e in s :: KeyOf(e)
  }

  /** A row whose `item` is missing belongs to no group: `groupby` drops
      missing keys, and `tail(1)` returns none of their rows. */
  predicate HasKey(e: Stamped) {
    !(e.rec.item.NaN? || e.rec.item.NA?)
  }

  /** The rows `groupby(["item", "product_number"])` puts in a group. */
  function Grouped(s: seq<Stamped>): (r: seq<Stamped>)
    ensures forall e :: e in r <==> e in s && HasKey(e)
  {
    if s == [] then []
    else
      assert forall e :: e in s <==> e == s[0] || e in s[1..];
      (if HasKey(s[0]) then [s[0]] else []) + Grouped(s[1..])
  }

  /** Dropping the rows without a key counts every other row as often as before. */
  lemma {:induction false} GroupedCount(s: seq<Stamped>, x: Stamped)
    ensures multiset(Grouped(s))[x] == if HasKey(x) then multiset(s)[x] else 0
  {
    if s != [] {
      GroupedCount(s[1..], x);
      assert s == [s[0]] + s[1..];
    }
  }

  /** Hence permutations of the log have permuted groups. */
  lemma GroupedPermutation(a: seq<Stamped>, b: seq<Stamped>)
    requires multiset(a) == multiset(b)
    ensures multiset(Grouped(a)) == multiset(Grouped(b))
  {
    forall x ensures multiset(Grouped(a))[x] == multiset(Grouped(b))[x] {
      GroupedCount(a, x);
      GroupedCount(b, x);
    }
  }

  /** Dropping rows keeps the time order. */
  lemma {:induction false} GroupedSorted(s: seq<Stamped>)
    requires SortedByTime(s)
    ensures SortedByTime(Grouped(s))
  {
    if s != [] {
      SortedHead(s);
      GroupedSorted(s[1..]);
      if HasKey(s[0]) {
        forall e | e in Grouped(s[1..]) ensures TsLe(s[0].at, e.at) {
          assert e in s[1..];
        }
        SortedCons(s[0], Grouped(s[1..]));
      }
    }
  }

  /** `tail(1)` per key: the last row of each key, in the order of `s`. */
  function LastPerKey(s: seq<Stamped>): (r: seq<Stamped>)
    ensures forall e :: e in r ==> e in s
    ensures Keys(r) == Keys(s)
    ensures forall i, j :: 0 <= i < j < |r| ==> KeyOf(r[i]) != KeyOf(r[j])
  {
    if s == [] then []
    else
      var rest := LastPerKey(s[1..]);
      assert s == [s[0]] + s[1..];
      assert Keys(s) == {KeyOf(s[0])} + Keys(s[1..]);
      if KeyOf(s[0]) in Keys(s[1..]) then rest
      else
        var r := [s[0]] + rest;
        assert Keys(r) == {KeyOf(s[0])} + Keys(rest);
        forall j | 0 < j < |r| ensures KeyOf(r[0]) != KeyOf(r[j]) {
          assert r[j] in rest;
        }
        r
  }

  /** In a sorted log the row kept for a key is at or after every row of that
      key: no row of the key is later. */
  lemma {:induction false} LastPerKeyMaximal(s: seq<Stamped>)
    requires SortedByTime(s)
    ensures forall e, x :: e in LastPerKey(s) && x in s && KeyOf(x) == KeyOf(e) ==> TsLe(x.at, e.at)
  {
    if s != [] {
      SortedHead(s);
      LastPerKeyMaximal(s[1..]);
      var h := s[0];
      var rest := LastPerKey(s[1..]);
      assert s == [h] + s[1..];
      forall e, x | e in LastPerKey(s) && x in s && KeyOf(x) == KeyOf(e) ensures TsLe(x.at, e.at) {
        if x != h && e != h {
          assert x in s[1..] && e in rest;
        } else if x != h {
          assert x in s[1..];
        } else if e != h {
          assert e in s[1..];
        }
      }
    }
  }

  /** `tail(1)` keeps the sorted frame's order. */
  lemma {:induction false} LastPerKeySorted(s: seq<Stamped>)
    requires SortedByTime(s)
    ensures SortedByTime(LastPerKey(s))
  {
    if s != [] {
      SortedHead(s);
      LastPerKeySorted(s[1..]);
      var rest := LastPerKey(s[1..]);
      if KeyOf(s[0]) !in Keys(s[1..]) {
        forall e | e in rest ensures TsLe(s[0].at, e.at) {
          assert e in s[1..];
        }
        SortedCons(s[0], rest);
      }
    }
  }

  // ---------------------------------------------------------------------------
  // last_info_map

  /** One row of `last_info_map()`. */
  datatype LastInfo = LastInfo(item: Cell, productNumber: string, lastOrderedAt: Option<int>, lastQty: int, lastOrderer: string)

  const LastInfoColumns: seq<string> := ["item", "product_number", "last_ordered_at", "last_qty", "last_orderer"]

  /** The `rename(...)[...]` of one kept row: every field comes from that row. */
  function ToLastInfo(e: Stamped): LastInfo {
    LastInfo(e.rec.item, e.rec.productNumber, e.at, e.rec.qty, e.rec.orderer)
  }

  function InfoKey(r: LastInfo): Key {
    Key(r.item, r.productNumber)
  }

  /** `pd.to_datetime(logs["ordered_at"], errors="coerce")`, with the parser a parameter. */
  function StampAll(log: seq<LogRecord>, parse: string -> Option<int>): (s: seq<Stamped>)
    ensures |s| == |log|
    ensures forall i :: 0 <= i < |s| ==> s[i] == Stamped(log[i], parse(log[i].orderedAt))
  {
    seq(|log|, i requires 0 <= i < |log| => Stamped(log[i], parse(log[i].orderedAt)))
  }

  /** The keys of the rows of a "last ordered" table. */
  function InfoKeys(out: seq<LastInfo>): set<Key> {
    set r | r in out :: InfoKey(r)
  }

  /** `out` is a "last ordered" table for `log`: its keys are exactly the
      keys occurring in the log, each once; each row is one log row, renamed;
      no row of the same key is later than it (so a key with an unparseable
      timestamp gets such a row); and the rows are in ascending time order. */
  ghost predicate IsLastInfo(log: seq<Stamped>, out: seq<LastInfo>) {
    && InfoKeys(out) == Keys(log)
    && (forall i, j :: 0 <= i < j < |out| ==> InfoKey(out[i]) != InfoKey(out[j]))
    && (forall r :: r in out ==> r in Renamed(log))
    && (forall r, x :: r in out && x in log && KeyOf(x) == InfoKey(r) ==> TsLe(x.at, r.lastOrderedAt))
    && (forall i, j :: 0 <= i < j < |out| ==> TsLe(out[i].lastOrderedAt, out[j].lastOrderedAt))
  }

  /** The renamed rows of `s`. */
  function Renamed(s: seq<Stamped>): (out: seq<LastInfo>)
    ensures |out| == |s|
    ensures forall i :: 0 <= i < |s| ==> out[i] == ToLastInfo(s[i])
  {
    seq(|s|, i requires 0 <= i < |s| => ToLastInfo(s[i]))
  }

  /** Renaming keeps the keys. */
  lemma InfoKeysRenamed(s: seq<Stamped>)
    ensures InfoKeys(Renamed(s)) == Keys(s)
  {
    var out := Renamed(s);
    forall k | k in Keys(s) ensures k in InfoKeys(out) {
      var e :| e in s && KeyOf(e) == k;
      var i :| 0 <= i < |s| && s[i] == e;
      assert out[i] in out;
    }
    forall k | k in InfoKeys(out) ensures k in Keys(s) {
      var r :| r in out && InfoKey(r) == k;
      var i :| 0 <= i < |out| && out[i] == r;
      assert s[i] in s;
    }
  }

  /** Whatever order among equal timestamps the sort picks, `tail(1)` of any
      time-sorted permutation of the log is a "last ordered" table for it. */
  lemma LastInfoOfSorted(log: seq<Stamped>, sorted: seq<Stamped>)
    requires SortedByTime(sorted) && multiset(sorted) == multiset(log)
    ensures IsLastInfo(log, Renamed(LastPerKey(sorted)))
  {
    var kept := LastPerKey(sorted);
    SameElements(log, sorted);
    assert Keys(sorted) == Keys(log);
    LastPerKeyMaximal(sorted);
    LastPerKeySorted(sorted);
    InfoKeysRenamed(kept);
    RenamedRows(kept, log);
    RenamedMaximal(kept, log);
    RenamedDistinct(kept);
  }

  /** A permutation has the same elements. */
  lemma SameElements(log: seq<Stamped>, sorted: seq<Stamped>)
    requires multiset(sorted) == multiset(log)
    ensures forall x :: x in log <==> x in sorted
  {
    forall x ensures x in log <==> x in sorted {
      assert x in log <==> x in multiset(log);
    }
  }

  /** Renaming rows taken from `log` gives rows of the renamed log. */
  lemma RenamedRows(kept: seq<Stamped>, log: seq<Stamped>)
    requires forall e :: e in kept ==> e in log
    ensures forall r :: r in Renamed(kept) ==> r in Renamed(log)
  {
    var out := Renamed(kept);
    forall r | r in out ensures r in Renamed(log) {
      var i :| 0 <= i < |out| && out[i] == r;
      assert kept[i] in kept;
      var j :| 0 <= j < |log| && log[j] == kept[i];
      assert Renamed(log)[j] == r;
    }
  }

  /** Renaming keeps the "no later row of the same key" property. */
  lemma RenamedMaximal(kept: seq<Stamped>, log: seq<Stamped>)
    requires forall e, x :: e in kept && x in log && KeyOf(x) == KeyOf(e) ==> TsLe(x.at, e.at)
    ensures forall r, x :: r in Renamed(kept) && x in log && KeyOf(x) == InfoKey(r) ==> TsLe(x.at, r.lastOrderedAt)
  {
    var out := Renamed(kept);
    forall r, x | r in out && x in log && KeyOf(x) == InfoKey(r) ensures TsLe(x.at, r.lastOrderedAt) {
      var i :| 0 <= i < |out| && out[i] == r;
      assert kept[i] in kept;
    }
  }

  /** Renaming keeps distinct keys distinct and the time order. */
  lemma RenamedDistinct(kept: seq<Stamped>)
    requires forall i, j :: 0 <= i < j < |kept| ==> KeyOf(kept[i]) != KeyOf(kept[j])
    ensures forall i, j :: 0 <= i < j < |kept| ==> InfoKey(Renamed(kept)[i]) != InfoKey(Renamed(kept)[j])
  {
  }

  /** `last_info_map()` over what the log query returned, with `parse` the
      timestamp parser: an empty log gives the empty table with the five
      output columns; otherwise one row per `(item, product_number)` whose
      item is present, the latest of its key, in ascending time order. */
  function LastInfoMap(data: Option<seq<LogRecord>>, parse: string -> Option<int>): (t: Records<LastInfo>)
    ensures t.columns == LastInfoColumns
    ensures IsEmpty(ReadLog(data)) ==> t.rows == []
    ensures !IsEmpty(ReadLog(data)) ==> IsLastInfo(Grouped(StampAll(ReadLog(data).rows, parse)), t.rows)
  {
    var logs := ReadLog(data);
    if IsEmpty(logs) then Records(LastInfoColumns, [])
    else
      var stamped := StampAll(logs.rows, parse);
      var sorted := SortByTime(stamped);
      GroupedSortedPermutation(stamped, sorted);
      Records(LastInfoColumns, Renamed(LastPerKey(Grouped(sorted))))
  }

  /** Whatever order among equal timestamps the sort picks, the groups of the
      sorted log give a "last ordered" table for the grouped rows of the log. */
  lemma GroupedSortedPermutation(log: seq<Stamped>, sorted: seq<Stamped>)
    requires SortedByTime(sorted) && multiset(sorted) == multiset(log)
    ensures IsLastInfo(Grouped(log), Renamed(LastPerKey(Grouped(sorted))))
  {
    GroupedSorted(sorted);
    GroupedPermutation(sorted, log);
    LastInfoOfSorted(Grouped(log), Grouped(sorted));
  }

  /** After an order is logged at a time no earlier than every timestamp
      already in the log, and all those timestamps parse, each ordered key
      whose item is present has that time as its "last ordered" time. */
  lemma FreshOrderIsLast(earlier: seq<LogRecord>, added: seq<LogRecord>, now: string, t: int,
                         parse: string -> Option<int>, k: nat, r: LastInfo)
    requires parse(now) == Some(t)
    requires forall j :: 0 <= j < |earlier| ==> parse(earlier[j].orderedAt).Some? && parse(earlier[j].orderedAt).value <= t
    requires forall j :: 0 <= j < |added| ==> added[j].orderedAt == now
    requires k < |added| && r in LastInfoMap(Some(earlier + added), parse).rows
    requires InfoKey(r) == Key(added[k].item, added[k].productNumber)
    requires !(added[k].item.NaN? || added[k].item.NA?)
    ensures r.lastOrderedAt == Some(t)
  {
    var log := earlier + added;
    var stamped := StampAll(log, parse);
    forall x | x in stamped ensures x.at.Some? && x.at.value <= t {
      var i :| 0 <= i < |stamped| && stamped[i] == x;
      if i < |earlier| {
        assert log[i] == earlier[i];
      } else {
        assert log[i] == added[i - |earlier|];
      }
    }
    assert log[|earlier| + k] == added[k];
    var x := stamped[|earlier| + k];
    assert x in Grouped(stamped);
    LatestKeyWins(Grouped(stamped), LastInfoMap(Some(log), parse).rows, x, r, t);
  }

  /** In a "last ordered" table of a log whose timestamps all parse and are at
      most `t`, a key that has a row at time `t` is reported at time `t`. */
  lemma LatestKeyWins(log: seq<Stamped>, out: seq<LastInfo>, x: Stamped, r: LastInfo, t: int)
    requires IsLastInfo(log, out)
    requires forall y :: y in log ==> y.at.Some? && y.at.value <= t
    requires x in log && x.at == Some(t) && r in out && InfoKey(r) == KeyOf(x)
    ensures r.lastOrderedAt == Some(t)
  {
    assert TsLe(Some(t), r.lastOrderedAt);
    assert r in Renamed(log);
    var i :| 0 <= i < |log| && Renamed(log)[i] == r;
    assert log[i] in log;
  }

  /** `NaT` sorts last, so a key with an unparseable timestamp among its rows
      is reported with `NaT` as its "last ordered" time. */
  lemma UnparsedTimeWins(log: seq<Stamped>, out: seq<LastInfo>, x: Stamped, r: LastInfo)
    requires IsLastInfo(log, out)
    requires x in log && x.at.None? && r in out && InfoKey(r) == KeyOf(x)
    ensures r.lastOrderedAt.None?
  {
    assert TsLe(x.at, r.lastOrderedAt);
  }
}
