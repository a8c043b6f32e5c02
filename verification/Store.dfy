/** The decision log: an append-only table read back newest first by its text timestamps. */
module Store {
  import opened Text
  import opened Timestamp
  import opened TimestampLaws

  /** The columns queries look at; `payload` stands for the stored document. */
  datatype Row = Row(decisionId: string, createdAt: string, symbol: string, payload: string)

  function Clamp(x: int, lo: int, hi: int): int {
    if x < lo then lo else if x > hi then hi else x
  }

  function Matching(rows: seq<Row>, symbol: Option<string>): seq<Row> {
    if rows == [] then []
    else (if symbol.None? || rows[0].symbol == symbol.value then [rows[0]] else []) + Matching(rows[1..], symbol)
  }

  /** Descending text order; rows with equal text may stand in any order. */
  ghost predicate NewestFirst(rows: seq<Row>) {
    forall i, j :: 0 <= i < j < |rows| ==> !Less(rows[i].createdAt, rows[j].createdAt)
  }

  function Insert(row: Row, rows: seq<Row>): seq<Row> {
    if rows == [] then [row]
    else if Less(row.createdAt, rows[0].createdAt) then [rows[0]] + Insert(row, rows[1..])
    else [row] + rows
  }

  /** One ordering that `ORDER BY created_at DESC` allows. */
  function Sorted(rows: seq<Row>): seq<Row> {
    if rows == [] then [] else Insert(rows[0], Sorted(rows[1..]))
  }

  // ----- byte order is a total order -----

  lemma {:induction false} LessIsTotal(a: string, b: string)
    ensures Less(a, b) || a == b || Less(b, a)
    ensures !(Less(a, b) && Less(b, a))
  {
    if a != "" && b != "" && a[0] == b[0] {
      LessIsTotal(a[1..], b[1..]);
      assert a == [a[0]] + a[1..] && b == [b[0]] + b[1..];
    }
  }

  lemma {:induction false} NotLessIsTransitive(a: string, b: string, c: string)
    requires !Less(a, b) && !Less(b, c)
    ensures !Less(a, c)
  {
    if c != "" && a != "" && b != "" && a[0] == b[0] == c[0] {
      NotLessIsTransitive(a[1..], b[1..], c[1..]);
    }
  }

  lemma {:induction false} InsertKeepsRows(row: Row, rows: seq<Row>)
    ensures multiset(Insert(row, rows)) == multiset{row} + multiset(rows)
    ensures forall r :: r in Insert(row, rows) ==> r == row || r in rows
  {
    hide Less;
    if rows != [] && Less(row.createdAt, rows[0].createdAt) {
      InsertKeepsRows(row, rows[1..]);
      assert rows == [rows[0]] + rows[1..];
    }
  }

  lemma NewestFirstCons(row: Row, rows: seq<Row>)
    requires NewestFirst(rows) && forall r :: r in rows ==> !Less(row.createdAt, r.createdAt)
    ensures NewestFirst([row] + rows)
  {
    hide Less;
  }

  lemma {:induction false} InsertKeepsOrder(row: Row, rows: seq<Row>)
    requires NewestFirst(rows)
    ensures NewestFirst(Insert(row, rows))
  {
    if rows != [] {
      var first, rest := rows[0], rows[1..];
      assert forall r :: r in rest ==> !Less(first.createdAt, r.createdAt);
      hide Less;
      LessIsTotal(row.createdAt, first.createdAt);
      if Less(row.createdAt, first.createdAt) {
        InsertKeepsOrder(row, rest);
        InsertKeepsRows(row, rest);
        NewestFirstCons(first, Insert(row, rest));
      } else {
        forall r | r in rows ensures !Less(row.createdAt, r.createdAt) {
          if r in rest {
            NotLessIsTransitive(row.createdAt, first.createdAt, r.createdAt);
          }
        }
        NewestFirstCons(row, rows);
      }
    }
  }

  lemma NothingIsNewestFirst()
    ensures NewestFirst([])
  {
  }

  lemma {:induction false} SortedIsNewestFirst(rows: seq<Row>)
    ensures NewestFirst(Sorted(rows)) && multiset(Sorted(rows)) == multiset(rows)
    ensures |Sorted(rows)| == |rows|
  {
    hide Less, Insert, NewestFirst;
    if rows == [] {
      NothingIsNewestFirst();
    } else {
      SortedIsNewestFirst(rows[1..]);
      InsertKeepsOrder(rows[0], Sorted(rows[1..]));
      InsertKeepsRows(rows[0], Sorted(rows[1..]));
      assert rows == [rows[0]] + rows[1..];
      assert |multiset(Sorted(rows))| == |multiset(rows)|;
    }
  }

  // ----- the query -----

  /** What `recent` may return for the table, filter and limit. */
  ghost predicate IsRecent(rows: seq<Row>, symbol: Option<string>, limit: int, page: seq<Row>) {
    var all := Matching(rows, symbol);
    var rowLimit := Clamp(limit, 1, 200);
    && |page| == (if |all| < rowLimit then |all| else rowLimit)
    && NewestFirst(page)
    && multiset(page) <= multiset(all)
    && forall kept, cut :: kept in page && cut in multiset(all) - multiset(page) ==> !Less(kept.createdAt, cut.createdAt)
  }

  lemma OrderAcrossCut(sorted: seq<Row>, k: nat)
    requires NewestFirst(sorted) && k <= |sorted|
    ensures forall kept, cut :: kept in sorted[..k] && cut in sorted[k..] ==> !Less(kept.createdAt, cut.createdAt)
  {
    hide Less;
    forall kept, cut | kept in sorted[..k] && cut in sorted[k..] ensures !Less(kept.createdAt, cut.createdAt) {
      var i :| 0 <= i < k && sorted[i] == kept;
      var j :| k <= j < |sorted| && sorted[j] == cut;
    }
  }

  lemma RowsAfterCut(all: seq<Row>, sorted: seq<Row>, k: nat)
    requires multiset(sorted) == multiset(all) && k <= |sorted|
    ensures multiset(sorted[..k]) <= multiset(all)
    ensures forall r :: r in multiset(all) - multiset(sorted[..k]) ==> r in sorted[k..]
  {
    assert sorted == sorted[..k] + sorted[k..];
    assert multiset(all) - multiset(sorted[..k]) == multiset(sorted[k..]);
  }

  lemma PageOfSorted(all: seq<Row>, sorted: seq<Row>, k: nat)
    requires NewestFirst(sorted) && multiset(sorted) == multiset(all) && k <= |sorted|
    ensures NewestFirst(sorted[..k]) && multiset(sorted[..k]) <= multiset(all)
    ensures forall kept, cut :: kept in sorted[..k] && cut in multiset(all) - multiset(sorted[..k]) ==>
              !Less(kept.createdAt, cut.createdAt)
  {
    hide Less;
    OrderAcrossCut(sorted, k);
    RowsAfterCut(all, sorted, k);
  }

  lemma {:induction false} MatchingCounts(rows: seq<Row>, symbol: Option<string>, r: Row)
    ensures multiset(Matching(rows, symbol))[r] == if symbol.None? || r.symbol == symbol.value then multiset(rows)[r] else 0
  {
    if rows != [] {
      MatchingCounts(rows[1..], symbol, r);
      assert rows == [rows[0]] + rows[1..];
    }
  }

  /** A page holds stored rows with the symbol asked for, never more than the limit, which is moved
      into 1 to 200; a row with the symbol is left out only by a full page of rows no older. */
  lemma PageHoldsExactly(rows: seq<Row>, symbol: Option<string>, limit: int, page: seq<Row>, r: Row)
    requires IsRecent(rows, symbol, limit, page)
    ensures var most := if limit < 1 then 1 else if limit > 200 then 200 else limit;
            && |page| <= most
            && multiset(page)[r] <= multiset(rows)[r]
            && (multiset(page)[r] > 0 ==> symbol == None || symbol == Some(r.symbol))
            && (multiset(page)[r] < multiset(rows)[r] && (symbol == None || symbol == Some(r.symbol)) ==>
                  |page| == most && forall kept :: kept in page ==> !Less(kept.createdAt, r.createdAt))
  {
    hide Less, NewestFirst;
    var all := Matching(rows, symbol);
    MatchingCounts(rows, symbol, r);
    assert multiset(page)[r] <= multiset(all)[r];
    if multiset(page)[r] < multiset(all)[r] {
      var cut := multiset(all) - multiset(page);
      assert |cut| == |all| - |page| && r in cut;
    }
  }

  class DecisionStore {
    var rows: seq<Row>

    /** The primary key is unique. */
    ghost predicate Valid()
      reads this
    {
      forall i, j :: 0 <= i < j < |rows| ==> rows[i].decisionId != rows[j].decisionId
    }

    constructor ()
      ensures Valid() && rows == []
    {
      rows := [];
    }

    /** Adds the row, or reports a primary-key violation and changes nothing. */
    method Append(row: Row) returns (stored: bool)
      requires Valid()
      modifies this
      ensures Valid()
      ensures stored == (forall r :: r in old(rows) ==> r.decisionId != row.decisionId)
      ensures rows == if stored then old(rows) + [row] else old(rows)
    {
      stored := true;
      for i := 0 to |rows|
        invariant stored == (forall j :: 0 <= j < i ==> rows[j].decisionId != row.decisionId)
        invariant rows == old(rows)
      {
        if rows[i].decisionId == row.decisionId {
          stored := false;
        }
      }
      if stored {
        rows := rows + [row];
      }
    }

    /** The filter looks for the symbol in upper case, as `upper` makes it. */
    method Recent(limit: int, symbol: Option<string>, upper: string -> string) returns (page: seq<Row>)
      ensures IsRecent(rows, if symbol.Some? then Some(upper(symbol.value)) else None, limit, page)
    {
      var filter := if symbol.Some? then Some(upper(symbol.value)) else None;
      var all, rowLimit := Matching(rows, filter), Clamp(limit, 1, 200);
      var sorted := Sorted(all);
      SortedIsNewestFirst(all);
      page := if |sorted| < rowLimit then sorted else sorted[..rowLimit];
      PageOfSorted(all, sorted, |page|);
      assert page == sorted[..|page|];
    }
  }

  // ----- text order is time order -----

  /** The row was stamped by the printer, in a year it can order. */
  ghost predicate Stamped(row: Row) {
    exists t: Instant :: t.Valid() && 0 <= t.Year() <= 9999 && row.createdAt == ToIsoString(t)
  }

  /** The instant a stamp shows. */
  function StampedTime(row: Row): Instant {
    match Parse(row.createdAt)
    case Some(t) => t
    case None => Instant(0, 0)
  }

  lemma StampsOrderTime(a: Row, b: Row)
    requires Stamped(a) && Stamped(b)
    ensures Less(a.createdAt, b.createdAt) <==> EarlierMicro(StampedTime(a), StampedTime(b))
  {
    var s: Instant :| s.Valid() && 0 <= s.Year() <= 9999 && a.createdAt == ToIsoString(s);
    var t: Instant :| t.Valid() && 0 <= t.Year() <= 9999 && b.createdAt == ToIsoString(t);
    hide ToIsoString, Parse;
    IsoOrderIsTimeOrder(s, t);
    RoundTripExactly(s);
    RoundTripExactly(t);
  }

  /** `recent` is newest first in time, within 1 to 200 rows, and leaves out nothing newer
      than what it returns. */
  lemma RecentIsNewestFirstInTime(rows: seq<Row>, symbol: Option<string>, limit: int, page: seq<Row>)
    requires IsRecent(rows, symbol, limit, page) && forall r :: r in Matching(rows, symbol) ==> Stamped(r)
    ensures |page| <= 200 && (Matching(rows, symbol) != [] ==> page != [])
    ensures forall i, j :: 0 <= i < j < |page| ==> !EarlierMicro(StampedTime(page[i]), StampedTime(page[j]))
    ensures forall kept, cut :: kept in page && cut in multiset(Matching(rows, symbol)) - multiset(page) ==>
              !EarlierMicro(StampedTime(kept), StampedTime(cut))
  {
    var all := Matching(rows, symbol);
    forall r | r in page ensures Stamped(r) {
      assert r in multiset(page);
      assert r in multiset(all);
    }
    forall i, j | 0 <= i < j < |page| ensures !EarlierMicro(StampedTime(page[i]), StampedTime(page[j])) {
      StampsOrderTime(page[i], page[j]);
    }
    forall kept, cut | kept in page && cut in multiset(all) - multiset(page)
      ensures !EarlierMicro(StampedTime(kept), StampedTime(cut))
    {
      assert cut in multiset(all);
      StampsOrderTime(kept, cut);
    }
  }
}
