/**
 * `shapeHistory` of `runs.ts`: the rows of the history query, folded into one strip of runs per test
 * name, oldest first, in which the current run always has a place.
 */
module FlakeHistory {
  import opened Wrappers

  const HISTORY_RUNS: nat := 20

  /**
   * A test's outcome in one run, which has an id of its own and the external one the console knows; `rn`
   * ranks the test's runs from 1, the newest.
   */
  datatype Row = Row(test: string, runId: string, externalId: string, failed: bool, rn: int)

  datatype Dot = Dot(externalId: string, failed: bool, current: bool)

  datatype History = History(runs: seq<Dot>, failedCount: nat, total: nat)

  function Filter(rows: seq<Row>, keep: Row -> bool): (r: seq<Row>)
    ensures forall x :: x in r <==> x in rows && keep(x)
  {
    if rows == [] then []
    else Filter(rows[..|rows| - 1], keep) + (if keep(rows[|rows| - 1]) then [rows[|rows| - 1]] else [])
  }

  function RowsOf(rows: seq<Row>, name: string): seq<Row> {
    Filter(rows, (r: Row) => r.test == name)
  }

  /** A stable sort by rank. */
  function Insert(x: Row, s: seq<Row>): (r: seq<Row>)
    ensures multiset(r) == multiset(s) + multiset{x}
  {
    if s == [] || s[|s| - 1].rn <= x.rn then s + [x]
    else
      assert s == s[..|s| - 1] + [s[|s| - 1]];
      Insert(x, s[..|s| - 1]) + [s[|s| - 1]]
  }

  function SortByRank(s: seq<Row>): (r: seq<Row>)
    ensures multiset(r) == multiset(s)
  {
    if s == [] then []
    else
      assert s == s[..|s| - 1] + [s[|s| - 1]];
      Insert(s[|s| - 1], SortByRank(s[..|s| - 1]))
  }

  function Find(rows: seq<Row>, runId: string): (r: Option<Row>)
    ensures r.Some? ==> r.value in rows && r.value.runId == runId
    ensures r.None? ==> forall x <- rows :: x.runId != runId
  {
    if rows == [] then None
    else if rows[0].runId == runId then Some(rows[0])
    else Find(rows[1..], runId)
  }

  function InWindow(): Row -> bool {
    (r: Row) => r.rn <= HISTORY_RUNS
  }

  function Newest(rows: seq<Row>): seq<Row> {
    SortByRank(Filter(rows, InWindow()))
  }

  /** The rows a history shows, newest first. A current run out of the newest takes the oldest slot. */
  function Kept(rows: seq<Row>, current: string): seq<Row> {
    var newest := Newest(rows);
    var found := Find(rows, current);
    if found.Some? && found.value !in newest
    then newest[..if |newest| < HISTORY_RUNS then |newest| else HISTORY_RUNS - 1] + [found.value]
    else newest
  }

  function Reversed<T>(s: seq<T>): (r: seq<T>)
    ensures |r| == |s| && forall i :: 0 <= i < |s| ==> r[i] == s[|s| - 1 - i]
  {
    if s == [] then [] else Reversed(s[1..]) + [s[0]]
  }

  function Dots(rows: seq<Row>, current: string): seq<Dot> {
    seq(|rows|, i requires 0 <= i < |rows| => Dot(rows[i].externalId, rows[i].failed, rows[i].runId == current))
  }

  function CountFailed(runs: seq<Dot>): nat {
    if runs == [] then 0 else CountFailed(runs[..|runs| - 1]) + (if runs[|runs| - 1].failed then 1 else 0)
  }

  function HistoryOf(rows: seq<Row>, current: string): History {
    var runs := Dots(Reversed(Kept(rows, current)), current);
    History(runs, CountFailed(runs), |runs|)
  }

  function Names(rows: seq<Row>): set<string> {
    set r | r in rows :: r.test
  }

  method GroupByName(rows: seq<Row>) returns (byName: map<string, seq<Row>>)
    ensures byName.Keys == Names(rows)
    ensures forall name <- byName :: byName[name] == RowsOf(rows, name)
  {
    hide Filter, RowsOf, Names;
    byName := map[];
    var i := 0;
    ListGrowsFrom(rows);
    while i < |rows|
      invariant 0 <= i <= |rows|
      invariant byName.Keys == Names(rows[..i])
      invariant forall name <- byName :: byName[name] == RowsOf(rows[..i], name)
    {
      ListGrows(rows, i);
      var name := rows[i].test;
      byName := byName[name := (if name in byName then byName[name] else []) + [rows[i]]];
      i := i + 1;
    }
    assert rows[..i] == rows;
  }

  method ShapeHistory(rows: seq<Row>, current: string) returns (out: map<string, History>)
    ensures out.Keys == Names(rows)
    ensures forall name <- out :: out[name] == HistoryOf(RowsOf(rows, name), current)
  {
    hide RowsOf, Names, Kept, Reversed, Dots, CountFailed;
    var byName := GroupByName(rows);
    out := map[];
    var names := byName.Keys;
    while names != {}
      invariant names <= byName.Keys && out.Keys == byName.Keys - names
      invariant forall name <- out :: out[name] == HistoryOf(byName[name], current)
      decreases |names|
    {
      var name :| name in names;
      names := names - {name};
      var runs := Dots(Reversed(Kept(byName[name], current)), current);
      out := out[name := History(runs, CountFailed(runs), |runs|)];
    }
  }

  lemma ListGrowsFrom(rows: seq<Row>)
    ensures Names(rows[..0]) == {}
  {
  }

  lemma ListGrows(rows: seq<Row>, i: nat)
    requires i < |rows|
    ensures Names(rows[..i + 1]) == Names(rows[..i]) + {rows[i].test}
    ensures forall name: string ::
              RowsOf(rows[..i + 1], name) == RowsOf(rows[..i], name) + if rows[i].test == name then [rows[i]] else []
    ensures forall name: string :: name !in Names(rows[..i]) ==> RowsOf(rows[..i], name) == []
  {
    assert rows[..i + 1][..i] == rows[..i];
    assert rows[..i + 1] == rows[..i] + [rows[i]];
    forall name: string | name !in Names(rows[..i])
      ensures RowsOf(rows[..i], name) == []
    {
      NoRows(rows[..i], name);
    }
  }

  lemma {:induction false} NoRows(rows: seq<Row>, name: string)
    requires forall r <- rows :: r.test != name
    ensures RowsOf(rows, name) == []
    decreases |rows|
  {
    if rows != [] {
      NoRows(rows[..|rows| - 1], name);
    }
  }

  // ------------------------------------------------------------ main results

  /** What the query promises of one test's rows: one row per run, the newest ranked 1, 2, 3 and so on. */
  ghost predicate Ranked(rows: seq<Row>) {
    && (forall i, j :: 0 <= i < j < |rows| ==> rows[i].rn != rows[j].rn && rows[i].runId != rows[j].runId)
    && (forall r <- rows :: r.rn >= 1)
    && (forall r <- rows, k :: 1 <= k <= r.rn && k <= 20 ==> HasRank(rows, k))
  }

  ghost predicate HasRank(rows: seq<Row>, k: int) {
    exists q <- rows :: q.rn == k
  }

  predicate Ascending(s: seq<Row>) {
    forall i, j :: 0 <= i < j < |s| ==> s[i].rn <= s[j].rn
  }

  lemma {:induction false} InsertAscends(x: Row, s: seq<Row>)
    requires Ascending(s)
    ensures Ascending(Insert(x, s))
    decreases |s|
  {
    if s != [] && x.rn < s[|s| - 1].rn {
      var init := s[..|s| - 1];
      InsertAscends(x, init);
      var r := Insert(x, init);
      forall i | 0 <= i < |r|
        ensures r[i].rn <= s[|s| - 1].rn
      {
        assert r[i] in multiset(init) + multiset{x};
      }
    }
  }

  lemma {:induction false} SortAscends(s: seq<Row>)
    ensures Ascending(SortByRank(s))
    decreases |s|
  {
    if s != [] {
      SortAscends(s[..|s| - 1]);
      InsertAscends(s[|s| - 1], SortByRank(s[..|s| - 1]));
    }
  }

  /** No rank twice, counted in a way that does not depend on the order. */
  ghost predicate OncePerRank(m: multiset<Row>) {
    forall x, y: Row :: x in m && y in m && x.rn == y.rn ==> x == y && m[x] == 1
  }

  lemma {:induction false} FilterOnce(rows: seq<Row>, keep: Row -> bool)
    requires forall i, j :: 0 <= i < j < |rows| ==> rows[i].rn != rows[j].rn
    ensures OncePerRank(multiset(Filter(rows, keep)))
    decreases |rows|
  {
    if rows != [] {
      var init, x := rows[..|rows| - 1], rows[|rows| - 1];
      FilterOnce(init, keep);
      OtherRanks(rows, keep);
      hide OncePerRank;
      assert Filter(init, keep) + [] == Filter(init, keep);
      OneMore(multiset(Filter(init, keep)), x);
    }
  }

  /** What is kept of the rows before the last has other ranks than the last. */
  lemma OtherRanks(rows: seq<Row>, keep: Row -> bool)
    requires rows != [] && forall i, j :: 0 <= i < j < |rows| ==> rows[i].rn != rows[j].rn
    ensures forall y: Row :: y in multiset(Filter(rows[..|rows| - 1], keep)) ==> y.rn != rows[|rows| - 1].rn
  {
    var f := Filter(rows[..|rows| - 1], keep);
    hide Filter;
    forall y: Row | y in multiset(f)
      ensures y.rn != rows[|rows| - 1].rn
    {
      assert y in f;
    }
  }

  lemma OneMore(m: multiset<Row>, x: Row)
    requires OncePerRank(m) && forall y: Row :: y in m ==> y.rn != x.rn
    ensures OncePerRank(m + multiset{x})
  {
  }

  lemma SeenTwice(s: seq<Row>, i: nat, j: nat)
    requires i < j < |s|
    ensures s[i] in multiset(s) && s[j] in multiset(s)
    ensures s[i] == s[j] ==> multiset(s)[s[i]] >= 2
  {
    assert s == s[..i] + [s[i]] + s[i + 1..];
    assert s[i + 1..][j - i - 1] == s[j];
    assert s[j] in multiset(s[i + 1..]);
  }

  lemma StrictlyAscends(s: seq<Row>)
    requires Ascending(s) && OncePerRank(multiset(s))
    ensures forall i, j :: 0 <= i < j < |s| ==> s[i].rn < s[j].rn
  {
    forall i, j | 0 <= i < j < |s|
      ensures s[i].rn < s[j].rn
    {
      SeenTwice(s, i, j);
    }
  }

  /** Position i of the newest rows holds rank i + 1. */
  lemma {:induction false} RankIsPosition(rows: seq<Row>, i: nat)
    requires Ranked(rows) && i < |Newest(rows)|
    requires forall a, b :: 0 <= a < b < |Newest(rows)| ==> Newest(rows)[a].rn < Newest(rows)[b].rn
    ensures forall k :: 0 <= k <= i ==> Newest(rows)[k].rn == k + 1
    decreases i
  {
    hide Filter, SortByRank;
    var s := Newest(rows);
    NewestMembers(rows);
    if i > 0 {
      RankIsPosition(rows, i - 1);
      assert s[i - 1].rn == i;
    }
    assert s[i] in s;
    assert s[i].rn >= i + 1;
    assert HasRank(rows, i + 1);
    var q :| q in rows && q.rn == i + 1;
    assert q in s;
    var j :| 0 <= j < |s| && s[j] == q;
  }

  lemma NewestMembers(rows: seq<Row>)
    ensures forall r: Row :: r in Newest(rows) <==> r in rows && r.rn <= HISTORY_RUNS
  {
    var f := Filter(rows, InWindow());
    forall r: Row
      ensures r in SortByRank(f) <==> r in f
    {
      assert r in SortByRank(f) <==> r in multiset(SortByRank(f));
      assert r in f <==> r in multiset(f);
    }
  }

  lemma NewestAscends(rows: seq<Row>)
    requires Ranked(rows)
    ensures forall i, j :: 0 <= i < j < |Newest(rows)| ==> Newest(rows)[i].rn < Newest(rows)[j].rn
  {
    FilterOnce(rows, InWindow());
    SortAscends(Filter(rows, InWindow()));
    StrictlyAscends(Newest(rows));
  }

  /** The newest rows are ranks 1 to n, in that order, and n is at most twenty. */
  lemma NewestIsRanks(rows: seq<Row>)
    requires Ranked(rows)
    ensures |Newest(rows)| <= HISTORY_RUNS
    ensures forall i :: 0 <= i < |Newest(rows)| ==> Newest(rows)[i].rn == i + 1
    ensures forall r: Row :: r in Newest(rows) <==> r in rows && r.rn <= HISTORY_RUNS
    ensures (exists r <- rows :: r.rn > HISTORY_RUNS) ==> |Newest(rows)| == HISTORY_RUNS
  {
    hide Filter, SortByRank, Newest;
    var s := Newest(rows);
    NewestAscends(rows);
    NewestMembers(rows);
    if s != [] {
      RankIsPosition(rows, |s| - 1);
      assert s[|s| - 1] in s;
    }
    if exists r <- rows :: r.rn > HISTORY_RUNS {
      assert HasRank(rows, HISTORY_RUNS);
      var q :| q in rows && q.rn == HISTORY_RUNS;
      assert q in s;
    }
  }

  /**
   * A history shows at most twenty runs, oldest first; the current run is among them whenever it
   * reported the test; and beside it they are the newest, the current run costing at most the oldest
   * of the twenty its place.
   */
  lemma HistoryIsNewest(rows: seq<Row>, current: string)
    requires Ranked(rows)
    ensures
      var k := Kept(rows, current);
      && |k| <= 20
      && (forall i, j :: 0 <= i < j < |k| ==> k[i].rn < k[j].rn)
      && (forall r: Row :: r in k <==>
            r in rows && (r.runId == current || r.rn < 20
                          || (r.rn == 20 && forall c <- rows :: c.runId == current ==> c.rn <= HISTORY_RUNS)))
  {
    hide Newest, Find;
    NewestIsRanks(rows);
    var s, k := Newest(rows), Kept(rows, current);
    var found := Find(rows, current);
    forall c | c in rows && c.runId == current
      ensures found == Some(c)
    {
      var i :| 0 <= i < |rows| && rows[i] == c;
      var j :| 0 <= j < |rows| && rows[j] == found.value;
      assert i == j;
    }
    if found.Some? && found.value !in s {
      var front := s[..HISTORY_RUNS - 1];
      assert k == front + [found.value];
      forall r: Row
        ensures r in front <==> r in rows && r.rn < HISTORY_RUNS
      {
        if r in rows && r.rn < HISTORY_RUNS {
          var i :| 0 <= i < |s| && s[i] == r;
          assert front[i] == r;
        }
      }
    }
  }

  function FailedAt(runs: seq<Dot>): set<nat> {
    set i: nat | i < |runs| && runs[i].failed
  }

  lemma {:induction false} FailedAreCounted(runs: seq<Dot>)
    ensures CountFailed(runs) == |FailedAt(runs)|
    decreases |runs|
  {
    if runs != [] {
      var n := |runs| - 1;
      FailedAreCounted(runs[..n]);
      assert FailedAt(runs) == FailedAt(runs[..n]) + if runs[n].failed then {n} else {};
    }
  }

  /** The counts are those of the strip, and each dot is its run's, under the external id. */
  lemma StripIsKept(rows: seq<Row>, current: string)
    ensures
      var h := HistoryOf(rows, current);
      var k := Kept(rows, current);
      && h.total == |h.runs| == |k| && h.failedCount == |FailedAt(h.runs)| <= h.total
      && (forall i :: 0 <= i < |k| ==> h.runs[|k| - 1 - i] == Dot(k[i].externalId, k[i].failed, k[i].runId == current))
  {
    hide Kept, CountFailed;
    var k := Kept(rows, current);
    FailedAtMost(HistoryOf(rows, current).runs);
    FailedAreCounted(HistoryOf(rows, current).runs);
    forall i | 0 <= i < |k|
      ensures Reversed(k)[|k| - 1 - i] == k[i]
    {
    }
  }

  lemma {:induction false} FailedAtMost(runs: seq<Dot>)
    ensures CountFailed(runs) <= |runs|
    decreases |runs|
  {
    if runs != [] {
      FailedAtMost(runs[..|runs| - 1]);
    }
  }
}
