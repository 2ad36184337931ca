/**
  * Rebuilding the leaf list from the deposit-event log: a bounded paging loop, then
  * de-duplication by leaf index and ordering. The RPC node is a parameter: its `k`-th answer.
  */
module PoolSync {
  import opened Bits
  import opened Field
  import opened Results
  import opened Merkle
  import opened PoolModel
  import opened PoolTree

  const MAX_PAGES: nat := 50

  datatype Row = Row(index: nat, commitment: nat)

  /** One `getEvents` answer; the cursor is reduced to its leading toid. */
  datatype Page = Page(events: seq<Row>, toid: Option<nat>)

  type Rpc = nat -> Page

  predicate LastPage(p: Page, latest: nat) {
    p.toid.None? || p.toid.value / 0x1_0000_0000 >= latest
  }

  /** Every row of the pages from `k` up to the last one, or up to the page bound. */
  function ScannedRows(rpc: Rpc, latest: nat, k: nat): seq<Row>
    decreases MAX_PAGES - k
  {
    if k >= MAX_PAGES then []
    else if LastPage(rpc(k), latest) then rpc(k).events
    else rpc(k).events + ScannedRows(rpc, latest, k + 1)
  }

  /** The first row seen for each index wins. */
  function ByIndex(rows: seq<Row>): map<nat, nat> {
    if rows == [] then map[]
    else
      var m, row := ByIndex(rows[..|rows| - 1]), rows[|rows| - 1];
      if row.index in m then m else m[row.index := row.commitment]
  }

  ghost function MinOf(s: set<nat>): (m: nat)
    requires s != {}
    ensures m in s && forall x <- s :: m <= x
  {
    var x :| x in s;
    if s == {x} then x
    else
      var m := MinOf(s - {x});
      assert forall y <- s :: y == x || y in s - {x};
      if x < m then x else m
  }

  /** The values of a map in increasing order of key. */
  ghost function InOrder(m: map<nat, nat>, keys: set<nat>): seq<nat>
    requires keys <= m.Keys
  {
    if keys == {} then []
    else [m[MinOf(keys)]] + InOrder(m, keys - {MinOf(keys)})
  }

  ghost function Leaves(rows: seq<Row>): seq<nat> {
    InOrder(ByIndex(rows), ByIndex(rows).Keys)
  }

  /** The paging loop: follow the cursor until the scan reaches `latest`. */
  method ScanPages(rpc: Rpc, latest: nat) returns (rows: seq<Row>)
    ensures rows == ScannedRows(rpc, latest, 0)
  {
    rows := [];
    var page := 0;
    while page < MAX_PAGES
      invariant page <= MAX_PAGES
      invariant rows + ScannedRows(rpc, latest, page) == ScannedRows(rpc, latest, 0)
    {
      var res := rpc(page);
      Associate(rows, res.events, ScannedRows(rpc, latest, page + 1));
      rows := rows + res.events;
      if LastPage(res, latest) {
        return;
      }
      page := page + 1;
    }
  }

  lemma Associate(a: seq<Row>, b: seq<Row>, c: seq<Row>)
    ensures a + (b + c) == (a + b) + c
  {
  }

  /** The de-duplication loop: keep the first row of each index. */
  method IndexRows(rows: seq<Row>) returns (byIndex: map<nat, nat>)
    ensures byIndex == ByIndex(rows)
  {
    byIndex := map[];
    for i := 0 to |rows|
      invariant byIndex == ByIndex(rows[..i])
    {
      assert rows[..i + 1][..i] == rows[..i];
      if rows[i].index !in byIndex {
        byIndex := byIndex[rows[i].index := rows[i].commitment];
      }
    }
    assert rows[..|rows|] == rows;
  }

  method SyncPoolLeaves(rpc: Rpc, latest: nat) returns (leaves: seq<nat>)
    ensures leaves == Leaves(ScannedRows(rpc, latest, 0))
  {
    var rows := ScanPages(rpc, latest);
    var byIndex := IndexRows(rows);
    leaves := SortedValues(byIndex);
  }

  /** The library sort of the map's entries by key. */
  method SortedValues(m: map<nat, nat>) returns (values: seq<nat>)
    ensures values == InOrder(m, m.Keys)
  {
    var keys := m.Keys;
    values := [];
    while keys != {}
      invariant keys <= m.Keys
      invariant values + InOrder(m, keys) == InOrder(m, m.Keys)
      decreases keys
    {
      assert MinOf(keys) in keys && forall x <- keys :: MinOf(keys) <= x;
      var k :| k in keys && forall x <- keys :: k <= x;
      values := values + [m[k]];
      keys := keys - {k};
    }
  }

  // ---- How far the scan goes ----

  /** Page `k` is read exactly when it is within the bound and every earlier cursor names a ledger before `latest`. */
  ghost predicate Scans(rpc: Rpc, latest: nat, k: nat) {
    k < 50 && forall j: nat | j < k :: rpc(j).toid.Some? && rpc(j).toid.value < latest * 0x1_0000_0000
  }

  lemma CursorBeforeLatest(p: Page, latest: nat)
    ensures !LastPage(p, latest) <==> p.toid.Some? && p.toid.value < latest * 0x1_0000_0000
  {
  }

  /** The rows of the first `n` pages in order. */
  function Pages(rpc: Rpc, n: nat): seq<Row> {
    if n == 0 then [] else Pages(rpc, n - 1) + rpc(n - 1).events
  }

  /** After a page that is read, the next one is read or the scan is over. */
  lemma NextPage(rpc: Rpc, latest: nat, k: nat)
    requires Scans(rpc, latest, k)
    ensures k < 50
    ensures ScannedRows(rpc, latest, k) == if Scans(rpc, latest, k + 1)
                                           then rpc(k).events + ScannedRows(rpc, latest, k + 1)
                                           else rpc(k).events
  {
    CursorBeforeLatest(rpc(k), latest);
    hide LastPage;
    if Scans(rpc, latest, k + 1) {
      assert rpc(k).toid.Some?;
    } else {
      assert ScannedRows(rpc, latest, 50) == [];
    }
  }

  /** The scanned rows are the rows of exactly those pages. */
  lemma {:induction false} ScanReadsExactly(rpc: Rpc, latest: nat, from: nat, row: Row)
    requires Scans(rpc, latest, from)
    ensures row in ScannedRows(rpc, latest, from) <==>
            exists k: nat :: from <= k && Scans(rpc, latest, k) && row in rpc(k).events
    decreases MAX_PAGES - from
  {
    NextPage(rpc, latest, from);
    hide LastPage, ScannedRows;
    if Scans(rpc, latest, from + 1) {
      ScanReadsExactly(rpc, latest, from + 1, row);
    }
  }

  lemma {:induction false} ScanFrom(rpc: Rpc, latest: nat, from: nat) returns (n: nat)
    requires Scans(rpc, latest, from)
    ensures from < n <= 50 && Scans(rpc, latest, n - 1) && !Scans(rpc, latest, n)
    ensures Pages(rpc, from) + ScannedRows(rpc, latest, from) == Pages(rpc, n)
    decreases MAX_PAGES - from
  {
    NextPage(rpc, latest, from);
    assert Pages(rpc, from + 1) == Pages(rpc, from) + rpc(from).events;
    hide *;
    if Scans(rpc, latest, from + 1) {
      Associate(Pages(rpc, from), rpc(from).events, ScannedRows(rpc, latest, from + 1));
      n := ScanFrom(rpc, latest, from + 1);
    } else {
      n := from + 1;
    }
  }

  /** What is scanned is those pages one after the other, up to the first that is not read. */
  lemma ScanIsPages(rpc: Rpc, latest: nat) returns (n: nat)
    ensures 0 < n <= 50 && Scans(rpc, latest, n - 1) && !Scans(rpc, latest, n)
    ensures ScannedRows(rpc, latest, 0) == Pages(rpc, n)
  {
    n := ScanFrom(rpc, latest, 0);
    assert Pages(rpc, 0) + ScannedRows(rpc, latest, 0) == ScannedRows(rpc, latest, 0);
  }

  /** The ledger named by a toid, which is that ledger times 2^32 plus a position within it. */
  predicate Names(toid: nat, ledger: nat) {
    ledger * 0x1_0000_0000 <= toid < (ledger + 1) * 0x1_0000_0000
  }

  predicate ReportedBy(rpc: Rpc, k: nat, i: nat) {
    exists j: nat :: j <= k && Reported(rpc(j).events, i)
  }

  /** Where the scan begins: at the pool's deployment, but no more than 120,000 ledgers back. */
  function StartLedger(deployed: nat, latest: nat): nat {
    if deployed >= latest - 120_000 then deployed else latest - 120_000
  }

  /**
    * A node that answers in order from `start`: with the page whose cursor names a ledger it has
    * reported every deposit from `start` to that ledger, and with a page without a cursor every
    * deposit from `start` to `latest`. `ledgers[i]` is the ledger of deposit `i`.
    */
  ghost predicate AnswersInOrder(rpc: Rpc, ledgers: seq<nat>, start: nat, latest: nat) {
    forall k: nat, i: nat | k < 50 && i < |ledgers| && start <= ledgers[i] ::
      && (forall ledger: nat | rpc(k).toid.Some? && Names(rpc(k).toid.value, ledger) ::
            ledgers[i] <= ledger ==> ReportedBy(rpc, k, i))
      && (rpc(k).toid.None? && ledgers[i] <= latest ==> ReportedBy(rpc, k, i))
  }

  /** One of the first fifty pages has no cursor, or one that names `latest` or a later ledger. */
  ghost predicate ReachesLatest(rpc: Rpc, latest: nat) {
    exists k: nat | k < 50 ::
      || rpc(k).toid.None?
      || exists ledger: nat :: latest <= ledger && Names(rpc(k).toid.value, ledger)
  }

  /** The page at which the scan stops short of the bound. */
  lemma {:induction false} StopsAt(rpc: Rpc, latest: nat, from: nat, last: nat) returns (k: nat)
    requires Scans(rpc, latest, from) && from <= last < 50 && LastPage(rpc(last), latest)
    ensures Scans(rpc, latest, k) && LastPage(rpc(k), latest)
    decreases last - from
  {
    CursorBeforeLatest(rpc(from), latest);
    hide LastPage;
    if LastPage(rpc(from), latest) {
      k := from;
    } else {
      k := StopsAt(rpc, latest, from + 1, last);
    }
  }

  /** With the page it stops at, a node in order has reported every deposit up to `latest`. */
  lemma StopCovers(rpc: Rpc, ledgers: seq<nat>, start: nat, latest: nat, k: nat, i: nat)
    requires AnswersInOrder(rpc, ledgers, start, latest) && k < 50 && LastPage(rpc(k), latest)
    requires i < |ledgers| && start <= ledgers[i] <= latest
    ensures ReportedBy(rpc, k, i)
  {
    if rpc(k).toid.Some? {
      assert Names(rpc(k).toid.value, rpc(k).toid.value / 0x1_0000_0000);
    }
  }

  /**
    * From such a node, if it reaches `latest` within fifty pages, the scan has every deposit from
    * `start` to `latest`, whatever the pages hold besides, in whatever order and however often.
    */
  lemma ScanComplete(rpc: Rpc, ledgers: seq<nat>, start: nat, latest: nat)
    requires AnswersInOrder(rpc, ledgers, start, latest) && ReachesLatest(rpc, latest)
    ensures forall i: nat | i < |ledgers| && start <= ledgers[i] <= latest ::
              Reported(ScannedRows(rpc, latest, 0), i)
  {
    var last: nat :| last < 50 && (rpc(last).toid.None? ||
                                   exists ledger: nat :: latest <= ledger && Names(rpc(last).toid.value, ledger));
    CursorBeforeLatest(rpc(last), latest);
    var k := StopsAt(rpc, latest, 0, last);
    hide LastPage, ReachesLatest, ScannedRows;
    forall i: nat | i < |ledgers| && start <= ledgers[i] <= latest
      ensures Reported(ScannedRows(rpc, latest, 0), i)
    {
      StopCovers(rpc, ledgers, start, latest, k, i);
      var j: nat :| j <= k && Reported(rpc(j).events, i);
      var row :| row in rpc(j).events && row.index == i;
      assert Scans(rpc, latest, j);
      ScanReadsExactly(rpc, latest, 0, row);
    }
  }

  /** Truthful pages of a log whose deposits came at these ledgers, none of them before `start`. */
  ghost predicate TruthfulFrom(rpc: Rpc, ledgers: seq<nat>, start: nat, log: seq<nat>) {
    && |ledgers| == |log|
    && forall k: nat | k < 50 ::
         Honest(rpc(k).events, log) && forall row <- rpc(k).events :: start <= ledgers[row.index]
  }

  /**
    * Of deposits no earlier than the deployment and no later than `latest`, the synced leaves are
    * the whole log exactly when none is more than 120,000 ledgers back.
    */
  lemma SyncedFromNode(rpc: Rpc, ledgers: seq<nat>, deployed: nat, latest: nat, log: seq<nat>)
    requires var start := StartLedger(deployed, latest);
             AnswersInOrder(rpc, ledgers, start, latest) && TruthfulFrom(rpc, ledgers, start, log)
    requires ReachesLatest(rpc, latest)
    requires forall i: nat | i < |ledgers| :: deployed <= ledgers[i] <= latest
    ensures var rows := ScannedRows(rpc, latest, 0);
            Honest(rows, log)
            && (Leaves(rows) == log <==> Complete(rows, log))
            && (Complete(rows, log) <==> forall i: nat | i < |ledgers| :: latest - ledgers[i] <= 120_000)
  {
    var rows, start := ScannedRows(rpc, latest, 0), StartLedger(deployed, latest);
    ScanComplete(rpc, ledgers, start, latest);
    ScannedTruthful(rpc, ledgers, start, latest, log);
    hide ScannedRows, Leaves, AnswersInOrder, TruthfulFrom, ReachesLatest, Honest;
    SyncExact(rows, log);
    forall i: nat | i < |ledgers| ensures Reported(rows, i) <==> start <= ledgers[i] {
    }
  }

  lemma ScannedTruthful(rpc: Rpc, ledgers: seq<nat>, start: nat, latest: nat, log: seq<nat>)
    requires TruthfulFrom(rpc, ledgers, start, log)
    ensures var rows := ScannedRows(rpc, latest, 0);
            Honest(rows, log) && forall i: nat | i < |log| && Reported(rows, i) :: start <= ledgers[i]
  {
    var rows := ScannedRows(rpc, latest, 0);
    hide ScannedRows;
    forall row <- rows ensures row.index < |log| && row.commitment == log[row.index] && start <= ledgers[row.index] {
      ScanReadsExactly(rpc, latest, 0, row);
    }
  }

  /** A node with one deposit a ledger and one ledger a page. */
  function SlowNode(): Rpc {
    (k: nat) => Page([Row(k, k)], Some(k * 0x1_0000_0000))
  }

  /** The bound can bite: at `latest` 50 this node is in order, and deposit 50 is never scanned. */
  lemma PageBoundLoses()
    ensures var ledgers := seq(51, (i: nat) => i);
            AnswersInOrder(SlowNode(), ledgers, 0, 50) && !Reported(ScannedRows(SlowNode(), 50, 0), 50)
  {
    var ledgers := seq(51, (i: nat) => i);
    forall k: nat, i: nat, ledger: nat | k < 50 && i < 51 && Names(k * 0x1_0000_0000, ledger) && i <= ledger
      ensures ReportedBy(SlowNode(), k, i)
    {
      assert ledger == k && Reported(SlowNode()(i).events, i);
    }
    forall row | row in ScannedRows(SlowNode(), 50, 0) ensures row.index != 50 {
      ScanReadsExactly(SlowNode(), 50, 0, row);
    }
  }

  // ---- When the synced leaves are the deposits ----

  /** Rows report real deposits of the log, in any order and any number of times. */
  ghost predicate Honest(rows: seq<Row>, log: seq<nat>) {
    forall row <- rows :: row.index < |log| && row.commitment == log[row.index]
  }

  predicate Reported(rows: seq<Row>, i: nat) {
    exists row <- rows :: row.index == i
  }

  ghost predicate Complete(rows: seq<Row>, log: seq<nat>) {
    forall i: nat | i < |log| :: Reported(rows, i)
  }

  lemma {:induction false} ByIndexKeys(rows: seq<Row>)
    ensures forall i: nat :: i in ByIndex(rows) <==> Reported(rows, i)
  {
    if rows != [] {
      ByIndexKeys(rows[..|rows| - 1]);
      var last := rows[|rows| - 1];
      assert rows == rows[..|rows| - 1] + [last];
      assert last in rows;
    }
  }

  lemma {:induction false} ByIndexValues(rows: seq<Row>, log: seq<nat>)
    requires Honest(rows, log)
    ensures forall i <- ByIndex(rows) :: i < |log| && ByIndex(rows)[i] == log[i]
  {
    if rows != [] {
      ByIndexValues(rows[..|rows| - 1], log);
    }
  }

  predicate FirstOf(rows: seq<Row>, k: nat) {
    k < |rows| && forall j | 0 <= j < k :: rows[j].index != rows[k].index
  }

  /** The commitment kept for an index is that of its first row. */
  lemma {:induction false} FirstRowWins(rows: seq<Row>, k: nat)
    requires FirstOf(rows, k)
    ensures rows[k].index in ByIndex(rows) && ByIndex(rows)[rows[k].index] == rows[k].commitment
  {
    var n := |rows| - 1;
    ByIndexKeys(rows[..n]);
    if k < n {
      FirstRowWins(rows[..n], k);
    }
  }

  ghost function KeysInOrder(keys: set<nat>): seq<nat> {
    if keys == {} then [] else [MinOf(keys)] + KeysInOrder(keys - {MinOf(keys)})
  }

  lemma {:induction false} OrderHasKeys(keys: set<nat>, i: nat)
    ensures i in KeysInOrder(keys) <==> i in keys
    decreases keys
  {
    if keys != {} {
      OrderHasKeys(keys - {MinOf(keys)}, i);
    }
  }

  lemma {:induction false} OrderIncreases(keys: set<nat>, p: nat, q: nat)
    requires p < q < |KeysInOrder(keys)|
    ensures KeysInOrder(keys)[p] < KeysInOrder(keys)[q]
    decreases keys
  {
    var least := MinOf(keys);
    var rest := KeysInOrder(keys - {least});
    assert KeysInOrder(keys) == [least] + rest;
    if p == 0 {
      OrderHasKeys(keys - {least}, rest[q - 1]);
      assert rest[q - 1] in rest;
    } else {
      OrderIncreases(keys - {least}, p - 1, q - 1);
    }
  }

  lemma {:induction false} OrderedValues(m: map<nat, nat>, keys: set<nat>)
    requires keys <= m.Keys
    ensures |KeysInOrder(keys)| == |InOrder(m, keys)|
    ensures forall p | 0 <= p < |KeysInOrder(keys)| ::
              KeysInOrder(keys)[p] in m && InOrder(m, keys)[p] == m[KeysInOrder(keys)[p]]
    decreases keys
  {
    if keys != {} {
      OrderedValues(m, keys - {MinOf(keys)});
    }
  }

  /**
    * From any rows, truthful or not: the leaves are one a reported index, in increasing order of
    * index, each the commitment of that index's first row.
    */
  lemma LeavesExactly(rows: seq<Row>) returns (order: seq<nat>)
    ensures |order| == |Leaves(rows)| && forall i: nat :: i in order <==> Reported(rows, i)
    ensures forall p, q | 0 <= p < q < |order| :: order[p] < order[q]
    ensures forall p, k: nat | 0 <= p < |order| && k < |rows| && rows[k].index == order[p] ::
              (forall j | 0 <= j < k :: rows[j].index != order[p]) ==> Leaves(rows)[p] == rows[k].commitment
  {
    var m := ByIndex(rows);
    order := KeysInOrder(m.Keys);
    ByIndexKeys(rows);
    OrderedValues(m, m.Keys);
    forall i: nat ensures i in order <==> i in m.Keys {
      OrderHasKeys(m.Keys, i);
    }
    forall p: nat, q: nat | p < q < |order| ensures order[p] < order[q] {
      OrderIncreases(m.Keys, p, q);
    }
    forall k: nat | FirstOf(rows, k)
      ensures rows[k].index in m && m[rows[k].index] == rows[k].commitment
    {
      FirstRowWins(rows, k);
    }
  }

  lemma {:induction false} InOrderLength(m: map<nat, nat>, keys: set<nat>)
    requires keys <= m.Keys
    ensures |InOrder(m, keys)| == |keys|
    decreases keys
  {
    if keys != {} {
      InOrderLength(m, keys - {MinOf(keys)});
    }
  }

  function Range(lo: nat, hi: nat): (s: set<nat>)
    ensures forall i: nat :: i in s <==> lo <= i < hi
    decreases hi - lo
  {
    if lo >= hi then {} else {lo} + Range(lo + 1, hi)
  }

  lemma {:induction false} RangeSize(lo: nat, hi: nat)
    requires lo <= hi
    ensures |Range(lo, hi)| == hi - lo
    decreases hi - lo
  {
    if lo < hi {
      RangeSize(lo + 1, hi);
    }
  }

  lemma {:induction false} InOrderOfRange(m: map<nat, nat>, log: seq<nat>, lo: nat)
    requires lo <= |log| && Range(lo, |log|) <= m.Keys
    requires forall i: nat | lo <= i < |log| :: m[i] == log[i]
    ensures InOrder(m, Range(lo, |log|)) == log[lo..]
    decreases |log| - lo
  {
    var keys := Range(lo, |log|);
    if lo < |log| {
      assert lo in keys && MinOf(keys) == lo;
      assert keys - {lo} == Range(lo + 1, |log|);
      InOrderOfRange(m, log, lo + 1);
      assert log[lo..] == [log[lo]] + log[lo + 1..];
    }
  }

  /**
    * From honest rows the synced leaves are the whole log exactly when every deposit was
    * reported at least once; how the rows were paged, repeated or ordered does not matter.
    * A missing index is closed up silently, which this shows always loses the log.
    */
  lemma SyncExact(rows: seq<Row>, log: seq<nat>)
    requires Honest(rows, log)
    ensures Leaves(rows) == log <==> Complete(rows, log)
  {
    var m := ByIndex(rows);
    ByIndexKeys(rows);
    ByIndexValues(rows, log);
    RangeSize(0, |log|);
    assert m.Keys <= Range(0, |log|);
    if Complete(rows, log) {
      assert forall i: nat | i < |log| :: i in m.Keys;
      assert m.Keys == Range(0, |log|);
      InOrderOfRange(m, log, 0);
      assert log[0..] == log;
    }
    if Leaves(rows) == log {
      InOrderLength(m, m.Keys);
      SubsetOfSameSize(m.Keys, Range(0, |log|));
      forall i: nat | i < |log| ensures Reported(rows, i) {
        assert i in m.Keys;
      }
    }
  }

  lemma SubsetOfSameSize(a: set<nat>, b: set<nat>)
    requires a <= b && |a| == |b|
    ensures a == b
  {
    assert b == a + (b - a);
  }

  // ---- The synced tree against the contract ----

  function Reduced(r: Modulus, log: seq<nat>): seq<int> {
    seq(|log|, i requires 0 <= i < |log| => log[i] % r)
  }

  /**
    * A tree synced from a complete log of a pool has, for every deposited leaf, a path
    * that folds to a root the contract knows; and the contract still knows that root after
    * any calls whatever, as long as they include at most 29 further deposits.
    */
  lemma SyncedPathStaysKnown(r: Modulus, h: PairHash, p: Pool, log: seq<nat>, rows: seq<Row>, index: nat,
                             later: seq<Call>)
    requires WellFormed(r, p) && p.initialized && p.leaves == Reduced(r, log)
    requires Honest(rows, log) && Complete(rows, log)
    requires index < |log|
    requires |Run(r, h, p, later).leaves| < |p.leaves| + 30
    ensures var leaves := Reduced(r, Leaves(rows));
            && leaves == p.leaves
            && Fold(h, leaves[index], PathElements(h, leaves, index, p.depth), PathRights(index, p.depth))
               in RecentRoots(h, Run(r, h, p, later))
  {
    SyncExact(rows, log);
    BuiltPathFolds(h, p.leaves, index, p.depth);
    assert p.leaves[..|p.leaves|] == p.leaves;
    assert RecentRoots(h, p)[0] == RootAfter(h, p, |p.leaves|) == Root(h, p.leaves, p.depth);
    RunKeepsWellFormed(r, h, p, later);
    RootsAge(r, h, p, later, 0);
  }

  /** `syncPoolTree`: scan the log and build the mirror at the given depth. */
  method SyncPoolTree(r: Modulus, h: PairHash, depth: nat, rpc: Rpc, latest: nat)
    returns (tree: PoolMerkleTree, leaves: seq<nat>, e: Option<TreeError>)
    ensures fresh(tree) && tree.Valid() && tree.depth == depth && tree.r == r && tree.h == h
    ensures leaves == Leaves(ScannedRows(rpc, latest, 0))
    ensures e == None <==> |leaves| <= LevelSize(depth, 0)
    ensures e == None ==> tree.leaves == Reduced(r, leaves)
  {
    leaves := SyncPoolLeaves(rpc, latest);
    tree, e := PoolMerkleTree.From(r, h, leaves, depth);
  }
}
