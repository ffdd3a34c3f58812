/**
 * The Markov prefetcher as a state machine over values: the table of
 * successor lists, the last miss address and the page-crossing counter.
 * `OnMiss` is one call of `calculatePrefetch`; the class in module
 * `Markov` is proved to follow it.
 */
module MarkovSpec {
  import opened Addressing
  import opened SuccessorList
  import opened Candidates

  /** The prefetcher's parameters; `blkSize` is 2^lBlkSize. */
  datatype Config = Config(
    degree: nat,
    numEntries: nat,
    lBlkSize: nat,
    blkSize: nat,
    samePage: SamePage)

  /**
   * Parameters the code can run with: a list needs a slot to evict, the
   * index mask needs a power-of-two table.
   */
  predicate ValidConfig(c: Config)
  {
    c.degree > 0 && IsPowerOfTwo(c.numEntries) && c.blkSize == Pow2(c.lBlkSize)
  }

  /** The mutable part: the table, the last miss (0 for none), the counter. */
  datatype State = State(table: seq<seq<Addr>>, previousMiss: Addr, pfSpanPage: nat)

  /** What one call adds: the new state and the candidates it issues. */
  datatype Outcome = Outcome(state: State, issued: seq<AddrPriority>)

  /** `numEntries` lists, each of `degree` slots, non-empty slots distinct. */
  predicate WellFormedTable(c: Config, table: seq<seq<Addr>>)
  {
    |table| == c.numEntries &&
    forall i :: 0 <= i < |table| ==> |table[i]| == c.degree && NonZeroDistinct(table[i])
  }

  predicate WellFormed(c: Config, st: State)
  {
    WellFormedTable(c, st.table)
  }

  /** The state after construction: every list all empty, no previous miss. */
  function Initial(c: Config): (st: State)
    requires ValidConfig(c)
    ensures WellFormed(c, st)
    ensures st.previousMiss == 0 && st.pfSpanPage == 0
    ensures forall i :: 0 <= i < |st.table| ==> forall d :: 0 <= d < c.degree ==> st.table[i][d] == Empty
  {
    State(seq(c.numEntries, _ => Zeros(c.degree)), 0, 0)
  }

  /**
   * Learning: the list of the previous miss records `blk` as its most
   * recent successor; no list changes when there is no previous miss.
   */
  function Learn(c: Config, table: seq<seq<Addr>>, prev: Addr, blk: Addr): (t: seq<seq<Addr>>)
    requires ValidConfig(c) && WellFormedTable(c, table)
    ensures WellFormedTable(c, t)
    ensures forall i :: 0 <= i < |t| && (prev == 0 || i != TableIndex(prev, c.blkSize, c.numEntries)) ==>
      t[i] == table[i]
  {
    if prev == 0 then table
    else
      var i := TableIndex(prev, c.blkSize, c.numEntries);
      MoveToFrontPreservesDistinct(table[i], blk);
      table[i := MoveToFront(table[i], blk)]
  }

  /** One call of `calculatePrefetch` with miss address `a`. */
  function OnMiss(c: Config, st: State, a: Addr): (o: Outcome)
    requires ValidConfig(c) && WellFormed(c, st)
    ensures WellFormed(c, o.state)
    ensures a == st.previousMiss ==> o == Outcome(st, [])
    ensures a != st.previousMiss ==> o.state.previousMiss == a
  {
    if a == st.previousMiss then Outcome(st, [])
    else
      var blk := BlockAddr(a, c.blkSize);
      var t := Learn(c, st.table, st.previousMiss, blk);
      var s := t[TableIndex(a, c.blkSize, c.numEntries)];
      Outcome(State(t, a, st.pfSpanPage + SpanCount(s, blk, c.samePage, c.degree)),
              Issued(s, blk, c.samePage, c.degree))
  }

  /** The trace of a sequence of calls: the final state and each call's candidates. */
  datatype Trace = Trace(state: State, issued: seq<seq<AddrPriority>>)

  function Run(c: Config, st: State, misses: seq<Addr>): (tr: Trace)
    requires ValidConfig(c) && WellFormed(c, st)
    ensures WellFormed(c, tr.state) && |tr.issued| == |misses|
    ensures tr.state.pfSpanPage >= st.pfSpanPage
    decreases |misses|
  {
    if misses == [] then Trace(st, [])
    else
      var o := OnMiss(c, st, misses[0]);
      OnMissSpanGrows(c, st, misses[0]);
      var rest := Run(c, o.state, misses[1..]);
      Trace(rest.state, [o.issued] + rest.issued)
  }

  // ---------------------------------------------------------------------
  // Properties of one call
  // ---------------------------------------------------------------------

  /** The counter never decreases. */
  lemma OnMissSpanGrows(c: Config, st: State, a: Addr)
    requires ValidConfig(c) && WellFormed(c, st)
    ensures OnMiss(c, st, a).state.pfSpanPage >= st.pfSpanPage
  {
  }

  /** Reporting the same miss twice in a row: the second call is a no-op. */
  lemma OnMissRepeatIsNoOp(c: Config, st: State, a: Addr)
    requires ValidConfig(c) && WellFormed(c, st)
    ensures OnMiss(c, OnMiss(c, st, a).state, a) == Outcome(OnMiss(c, st, a).state, [])
  {
  }

  /**
   * Only the list of the previous miss changes, and only when there is a
   * previous miss and the guard lets the call through; that list has the
   * missing block at its front, keeps its length, and is the old list
   * moved to front.
   */
  lemma OnMissLearnsOneEntry(c: Config, st: State, a: Addr)
    requires ValidConfig(c) && WellFormed(c, st)
    ensures var t, blk := OnMiss(c, st, a).state.table, BlockAddr(a, c.blkSize);
      |t| == |st.table| &&
      forall i :: 0 <= i < |t| ==>
        if a != st.previousMiss && st.previousMiss != 0 && i == TableIndex(st.previousMiss, c.blkSize, c.numEntries)
        then t[i] == MoveToFront(st.table[i], blk) && t[i][0] == blk && |t[i]| == c.degree
        else t[i] == st.table[i]
  {
  }

  /**
   * The candidates come from the list of the current miss as it is after
   * learning; every one is a non-empty address on the block's page, there
   * are at most `degree`, and priorities lie in [0, degree - 1] and
   * strictly decrease.
   */
  lemma OnMissIssuedSound(c: Config, st: State, a: Addr)
    requires ValidConfig(c) && WellFormed(c, st)
    ensures var o, blk, s := OnMiss(c, st, a), BlockAddr(a, c.blkSize), OnMiss(c, st, a).state.table[TableIndex(a, c.blkSize, c.numEntries)];
      |o.issued| <= c.degree &&
      (forall i :: 0 <= i < |o.issued| ==>
        o.issued[i].addr != Empty && c.samePage(blk, o.issued[i].addr) &&
        0 <= o.issued[i].priority < c.degree &&
        s[c.degree - 1 - o.issued[i].priority] == o.issued[i].addr) &&
      (forall i, j :: 0 <= i < j < |o.issued| ==> o.issued[i].priority > o.issued[j].priority)
  {
    var o := OnMiss(c, st, a);
    if a != st.previousMiss {
      var s := o.state.table[TableIndex(a, c.blkSize, c.numEntries)];
      OnMissLooksUpLearned(c, st, a);
      IssuedSound(s, BlockAddr(a, c.blkSize), c.samePage, c.degree);
    }
  }

  /**
   * Every non-empty slot `d` of the looked-up list on the block's page is
   * issued, with priority `degree - 1 - d`.
   */
  lemma OnMissIssuedComplete(c: Config, st: State, a: Addr, d: nat)
    requires ValidConfig(c) && WellFormed(c, st) && a != st.previousMiss && d < c.degree
    ensures var o, blk := OnMiss(c, st, a), BlockAddr(a, c.blkSize);
      var s := o.state.table[TableIndex(a, c.blkSize, c.numEntries)];
      s[d] != Empty && c.samePage(blk, s[d]) ==> AddrPriority(s[d], c.degree - 1 - d) in o.issued
  {
    var o, blk := OnMiss(c, st, a), BlockAddr(a, c.blkSize);
    var s := o.state.table[TableIndex(a, c.blkSize, c.numEntries)];
    OnMissLooksUpLearned(c, st, a);
    IssuedCompleteAt(s, blk, c.samePage, c.degree, o.issued, d);
  }

  /** Proof step: the candidates are `Issued` of the entry in the returned table. */
  lemma OnMissLooksUpLearned(c: Config, st: State, a: Addr)
    requires ValidConfig(c) && WellFormed(c, st) && a != st.previousMiss
    ensures var o := OnMiss(c, st, a);
      var s := o.state.table[TableIndex(a, c.blkSize, c.numEntries)];
      |s| == c.degree && o.issued == Issued(s, BlockAddr(a, c.blkSize), c.samePage, c.degree)
  {
  }

  /** `IssuedComplete` for one slot of a list issued in full. */
  lemma IssuedCompleteAt(s: seq<Addr>, blk: Addr, samePage: SamePage, n: nat, r: seq<AddrPriority>, d: nat)
    requires n == |s| && d < n && r == Issued(s, blk, samePage, n)
    ensures s[d] != Empty && samePage(blk, s[d]) ==> AddrPriority(s[d], n - 1 - d) in r
  {
    IssuedComplete(s, blk, samePage, n);
  }

  /**
   * The counter grows by exactly the non-empty slots of the looked-up list
   * that are not issued.
   */
  lemma OnMissCountsCrossings(c: Config, st: State, a: Addr)
    requires ValidConfig(c) && WellFormed(c, st) && a != st.previousMiss
    ensures var o := OnMiss(c, st, a);
      var s := o.state.table[TableIndex(a, c.blkSize, c.numEntries)];
      o.state.pfSpanPage - st.pfSpanPage + |o.issued| == NonEmptyCount(s, c.degree)
  {
    var o := OnMiss(c, st, a);
    var s := o.state.table[TableIndex(a, c.blkSize, c.numEntries)];
    IssuedOrSpanned(s, BlockAddr(a, c.blkSize), c.samePage, c.degree);
  }

  /**
   * The list the candidates are read from, in terms of the state before
   * the call: when the previous miss shares the current miss's entry, the
   * call reads that entry with the block just moved to its front;
   * otherwise it reads the entry unchanged.
   */
  lemma OnMissSeesOwnLearning(c: Config, st: State, a: Addr)
    requires ValidConfig(c) && WellFormed(c, st) && a != st.previousMiss
    ensures var k, blk := TableIndex(a, c.blkSize, c.numEntries), BlockAddr(a, c.blkSize);
      var s := if st.previousMiss != 0 && TableIndex(st.previousMiss, c.blkSize, c.numEntries) == k
               then MoveToFront(st.table[k], blk) else st.table[k];
      OnMiss(c, st, a).issued == Issued(s, blk, c.samePage, c.degree)
  {
    OnMissLooksUpLearned(c, st, a);
    OnMissLearnsOneEntry(c, st, a);
  }

  /**
   * Two consecutive misses at different bytes of one block make the block
   * its own most recent successor, and (when a block is on its own page)
   * the block is issued at once with the top priority.
   */
  lemma SameBlockSelfSuccessor(c: Config, st: State, a: Addr)
    requires ValidConfig(c) && WellFormed(c, st)
    requires st.previousMiss != 0 && a != st.previousMiss
    requires BlockAddr(a, c.blkSize) == BlockAddr(st.previousMiss, c.blkSize)
    requires BlockAddr(a, c.blkSize) != Empty && c.samePage(BlockAddr(a, c.blkSize), BlockAddr(a, c.blkSize))
    ensures var o, blk := OnMiss(c, st, a), BlockAddr(a, c.blkSize);
      o.state.table[TableIndex(a, c.blkSize, c.numEntries)][0] == blk &&
      |o.issued| > 0 && o.issued[0] == AddrPriority(blk, c.degree - 1)
  {
    var o := OnMiss(c, st, a);
    var blk := BlockAddr(a, c.blkSize);
    SameBlockSameIndex(a, st.previousMiss, c.blkSize, c.numEntries);
    var s := o.state.table[TableIndex(a, c.blkSize, c.numEntries)];
    assert s[0] == blk;
    IssuedComplete(s, blk, c.samePage, c.degree);
    IssuedSound(s, blk, c.samePage, c.degree);
    assert AddrPriority(blk, c.degree - 1) in o.issued;
  }

  // ---------------------------------------------------------------------
  // A run of calls
  // ---------------------------------------------------------------------

  /** Four-KiB pages, the usual `samePage` of the host. */
  function SamePage4K(a: Addr, b: Addr): (same: bool)
  {
    a / 4096 == b / 4096
  }

  /** degree 2, four entries, 64-byte blocks, 4 KiB pages. */
  function ScenarioConfig(): (c: Config)
    ensures ValidConfig(c)
    ensures TableIndex(0x100, c.blkSize, c.numEntries) == 0 && TableIndex(0x200, c.blkSize, c.numEntries) == 0
    ensures BlockAddr(0x100, c.blkSize) == 0x100 && BlockAddr(0x200, c.blkSize) == 0x200
  {
    assert Pow2(6) == 64 by {
      assert Pow2(2) == 4;
      assert Pow2(4) == 16;
    }
    assert IsPowerOfTwo(4) by { assert IsPowerOfTwo(2); }
    Config(2, 4, 6, 64, SamePage4K)
  }

  /** The first miss has no predecessor: nothing is learned or issued. */
  lemma ScenarioFirstMiss()
    ensures var c := ScenarioConfig();
      OnMiss(c, Initial(c), 0x100) == Outcome(State(Initial(c).table, 0x100, 0), [])
  {
    var c := ScenarioConfig();
    var s0 := Initial(c);
    EmptyListIssuesNothing(s0.table[0], 0x100, SamePage4K, 2);
  }

  /** The second miss is learned as successor of the first, in the shared entry 0, and issued. */
  lemma ScenarioSecondMiss()
    ensures var c := ScenarioConfig();
      var s1 := State(Initial(c).table, 0x100, 0);
      var l2: seq<Addr> := [0x200, 0];
      OnMiss(c, s1, 0x200) == Outcome(State(Initial(c).table[0 := l2], 0x200, 0), [AddrPriority(0x200, 1)])
  {
    var c := ScenarioConfig();
    var s1 := State(Initial(c).table, 0x100, 0);
    var l2: seq<Addr> := [0x200, 0];
    assert s1.table[0] == [0, 0];
    assert 0x200 !in s1.table[0];
    assert MoveToFront(s1.table[0], 0x200) == l2;
    var t := Learn(c, s1.table, 0x100, 0x200);
    assert t == Initial(c).table[0 := l2];
    assert t[TableIndex(0x200, c.blkSize, c.numEntries)] == l2;
    assert 0x200 / 4096 == 0;
    assert SlotIssue(l2, 0x200, SamePage4K, 0) == [AddrPriority(0x200, 1)];
    assert Issued(l2, 0x200, SamePage4K, 1) == [AddrPriority(0x200, 1)];
    assert Issued(l2, 0x200, SamePage4K, 2) == [AddrPriority(0x200, 1)];
    assert SpanCount(l2, 0x200, SamePage4K, 2) == 0;
  }

  /** The third miss is pushed in front of the second and both are issued. */
  lemma ScenarioThirdMiss()
    ensures var c := ScenarioConfig();
      var l2: seq<Addr> := [0x200, 0];
      var l3: seq<Addr> := [0x100, 0x200];
      var s2 := State(Initial(c).table[0 := l2], 0x200, 0);
      OnMiss(c, s2, 0x100) ==
        Outcome(State(Initial(c).table[0 := l3], 0x100, 0), [AddrPriority(0x100, 1), AddrPriority(0x200, 0)])
  {
    var c := ScenarioConfig();
    var l2: seq<Addr> := [0x200, 0];
    var l3: seq<Addr> := [0x100, 0x200];
    assert 0x100 !in l2;
    assert MoveToFront(l2, 0x100) == l3;
    assert 0x200 / 4096 == 0 && 0x100 / 4096 == 0;
    assert SamePage4K(0x100, l3[0]) && SamePage4K(0x100, l3[1]);
    IssuedAllOnPage(l3, 0x100, SamePage4K, 2);
  }

  /**
   * Misses 0x100, 0x200, 0x100 from a fresh prefetcher. Both addresses have
   * table index 0, so the second call already sees the successor it has
   * just learned.
   */
  lemma ThreeMissScenario()
    ensures var c := ScenarioConfig();
      var o1 := OnMiss(c, Initial(c), 0x100);
      var o2 := OnMiss(c, o1.state, 0x200);
      var o3 := OnMiss(c, o2.state, 0x100);
      o1.issued == [] &&
      o2.issued == [AddrPriority(0x200, 1)] &&
      o3.issued == [AddrPriority(0x100, 1), AddrPriority(0x200, 0)] &&
      o3.state.table[0] == [0x100, 0x200] &&
      o3.state.previousMiss == 0x100 && o3.state.pfSpanPage == 0
  {
    var c := ScenarioConfig();
    var l2: seq<Addr> := [0x200, 0];
    var l3: seq<Addr> := [0x100, 0x200];
    var s1 := State(Initial(c).table, 0x100, 0);
    var s2 := State(Initial(c).table[0 := l2], 0x200, 0);
    ScenarioFirstMiss();
    assert OnMiss(c, Initial(c), 0x100).state == s1;
    ScenarioSecondMiss();
    assert OnMiss(c, s1, 0x200).state == s2;
    ScenarioThirdMiss();
    assert OnMiss(c, s2, 0x100).state.table[0] == l3;
  }
}
