/**
 * The Markov prefetcher object: a fixed table of successor lists, the last
 * miss address and the page-crossing counter, updated in place by
 * `CalculatePrefetch` on every miss. Each method is proved to follow the
 * value-level model in module `MarkovSpec`.
 */
module Markov {
  import opened Addressing
  import opened SuccessorList
  import opened Candidates
  import opened MarkovSpec

  /**
   * The search of a successor list for `x`, front to back: `flag` tells
   * whether `x` is present and `it` is then its first position.
   */
  method FindSuccessor(s: seq<Addr>, x: Addr) returns (flag: bool, it: nat)
    ensures flag <==> x in s
    ensures flag ==> it == IndexOf(s, x)
  {
    flag, it := false, 0;
    while it < |s|
      invariant it <= |s|
      invariant forall j :: 0 <= j < it ==> s[j] != x
    {
      if s[it] == x {
        flag := true;
        break;
      }
      it := it + 1;
    }
  }

  class MarkovPrefetcher {
    /** Successor slots per table entry, and the most candidates per miss. */
    const degree: nat
    /** Number of table entries. */
    const numEntries: nat
    /** log2 of the block size. */
    const lBlkSize: nat
    /** Block size in bytes. */
    const blkSize: nat
    /** Whether two addresses share a page. */
    const samePage: SamePage
    /** One successor list per entry. */
    const markovTable: array<seq<Addr>>
    /** The last miss address seen, 0 when there is none yet. */
    var previousMiss: Addr
    /** Candidates dropped because they lie on another page. */
    var pfSpanPage: nat

    function Cfg(): (c: Config)
    {
      Config(degree, numEntries, lBlkSize, blkSize, samePage)
    }

    ghost predicate Valid()
      reads markovTable
    {
      ValidConfig(Cfg()) && WellFormedTable(Cfg(), markovTable[..])
    }

    ghost function Model(): (st: State)
      reads this, markovTable
    {
      State(markovTable[..], previousMiss, pfSpanPage)
    }

    /**
     * A table of `numEntries` entries, each a list of `degree` empty slots,
     * and no previous miss.
     */
    constructor (degree: nat, numEntries: nat, lBlkSize: nat, samePage: SamePage)
      requires degree > 0 && IsPowerOfTwo(numEntries)
      ensures this.degree == degree && this.numEntries == numEntries
      ensures this.lBlkSize == lBlkSize && this.blkSize == Pow2(lBlkSize) && this.samePage == samePage
      ensures Valid() && fresh(markovTable)
      ensures Model() == Initial(Cfg())
    {
      this.degree := degree;
      this.numEntries := numEntries;
      this.lBlkSize := lBlkSize;
      this.blkSize := Pow2(lBlkSize);
      this.samePage := samePage;
      var table := new seq<Addr>[numEntries];
      for i := 0 to numEntries
        invariant forall j :: 0 <= j < i ==> table[j] == Zeros(degree)
      {
        table[i] := Zeros(degree);
      }
      markovTable := table;
      previousMiss := 0;
      pfSpanPage := 0;
    }

    /**
     * One miss at `addr`: learn `addr`'s block as the successor of the
     * previous miss, remember `addr`, then append the candidates of
     * `addr`'s entry to `addresses`.
     */
    method CalculatePrefetch(addr: Addr, addresses: seq<AddrPriority>) returns (result: seq<AddrPriority>)
      requires Valid()
      modifies this, markovTable
      ensures Valid()
      ensures Model() == OnMiss(Cfg(), old(Model()), addr).state
      ensures result == addresses + OnMiss(Cfg(), old(Model()), addr).issued
    {
      if addr == previousMiss {
        return addresses;
      }
      var blkAddr := BlockAddr(addr, blkSize);
      var index: nat;
      ghost var learned := Learn(Cfg(), markovTable[..], previousMiss, blkAddr);
      if previousMiss != 0 {
        index := TableIndex(previousMiss, blkSize, numEntries);
        var lst := markovTable[index];
        var flag, it := FindSuccessor(lst, blkAddr);
        if flag {
          // splice the hit to the front
          markovTable[index] := [blkAddr] + lst[..it] + lst[it + 1..];
        } else {
          // pop back, push front
          markovTable[index] := [blkAddr] + lst[..|lst| - 1];
        }
        assert markovTable[index] == MoveToFront(lst, blkAddr);
      }
      assert markovTable[..] == learned;

      previousMiss := addr;
      index := TableIndex(previousMiss, blkSize, numEntries);
      result := IssueCandidates(markovTable[index], blkAddr, addresses);
    }

    /**
     * The walk over the `degree` slots of `lst`: each non-empty slot on
     * `blkAddr`'s page is appended with priority `degree - 1 - d`, each
     * non-empty slot on another page is counted in `pfSpanPage`.
     */
    method IssueCandidates(lst: seq<Addr>, blkAddr: Addr, addresses: seq<AddrPriority>)
      returns (result: seq<AddrPriority>)
      requires |lst| == degree
      modifies this`pfSpanPage
      ensures result == addresses + Issued(lst, blkAddr, samePage, degree)
      ensures pfSpanPage == old(pfSpanPage) + SpanCount(lst, blkAddr, samePage, degree)
    {
      result := addresses;
      for d := 0 to degree
        invariant result == addresses + Issued(lst, blkAddr, samePage, d)
        invariant pfSpanPage == old(pfSpanPage) + SpanCount(lst, blkAddr, samePage, d)
      {
        var newAddr := lst[d];
        if newAddr != Empty {
          if !samePage(blkAddr, newAddr) {
            pfSpanPage := pfSpanPage + 1;
          } else {
            result := result + [AddrPriority(newAddr, degree - 1 - d)];
          }
        }
      }
    }
  }

  /**
   * A client of the object: a fresh prefetcher with degree 2, four entries,
   * 64-byte blocks and 4 KiB pages, fed the misses 0x100, 0x200, 0x100.
   */
  method ThreeMissClient()
  {
    var p := new MarkovPrefetcher(2, 4, 6, SamePage4K);
    ghost var c := ScenarioConfig();
    assert p.Cfg() == c;
    ThreeMissScenario();
    ghost var o1 := OnMiss(c, Initial(c), 0x100);
    ghost var o2 := OnMiss(c, o1.state, 0x200);
    ghost var o3 := OnMiss(c, o2.state, 0x100);
    var out1 := p.CalculatePrefetch(0x100, []);
    assert p.Model() == o1.state && out1 == o1.issued;
    var out2 := p.CalculatePrefetch(0x200, []);
    assert p.Model() == o2.state && out2 == o2.issued;
    var out3 := p.CalculatePrefetch(0x100, []);
    assert p.Model() == o3.state && out3 == o3.issued;
    assert out1 == [];
    assert out2 == [AddrPriority(0x200, 1)];
    assert out3 == [AddrPriority(0x100, 1), AddrPriority(0x200, 0)];
    assert p.markovTable[..][0] == [0x100, 0x200] && p.pfSpanPage == 0;
  }
}
