/**
 * Candidate generation: the walk over the `degree` slots of a successor
 * list. Slot `d` holding a non-empty address on the same page as the
 * missing block is issued with priority `degree - 1 - d`; a non-empty
 * address on another page is counted as a page-crossing and not issued;
 * an empty slot is skipped but still uses up its position.
 */
module Candidates {
  import opened Addressing
  import opened SuccessorList

  /** One prefetch candidate: an address and its priority (higher goes first). */
  datatype AddrPriority = AddrPriority(addr: Addr, priority: int)

  /** Whether two addresses lie on the same page; supplied by the host. */
  type SamePage = (Addr, Addr) -> bool

  /** What slot `d` of `s` issues: nothing, or one candidate. */
  function SlotIssue(s: seq<Addr>, blk: Addr, samePage: SamePage, d: nat): (r: seq<AddrPriority>)
    requires d < |s|
  {
    if s[d] != Empty && samePage(blk, s[d]) then [AddrPriority(s[d], |s| - 1 - d)] else []
  }

  /** The candidates issued by the first `n` slots of `s`, in slot order. */
  function Issued(s: seq<Addr>, blk: Addr, samePage: SamePage, n: nat): (r: seq<AddrPriority>)
    requires n <= |s|
  {
    if n == 0 then [] else Issued(s, blk, samePage, n - 1) + SlotIssue(s, blk, samePage, n - 1)
  }

  /** The page-crossing slots among the first `n` slots of `s`. */
  function SpanCount(s: seq<Addr>, blk: Addr, samePage: SamePage, n: nat): (k: nat)
    requires n <= |s|
  {
    if n == 0 then 0
    else SpanCount(s, blk, samePage, n - 1) + (if s[n - 1] != Empty && !samePage(blk, s[n - 1]) then 1 else 0)
  }

  /** The non-empty slots among the first `n` slots of `s`. */
  function NonEmptyCount(s: seq<Addr>, n: nat): (k: nat)
    requires n <= |s|
    ensures k <= n
  {
    if n == 0 then 0 else NonEmptyCount(s, n - 1) + (if s[n - 1] != Empty then 1 else 0)
  }

  /**
   * Every issued candidate is a non-empty slot on the same page as `blk`,
   * whose priority names its slot; priorities lie in [|s| - n, |s| - 1] and
   * strictly decrease along the list.
   */
  lemma {:induction false} IssuedSound(s: seq<Addr>, blk: Addr, samePage: SamePage, n: nat)
    requires n <= |s|
    ensures |Issued(s, blk, samePage, n)| <= n
    ensures forall i :: 0 <= i < |Issued(s, blk, samePage, n)| ==>
      var c := Issued(s, blk, samePage, n)[i];
      c.addr != Empty && samePage(blk, c.addr) &&
      |s| - n <= c.priority < |s| && s[|s| - 1 - c.priority] == c.addr
    ensures forall i, j :: 0 <= i < j < |Issued(s, blk, samePage, n)| ==>
      Issued(s, blk, samePage, n)[i].priority > Issued(s, blk, samePage, n)[j].priority
  {
    if n > 0 {
      IssuedSound(s, blk, samePage, n - 1);
    }
  }

  /** Every non-empty slot on the same page as `blk` is issued, with its priority. */
  lemma {:induction false} IssuedComplete(s: seq<Addr>, blk: Addr, samePage: SamePage, n: nat)
    requires n <= |s|
    ensures forall d :: 0 <= d < n && s[d] != Empty && samePage(blk, s[d]) ==>
      AddrPriority(s[d], |s| - 1 - d) in Issued(s, blk, samePage, n)
  {
    if n > 0 {
      IssuedComplete(s, blk, samePage, n - 1);
      var r := Issued(s, blk, samePage, n);
      assert r == Issued(s, blk, samePage, n - 1) + SlotIssue(s, blk, samePage, n - 1);
      forall d | 0 <= d < n && s[d] != Empty && samePage(blk, s[d])
        ensures AddrPriority(s[d], |s| - 1 - d) in r
      {
        if d < n - 1 {
          assert AddrPriority(s[d], |s| - 1 - d) in Issued(s, blk, samePage, n - 1);
        } else {
          assert r[|r| - 1] == AddrPriority(s[d], |s| - 1 - d);
        }
      }
    }
  }

  /** Each non-empty slot is either issued or counted as a page-crossing, never both. */
  lemma {:induction false} IssuedOrSpanned(s: seq<Addr>, blk: Addr, samePage: SamePage, n: nat)
    requires n <= |s|
    ensures |Issued(s, blk, samePage, n)| + SpanCount(s, blk, samePage, n) == NonEmptyCount(s, n)
  {
    if n > 0 {
      IssuedOrSpanned(s, blk, samePage, n - 1);
    }
  }

  /** A list whose slots are all non-empty and on the page issues every slot, in order. */
  lemma {:induction false} IssuedAllOnPage(s: seq<Addr>, blk: Addr, samePage: SamePage, n: nat)
    requires n <= |s|
    requires forall d :: 0 <= d < n ==> s[d] != Empty && samePage(blk, s[d])
    ensures |Issued(s, blk, samePage, n)| == n
    ensures forall d :: 0 <= d < n ==> Issued(s, blk, samePage, n)[d] == AddrPriority(s[d], |s| - 1 - d)
    ensures SpanCount(s, blk, samePage, n) == 0
  {
    if n > 0 {
      IssuedAllOnPage(s, blk, samePage, n - 1);
    }
  }

  /** With three slots on the page, the candidates are `[(p0, 2), (p1, 1), (p2, 0)]`. */
  lemma PriorityExample(p0: Addr, p1: Addr, p2: Addr, blk: Addr, samePage: SamePage)
    requires p0 != Empty && p1 != Empty && p2 != Empty
    requires samePage(blk, p0) && samePage(blk, p1) && samePage(blk, p2)
    ensures Issued([p0, p1, p2], blk, samePage, 3) ==
      [AddrPriority(p0, 2), AddrPriority(p1, 1), AddrPriority(p2, 0)]
  {
    IssuedAllOnPage([p0, p1, p2], blk, samePage, 3);
  }

  /** A list of empty slots issues nothing and counts nothing. */
  lemma {:induction false} EmptyListIssuesNothing(s: seq<Addr>, blk: Addr, samePage: SamePage, n: nat)
    requires n <= |s|
    requires forall d :: 0 <= d < |s| ==> s[d] == Empty
    ensures Issued(s, blk, samePage, n) == [] && SpanCount(s, blk, samePage, n) == 0
  {
    if n > 0 {
      EmptyListIssuesNothing(s, blk, samePage, n - 1);
    }
  }
}
