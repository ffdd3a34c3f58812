/**
 * The successor list of one Markov table entry: exactly `degree` block
 * addresses, most recently confirmed first, where 0 marks an empty slot.
 *
 * `MoveToFront` is the list's update rule: an address already in the list
 * is spliced to the front; any other address evicts the last slot and is
 * pushed at the front.
 */
module SuccessorList {
  import opened Addressing

  /** The value of an unused slot; it is never a predicted address. */
  const Empty: Addr := 0

  /** A fresh successor list: `n` empty slots. */
  function Zeros(n: nat): (s: seq<Addr>)
    ensures |s| == n
    ensures forall i :: 0 <= i < n ==> s[i] == Empty
  {
    seq(n, _ => Empty)
  }

  /** No non-empty address occurs twice. */
  predicate NonZeroDistinct(s: seq<Addr>)
  {
    forall i, j :: 0 <= i < j < |s| && s[i] != Empty ==> s[i] != s[j]
  }

  /** The position of the first occurrence of `x` in `s`. */
  function IndexOf(s: seq<Addr>, x: Addr): (p: nat)
    requires x in s
    ensures p < |s| && s[p] == x
    ensures forall j :: 0 <= j < p ==> s[j] != x
  {
    if s[0] == x then 0 else 1 + IndexOf(s[1..], x)
  }

  /**
   * The list after `x` is confirmed as the most recent successor: a hit is
   * spliced to the front, a miss evicts the last slot and is pushed at the
   * front.
   */
  function MoveToFront(s: seq<Addr>, x: Addr): (r: seq<Addr>)
    requires |s| > 0
    ensures |r| == |s| && r[0] == x
  {
    if x in s then
      var p := IndexOf(s, x);
      [x] + s[..p] + s[p + 1..]
    else
      [x] + s[..|s| - 1]
  }

  /** On a hit the list is only reordered: the same addresses, as often. */
  lemma MoveToFrontHitPermutes(s: seq<Addr>, x: Addr)
    requires |s| > 0 && x in s
    ensures multiset(MoveToFront(s, x)) == multiset(s)
  {
    var p := IndexOf(s, x);
    assert s == s[..p] + [s[p]] + s[p + 1..];
  }

  /** On a miss the last slot is evicted and `x` takes a slot. */
  lemma MoveToFrontMissEvictsLast(s: seq<Addr>, x: Addr)
    requires |s| > 0 && x !in s
    ensures multiset(MoveToFront(s, x)) == multiset(s) - multiset{s[|s| - 1]} + multiset{x}
  {
    assert s == s[..|s| - 1] + [s[|s| - 1]];
  }

  /**
   * Where slot `i` of `s` lands after `MoveToFront(s, x)`: one slot further
   * back, unless it lies behind the spliced hit.
   */
  function NewPosition(s: seq<Addr>, x: Addr, i: nat): (k: nat)
  {
    if x in s && IndexOf(s, x) < i then i else i + 1
  }

  /**
   * A slot survives the update unless it is the spliced hit or, on a miss,
   * the evicted last slot.
   */
  predicate Survives(s: seq<Addr>, x: Addr, i: nat)
  {
    i < |s| && if x in s then i != IndexOf(s, x) else i < |s| - 1
  }

  /** Every surviving slot lands at its `NewPosition`, behind the front. */
  lemma MoveToFrontPlacesSlot(s: seq<Addr>, x: Addr, i: nat)
    requires |s| > 0 && Survives(s, x, i)
    ensures 0 < NewPosition(s, x, i) < |s| && MoveToFront(s, x)[NewPosition(s, x, i)] == s[i]
  {
    var r := MoveToFront(s, x);
    if x in s {
      var p := IndexOf(s, x);
      if i < p {
        assert r[i + 1] == s[..p][i];
      } else {
        assert r[i] == s[p + 1..][i - p - 1];
      }
    } else {
      assert r[i + 1] == s[..|s| - 1][i];
    }
  }

  /**
   * Two surviving slots keep their relative order: `NewPosition` strictly
   * increases on them, so with `MoveToFront(s, x)[0] == x` the placed slots
   * determine the whole updated list.
   */
  lemma MoveToFrontKeepsOrder(s: seq<Addr>, x: Addr, i: nat, j: nat)
    requires |s| > 0 && i < j && Survives(s, x, i) && Survives(s, x, j)
    ensures var r, i', j' := MoveToFront(s, x), NewPosition(s, x, i), NewPosition(s, x, j);
      0 < i' < j' < |s| && r[i'] == s[i] && r[j'] == s[j]
  {
    MoveToFrontPlacesSlot(s, x, i);
    MoveToFrontPlacesSlot(s, x, j);
  }

  /** The block 0 hitting the first of two empty slots: `[a, 0, 0]` becomes `[0, a, 0]`. */
  lemma EmptyBlockExample(a: Addr)
    requires a != Empty
    ensures MoveToFront([a, Empty, Empty], Empty) == [Empty, a, Empty]
  {
    assert IndexOf([a, Empty, Empty], Empty) == 1;
  }

  /** The update keeps the non-empty addresses of a list pairwise distinct. */
  lemma MoveToFrontPreservesDistinct(s: seq<Addr>, x: Addr)
    requires |s| > 0 && NonZeroDistinct(s)
    ensures NonZeroDistinct(MoveToFront(s, x))
  {
    var r := MoveToFront(s, x);
    if x in s {
      var p := IndexOf(s, x);
      forall i, j | 0 <= i < j < |r| && r[i] != Empty
        ensures r[i] != r[j]
      {
        var fi := if i == 0 then p else if i <= p then i - 1 else i;
        var fj := if j <= p then j - 1 else j;
        assert r[i] == s[fi] && r[j] == s[fj] && fi != fj;
        if fi < fj {
          assert s[fi] != s[fj];
        } else {
          assert s[fj] != s[fi];
        }
      }
    } else {
      forall i, j | 0 <= i < j < |r| && r[i] != Empty
        ensures r[i] != r[j]
      {
        assert r[j] == s[j - 1];
        if i > 0 {
          assert r[i] == s[i - 1];
        }
      }
    }
  }

  /** Confirming the same successor twice in a row changes nothing the second time. */
  lemma MoveToFrontIdempotent(s: seq<Addr>, x: Addr)
    requires |s| > 0
    ensures MoveToFront(MoveToFront(s, x), x) == MoveToFront(s, x)
  {
    var r := MoveToFront(s, x);
    assert x in r;
    assert IndexOf(r, x) == 0;
    assert [x] + r[..0] + r[1..] == r;
  }

  /** A list `[a, b, c]` confirming `b` becomes `[b, a, c]`. */
  lemma PromotionExample(a: Addr, b: Addr, c: Addr)
    requires a != b && b != c
    ensures MoveToFront([a, b, c], b) == [b, a, c]
  {
    assert IndexOf([a, b, c], b) == 1;
  }

  /** A full list `[a, b]` confirming a new `c` becomes `[c, a]`. */
  lemma EvictionExample(a: Addr, b: Addr, c: Addr)
    requires c != a && c != b
    ensures MoveToFront([a, b], c) == [c, a]
  {
  }
}
