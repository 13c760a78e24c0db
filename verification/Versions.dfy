/** Cookbook versions and their order (internal/api/cookbooks.go:879-917, internal/api/constraint_valid.go:26-43). */
module Versions {
  import opened Prelude
  import opened Decimal
  import opened StringOrder

  // The source's comparison

  function StringCompare(a: string, b: string): int {
    if a == b then 0 else if Less(a, b) then -1 else 1
  }

  function Segment(parts: seq<string>, i: nat): string {
    if i < |parts| then parts[i] else "0"
  }

  /** The comparison from segment `i` on; a segment that is no 64-bit integer is compared as text. */
  function CompareFrom(a: seq<string>, b: seq<string>, i: nat): int
    decreases |a| + |b| - i
  {
    if i >= |a| && i >= |b| then 0
    else
      var (av, bv) := (Segment(a, i), Segment(b, i));
      if av == bv then CompareFrom(a, b, i + 1)
      else
        match (Atoi(av), Atoi(bv))
        case (Some(an), Some(bn)) => if an < bn then -1 else if an > bn then 1 else CompareFrom(a, b, i + 1)
        case (_, _) => StringCompare(av, bv)
  }

  function Compare(a: string, b: string): int {
    CompareFrom(Split(a, '.'), Split(b, '.'), 0)
  }

  /** compareVersions: the loop. */
  method CompareVersions(a: string, b: string) returns (r: int)
    ensures r == Compare(a, b)
  {
    var xs, ys := Split(a, '.'), Split(b, '.');
    var i := 0;
    while i < |xs| || i < |ys|
      invariant 0 <= i && CompareFrom(xs, ys, 0) == CompareFrom(xs, ys, i)
      decreases |xs| + |ys| - i
    {
      var (av, bv) := (Segment(xs, i), Segment(ys, i));
      if av != bv {
        var (an, bn) := (Atoi(av), Atoi(bv));
        if an.None? || bn.None? {
          return StringCompare(av, bv);
        }
        if an.value != bn.value {
          return if an.value < bn.value then -1 else 1;
        }
      }
      i := i + 1;
    }
    return 0;
  }

  // Valid versions

  /** validCookbookVersion: one to three dot-separated non-negative 64-bit integers. */
  predicate Valid(v: string) {
    var parts := Split(v, '.');
    |parts| <= 3 && AllNumbers(parts)
  }

  predicate AllNumbers(parts: seq<string>) {
    forall i :: 0 <= i < |parts| ==> Atoi(parts[i]).Some? && Atoi(parts[i]).value >= 0
  }

  /** The components of a list of integer segments. */
  function Numbers(parts: seq<string>): (r: seq<int>)
    requires forall i :: 0 <= i < |parts| ==> Atoi(parts[i]).Some?
    ensures |r| == |parts| && forall i :: 0 <= i < |r| ==> r[i] == Atoi(parts[i]).value
  {
    seq(|parts|, i requires 0 <= i < |parts| => Atoi(parts[i]).value)
  }

  function Components(v: string): (r: seq<int>)
    requires Valid(v)
    ensures |r| >= 1 && forall i :: 0 <= i < |r| ==> r[i] >= 0
  {
    Numbers(Split(v, '.'))
  }

  /** A component, zero beyond the last. */
  function Pad(xs: seq<int>, i: nat): int {
    if i < |xs| then xs[i] else 0
  }

  ghost predicate AgreeBefore(xs: seq<int>, ys: seq<int>, k: nat) {
    forall i: nat :: i < k ==> Pad(xs, i) == Pad(ys, i)
  }

  /** Lexicographic order on zero-padded components. */
  ghost predicate Below(xs: seq<int>, ys: seq<int>) {
    exists k: nat :: BelowAt(xs, ys, k)
  }

  ghost predicate BelowAt(xs: seq<int>, ys: seq<int>, k: nat) {
    AgreeBefore(xs, ys, k) && Pad(xs, k) < Pad(ys, k)
  }

  ghost predicate Same(xs: seq<int>, ys: seq<int>) {
    forall i: nat :: Pad(xs, i) == Pad(ys, i)
  }

  /** Exactly one of below, same and above holds. */
  lemma {:induction false} Trichotomy(xs: seq<int>, ys: seq<int>)
    ensures Below(xs, ys) || Same(xs, ys) || Below(ys, xs)
    ensures !(Below(xs, ys) && Below(ys, xs)) && !(Below(xs, ys) && Same(xs, ys))
  {
    if !Same(xs, ys) {
      var i: nat :| Pad(xs, i) != Pad(ys, i);
      var k := FirstDifference(xs, ys, i);
      assert BelowAt(xs, ys, k) || BelowAt(ys, xs, k);
    }
    assert forall k: nat, l: nat :: BelowAt(xs, ys, k) && BelowAt(ys, xs, l) ==> k < l || l < k || k == l;
  }

  lemma {:induction false} FirstDifference(xs: seq<int>, ys: seq<int>, i: nat) returns (k: nat)
    requires Pad(xs, i) != Pad(ys, i)
    ensures k <= i && AgreeBefore(xs, ys, k) && Pad(xs, k) != Pad(ys, k)
    decreases i
  {
    if j: nat :| j < i && Pad(xs, j) != Pad(ys, j) {
      k := FirstDifference(xs, ys, j);
    } else {
      k := i;
    }
  }

  lemma BelowIsTransitive(xs: seq<int>, ys: seq<int>, zs: seq<int>)
    requires Below(xs, ys) && Below(ys, zs)
    ensures Below(xs, zs)
  {
    var k: nat :| BelowAt(xs, ys, k);
    var l: nat :| BelowAt(ys, zs, l);
    assert BelowAt(xs, zs, if k < l then k else l);
  }

  // The comparison is that order

  lemma {:induction false} CompareIsLexFrom(a: seq<string>, b: seq<string>, i: nat)
    requires forall k :: 0 <= k < |a| ==> Atoi(a[k]).Some?
    requires forall k :: 0 <= k < |b| ==> Atoi(b[k]).Some?
    requires AgreeBefore(Numbers(a), Numbers(b), i)
    ensures var (xs, ys, c) := (Numbers(a), Numbers(b), CompareFrom(a, b, i));
            (c == -1 && Below(xs, ys)) || (c == 0 && Same(xs, ys)) || (c == 1 && Below(ys, xs))
    decreases |a| + |b| - i
  {
    var xs, ys := Numbers(a), Numbers(b);
    if i < |a| || i < |b| {
      ZeroIsZero();
      assert Atoi(Segment(a, i)) == Some(Pad(xs, i)) && Atoi(Segment(b, i)) == Some(Pad(ys, i));
      if Pad(xs, i) == Pad(ys, i) {
        CompareIsLexFrom(a, b, i + 1);
      } else {
        assert BelowAt(xs, ys, i) || BelowAt(ys, xs, i);
      }
    }
  }

  lemma ZeroIsZero()
    ensures Atoi("0") == Some(0)
  {
    assert "0"[..0] == "";
  }

  /** On integer versions, compareVersions is the lexicographic order on zero-padded components: -1, 0 or 1 as the first
      is below, the same as, or above the second. */
  lemma CompareIsLex(a: string, b: string)
    requires Valid(a) && Valid(b)
    ensures Compare(a, b) == -1 <==> Below(Components(a), Components(b))
    ensures Compare(a, b) == 0 <==> Same(Components(a), Components(b))
    ensures Compare(a, b) == 1 <==> Below(Components(b), Components(a))
    ensures -1 <= Compare(a, b) <= 1
  {
    CompareIsLexFrom(Split(a, '.'), Split(b, '.'), 0);
    Trichotomy(Components(a), Components(b));
    Trichotomy(Components(b), Components(a));
  }

  /** At most, under zero-padding. */
  ghost predicate AtMost(xs: seq<int>, ys: seq<int>) {
    Below(xs, ys) || Same(xs, ys)
  }

  lemma AtMostIsTransitive(xs: seq<int>, ys: seq<int>, zs: seq<int>)
    requires AtMost(xs, ys) && AtMost(ys, zs)
    ensures AtMost(xs, zs)
  {
    if Below(xs, ys) && Below(ys, zs) {
      BelowIsTransitive(xs, ys, zs);
    } else if Below(xs, ys) {
      var k: nat :| BelowAt(xs, ys, k);
      assert BelowAt(xs, zs, k);
    } else if Below(ys, zs) {
      var k: nat :| BelowAt(ys, zs, k);
      assert BelowAt(xs, zs, k);
    }
  }

  /** Which is a total preorder. */
  lemma CompareIsTotalPreorder(a: string, b: string, c: string)
    requires Valid(a) && Valid(b) && Valid(c)
    ensures Compare(a, a) == 0 && Compare(b, a) == -Compare(a, b)
    ensures Compare(a, b) <= 0 && Compare(b, c) <= 0 ==> Compare(a, c) <= 0
  {
    CompareIsReflexive(a);
    CompareIsAntisymmetric(a, b);
    if Compare(a, b) <= 0 && Compare(b, c) <= 0 {
      CompareIsTransitive(a, b, c);
    }
  }

  lemma CompareIsReflexive(a: string)
    requires Valid(a)
    ensures Compare(a, a) == 0
  {
    CompareIsLex(a, a);
  }

  lemma CompareIsAntisymmetric(a: string, b: string)
    requires Valid(a) && Valid(b)
    ensures Compare(b, a) == -Compare(a, b)
  {
    CompareIsLex(a, b);
    CompareIsLex(b, a);
  }

  lemma CompareIsTransitive(a: string, b: string, c: string)
    requires Valid(a) && Valid(b) && Valid(c) && Compare(a, b) <= 0 && Compare(b, c) <= 0
    ensures Compare(a, c) <= 0
  {
    CompareIsLex(a, b);
    CompareIsLex(b, c);
    CompareIsLex(a, c);
    AtMostIsTransitive(Components(a), Components(b), Components(c));
  }
}
