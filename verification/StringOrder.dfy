/** The order of strings, and of records sorted by a string key. */
module StringOrder {

  predicate Less(a: string, b: string) {
    b != "" && (a == "" || a[0] < b[0] || (a[0] == b[0] && Less(a[1..], b[1..])))
  }

  lemma {:induction false} LessIsTotal(a: string, b: string)
    ensures a != b ==> Less(a, b) || Less(b, a)
    ensures !(Less(a, b) && Less(b, a)) && !Less(a, a)
  {
    if a != "" {
      LessIsTotal(a[1..], a[1..]);
      if b != "" {
        LessIsTotal(a[1..], b[1..]);
        assert a == [a[0]] + a[1..] && b == [b[0]] + b[1..];
      }
    }
  }

  lemma {:induction false} LessIsTransitive(a: string, b: string, c: string)
    requires Less(a, b) && Less(b, c)
    ensures Less(a, c)
  {
    if a != "" && a[0] == b[0] == c[0] {
      LessIsTransitive(a[1..], b[1..], c[1..]);
    }
  }

  /** The order is that of a dictionary: the first difference decides, and a text is below what it begins. */
  lemma {:induction false} FirstDifferenceDecides(p: string, s: string, t: string)
    ensures s != "" && t != "" && s[0] < t[0] ==> Less(p + s, p + t)
    ensures s != "" ==> Less(p, p + s)
  {
    if p == "" {
      assert p + s == s && p + t == t;
    } else {
      FirstDifferenceDecides(p[1..], s, t);
      assert (p + s)[1..] == p[1..] + s && (p + t)[1..] == p[1..] + t;
    }
  }

  /** A record with a key: a search hit with the stored document it stands for. */
  datatype Match = Match(id: string, raw: string)

  /** Sorted by id, with no id twice. */
  predicate Sorted(ms: seq<Match>) {
    forall i, j :: 0 <= i < j < |ms| ==> Less(ms[i].id, ms[j].id)
  }

  function Elems(ms: seq<Match>): set<Match> {
    set m | m in ms
  }

  /** There is one way to list a set of matches in order. */
  lemma {:induction false} SortedIsUnique(a: seq<Match>, b: seq<Match>)
    requires Sorted(a) && Sorted(b) && Elems(a) == Elems(b)
    ensures a == b
  {
    if a == [] {
      assert forall i :: 0 <= i < |b| ==> b[i] in Elems(b);
    } else {
      assert a[0] in Elems(b);
      FirstIsLeast(a, b);
      FirstIsLeast(b, a);
      LessIsTotal(a[0].id, b[0].id);
      TailElems(a);
      TailElems(b);
      SortedIsUnique(a[1..], b[1..]);
      assert a == [a[0]] + a[1..] && b == [b[0]] + b[1..];
    }
  }

  lemma FirstIsLeast(a: seq<Match>, b: seq<Match>)
    requires Sorted(a) && a != [] && b != [] && Elems(a) == Elems(b)
    ensures a[0] == b[0] || Less(a[0].id, b[0].id)
  {
    assert b[0] in Elems(a);
    var i :| 0 <= i < |a| && a[i] == b[0];
  }

  lemma TailElems(a: seq<Match>)
    requires Sorted(a) && a != []
    ensures Elems(a[1..]) == Elems(a) - {a[0]} && Sorted(a[1..])
  {
    forall m | m in a[1..]
      ensures m != a[0]
    {
      var i :| 0 < i < |a| && a[i] == m;
      LessIsTotal(a[0].id, a[0].id);
    }
    assert a == [a[0]] + a[1..];
  }

  /** Insert a match with a new id, keeping the order. */
  function Insert(ms: seq<Match>, m: Match): (r: seq<Match>)
    ensures Elems(r) == Elems(ms) + {m}
    ensures |r| == |ms| + 1
  {
    if ms == [] || Less(m.id, ms[0].id) then [m] + ms
    else
      assert ms == [ms[0]] + ms[1..];
      var rest := Insert(ms[1..], m);
      assert forall x :: x in [ms[0]] + rest <==> x == ms[0] || x in Elems(rest);
      [ms[0]] + rest
  }

  lemma {:induction false} InsertSorts(ms: seq<Match>, m: Match)
    requires Sorted(ms) && forall x :: x in ms ==> x.id != m.id
    ensures Sorted(Insert(ms, m))
  {
    if ms == [] {
    } else if Less(m.id, ms[0].id) {
      forall x | x in ms
        ensures Less(m.id, x.id)
      {
        var i :| 0 <= i < |ms| && ms[i] == x;
        if i > 0 {
          LessIsTransitive(m.id, ms[0].id, ms[i].id);
        }
      }
    } else {
      LessIsTotal(m.id, ms[0].id);
      InsertSorts(ms[1..], m);
      var r := Insert(ms[1..], m);
      forall x | x in r
        ensures Less(ms[0].id, x.id)
      {
        assert x in Elems(r);
        if x != m {
          var i :| 0 < i < |ms| && ms[i] == x;
        }
      }
    }
  }

  /** sort.Slice by id, on matches with distinct ids. */
  method Sort(ms: seq<Match>) returns (r: seq<Match>)
    requires forall i, j :: 0 <= i < j < |ms| ==> ms[i].id != ms[j].id
    ensures Sorted(r) && Elems(r) == Elems(ms)
  {
    r := [];
    for i := 0 to |ms|
      invariant Sorted(r) && Elems(r) == Elems(ms[..i])
    {
      forall x | x in r
        ensures x.id != ms[i].id
      {
        assert x in Elems(ms[..i]);
      }
      InsertSorts(r, ms[i]);
      r := Insert(r, ms[i]);
      assert ms[..i + 1] == ms[..i] + [ms[i]];
    }
    assert ms[..|ms|] == ms;
  }
}
