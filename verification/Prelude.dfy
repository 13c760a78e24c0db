/** Small notions shared by every component: optional values, and Go's trimming, splitting and joining of strings. */
module Prelude {

  datatype Option<+T> = None | Some(value: T)

  datatype Result<+T, +E> = Ok(value: T) | Err(error: E)

  /** strings.ToLower, given the lower-case form of each character. */
  function Lower(lc: char -> char, s: string): (r: string)
    ensures |r| == |s|
  {
    seq(|s|, i requires 0 <= i < |s| => lc(s[i]))
  }

  /** unicode.IsSpace. */
  predicate IsSpace(c: char) {
    || c == ' ' || c == '\t' || c == '\n' || c == '\r' || c == '\U{b}' || c == '\U{c}' || c == '\U{85}' || c == '\U{a0}' || c == '\U{1680}'
    || c == '\U{2028}' || c == '\U{2029}' || c == '\U{202f}' || c == '\U{205f}' || c == '\U{3000}'
    || '\U{2000}' <= c <= '\U{200a}'
  }

  function TrimLeft(s: string): string {
    if s != "" && IsSpace(s[0]) then TrimLeft(s[1..]) else s
  }

  function TrimRight(s: string): string {
    if s != "" && IsSpace(s[|s| - 1]) then TrimRight(s[..|s| - 1]) else s
  }

  function TrimSpace(s: string): string {
    TrimRight(TrimLeft(s))
  }

  /** Text that neither starts nor ends with a space is left alone. */
  lemma TrimNothing(s: string)
    requires s != "" && !IsSpace(s[0]) && !IsSpace(s[|s| - 1])
    ensures TrimSpace(s) == s
  {
  }

  predicate AllSpace(s: string) {
    forall i :: 0 <= i < |s| ==> IsSpace(s[i])
  }

  lemma {:induction false} TrimLeftParts(s: string) returns (lead: string)
    ensures s == lead + TrimLeft(s) && AllSpace(lead)
    ensures TrimLeft(s) != "" ==> !IsSpace(TrimLeft(s)[0])
    ensures lead == "" <==> s == "" || !IsSpace(s[0])
  {
    lead := "";
    if s != "" && IsSpace(s[0]) {
      lead := TrimLeftParts(s[1..]);
      lead := [s[0]] + lead;
    }
  }

  lemma {:induction false} TrimRightParts(s: string) returns (trail: string)
    ensures s == TrimRight(s) + trail && AllSpace(trail)
    ensures TrimRight(s) != "" ==> !IsSpace(TrimRight(s)[|TrimRight(s)| - 1])
    ensures trail == "" <==> s == "" || !IsSpace(s[|s| - 1])
  {
    trail := "";
    if s != "" && IsSpace(s[|s| - 1]) {
      trail := TrimRightParts(s[..|s| - 1]);
      trail := trail + [s[|s| - 1]];
    }
  }

  /** Trimming takes away spaces at both ends and leaves none there. */
  lemma TrimParts(s: string) returns (lead: string, trail: string)
    ensures s == lead + (TrimSpace(s) + trail) && AllSpace(lead) && AllSpace(trail)
    ensures TrimSpace(s) != "" ==> !IsSpace(TrimSpace(s)[0]) && !IsSpace(TrimSpace(s)[|TrimSpace(s)| - 1])
    ensures lead == "" <==> s == "" || !IsSpace(s[0])
    ensures lead == "" ==> (trail == "" <==> s == "" || !IsSpace(s[|s| - 1]))
  {
    lead := TrimLeftParts(s);
    trail := TrimRightParts(TrimLeft(s));
    assert TrimSpace(s) != "" ==> TrimSpace(s)[0] == TrimLeft(s)[0];
  }

  /** strings.IndexByte. */
  function IndexOf(s: string, c: char): (r: Option<nat>)
    ensures r.Some? ==> r.value < |s| && s[r.value] == c && c !in s[..r.value]
    ensures r.None? ==> c !in s
  {
    if s == "" then None
    else if s[0] == c then Some(0)
    else
      match IndexOf(s[1..], c)
      case None => None
      case Some(i) =>
        assert s[..i + 1] == [s[0]] + s[1..][..i];
        Some(i + 1)
  }

  lemma {:induction false} IndexOfFirst(a: string, c: char, b: string)
    requires c !in a
    ensures IndexOf(a + [c] + b, c) == Some(|a|)
  {
    if a == "" {
      assert a + [c] + b == [c] + b;
    } else {
      assert (a + [c] + b)[1..] == a[1..] + [c] + b;
      IndexOfFirst(a[1..], c, b);
    }
  }

  /** Go's strings.Split for a one-character separator: never empty, and no part holds the separator. */
  function Split(s: string, sep: char): (parts: seq<string>)
    ensures |parts| >= 1
    ensures forall p :: p in parts ==> sep !in p
  {
    if s == "" then [""]
    else
      var rest := Split(s[1..], sep);
      if s[0] == sep then [""] + rest else [[s[0]] + rest[0]] + rest[1..]
  }

  /** Go's strings.Join for a one-character separator. */
  function Join(parts: seq<string>, sep: char): string
    requires |parts| >= 1
  {
    if |parts| == 1 then parts[0] else parts[0] + [sep] + Join(parts[1..], sep)
  }

  lemma {:induction false} SplitPrefix(head: string, tail: string, sep: char)
    requires sep !in head
    ensures Split(head + tail, sep) == [head + Split(tail, sep)[0]] + Split(tail, sep)[1..]
  {
    if head == "" {
      assert head + tail == tail;
      assert head + Split(tail, sep)[0] == Split(tail, sep)[0];
    } else {
      SplitPrefix(head[1..], tail, sep);
      assert (head + tail)[1..] == head[1..] + tail;
      assert [head[0]] + (head[1..] + Split(tail, sep)[0]) == head + Split(tail, sep)[0];
    }
  }

  /** A separator splits off everything after it. */
  lemma {:induction false} SplitAtSeparator(head: string, tail: string, sep: char)
    ensures Split(head + [sep] + tail, sep) == Split(head, sep) + Split(tail, sep)
  {
    var s := head + [sep] + tail;
    if head == "" {
      assert s[1..] == tail;
    } else {
      assert s[1..] == head[1..] + [sep] + tail && s[0] == head[0];
      SplitAtSeparator(head[1..], tail, sep);
      SplitFirst(s, Split(head[1..], sep), Split(tail, sep), sep);
    }
  }

  lemma SplitFirst(s: string, first: seq<string>, second: seq<string>, sep: char)
    requires s != "" && first != [] && Split(s[1..], sep) == first + second
    ensures Split(s, sep) == (if s[0] == sep then [""] + first else [[s[0]] + first[0]] + first[1..]) + second
  {
    assert (first + second)[1..] == first[1..] + second;
    assert [""] + (first + second) == ([""] + first) + second;
  }

  /** A text without the separator is its own only part. */
  lemma SplitWhole(s: string, sep: char)
    requires sep !in s
    ensures Split(s, sep) == [s]
  {
    SplitPrefix(s, "", sep);
    assert s + "" == s;
  }

  /** Splitting undoes joining when no part holds the separator. */
  lemma {:induction false} SplitJoin(parts: seq<string>, sep: char)
    requires |parts| >= 1
    requires forall p :: p in parts ==> sep !in p
    ensures Split(Join(parts, sep), sep) == parts
  {
    if |parts| == 1 {
      SplitWhole(parts[0], sep);
    } else {
      SplitJoin(parts[1..], sep);
      SplitAtSeparator(parts[0], Join(parts[1..], sep), sep);
      SplitWhole(parts[0], sep);
    }
  }

  /** Joining undoes splitting, for every string. */
  lemma {:induction false} JoinSplit(s: string, sep: char)
    ensures Join(Split(s, sep), sep) == s
  {
    if s != "" {
      JoinSplit(s[1..], sep);
      var rest := Split(s[1..], sep);
      if s[0] == sep {
        assert ([""] + rest)[1..] == rest;
        assert s == "" + [sep] + s[1..];
      } else {
        var parts := [[s[0]] + rest[0]] + rest[1..];
        assert parts[1..] == rest[1..];
        assert s == [s[0]] + s[1..];
      }
    }
  }
}
