/** The searchable field map of a document (internal/search/flatten.go). */
module Flatten {
  import opened Prelude
  import opened Json
  import opened SearchIndex

  /** scalarString: how a scalar is searched. */
  function ScalarString(v: Json): string {
    match v
    case Str(s) => s
    case Num(lit) => lit
    case Bool(b) => if b then "true" else "false"
    case _ => ""
  }

  /** A scalar of a document and the lower-cased names that lead to it. */
  datatype Leaf = Leaf(path: seq<string>, text: string)

  /** Every scalar at or under `v`, which sits at `path`; the elements of an array share its path, and a scalar that
      is the whole document has no name and is not searched. */
  function Leaves(lc: char -> char, path: seq<string>, v: Json): set<Leaf>
    decreases v
  {
    match v
    case Obj(members) => MemberLeaves(lc, path, members)
    case Arr(elems) => ElemLeaves(lc, path, elems)
    case _ => if path == [] then {} else {Leaf(path, ScalarString(v))}
  }

  function MemberLeaves(lc: char -> char, path: seq<string>, members: seq<Member>): set<Leaf>
    decreases members
  {
    if members == [] then {}
    else
      var n := |members| - 1;
      MemberLeaves(lc, path, members[..n]) + Leaves(lc, path + [Lower(lc, members[n].name)], members[n].value)
  }

  function ElemLeaves(lc: char -> char, path: seq<string>, elems: seq<Json>): set<Leaf>
    decreases elems
  {
    if elems == [] then {}
    else
      var n := |elems| - 1;
      ElemLeaves(lc, path, elems[..n]) + Leaves(lc, path, elems[n])
  }

  /** The key of the path from segment `i` on, built right to left. */
  function SuffixKey(path: seq<string>, i: nat): string
    requires i <= |path|
    decreases |path| - i
  {
    if i == |path| then ""
    else
      var rest := SuffixKey(path, i + 1);
      if rest == "" then path[i] else path[i] + "_" + rest
  }

  lemma {:induction false} KeyOfNamed(path: seq<string>, i: nat)
    requires i < |path| && path[|path| - 1] != ""
    ensures SuffixKey(path, i) == Join(path[i..], '_') && SuffixKey(path, i) != ""
    decreases |path| - i
  {
    if i == |path| - 1 {
      assert path[i..] == [path[i]];
    } else {
      KeyOfNamed(path, i + 1);
      assert path[i..][1..] == path[i + 1..];
    }
  }

  /** Under an empty last name the key is too short, by the separators it drops. */
  lemma {:induction false} KeyOfUnnamed(path: seq<string>, i: nat)
    requires i < |path| && path[|path| - 1] == ""
    ensures i == |path| - 1 ==> SuffixKey(path, i) == "" == Join(path[i..], '_')
    ensures i < |path| - 1 ==> |SuffixKey(path, i)| < |Join(path[i..], '_')|
    decreases |path| - i
  {
    if i == |path| - 1 {
      assert path[i..] == [path[i]];
    } else {
      KeyOfUnnamed(path, i + 1);
      assert path[i..][1..] == path[i + 1..];
    }
  }

  /** The key is the underscore-joined suffix of the path if and only if the last name is not empty or is the suffix. */
  lemma SuffixKeyIsJoin(path: seq<string>, i: nat)
    requires i < |path|
    ensures SuffixKey(path, i) == Join(path[i..], '_') <==> path[|path| - 1] != "" || i == |path| - 1
  {
    if path[|path| - 1] != "" {
      KeyOfNamed(path, i);
    } else {
      KeyOfUnnamed(path, i);
    }
  }

  /** A leaf is found under each suffix of its path. */
  function LeafTerms(lc: char -> char, leaf: Leaf): set<Term> {
    TermsFrom(lc, leaf, 0)
  }

  function TermsFrom(lc: char -> char, leaf: Leaf, i: nat): set<Term>
    requires i <= |leaf.path|
    decreases |leaf.path| - i
  {
    if i == |leaf.path| then {}
    else {Term(SuffixKey(leaf.path, i), Lower(lc, leaf.text))} + TermsFrom(lc, leaf, i + 1)
  }

  /** `f` is the key of some suffix of the path, from segment `i` on. */
  ghost predicate IsSuffixKey(path: seq<string>, i: nat, f: string) {
    exists j: nat :: i <= j < |path| && SuffixKey(path, j) == f
  }

  lemma {:induction false} TermsAreSuffixes(lc: char -> char, leaf: Leaf, i: nat, t: Term)
    requires i <= |leaf.path|
    ensures t in TermsFrom(lc, leaf, i) <==> t.value == Lower(lc, leaf.text) && IsSuffixKey(leaf.path, i, t.field)
    decreases |leaf.path| - i
  {
    if i < |leaf.path| {
      TermsAreSuffixes(lc, leaf, i + 1, t);
    }
  }

  function AllTerms(lc: char -> char, leaves: set<Leaf>): set<Term> {
    set leaf, t | leaf in leaves && t in LeafTerms(lc, leaf) :: t
  }

  /** The document {"a": {"": 1}} is found under "a" and "", and not under "a_". */
  lemma EmptyNameIsDropped(lc: char -> char)
    ensures var a, one := Lower(lc, "a"), Lower(lc, "1");
            && AllTerms(lc, Leaves(lc, [], Obj([Member("a", Obj([Member("", Num("1"))]))]))) == {Term(a, one), Term("", one)}
            && Join([a, ""], '_') == a + "_" != a
  {
    var a, one := Lower(lc, "a"), Lower(lc, "1");
    var path := [a, ""];
    var leaf := Leaf(path, "1");
    OnlyMember(lc, [], Member("a", Obj([Member("", Num("1"))])));
    OnlyMember(lc, [a], Member("", Num("1")));
    assert [] + [a] == [a] && [a] + [Lower(lc, "")] == path;
    assert SuffixKey(path, 2) == "" && SuffixKey(path, 1) == "" && SuffixKey(path, 0) == a;
    assert TermsFrom(lc, leaf, 2) == {};
    assert TermsFrom(lc, leaf, 1) == {Term("", one)};
    assert LeafTerms(lc, leaf) == {Term(a, one), Term("", one)};
    assert path[1..] == [""];
  }

  /** The leaves of an object are those of its members, each under its lower-cased name; those of an array are its
      elements', under the array's own path. */
  lemma {:induction false} LeavesInside(lc: char -> char, path: seq<string>, ms: seq<Member>, es: seq<Json>, leaf: Leaf)
    ensures leaf in Leaves(lc, path, Obj(ms)) <==>
            exists i :: 0 <= i < |ms| && leaf in Leaves(lc, path + [Lower(lc, ms[i].name)], ms[i].value)
    ensures leaf in Leaves(lc, path, Arr(es)) <==> exists i :: 0 <= i < |es| && leaf in Leaves(lc, path, es[i])
    decreases |ms| + |es|
  {
    if ms != [] {
      LeavesInside(lc, path, ms[..|ms| - 1], [], leaf);
      assert forall i :: 0 <= i < |ms| - 1 ==> ms[..|ms| - 1][i] == ms[i];
    }
    if es != [] {
      LeavesInside(lc, path, [], es[..|es| - 1], leaf);
      assert forall i :: 0 <= i < |es| - 1 ==> es[..|es| - 1][i] == es[i];
    }
  }

  /** How a scalar is searched: a string or a number by its text, a boolean by its name, null by nothing. */
  lemma ScalarTerms(lc: char -> char, s: string)
    ensures DocTerms(lc, Str(s)) == {Term(Lower(lc, "a"), Lower(lc, s))}
    ensures DocTerms(lc, Num(s)) == {Term(Lower(lc, "a"), Lower(lc, s))}
    ensures DocTerms(lc, Bool(true)) == {Term(Lower(lc, "a"), Lower(lc, "true"))}
    ensures DocTerms(lc, Bool(false)) == {Term(Lower(lc, "a"), Lower(lc, "false"))}
    ensures DocTerms(lc, Null) == {Term(Lower(lc, "a"), "")}
  {
    OneScalar(lc, Str(s));
    OneScalar(lc, Num(s));
    OneScalar(lc, Bool(true));
    OneScalar(lc, Bool(false));
    OneScalar(lc, Null);
  }

  /** The terms of a document whose one member, "a", holds a value. */
  function DocTerms(lc: char -> char, v: Json): set<Term> {
    AllTerms(lc, Leaves(lc, [], Obj([Member("a", v)])))
  }

  lemma OneScalar(lc: char -> char, v: Json)
    requires !v.Obj? && !v.Arr?
    ensures DocTerms(lc, v) == {Term(Lower(lc, "a"), Lower(lc, ScalarString(v)))}
  {
    var a := Lower(lc, "a");
    var leaf := Leaf([a], ScalarString(v));
    OnlyMember(lc, [], Member("a", v));
    assert [] + [a] == [a];
    assert SuffixKey([a], 1) == "" && SuffixKey([a], 0) == a;
    assert TermsFrom(lc, leaf, 1) == {};
    assert LeafTerms(lc, leaf) == {Term(a, Lower(lc, leaf.text))};
  }

  lemma OnlyMember(lc: char -> char, path: seq<string>, m: Member)
    ensures Leaves(lc, path, Obj([m])) == Leaves(lc, path + [Lower(lc, m.name)], m.value)
  {
    assert [m][..0] == [];
    assert MemberLeaves(lc, path, [m][..0]) == {};
  }

  lemma TermsUnion(lc: char -> char, a: set<Leaf>, b: set<Leaf>)
    ensures AllTerms(lc, a + b) == AllTerms(lc, a) + AllTerms(lc, b)
  {
  }

  lemma MembersGrow(lc: char -> char, path: seq<string>, members: seq<Member>, i: nat)
    requires i < |members|
    ensures AllTerms(lc, MemberLeaves(lc, path, members[..i + 1])) == AllTerms(lc, MemberLeaves(lc, path, members[..i]))
            + AllTerms(lc, Leaves(lc, path + [Lower(lc, members[i].name)], members[i].value))
  {
    assert members[..i + 1][..i] == members[..i];
    TermsUnion(lc, MemberLeaves(lc, path, members[..i]), Leaves(lc, path + [Lower(lc, members[i].name)], members[i].value));
  }

  lemma ElemsGrow(lc: char -> char, path: seq<string>, elems: seq<Json>, i: nat)
    requires i < |elems|
    ensures AllTerms(lc, ElemLeaves(lc, path, elems[..i + 1]))
            == AllTerms(lc, ElemLeaves(lc, path, elems[..i])) + AllTerms(lc, Leaves(lc, path, elems[i]))
  {
    assert elems[..i + 1][..i] == elems[..i];
    TermsUnion(lc, ElemLeaves(lc, path, elems[..i]), Leaves(lc, path, elems[i]));
  }

  lemma OneLeaf(lc: char -> char, leaf: Leaf)
    ensures AllTerms(lc, {leaf}) == LeafTerms(lc, leaf)
  {
  }

  /** The field/value pairs of a field map. */
  function TermsOf(fields: Fields): set<Term> {
    set f, v | f in fields && v in fields[f] :: Term(f, v)
  }

  function Append(fields: Fields, key: string, val: string): Fields {
    fields[key := (if key in fields then fields[key] else []) + [val]]
  }

  lemma AppendAddsTerm(fields: Fields, key: string, val: string)
    ensures TermsOf(Append(fields, key, val)) == TermsOf(fields) + {Term(key, val)}
    ensures NoEmptyField(fields) ==> NoEmptyField(Append(fields, key, val))
  {
    var more := Append(fields, key, val);
    forall t
      ensures t in TermsOf(more) <==> t in TermsOf(fields) + {Term(key, val)}
    {
      assert t.field in more && t.value in more[t.field] ==>
               (t.field in fields && t.value in fields[t.field]) || t == Term(key, val);
      assert key in more && val in more[key];
    }
  }

  /** The walk over one document, filling one field map. */
  class Walker {
    const lc: char -> char
    var fields: Fields

    constructor (lc: char -> char)
      ensures this.lc == lc && fields == map[]
    {
      this.lc := lc;
      fields := map[];
    }

    /** add: record a leaf under each suffix of its path, each key built from the next shorter one. */
    method Add(path: seq<string>, text: string)
      requires NoEmptyField(fields)
      modifies this
      ensures NoEmptyField(fields)
      ensures TermsOf(fields) == old(TermsOf(fields)) + LeafTerms(lc, Leaf(path, text))
    {
      var val := Lower(lc, text);
      var key := "";
      var i := |path|;
      while i > 0
        invariant 0 <= i <= |path| && key == SuffixKey(path, i)
        invariant NoEmptyField(fields)
        invariant TermsOf(fields) == old(TermsOf(fields)) + TermsFrom(lc, Leaf(path, text), i)
      {
        i := i - 1;
        key := if key == "" then path[i] else path[i] + "_" + key;
        AppendAddsTerm(fields, key, val);
        fields := Append(fields, key, val);
      }
    }

    /** walk: visit every scalar at or under `v`. */
    method Walk(path: seq<string>, v: Json)
      requires NoEmptyField(fields)
      modifies this
      ensures NoEmptyField(fields)
      ensures TermsOf(fields) == old(TermsOf(fields)) + AllTerms(lc, Leaves(lc, path, v))
      decreases v
    {
      match v {
        case Obj(members) =>
          for i := 0 to |members|
            invariant NoEmptyField(fields)
            invariant TermsOf(fields) == old(TermsOf(fields)) + AllTerms(lc, MemberLeaves(lc, path, members[..i]))
          {
            var below := path + [Lower(lc, members[i].name)];
            Walk(below, members[i].value);
            MembersGrow(lc, path, members, i);
          }
          assert members[..|members|] == members;
        case Arr(elems) =>
          for i := 0 to |elems|
            invariant NoEmptyField(fields)
            invariant TermsOf(fields) == old(TermsOf(fields)) + AllTerms(lc, ElemLeaves(lc, path, elems[..i]))
          {
            Walk(path, elems[i]);
            ElemsGrow(lc, path, elems, i);
          }
          assert elems[..|elems|] == elems;
        case _ =>
          if path != [] {
            Add(path, ScalarString(v));
            OneLeaf(lc, Leaf(path, ScalarString(v)));
          }
      }
    }
  }

  /** Flatten: the field map of a document carries exactly its leaves under each suffix of their paths, lower-cased,
      and never holds a field without values. */
  method Flatten(lc: char -> char, doc: Json) returns (fields: Fields)
    ensures NoEmptyField(fields)
    ensures TermsOf(fields) == AllTerms(lc, Leaves(lc, [], doc))
  {
    var w := new Walker(lc);
    w.Walk([], doc);
    fields := w.fields;
  }
}
