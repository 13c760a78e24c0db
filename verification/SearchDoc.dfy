/** What a stored document is searched as (internal/api/searchindex.go:51-65, internal/api/search.go:488-524,
    internal/chefjson/chefjson.go:176-215): decoded with the first of repeated names kept, and for a node with its
    attribute levels merged, automatic over override over normal over default. */
module SearchDoc {
  import opened Prelude
  import opened Json
  import opened Manifests
  import opened SearchIndex
  import opened Flatten
  import ChefJson
  import JsonText

  // Decoding

  function Get(members: seq<Member>, name: string): Option<Json> {
    Lookup(FirstWins, members, name)
  }

  predicate Named(members: seq<Member>, name: string) {
    exists i :: 0 <= i < |members| && members[i].name == name
  }

  /** DecodeObject: at every depth, the first member of each name. */
  function FirstOnly(v: Json): Json
    decreases v
  {
    match v
    case Obj(ms) => Obj(FirstMembers(ms))
    case Arr(es) => Arr(FirstElems(es))
    case _ => v
  }

  function FirstMembers(ms: seq<Member>): seq<Member>
    decreases ms
  {
    if ms == [] then []
    else
      var (n, r) := (|ms| - 1, FirstMembers(ms[..|ms| - 1]));
      if Named(r, ms[n].name) then r else r + [Member(ms[n].name, FirstOnly(ms[n].value))]
  }

  function FirstElems(es: seq<Json>): seq<Json>
    decreases es
  {
    if es == [] then [] else FirstElems(es[..|es| - 1]) + [FirstOnly(es[|es| - 1])]
  }

  /** Adding a member at the end shows only under a name that was not there. */
  lemma {:induction false} GetSnoc(ms: seq<Member>, m: Member, name: string)
    ensures Get(ms + [m], name) ==
            if Get(ms, name).Some? then Get(ms, name) else if m.name == name then Some(m.value) else None
  {
    var t := ms + [m];
    if ms == [] {
      assert t == [m] && t[1..] == [];
    } else {
      assert t[1..] == ms[1..] + [m] && t[0] == ms[0];
      GetSnoc(ms[1..], m, name);
    }
  }

  lemma {:induction false} GetNamed(ms: seq<Member>, name: string)
    ensures Get(ms, name).Some? <==> Named(ms, name)
  {
    if ms != [] {
      GetNamed(ms[1..], name);
      if Named(ms, name) {
        var i :| 0 <= i < |ms| && ms[i].name == name;
        assert i > 0 ==> ms[1..][i - 1].name == name;
      }
      if Named(ms[1..], name) {
        var i :| 0 <= i < |ms[1..]| && ms[1..][i].name == name;
        assert ms[i + 1].name == name;
      }
    }
  }

  /** Decoding keeps the first member of each name, decoded. */
  lemma {:induction false} FirstIsKept(ms: seq<Member>, name: string)
    ensures DistinctNames(FirstMembers(ms))
    ensures Get(FirstMembers(ms), name) ==
            if Get(ms, name).Some? then Some(FirstOnly(Get(ms, name).value)) else None
  {
    if ms != [] {
      var (n, r) := (|ms| - 1, FirstMembers(ms[..|ms| - 1]));
      var m := ms[n];
      FirstIsKept(ms[..n], name);
      FirstIsKept(ms[..n], m.name);
      assert ms == ms[..n] + [m];
      GetSnoc(ms[..n], m, name);
      GetNamed(r, m.name);
      if !Named(r, m.name) {
        GetSnoc(r, Member(m.name, FirstOnly(m.value)), name);
      }
    }
  }

  /** So a decoded document repeats no name at any depth. */
  lemma {:induction false} DecodedRepeatsNothing(v: Json)
    ensures NoRepeats(FirstOnly(v))
    decreases v, 1
  {
    match v {
      case Obj(ms) =>
        FirstIsKept(ms, "");
        MembersRepeatNothing(ms);
      case Arr(es) => ElemsRepeatNothing(es);
      case _ =>
    }
  }

  lemma {:induction false} MembersRepeatNothing(ms: seq<Member>)
    ensures forall i :: 0 <= i < |FirstMembers(ms)| ==> NoRepeats(FirstMembers(ms)[i].value)
    decreases ms, 0
  {
    if ms != [] {
      MembersRepeatNothing(ms[..|ms| - 1]);
      DecodedRepeatsNothing(ms[|ms| - 1].value);
    }
  }

  lemma {:induction false} ElemsRepeatNothing(es: seq<Json>)
    ensures forall i :: 0 <= i < |FirstElems(es)| ==> NoRepeats(FirstElems(es)[i])
    decreases es, 0
  {
    if es != [] {
      ElemsRepeatNothing(es[..|es| - 1]);
      DecodedRepeatsNothing(es[|es| - 1]);
    }
  }

  // Merging

  /** dst[name] = v. */
  function Set(ms: seq<Member>, name: string, v: Json): seq<Member> {
    if ms == [] then [Member(name, v)]
    else if ms[0].name == name then [Member(name, v)] + ms[1..]
    else [ms[0]] + Set(ms[1..], name, v)
  }

  lemma {:induction false} GetSet(ms: seq<Member>, name: string, v: Json, other: string)
    ensures Get(Set(ms, name, v), other) == if other == name then Some(v) else Get(ms, other)
  {
    var t := Set(ms, name, v);
    if ms == [] {
      assert t[1..] == [];
    } else if ms[0].name == name {
      assert t[1..] == ms[1..];
    } else {
      assert t[1..] == Set(ms[1..], name, v);
      GetSet(ms[1..], name, v, other);
    }
  }

  /** deepMerge: the members of `src` over those of `dst`, objects merged. */
  function Merge(dst: seq<Member>, src: seq<Member>): seq<Member>
    decreases src
  {
    if src == [] then dst
    else
      var m := src[|src| - 1];
      var done := Merge(dst, src[..|src| - 1]);
      Set(done, m.name, match m.value
                        case Obj(sub) => Obj(Merge(Members(Get(done, m.name)), sub))
                        case v => v)
  }

  /** The members of an object; none of anything else. */
  function Members(v: Option<Json>): seq<Member> {
    if v.Some? && v.value.Obj? then v.value.members else []
  }

  /** What one name holds after a merge. */
  function MergedAt(d: Option<Json>, s: Option<Json>): Option<Json> {
    if s.None? then d else if s.value.Obj? then Some(Obj(Merge(Members(d), s.value.members))) else s
  }

  lemma {:induction false} GetMerge(dst: seq<Member>, src: seq<Member>, name: string)
    requires DistinctNames(src)
    ensures Get(Merge(dst, src), name) == MergedAt(Get(dst, name), Get(src, name))
    decreases |src|
  {
    if src != [] {
      var n := |src| - 1;
      var (m, before) := (src[n], src[..n]);
      GetMerge(dst, before, name);
      GetMerge(dst, before, m.name);
      assert src == before + [m];
      GetSnoc(before, m, name);
      GetNamed(before, m.name);
      var done := Merge(dst, before);
      var v := match m.value case Obj(sub) => Obj(Merge(Members(Get(done, m.name)), sub)) case x => x;
      GetSet(done, m.name, v, name);
    }
  }

  // Precedence

  predicate Names(path: seq<Place>) {
    forall i :: 0 <= i < |path| ==> path[i].Name?
  }

  /** The value at a path of names. */
  function Value(v: Json, path: seq<Place>): Option<Json> {
    At(FirstWins, v, path)
  }

  /** Nothing is said at the path: objects lead along it until a name is missing. */
  predicate Silent(v: Json, path: seq<Place>)
    decreases |path|
  {
    && path != [] && path[0].Name? && v.Obj?
    && (Get(v.members, path[0].name).Some? ==> Silent(Get(v.members, path[0].name).value, path[1..]))
  }

  predicate IsLeaf(v: Option<Json>) {
    v.Some? && !v.value.Obj?
  }

  lemma {:induction false} NoRepeatsInside(v: Json, name: string)
    requires v.Obj? && NoRepeats(v) && Get(v.members, name).Some?
    ensures NoRepeats(Get(v.members, name).value)
  {
    var i := FoundIsLive(FirstWins, v.members, name);
  }

  lemma ValueStep(v: Json, path: seq<Place>)
    requires Names(path) && path != []
    ensures Value(v, path) ==
            if v.Obj? && Get(v.members, path[0].name).Some? then Value(Get(v.members, path[0].name).value, path[1..]) else None
    ensures forall x :: Value(x, []) == Some(x)
  {
  }

  /** What the upper level says at a path is what the merge says there. */
  lemma {:induction false} UpperWins(dst: seq<Member>, src: seq<Member>, path: seq<Place>)
    requires NoRepeats(Obj(src)) && Names(path) && path != [] && IsLeaf(Value(Obj(src), path))
    ensures Value(Obj(Merge(dst, src)), path) == Value(Obj(src), path)
    decreases |path|
  {
    var (name, rest) := (path[0].name, path[1..]);
    GetMerge(dst, src, name);
    ValueStep(Obj(src), path);
    ValueStep(Obj(Merge(dst, src)), path);
    if rest == [] {
      assert Value(Get(src, name).value, []) == Some(Get(src, name).value);
    } else {
      NoRepeatsInside(Obj(src), name);
      ValueStep(Get(src, name).value, rest);
      UpperWins(Members(Get(dst, name)), Get(src, name).value.members, rest);
    }
  }

  /** Where the upper level is silent, the merge says what the lower one does. */
  lemma {:induction false} LowerShows(dst: seq<Member>, src: seq<Member>, path: seq<Place>)
    requires NoRepeats(Obj(src)) && Names(path) && Silent(Obj(src), path)
    ensures Value(Obj(Merge(dst, src)), path) == Value(Obj(dst), path)
    decreases |path|
  {
    var (name, rest) := (path[0].name, path[1..]);
    GetMerge(dst, src, name);
    ValueStep(Obj(dst), path);
    ValueStep(Obj(Merge(dst, src)), path);
    if Get(src, name).Some? {
      var d := Get(dst, name);
      NoRepeatsInside(Obj(src), name);
      LowerShows(Members(d), Get(src, name).value.members, rest);
      ValueStep(Obj([]), rest);
      if d.Some? {
        ValueStep(d.value, rest);
      }
    }
  }

  // Nodes

  const LEVELS := ["default", "normal", "override", "automatic"]

  /** The attributes at one level of a node; none when the level holds no object. */
  function Level(node: seq<Member>, level: string): seq<Member> {
    Members(Get(node, level))
  }

  /** The levels from the first to the k-th merged, each over the ones before it. */
  function Merged(node: seq<Member>, k: nat): seq<Member>
    requires k <= |LEVELS|
  {
    if k == 0 then [] else Merge(Merged(node, k - 1), Level(node, LEVELS[k - 1]))
  }

  /** Each member of `top` set over those of `base`. */
  function Overlay(base: seq<Member>, top: seq<Member>): seq<Member>
    decreases |top|
  {
    if top == [] then base
    else Set(Overlay(base, top[..|top| - 1]), top[|top| - 1].name, top[|top| - 1].value)
  }

  /** nodeSearchDoc. */
  function NodeView(node: seq<Member>): seq<Member> {
    Overlay(node, Merged(node, 4))
  }

  lemma {:induction false} GetOverlay(base: seq<Member>, top: seq<Member>, name: string)
    requires DistinctNames(top)
    ensures Get(Overlay(base, top), name) == if Get(top, name).Some? then Get(top, name) else Get(base, name)
    decreases |top|
  {
    if top != [] {
      var n := |top| - 1;
      GetOverlay(base, top[..n], name);
      assert top == top[..n] + [top[n]];
      GetSnoc(top[..n], top[n], name);
      GetNamed(top[..n], top[n].name);
      GetSet(Overlay(base, top[..n]), top[n].name, top[n].value, name);
    }
  }

  lemma {:induction false} DistinctCons(m: Member, ms: seq<Member>)
    requires Get(ms, m.name).None? && DistinctNames(ms)
    ensures DistinctNames([m] + ms)
  {
    GetNamed(ms, m.name);
    assert forall i :: 0 <= i < |ms| ==> ms[i].name != m.name;
  }

  lemma {:induction false} DistinctHead(ms: seq<Member>)
    requires ms != [] && DistinctNames(ms)
    ensures Get(ms[1..], ms[0].name).None? && DistinctNames(ms[1..])
  {
    GetNamed(ms[1..], ms[0].name);
    assert forall i :: 0 <= i < |ms[1..]| ==> ms[1..][i] == ms[i + 1];
  }

  lemma {:induction false} SetKeepsDistinct(ms: seq<Member>, name: string, v: Json)
    requires DistinctNames(ms)
    ensures DistinctNames(Set(ms, name, v))
  {
    if ms != [] {
      DistinctHead(ms);
      if ms[0].name == name {
        DistinctCons(Member(name, v), ms[1..]);
      } else {
        SetKeepsDistinct(ms[1..], name, v);
        GetSet(ms[1..], name, v, ms[0].name);
        DistinctCons(ms[0], Set(ms[1..], name, v));
      }
    }
  }

  lemma {:induction false} MergeKeepsDistinct(dst: seq<Member>, src: seq<Member>)
    requires DistinctNames(dst)
    ensures DistinctNames(Merge(dst, src))
    decreases |src|
  {
    if src != [] {
      var m := src[|src| - 1];
      var done := Merge(dst, src[..|src| - 1]);
      MergeKeepsDistinct(dst, src[..|src| - 1]);
      SetKeepsDistinct(done, m.name, match m.value
                                     case Obj(sub) => Obj(Merge(Members(Get(done, m.name)), sub))
                                     case v => v);
    }
  }

  lemma {:induction false} MergedIsDistinct(node: seq<Member>, k: nat)
    requires k <= |LEVELS|
    ensures DistinctNames(Merged(node, k))
  {
    if k > 0 {
      MergedIsDistinct(node, k - 1);
      MergeKeepsDistinct(Merged(node, k - 1), Level(node, LEVELS[k - 1]));
    }
  }

  lemma LevelNoRepeats(node: seq<Member>, level: string)
    requires NoRepeats(Obj(node))
    ensures NoRepeats(Obj(Level(node, level)))
  {
    if Get(node, level).Some? {
      NoRepeatsInside(Obj(node), level);
    }
  }

  /** Whether the levels from `i` to before `k` are all silent at a path. */
  predicate SilentAbove(node: seq<Member>, i: nat, k: nat, path: seq<Place>)
    requires k <= |LEVELS|
  {
    forall j :: i <= j < k ==> Silent(Obj(Level(node, LEVELS[j])), path)
  }

  /** Precedence: an attribute set at one level, with every higher level silent about it, is what the merge holds. */
  lemma {:induction false} HighestLevelShows(node: seq<Member>, i: nat, k: nat, path: seq<Place>)
    requires i < k <= |LEVELS| && NoRepeats(Obj(node)) && Names(path) && path != []
    requires IsLeaf(Value(Obj(Level(node, LEVELS[i])), path)) && SilentAbove(node, i + 1, k, path)
    ensures Value(Obj(Merged(node, k)), path) == Value(Obj(Level(node, LEVELS[i])), path)
  {
    LevelNoRepeats(node, LEVELS[k - 1]);
    if k == i + 1 {
      UpperWins(Merged(node, i), Level(node, LEVELS[i]), path);
    } else {
      HighestLevelShows(node, i, k - 1, path);
      LowerShows(Merged(node, k - 1), Level(node, LEVELS[k - 1]), path);
    }
  }

  /** So a node is searched by the attribute of the highest level that sets it. */
  lemma NodeShowsHighest(node: seq<Member>, i: nat, path: seq<Place>)
    requires i < 4 && NoRepeats(Obj(node)) && Names(path) && path != []
    requires IsLeaf(Value(Obj(Level(node, LEVELS[i])), path)) && SilentAbove(node, i + 1, 4, path)
    ensures Value(Obj(NodeView(node)), path) == Value(Obj(Level(node, LEVELS[i])), path)
  {
    HighestLevelShows(node, i, 4, path);
    var merged := Merged(node, 4);
    MergedIsDistinct(node, 4);
    GetOverlay(node, merged, path[0].name);
    ValueStep(Obj(merged), path);
    ValueStep(Obj(NodeView(node)), path);
  }

  // The same by the names of the levels

  /** A node sets an attribute at a level: something other than an object is at the path under it. */
  predicate Sets(node: seq<Member>, level: string, path: seq<Place>) {
    IsLeaf(Value(Obj(node), [Name(level)] + path))
  }

  /** A node leaves a path open at a level: it has no object under the level's name, or one that is silent there. */
  predicate Open(node: seq<Member>, level: string, path: seq<Place>) {
    var v := Get(node, level);
    v.Some? && v.value.Obj? ==> Silent(v.value, path)
  }

  /** What a node says at a level. */
  function Says(node: seq<Member>, level: string, path: seq<Place>): Option<Json> {
    Value(Obj(node), [Name(level)] + path)
  }

  lemma LevelSays(node: seq<Member>, level: string, path: seq<Place>)
    requires Names(path) && path != []
    ensures Value(Obj(Level(node, level)), path) == Says(node, level, path)
    ensures Open(node, level, path) ==> Silent(Obj(Level(node, level)), path)
  {
    var full := [Name(level)] + path;
    assert full[1..] == path && full[0] == Name(level);
    ValueStep(Obj(node), full);
    ValueStep(Obj(Level(node, level)), path);
    if Get(node, level).Some? {
      ValueStep(Get(node, level).value, path);
    }
  }

  lemma LevelShows(node: seq<Member>, i: nat, path: seq<Place>)
    requires i < 4 && NoRepeats(Obj(node)) && Names(path) && path != [] && Sets(node, LEVELS[i], path)
    requires forall j :: i < j < 4 ==> Open(node, LEVELS[j], path)
    ensures Value(Obj(NodeView(node)), path) == Says(node, LEVELS[i], path)
  {
    LevelSays(node, LEVELS[i], path);
    forall j | i < j < 4
      ensures Silent(Obj(Level(node, LEVELS[j])), path)
    {
      LevelSays(node, LEVELS[j], path);
    }
    NodeShowsHighest(node, i, path);
  }

  /** Precedence: at any path, automatic shows over override over normal over default. */
  lemma NodePrecedence(node: seq<Member>, path: seq<Place>)
    requires NoRepeats(Obj(node)) && Names(path) && path != []
    ensures Sets(node, "automatic", path) ==> Value(Obj(NodeView(node)), path) == Says(node, "automatic", path)
    ensures Sets(node, "override", path) && Open(node, "automatic", path) ==>
              Value(Obj(NodeView(node)), path) == Says(node, "override", path)
    ensures Sets(node, "normal", path) && Open(node, "override", path) && Open(node, "automatic", path) ==>
              Value(Obj(NodeView(node)), path) == Says(node, "normal", path)
    ensures Sets(node, "default", path) && Open(node, "normal", path) && Open(node, "override", path)
            && Open(node, "automatic", path) ==>
              Value(Obj(NodeView(node)), path) == Says(node, "default", path)
  {
    if Sets(node, "automatic", path) {
      LevelShows(node, 3, path);
    }
    if Sets(node, "override", path) && Open(node, "automatic", path) {
      LevelShows(node, 2, path);
    }
    if Sets(node, "normal", path) && Open(node, "override", path) && Open(node, "automatic", path) {
      LevelShows(node, 1, path);
    }
    if Sets(node, "default", path) && Open(node, "normal", path) && Open(node, "override", path) && Open(node, "automatic", path) {
      LevelShows(node, 0, path);
    }
  }

  lemma {:induction false} NoLevelNames(node: seq<Member>, k: nat, name: string)
    requires k <= 4 && NoRepeats(Obj(node)) && forall i :: 0 <= i < k ==> Get(Level(node, LEVELS[i]), name).None?
    ensures Get(Merged(node, k), name).None?
  {
    if k > 0 {
      NoLevelNames(node, k - 1, name);
      LevelNoRepeats(node, LEVELS[k - 1]);
      GetMerge(Merged(node, k - 1), Level(node, LEVELS[k - 1]), name);
    }
  }

  /** Below the levels are the node's own members: a name no level has is searched as the node has it. */
  lemma OwnMemberShows(node: seq<Member>, path: seq<Place>)
    requires NoRepeats(Obj(node)) && Names(path) && path != []
    requires forall level :: level in {"default", "normal", "override", "automatic"} ==>
               Value(Obj(node), [Name(level), path[0]]).None?
    ensures Value(Obj(NodeView(node)), path) == Value(Obj(node), path)
  {
    var name := path[0].name;
    forall i | 0 <= i < 4
      ensures Get(Level(node, LEVELS[i]), name).None?
    {
      LevelHas(node, LEVELS[i], name);
      assert [Name(LEVELS[i]), path[0]] == [Name(LEVELS[i]), Name(name)];
    }
    NoLevelNames(node, 4, name);
    MergedIsDistinct(node, 4);
    GetOverlay(node, Merged(node, 4), name);
    ValueStep(Obj(node), path);
    ValueStep(Obj(NodeView(node)), path);
  }

  lemma LevelHas(node: seq<Member>, level: string, name: string)
    ensures Get(Level(node, level), name) == Value(Obj(node), [Name(level), Name(name)])
  {
    var path := [Name(name)];
    assert [Name(level)] + path == [Name(level), Name(name)] && path[1..] == [];
    LevelSays(node, level, path);
    ValueStep(Obj(Level(node, level)), path);
  }

  // Terms

  function LowerNames(lc: char -> char, path: seq<Place>): (r: seq<string>)
    requires Names(path)
    ensures |r| == |path|
  {
    seq(|path|, i requires 0 <= i < |path| => Lower(lc, path[i].name))
  }

  lemma {:induction false} MemberLeavesHave(lc: char -> char, at: seq<string>, ms: seq<Member>, i: nat)
    requires i < |ms|
    ensures Leaves(lc, at + [Lower(lc, ms[i].name)], ms[i].value) <= MemberLeaves(lc, at, ms)
  {
    var n := |ms| - 1;
    if i < n {
      MemberLeavesHave(lc, at, ms[..n], i);
    }
  }

  /** A scalar at a path of names is a leaf under their lower-cased forms. */
  lemma {:induction false} ScalarIsLeaf(lc: char -> char, at: seq<string>, v: Json, path: seq<Place>, x: Json)
    requires Names(path) && Value(v, path) == Some(x) && !x.Obj? && !x.Arr? && at + LowerNames(lc, path) != []
    ensures Leaf(at + LowerNames(lc, path), ScalarString(x)) in Leaves(lc, at, v)
    decreases |path|
  {
    if path == [] {
      assert Value(v, []) == Some(v) && at + LowerNames(lc, path) == at;
    } else {
      ValueStep(v, path);
      var name := path[0].name;
      var i := FoundIsLive(FirstWins, v.members, name);
      var deeper := at + [Lower(lc, name)];
      assert deeper + LowerNames(lc, path[1..]) == at + LowerNames(lc, path);
      ScalarIsLeaf(lc, deeper, v.members[i].value, path[1..], x);
      MemberLeavesHave(lc, at, v.members, i);
    }
  }

  lemma LeafIsIndexed(lc: char -> char, leaves: set<Leaf>, leaf: Leaf, i: nat)
    requires leaf in leaves && i < |leaf.path|
    ensures Term(SuffixKey(leaf.path, i), Lower(lc, leaf.text)) in AllTerms(lc, leaves)
  {
    var t := Term(SuffixKey(leaf.path, i), Lower(lc, leaf.text));
    assert IsSuffixKey(leaf.path, 0, t.field);
    TermsAreSuffixes(lc, leaf, 0, t);
    assert t in LeafTerms(lc, leaf);
  }

  /** A scalar at a path of names is found under every suffix of the path. */
  lemma ScalarIsIndexed(lc: char -> char, v: Json, path: seq<Place>, x: Json, i: nat)
    requires Names(path) && i < |path| && Value(v, path) == Some(x) && !x.Obj? && !x.Arr?
    ensures Term(SuffixKey(LowerNames(lc, path), i), Lower(lc, ScalarString(x))) in AllTerms(lc, Leaves(lc, [], v))
  {
    assert [] + LowerNames(lc, path) == LowerNames(lc, path);
    ScalarIsLeaf(lc, [], v, path, x);
    LeafIsIndexed(lc, Leaves(lc, [], v), Leaf(LowerNames(lc, path), ScalarString(x)), i);
  }

  /** So a node's automatic attribute is indexed from its bytes, under every suffix of the attribute's path. */
  lemma AutomaticIsIndexed(lc: char -> char, raw: string, node: seq<Member>, path: seq<Place>, x: Json, i: nat)
    requires JsonText.ReadText(raw).Some? && FirstOnly(ChefJson.Tree(JsonText.ReadText(raw).value)) == Obj(node)
    requires Names(path) && i < |path| && Says(node, "automatic", path) == Some(x) && !x.Obj? && !x.Arr?
    ensures Searchable(true, raw).Some?
    ensures Term(SuffixKey(LowerNames(lc, path), i), Lower(lc, ScalarString(x))) in
            AllTerms(lc, Leaves(lc, [], Searchable(true, raw).value))
  {
    DecodedRepeatsNothing(ChefJson.Tree(JsonText.ReadText(raw).value));
    NodePrecedence(node, path);
    ScalarIsIndexed(lc, Obj(NodeView(node)), path, x, i);
  }

  // The handlers

  method DeepMerge(dst: seq<Member>, src: seq<Member>) returns (out: seq<Member>)
    ensures out == Merge(dst, src)
    decreases src
  {
    out := dst;
    for i := 0 to |src|
      invariant out == Merge(dst, src[..i])
    {
      var m := src[i];
      assert src[..i + 1][..i] == src[..i];
      if m.value.Obj? {
        var had := Get(out, m.name);
        var sub := DeepMerge(Members(had), m.value.members);
        out := Set(out, m.name, Obj(sub));
      } else {
        out := Set(out, m.name, m.value);
      }
    }
    assert src[..|src|] == src;
  }

  method NodeSearchDoc(node: seq<Member>) returns (out: seq<Member>)
    ensures out == NodeView(node)
  {
    var merged: seq<Member> := [];
    for k := 0 to |LEVELS|
      invariant merged == Merged(node, k)
    {
      merged := DeepMerge(merged, Level(node, LEVELS[k]));
    }
    out := node;
    for i := 0 to |merged|
      invariant out == Overlay(node, merged[..i])
    {
      assert merged[..i + 1][..i] == merged[..i];
      out := Set(out, merged[i].name, merged[i].value);
    }
    assert merged[..|merged|] == merged;
  }

  /** What the bytes of a document are searched as; None when they are no JSON object. */
  function Searchable(merge: bool, raw: string): Option<Json> {
    match JsonText.ReadText(raw)
    case None => None
    case Some(d) =>
      match FirstOnly(ChefJson.Tree(d))
      case Obj(ms) => Some(Obj(if merge then NodeView(ms) else ms))
      case _ => None
  }

  method ReadSearchable(merge: bool, raw: string) returns (r: Option<Json>)
    ensures r == Searchable(merge, raw)
  {
    var doc := JsonText.ReadText(raw);
    if doc.None? {
      return None;
    }
    var v := FirstOnly(ChefJson.Tree(doc.value));
    if !v.Obj? {
      return None;
    }
    var members := v.members;
    if merge {
      members := NodeSearchDoc(members);
    }
    return Some(Obj(members));
  }

  /** putRaw: index a document from its stored bytes; one that does not decode is removed. */
  method PutRaw(lc: char -> char, merge: bool, c: CollIndex, id: string, raw: string)
    requires c.Valid()
    modifies c
    ensures c.Valid() && c.docs - {id} == old(c.docs) - {id}
    ensures Searchable(merge, raw).None? ==> id !in c.docs
    ensures Searchable(merge, raw).Some? ==>
              id in c.docs && TermsOf(c.docs[id]) == AllTerms(lc, Leaves(lc, [], Searchable(merge, raw).value))
  {
    var searchable := ReadSearchable(merge, raw);
    if searchable.None? {
      c.Remove(id);
      return;
    }
    var fields := Flatten.Flatten(lc, searchable.value);
    c.Put(id, fields);
  }
}
