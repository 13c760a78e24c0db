/** Cookbook manifests as decoded JSON objects: the checksums a manifest names and the cookbooks it depends on
    (internal/api/cookbooks.go:82-92, 707-737 and 790-808; internal/chefjson/chefjson.go:153-215). Where an object
    repeats a name, one decoder in use keeps the first member and the other the last. */
module Manifests {
  import opened Prelude
  import opened Json

  // Reading objects

  /** chefjson.DecodeObject keeps the first of repeated members, json.Unmarshal the last. */
  datatype Reading = FirstWins | LastWins

  /** The member a decoded object holds under a name. */
  function Lookup(r: Reading, members: seq<Member>, name: string): Option<Json> {
    if members == [] then None
    else
      var rest := Lookup(r, members[1..], name);
      if members[0].name == name && (r.FirstWins? || rest.None?) then Some(members[0].value) else rest
  }

  /** Whether the decoder keeps a member. */
  predicate Live(r: Reading, members: seq<Member>, i: nat)
    requires i < |members|
  {
    match r
    case FirstWins => forall j :: 0 <= j < i ==> members[j].name != members[i].name
    case LastWins => forall j :: i < j < |members| ==> members[j].name != members[i].name
  }

  lemma {:induction false} LookupAbsent(r: Reading, members: seq<Member>, name: string)
    requires forall j :: 0 <= j < |members| ==> members[j].name != name
    ensures Lookup(r, members, name).None?
  {
    if members != [] {
      LookupAbsent(r, members[1..], name);
    }
  }

  lemma {:induction false} LiveIsFound(r: Reading, members: seq<Member>, i: nat)
    requires i < |members| && Live(r, members, i)
    ensures Lookup(r, members, members[i].name) == Some(members[i].value)
  {
    if i == 0 {
      if r.LastWins? {
        LookupAbsent(r, members[1..], members[0].name);
      }
    } else {
      LiveIsFound(r, members[1..], i - 1);
    }
  }

  lemma {:induction false} FoundIsLive(r: Reading, members: seq<Member>, name: string) returns (i: nat)
    requires Lookup(r, members, name).Some?
    ensures i < |members| && Live(r, members, i)
    ensures members[i].name == name && Some(members[i].value) == Lookup(r, members, name)
  {
    if Lookup(r, members[1..], name).Some? && !(members[0].name == name && r.FirstWins?) {
      i := FoundIsLive(r, members[1..], name);
      i := i + 1;
    } else {
      i := 0;
      if r.LastWins? {
        assert forall j :: 0 < j < |members| ==> members[j] == members[1..][j - 1];
        LastIsLast(members[1..], name);
      }
    }
  }

  lemma {:induction false} LastIsLast(members: seq<Member>, name: string)
    requires Lookup(LastWins, members, name).None?
    ensures forall j :: 0 <= j < |members| ==> members[j].name != name
  {
    if members != [] {
      LastIsLast(members[1..], name);
    }
  }

  /** manifestDependencies: the names under metadata.dependencies. */
  function Dependencies(v: Json): set<string> {
    match v
    case Obj(ms) =>
      (match Lookup(FirstWins, ms, "metadata")
       case Some(Obj(md)) =>
         (match Lookup(FirstWins, md, "dependencies")
          case Some(Obj(deps)) => set i | 0 <= i < |deps| :: deps[i].name
          case _ => {})
       case _ => {})
    case _ => {}
  }

  // Which documents decode

  /** Every number literal is one `fits` takes. */
  predicate NumbersFit(fits: string -> bool, v: Json) {
    match v
    case Num(lit) => fits(lit)
    case Obj(ms) => forall i :: 0 <= i < |ms| ==> NumbersFit(fits, ms[i].value)
    case Arr(es) => forall i :: 0 <= i < |es| ==> NumbersFit(fits, es[i])
    case _ => true
  }

  /** Whether json.Unmarshal reads a document into a map: it refuses one with a number beyond a double anywhere, which
      chefjson.DecodeObject keeps as its literal. */
  predicate Decodes(fits: string -> bool, v: Json) {
    v.Obj? && NumbersFit(fits, v)
  }

  // Checksums

  /** The checksum an object itself carries. */
  function OwnSum(r: Reading, members: seq<Member>): set<string> {
    match Lookup(r, members, "checksum")
    case Some(Str(s)) => {s}
    case _ => {}
  }

  /** The checksums of every object anywhere in a value. */
  function Checksums(r: Reading, v: Json): set<string>
    decreases v
  {
    match v
    case Obj(ms) => OwnSum(r, ms) + MemberSums(r, ms, |ms|)
    case Arr(es) => ElemSums(r, es)
    case _ => {}
  }

  /** Those of the first `n` members. */
  function MemberSums(r: Reading, members: seq<Member>, n: nat): set<string>
    requires n <= |members|
    decreases members, n
  {
    if n == 0 then {}
    else
      MemberSums(r, members, n - 1) + if Live(r, members, n - 1) then Checksums(r, members[n - 1].value) else {}
  }

  function ElemSums(r: Reading, elems: seq<Json>): set<string>
    decreases elems
  {
    if elems == [] then {} else Checksums(r, elems[0]) + ElemSums(r, elems[1..])
  }

  // Places in a document

  datatype Place = Name(name: string) | Index(i: nat)

  /** The value directly under a place. */
  function Child(r: Reading, v: Json, place: Place): Option<Json> {
    if place.Name? then (if v.Obj? then Lookup(r, v.members, place.name) else None)
    else if v.Arr? && place.i < |v.elems| then Some(v.elems[place.i])
    else None
  }

  /** The value at a path, if there is one. */
  function At(r: Reading, v: Json, path: seq<Place>): Option<Json>
    decreases path
  {
    if path == [] then Some(v)
    else
      var child := Child(r, v, path[0]);
      if child.Some? then At(r, child.value, path[1..]) else None
  }

  const CHECKSUM := [Name("checksum")]

  lemma {:induction false} MemberSumsHave(r: Reading, members: seq<Member>, i: nat, n: nat)
    requires i < n <= |members| && Live(r, members, i)
    ensures Checksums(r, members[i].value) <= MemberSums(r, members, n)
    decreases n
  {
    if i < n - 1 {
      MemberSumsHave(r, members, i, n - 1);
    }
  }

  lemma {:induction false} ElemSumsHave(r: Reading, elems: seq<Json>, i: nat)
    requires i < |elems|
    ensures Checksums(r, elems[i]) <= ElemSums(r, elems)
  {
    if i > 0 {
      ElemSumsHave(r, elems[1..], i - 1);
    }
  }

  lemma {:induction false} FoundInside(r: Reading, v: Json, path: seq<Place>, sum: string)
    requires At(r, v, path + CHECKSUM) == Some(Str(sum))
    ensures sum in Checksums(r, v)
    decreases path
  {
    if path == [] {
      assert path + CHECKSUM == CHECKSUM && CHECKSUM[1..] == [];
      assert At(r, Lookup(r, v.members, "checksum").value, []) == Lookup(r, v.members, "checksum");
    } else {
      assert (path + CHECKSUM)[1..] == path[1..] + CHECKSUM && (path + CHECKSUM)[0] == path[0];
      match path[0] {
        case Name(n) =>
          FoundInside(r, Lookup(r, v.members, n).value, path[1..], sum);
          var i := FoundIsLive(r, v.members, n);
          MemberSumsHave(r, v.members, i, |v.members|);
        case Index(i) =>
          FoundInside(r, v.elems[i], path[1..], sum);
          ElemSumsHave(r, v.elems, i);
      }
    }
  }

  lemma Deeper(r: Reading, v: Json, place: Place, path: seq<Place>, child: Json, sum: string)
    requires At(r, child, path + CHECKSUM) == Some(Str(sum))
    requires Child(r, v, place) == Some(child)
    ensures At(r, v, [place] + path + CHECKSUM) == Some(Str(sum))
  {
    assert ([place] + path + CHECKSUM)[1..] == path + CHECKSUM;
  }

  lemma {:induction false} PathTo(r: Reading, v: Json, sum: string) returns (path: seq<Place>)
    requires sum in Checksums(r, v)
    ensures At(r, v, path + CHECKSUM) == Some(Str(sum))
    decreases v, 1
  {
    if v.Obj? {
      if sum in OwnSum(r, v.members) {
        path := [];
        assert path + CHECKSUM == CHECKSUM && CHECKSUM[1..] == [];
      } else {
        var i, rest := MemberPathTo(r, v.members, |v.members|, sum);
        LiveIsFound(r, v.members, i);
        Deeper(r, v, Name(v.members[i].name), rest, v.members[i].value, sum);
        path := [Name(v.members[i].name)] + rest;
      }
    } else {
      var i, rest := ElemPathTo(r, v.elems, sum);
      Deeper(r, v, Index(i), rest, v.elems[i], sum);
      path := [Index(i)] + rest;
    }
  }

  lemma {:induction false} MemberPathTo(r: Reading, members: seq<Member>, n: nat, sum: string) returns (i: nat, path: seq<Place>)
    requires n <= |members| && sum in MemberSums(r, members, n)
    ensures i < |members| && Live(r, members, i) && At(r, members[i].value, path + CHECKSUM) == Some(Str(sum))
    decreases members, n
  {
    if sum in MemberSums(r, members, n - 1) {
      i, path := MemberPathTo(r, members, n - 1, sum);
    } else {
      i := n - 1;
      path := PathTo(r, members[i].value, sum);
    }
  }

  lemma {:induction false} ElemPathTo(r: Reading, elems: seq<Json>, sum: string) returns (i: nat, path: seq<Place>)
    requires sum in ElemSums(r, elems)
    ensures i < |elems| && At(r, elems[i], path + CHECKSUM) == Some(Str(sum))
    decreases elems, 0
  {
    if sum in ElemSums(r, elems[1..]) {
      i, path := ElemPathTo(r, elems[1..], sum);
      i := i + 1;
    } else {
      i := 0;
      path := PathTo(r, elems[0], sum);
    }
  }

  /** A manifest's checksums are exactly the strings some object in it, at any depth, holds as its checksum. */
  lemma ChecksumsAreEverywhere(r: Reading, v: Json, sum: string)
    ensures sum in Checksums(r, v) <==> exists path: seq<Place> :: At(r, v, path + CHECKSUM) == Some(Str(sum))
  {
    if sum in Checksums(r, v) {
      var path := PathTo(r, v, sum);
    }
    forall path: seq<Place> | At(r, v, path + CHECKSUM) == Some(Str(sum)) ensures sum in Checksums(r, v) {
      FoundInside(r, v, path, sum);
    }
  }

  lemma AtStep(r: Reading, v: Json, name: string, rest: seq<Place>)
    ensures At(r, v, [Name(name)] + rest) ==
            if v.Obj? && Lookup(r, v.members, name).Some? then At(r, Lookup(r, v.members, name).value, rest) else None
  {
    assert ([Name(name)] + rest)[1..] == rest;
  }

  /** A manifest depends on exactly the names under metadata.dependencies. */
  lemma DependenciesAreThere(v: Json, name: string)
    ensures name in Dependencies(v) <==> At(FirstWins, v, [Name("metadata"), Name("dependencies"), Name(name)]).Some?
  {
    var deps := [Name("dependencies")] + [Name(name)];
    assert [Name("metadata"), Name("dependencies"), Name(name)] == [Name("metadata")] + deps;
    AtStep(FirstWins, v, "metadata", deps);
    if v.Obj? && Lookup(FirstWins, v.members, "metadata").Some? {
      var md := Lookup(FirstWins, v.members, "metadata").value;
      AtStep(FirstWins, md, "dependencies", [Name(name)]);
      if md.Obj? && Lookup(FirstWins, md.members, "dependencies").Some? {
        NamesOfObject(Lookup(FirstWins, md.members, "dependencies").value, name);
      }
    }
  }

  lemma NamesOfObject(v: Json, name: string)
    ensures At(FirstWins, v, [Name(name)]).Some? <==> v.Obj? && exists i :: 0 <= i < |v.members| && v.members[i].name == name
  {
    assert [Name(name)] + [] == [Name(name)];
    AtStep(FirstWins, v, name, []);
    if v.Obj? {
      if i :| 0 <= i < |v.members| && v.members[i].name == name {
        FirstIsFound(v.members, i);
      } else {
        LookupAbsent(FirstWins, v.members, name);
      }
    }
  }

  lemma {:induction false} FirstIsFound(members: seq<Member>, i: nat)
    requires i < |members|
    ensures Lookup(FirstWins, members, members[i].name).Some?
  {
    if i > 0 {
      FirstIsFound(members[1..], i - 1);
    }
  }

  // Repeated names

  predicate DistinctNames(members: seq<Member>) {
    forall i, j :: 0 <= i < j < |members| ==> members[i].name != members[j].name
  }

  /** The negation of chefjson.HasRepeatedNames: no object at any depth repeats a name. */
  predicate NoRepeats(v: Json) {
    match v
    case Obj(ms) => DistinctNames(ms) && forall i :: 0 <= i < |ms| ==> NoRepeats(ms[i].value)
    case Arr(es) => forall i :: 0 <= i < |es| ==> NoRepeats(es[i])
    case _ => true
  }

  lemma LookupsAgree(members: seq<Member>, name: string)
    requires DistinctNames(members)
    ensures Lookup(FirstWins, members, name) == Lookup(LastWins, members, name)
  {
    if i :| 0 <= i < |members| && members[i].name == name {
      LiveIsFound(FirstWins, members, i);
      LiveIsFound(LastWins, members, i);
    } else {
      LookupAbsent(FirstWins, members, name);
      LookupAbsent(LastWins, members, name);
    }
  }

  /** On a manifest that repeats no name the two decoders find the same checksums. */
  lemma {:induction false} ReadingsAgree(v: Json)
    requires NoRepeats(v)
    ensures Checksums(FirstWins, v) == Checksums(LastWins, v)
    decreases v, 1
  {
    match v {
      case Obj(ms) =>
        LookupsAgree(ms, "checksum");
        MemberReadingsAgree(ms, |ms|);
      case Arr(es) => ElemReadingsAgree(es);
      case _ =>
    }
  }

  lemma {:induction false} MemberReadingsAgree(members: seq<Member>, n: nat)
    requires n <= |members| && DistinctNames(members) && forall i :: 0 <= i < |members| ==> NoRepeats(members[i].value)
    ensures MemberSums(FirstWins, members, n) == MemberSums(LastWins, members, n)
    decreases members, n
  {
    if n > 0 {
      MemberReadingsAgree(members, n - 1);
      ReadingsAgree(members[n - 1].value);
    }
  }

  lemma {:induction false} ElemReadingsAgree(elems: seq<Json>)
    requires forall i :: 0 <= i < |elems| ==> NoRepeats(elems[i])
    ensures ElemSums(FirstWins, elems) == ElemSums(LastWins, elems)
    decreases elems, 0
  {
    if elems != [] {
      ReadingsAgree(elems[0]);
      ElemReadingsAgree(elems[1..]);
    }
  }

  lemma {:induction false} ScalarMembers(r: Reading, members: seq<Member>, n: nat)
    requires n <= |members| && forall i :: 0 <= i < |members| ==> !members[i].value.Obj? && !members[i].value.Arr?
    ensures MemberSums(r, members, n) == {}
    decreases n
  {
    if n > 0 {
      ScalarMembers(r, members, n - 1);
    }
  }

  /** On one that does, they need not. */
  lemma RepeatsCanDisagree(a: string, b: string) returns (v: Json)
    requires a != b
    ensures v.Obj? && !NoRepeats(v) && Checksums(FirstWins, v) == {a} && Checksums(LastWins, v) == {b}
  {
    var ms := [Member("checksum", Str(a)), Member("checksum", Str(b))];
    v := Obj(ms);
    assert ms[0].name == ms[1].name;
    LiveIsFound(FirstWins, ms, 0);
    LiveIsFound(LastWins, ms, 1);
    ScalarMembers(FirstWins, ms, 2);
    ScalarMembers(LastWins, ms, 2);
  }

  // The walk

  function Elements(s: seq<string>): set<string> {
    set x | x in s
  }

  /** manifestChecksums, with walkFileEntries: every object's own checksum, then those of its members. */
  method ManifestChecksums(r: Reading, v: Json) returns (sums: seq<string>)
    ensures Elements(sums) == Checksums(r, v)
    decreases v
  {
    sums := [];
    match v {
      case Obj(ms) =>
        match Lookup(r, ms, "checksum") {
          case Some(Str(s)) => sums := [s];
          case _ =>
        }
        for i := 0 to |ms|
          invariant Elements(sums) == OwnSum(r, ms) + MemberSums(r, ms, i)
        {
          if Live(r, ms, i) {
            var more := ManifestChecksums(r, ms[i].value);
            assert Elements(sums + more) == Elements(sums) + Elements(more);
            sums := sums + more;
          }
        }
      case Arr(es) =>
        var i := |es|;
        while i > 0
          invariant 0 <= i <= |es|
          invariant Elements(sums) == ElemSums(r, es[i..])
        {
          i := i - 1;
          assert es[i..][1..] == es[i + 1..];
          var more := ManifestChecksums(r, es[i]);
          assert Elements(sums + more) == Elements(sums) + Elements(more);
          sums := sums + more;
        }
        assert es[0..] == es;
      case _ =>
    }
  }
}
