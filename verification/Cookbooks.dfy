/** Which cookbook versions an environment offers (internal/api/cookbooks.go:301-319,
    internal/api/environment_subendpoints.go:61-82). */
module Cookbooks {
  import opened Prelude
  import opened Versions
  import opened Constraints

  function CookbookKey(name: string, version: string): string {
    name + "/" + version
  }

  // Listing versions

  predicate AllValid(vs: seq<string>) {
    forall i :: 0 <= i < |vs| ==> Valid(vs[i])
  }

  predicate NewestFirst(vs: seq<string>) {
    forall i, j :: 0 <= i < j < |vs| ==> Compare(vs[i], vs[j]) >= 0
  }

  /** Where a version goes: before the first one it is above. */
  function Slot(v: string, vs: seq<string>): (i: nat)
    ensures i <= |vs| && (forall j :: 0 <= j < i ==> Compare(v, vs[j]) <= 0) && (i < |vs| ==> Compare(v, vs[i]) > 0)
  {
    if vs == [] || Compare(v, vs[0]) > 0 then 0 else Slot(v, vs[1..]) + 1
  }

  lemma SlotBefore(v: string, vs: seq<string>, i: nat)
    requires Valid(v) && AllValid(vs) && i < Slot(v, vs)
    ensures Compare(vs[i], v) >= 0
  {
    CompareIsAntisymmetric(v, vs[i]);
  }

  lemma SlotAfter(v: string, vs: seq<string>, j: nat)
    requires Valid(v) && AllValid(vs) && NewestFirst(vs) && Slot(v, vs) <= j < |vs|
    ensures Compare(v, vs[j]) >= 0
  {
    var k := Slot(v, vs);
    CompareIsAntisymmetric(v, vs[k]);
    if k < j {
      CompareIsAntisymmetric(vs[k], vs[j]);
      CompareIsTransitive(vs[j], vs[k], v);
      CompareIsAntisymmetric(v, vs[j]);
    }
  }

  function Inserted<T>(x: T, xs: seq<T>, i: nat): seq<T>
    requires i <= |xs|
  {
    xs[..i] + [x] + xs[i..]
  }

  lemma InsertedContents<T>(x: T, xs: seq<T>, i: nat, seen: seq<T>)
    requires i <= |xs| && multiset(xs) == multiset(seen)
    ensures multiset(Inserted(x, xs, i)) == multiset(seen + [x])
  {
    assert xs == xs[..i] + xs[i..];
  }

  lemma InsertedOrder<T>(ge: (T, T) -> bool, x: T, xs: seq<T>, i: nat)
    requires i <= |xs| && forall j, k :: 0 <= j < k < |xs| ==> ge(xs[j], xs[k])
    requires (forall j :: 0 <= j < i ==> ge(xs[j], x)) && forall k :: i <= k < |xs| ==> ge(x, xs[k])
    ensures forall j, k :: 0 <= j < k < |xs| + 1 ==> ge(Inserted(x, xs, i)[j], Inserted(x, xs, i)[k])
  {
  }

  lemma InsertKeepsOrder(v: string, vs: seq<string>, i: nat)
    requires Valid(v) && AllValid(vs) && NewestFirst(vs) && i == Slot(v, vs)
    ensures AllValid(Inserted(v, vs, i)) && NewestFirst(Inserted(v, vs, i))
  {
    forall j | 0 <= j < i ensures Compare(vs[j], v) >= 0 {
      SlotBefore(v, vs, j);
    }
    forall j | i <= j < |vs| ensures Compare(v, vs[j]) >= 0 {
      SlotAfter(v, vs, j);
    }
    InsertedOrder((a, b) => Compare(a, b) >= 0, v, vs, i);
  }

  method InsertVersion(v: string, vs: seq<string>) returns (r: seq<string>)
    ensures multiset(r) == multiset(vs) + multiset{v}
    ensures Valid(v) && Ordered(vs) ==> Ordered(r)
  {
    var i := Slot(v, vs);
    if Valid(v) && Ordered(vs) {
      InsertKeepsOrder(v, vs, i);
    }
    InsertedContents(v, vs, i, vs);
    r := Inserted(v, vs, i);
  }

  predicate Ordered(vs: seq<string>) {
    AllValid(vs) && NewestFirst(vs)
  }

  /** The sort by compareVersions, newest first. On versions it cannot order, only the contents are promised. */
  method SortVersions(vs: seq<string>) returns (r: seq<string>)
    ensures multiset(r) == multiset(vs)
    ensures AllValid(vs) ==> Ordered(r)
  {
    r := [];
    ghost var valid := AllValid(vs);
    for k := 0 to |vs|
      invariant multiset(r) == multiset(vs[..k])
      invariant valid ==> Ordered(r)
    {
      assert vs[..k + 1] == vs[..k] + [vs[k]];
      r := InsertVersion(vs[k], r);
    }
    assert vs[..|vs|] == vs;
  }

  /** The versions listed for a name, in listing order. */
  function VersionsOf(keys: seq<string>, name: string): seq<string> {
    if keys == [] then []
    else
      var n := |keys| - 1;
      var rest := VersionsOf(keys[..n], name);
      match IndexOf(keys[n], '/')
      case None => rest
      case Some(i) => if keys[n][..i] == name then rest + [keys[n][i + 1..]] else rest
  }

  lemma CutKey(key: string, name: string, version: string)
    requires '/' !in name
    ensures key == CookbookKey(name, version)
            <==> IndexOf(key, '/').Some? && var i := IndexOf(key, '/').value; key[..i] == name && key[i + 1..] == version
  {
    if key == CookbookKey(name, version) {
      IndexOfFirst(name, '/', version);
      assert key == name + ['/'] + version;
    } else if IndexOf(key, '/').Some? {
      var i := IndexOf(key, '/').value;
      assert key == key[..i] + "/" + key[i + 1..];
    }
  }

  /** They are the versions stored under "name/version" keys. */
  lemma {:induction false} VersionsAreListed(keys: seq<string>, name: string, version: string)
    ensures version in VersionsOf(keys, name) <==> '/' !in name && CookbookKey(name, version) in keys
  {
    if keys != [] {
      var n := |keys| - 1;
      VersionsAreListed(keys[..n], name, version);
      assert keys == keys[..n] + [keys[n]];
      if '/' !in name {
        CutKey(keys[n], name, version);
      }
    }
  }

  lemma VersionsSnoc(keys: seq<string>, k: nat, name: string)
    requires k < |keys|
    ensures VersionsOf(keys[..k + 1], name) == VersionsOf(keys[..k], name) +
            (match IndexOf(keys[k], '/')
             case None => []
             case Some(i) => if keys[k][..i] == name then [keys[k][i + 1..]] else [])
  {
    assert keys[..k + 1][..k] == keys[..k];
  }

  /** cookbookVersions' first loop: the versions of each name, in listing order. */
  method Grouped(keys: seq<string>) returns (listed: map<string, seq<string>>)
    ensures forall name :: name in listed <==> VersionsOf(keys, name) != []
    ensures forall name :: name in listed ==> listed[name] == VersionsOf(keys, name)
  {
    listed := map[];
    for k := 0 to |keys|
      invariant forall name :: name in listed <==> VersionsOf(keys[..k], name) != []
      invariant forall name :: name in listed ==> listed[name] == VersionsOf(keys[..k], name)
    {
      forall name {
        VersionsSnoc(keys, k, name);
      }
      match IndexOf(keys[k], '/') {
        case None =>
        case Some(i) =>
          var name := keys[k][..i];
          listed := listed[name := (if name in listed then listed[name] else []) + [keys[k][i + 1..]]];
      }
    }
    assert keys[..|keys|] == keys;
  }

  /** cookbookVersions: every listed cookbook with its versions, newest first. */
  method CookbookVersions(keys: seq<string>) returns (out: map<string, seq<string>>)
    ensures forall name :: name in out <==> VersionsOf(keys, name) != []
    ensures forall name :: name in out ==> multiset(out[name]) == multiset(VersionsOf(keys, name))
    ensures forall name :: name in out && AllValid(VersionsOf(keys, name)) ==> Ordered(out[name])
  {
    var listed := Grouped(keys);
    out := map[];
    var left := listed.Keys;
    while left != {}
      invariant left <= listed.Keys && out.Keys == listed.Keys - left
      invariant forall name :: name in out ==> multiset(out[name]) == multiset(listed[name])
      invariant forall name :: name in out && AllValid(listed[name]) ==> Ordered(out[name])
      decreases left
    {
      var name :| name in left;
      var sorted := SortVersions(listed[name]);
      out := out[name := sorted];
      left := left - {name};
    }
  }

  // What the environment admits

  function ConstraintOn(constraints: map<string, string>, name: string): string {
    if name in constraints then constraints[name] else ""
  }

  function Admitted(vs: seq<string>, constraint: string): (r: seq<string>)
    ensures forall v :: v in r <==> v in vs && Satisfies(v, constraint)
  {
    if vs == [] then []
    else
      var n := |vs| - 1;
      var r := Admitted(vs[..n], constraint);
      assert vs == vs[..n] + [vs[n]];
      if Satisfies(vs[n], constraint) then r + [vs[n]] else r
  }

  /** filteredCookbookVersions: each cookbook's admitted versions in order, and no cookbook with none. */
  method FilteredCookbookVersions(cv: map<string, seq<string>>, constraints: map<string, string>)
    returns (out: map<string, seq<string>>)
    ensures forall name :: name in out <==> name in cv && Admitted(cv[name], ConstraintOn(constraints, name)) != []
    ensures forall name :: name in out ==> out[name] == Admitted(cv[name], ConstraintOn(constraints, name))
  {
    out := map[];
    var left := cv.Keys;
    while left != {}
      invariant left <= cv.Keys
      invariant forall name :: name in out
                               <==> name in cv && name !in left && Admitted(cv[name], ConstraintOn(constraints, name)) != []
      invariant forall name :: name in out ==> out[name] == Admitted(cv[name], ConstraintOn(constraints, name))
      decreases left
    {
      var name :| name in left;
      var constraint := ConstraintOn(constraints, name);
      var kept := [];
      for k := 0 to |cv[name]|
        invariant kept == Admitted(cv[name][..k], constraint)
      {
        assert cv[name][..k + 1][..k] == cv[name][..k];
        if Satisfies(cv[name][k], constraint) {
          kept := kept + [cv[name][k]];
        }
      }
      assert cv[name][..|cv[name]|] == cv[name];
      if kept != [] {
        out := out[name := kept];
      }
      left := left - {name};
    }
  }

  /** The first admitted version of an ordered list is a newest admitted one. */
  lemma {:induction false} FirstIsNewest(vs: seq<string>, constraint: string, v: string)
    requires Ordered(vs) && v in Admitted(vs, constraint)
    ensures Compare(Admitted(vs, constraint)[0], v) >= 0
  {
    var n := |vs| - 1;
    var before := Admitted(vs[..n], constraint);
    if v in before {
      FirstIsNewest(vs[..n], constraint, v);
    } else if before == [] {
      CompareIsReflexive(v);
    } else {
      assert before[0] in before;
      assert before[0] in vs[..n];
    }
  }

  /** What the listing and the environment make available. */
  ghost predicate IsAvailable(keys: seq<string>, constraints: map<string, string>, available: map<string, seq<string>>) {
    forall name ::
      && (name in available <==> exists v :: Offered(keys, constraints, name, v))
      && (name in available ==> available[name] != [] && IsNewest(keys, constraints, name, available[name][0]))
  }

  /** A version the listing has and the environment's constraint on its cookbook admits. */
  predicate Offered(keys: seq<string>, constraints: map<string, string>, name: string, v: string) {
    '/' !in name && CookbookKey(name, v) in keys && Satisfies(v, ConstraintOn(constraints, name))
  }

  /** An offered version that, if every listed version of the cookbook is valid, none offered is above. */
  ghost predicate IsNewest(keys: seq<string>, constraints: map<string, string>, name: string, v: string) {
    && Offered(keys, constraints, name, v)
    && (AllValid(VersionsOf(keys, name)) ==> forall w :: Offered(keys, constraints, name, w) ==> Compare(v, w) >= 0)
  }

  lemma OfferedAt(keys: seq<string>, constraints: map<string, string>, name: string, vs: seq<string>, v: string)
    requires multiset(vs) == multiset(VersionsOf(keys, name))
    ensures v in Admitted(vs, ConstraintOn(constraints, name)) <==> Offered(keys, constraints, name, v)
  {
    VersionsAreListed(keys, name, v);
    assert v in vs <==> v in multiset(vs);
  }

  lemma AdmittedIsNewest(keys: seq<string>, constraints: map<string, string>, name: string, vs: seq<string>)
    requires multiset(vs) == multiset(VersionsOf(keys, name)) && (AllValid(VersionsOf(keys, name)) ==> Ordered(vs))
    requires Admitted(vs, ConstraintOn(constraints, name)) != []
    ensures IsNewest(keys, constraints, name, Admitted(vs, ConstraintOn(constraints, name))[0])
  {
    var kept := Admitted(vs, ConstraintOn(constraints, name));
    OfferedAt(keys, constraints, name, vs, kept[0]);
    if AllValid(VersionsOf(keys, name)) {
      forall w | Offered(keys, constraints, name, w) ensures Compare(kept[0], w) >= 0 {
        OfferedAt(keys, constraints, name, vs, w);
        FirstIsNewest(vs, ConstraintOn(constraints, name), w);
      }
    }
  }

  /** The versions an environment offers, as the handlers compute them. */
  method Available(keys: seq<string>, constraints: map<string, string>) returns (out: map<string, seq<string>>)
    ensures IsAvailable(keys, constraints, out)
  {
    var cv := CookbookVersions(keys);
    out := FilteredCookbookVersions(cv, constraints);
    forall name
      ensures name in out <==> exists v :: Offered(keys, constraints, name, v)
      ensures name in out ==> out[name] != [] && IsNewest(keys, constraints, name, out[name][0])
    {
      AvailableAt(keys, constraints, cv, name);
    }
  }

  lemma AvailableAt(keys: seq<string>, constraints: map<string, string>, cv: map<string, seq<string>>, name: string)
    requires name in cv <==> VersionsOf(keys, name) != []
    requires name in cv ==> multiset(cv[name]) == multiset(VersionsOf(keys, name))
    requires name in cv && AllValid(VersionsOf(keys, name)) ==> Ordered(cv[name])
    ensures (name in cv && Admitted(cv[name], ConstraintOn(constraints, name)) != [])
            <==> exists v :: Offered(keys, constraints, name, v)
    ensures name in cv && Admitted(cv[name], ConstraintOn(constraints, name)) != []
            ==> IsNewest(keys, constraints, name, Admitted(cv[name], ConstraintOn(constraints, name))[0])
  {
    if v :| Offered(keys, constraints, name, v) {
      VersionsAreListed(keys, name, v);
      OfferedAt(keys, constraints, name, cv[name], v);
    }
    if name in cv && Admitted(cv[name], ConstraintOn(constraints, name)) != [] {
      AdmittedIsNewest(keys, constraints, name, cv[name]);
    }
  }
}
