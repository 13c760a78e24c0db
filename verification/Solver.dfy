/** The run list's cookbook closure: a worklist over names, each resolved to its newest available version and extended
    with that version's dependencies (internal/api/environment_subendpoints.go:238-304 and 393-405). */
module Solver {
  import opened Prelude
  import opened Json
  import opened Manifests
  import opened Cookbooks
  import RunList

  // The graph of chosen manifests

  /** Available versions, newest first, and the stored manifests; one that does not decode is None. */
  datatype Shelf = Shelf(available: map<string, seq<string>>, docs: map<string, Option<Json>>) {
    /** Whether a cookbook has an available version and its document is stored. */
    predicate Has(name: string) {
      name in available && available[name] != [] && CookbookKey(name, available[name][0]) in docs
    }

    predicate Decodes(name: string) {
      name != "" && Has(name) && docs[CookbookKey(name, available[name][0])].Some?
    }

    function Chosen(name: string): Json
      requires Decodes(name)
    {
      docs[CookbookKey(name, available[name][0])].value
    }

    function Deps(name: string): set<string> {
      if Decodes(name) then Dependencies(Chosen(name)) else {}
    }

    /** A chain of dependencies from a root. */
    ghost predicate Chain(roots: seq<string>, names: seq<string>) {
      && names != [] && names[0] in roots
      && forall i :: 0 < i < |names| ==> names[i] in Deps(names[i - 1])
    }

    ghost predicate Reaches(roots: seq<string>, name: string) {
      exists names :: Chain(roots, names) && names[|names| - 1] == name
    }

    /** The closure: exactly the reachable names that decode, each with its chosen manifest. */
    ghost predicate IsClosure(roots: seq<string>, solved: map<string, Json>) {
      && (forall name :: name in solved <==> Reaches(roots, name) && Decodes(name))
      && forall name :: name in solved ==> solved[name] == Chosen(name)
    }

    /** Every cookbook the run list needs can be had. */
    ghost predicate Solvable(roots: seq<string>) {
      forall name :: Reaches(roots, name) && name != "" ==> Has(name)
    }
  }

  lemma RootReached(shelf: Shelf, roots: seq<string>, name: string)
    requires name in roots
    ensures shelf.Reaches(roots, name)
  {
    assert shelf.Chain(roots, [name]);
  }

  lemma DepReached(shelf: Shelf, roots: seq<string>, name: string, dep: string)
    requires shelf.Reaches(roots, name) && dep in shelf.Deps(name)
    ensures shelf.Reaches(roots, dep)
  {
    var names :| shelf.Chain(roots, names) && names[|names| - 1] == name;
    assert shelf.Chain(roots, names + [dep]);
    assert (names + [dep])[|names + [dep]| - 1] == dep;
  }

  // The worklist

  /** A name the worklist needs no more: empty, solved, or stored but not decodable. */
  predicate Settled(shelf: Shelf, solved: map<string, Json>, name: string) {
    name == "" || name in solved || (shelf.Has(name) && !shelf.Decodes(name))
  }

  /** What the solved names and the queue keep between them. */
  ghost predicate Covers(shelf: Shelf, roots: seq<string>, solved: map<string, Json>, queue: seq<string>) {
    && (forall name :: name in roots ==> Settled(shelf, solved, name) || name in queue)
    && (forall name, dep :: name in solved && dep in shelf.Deps(name) ==> Settled(shelf, solved, dep) || dep in queue)
  }

  ghost predicate Sound(shelf: Shelf, roots: seq<string>, solved: map<string, Json>, queue: seq<string>) {
    && (forall name :: name in queue ==> shelf.Reaches(roots, name))
    && (forall name :: name in solved ==> shelf.Reaches(roots, name) && shelf.Decodes(name) && solved[name] == shelf.Chosen(name))
  }

  lemma {:induction false} ChainSettled(shelf: Shelf, roots: seq<string>, solved: map<string, Json>, names: seq<string>)
    requires Covers(shelf, roots, solved, []) && Sound(shelf, roots, solved, []) && shelf.Chain(roots, names)
    ensures Settled(shelf, solved, names[|names| - 1])
  {
    var n := |names| - 1;
    if n > 0 {
      assert names[..n][n - 1] == names[n - 1];
      ChainSettled(shelf, roots, solved, names[..n]);
      assert names[n] in shelf.Deps(names[n - 1]);
    }
  }

  /** An empty queue means the closure is complete. */
  lemma ClosedWhenDone(shelf: Shelf, roots: seq<string>, solved: map<string, Json>)
    requires Covers(shelf, roots, solved, []) && Sound(shelf, roots, solved, [])
    ensures shelf.Solvable(roots) && shelf.IsClosure(roots, solved)
  {
    forall name | shelf.Reaches(roots, name) ensures Settled(shelf, solved, name) {
      var names :| shelf.Chain(roots, names) && names[|names| - 1] == name;
      ChainSettled(shelf, roots, solved, names);
    }
  }

  lemma DropSettled(shelf: Shelf, roots: seq<string>, solved: map<string, Json>, queue: seq<string>)
    requires queue != [] && Settled(shelf, solved, queue[0])
    requires Covers(shelf, roots, solved, queue) && Sound(shelf, roots, solved, queue)
    ensures Covers(shelf, roots, solved, queue[1..]) && Sound(shelf, roots, solved, queue[1..])
  {
    forall x | x in queue && x != queue[0] ensures x in queue[1..] {
      assert queue == [queue[0]] + queue[1..];
    }
  }

  lemma SolveOne(shelf: Shelf, roots: seq<string>, solved: map<string, Json>, queue: seq<string>, deps: seq<string>)
    requires queue != [] && shelf.Decodes(queue[0]) && Elements(deps) == shelf.Deps(queue[0])
    requires Covers(shelf, roots, solved, queue) && Sound(shelf, roots, solved, queue)
    ensures var name := queue[0];
            var solved' := solved[name := shelf.Chosen(name)];
            Covers(shelf, roots, solved', queue[1..] + deps) && Sound(shelf, roots, solved', queue[1..] + deps)
  {
    var name := queue[0];
    assert queue == [name] + queue[1..];
    forall dep | dep in deps ensures shelf.Reaches(roots, dep) {
      assert dep in Elements(deps);
      DepReached(shelf, roots, name, dep);
    }
    var solved', queue' := solved[name := shelf.Chosen(name)], queue[1..] + deps;
    forall n, dep | n in solved' && dep in shelf.Deps(n) ensures Settled(shelf, solved', dep) || dep in queue' {
      if n == name {
        assert dep in Elements(deps);
      } else {
        assert Settled(shelf, solved, dep) || dep in queue;
      }
    }
  }

  /** Ranging over a set, in any order. */
  method Enumerate(s: set<string>) returns (r: seq<string>)
    ensures Elements(r) == s
  {
    r := [];
    var left := s;
    while left != {}
      invariant left <= s && Elements(r) == s - left
      decreases left
    {
      var x :| x in left;
      assert Elements(r + [x]) == Elements(r) + {x};
      r := r + [x];
      left := left - {x};
    }
  }

  /** The worklist loop. It always ends; it succeeds exactly when every cookbook reachable from the roots can be had,
      and then solves exactly their closure. Otherwise it names one that cannot. */
  method Solve(shelf: Shelf, roots: seq<string>) returns (r: Result<map<string, Json>, string>)
    ensures r.Ok? <==> shelf.Solvable(roots)
    ensures r.Ok? ==> shelf.IsClosure(roots, r.value)
    ensures r.Err? ==> r.error != "" && shelf.Reaches(roots, r.error) && !shelf.Has(r.error)
  {
    var solved: map<string, Json> := map[];
    var queue := roots;
    forall name | name in roots ensures shelf.Reaches(roots, name) {
      RootReached(shelf, roots, name);
    }
    while queue != []
      invariant Covers(shelf, roots, solved, queue) && Sound(shelf, roots, solved, queue)
      decreases shelf.available.Keys - solved.Keys, |queue|
    {
      var name := queue[0];
      if name == "" || name in solved {
        DropSettled(shelf, roots, solved, queue);
        queue := queue[1..];
        continue;
      }
      var versions := if name in shelf.available then shelf.available[name] else [];
      if versions == [] || CookbookKey(name, versions[0]) !in shelf.docs {
        assert name in queue && !shelf.Has(name);
        return Err(name);
      }
      match shelf.docs[CookbookKey(name, versions[0])] {
        case None =>
          DropSettled(shelf, roots, solved, queue);
          queue := queue[1..];
        case Some(m) =>
          var deps := Enumerate(Dependencies(m));
          SolveOne(shelf, roots, solved, queue, deps);
          queue := queue[1..] + deps;
          solved := solved[name := m];
      }
    }
    ClosedWhenDone(shelf, roots, solved);
    return Ok(solved);
  }

  // Run lists

  /** The text before the first "::". */
  function BeforeColons(s: string): string {
    if |s| < 2 then s
    else if s[0] == ':' && s[1] == ':' then ""
    else [s[0]] + BeforeColons(s[1..])
  }

  function NameIn(s: string): string {
    if "role[" <= s then ""
    else BeforeColons(if "recipe[" <= s && s[|s| - 1] == ']' then s[7..|s| - 1] else s)
  }

  /** cookbookFromRunListItem: the cookbook an item names; a role names none. */
  function CookbookOf(item: string): string {
    NameIn(TrimSpace(item))
  }

  lemma {:induction false} BeforeColonsOf(name: string, rest: string)
    requires ':' !in name && (rest == "" || "::" <= rest)
    ensures BeforeColons(name + rest) == name
  {
    var s := name + rest;
    if name == "" {
      assert s == rest;
    } else {
      assert s[1..] == name[1..] + rest && s[0] == name[0];
      BeforeColonsOf(name[1..], rest);
    }
  }

  lemma CookbookOfRecipe(item: string)
    ensures CookbookOf("recipe[" + item + "]") == BeforeColons(item)
  {
    var s := "recipe[" + item + "]";
    assert s[0] == 'r' && s[1] == 'e' && s[|s| - 1] == ']' && s[7..|s| - 1] == item;
    TrimNothing(s);
    assert "recipe[" <= s;
    assert "role["[1] == 'o';
  }

  /** A recipe item names its cookbook, with or without a recipe. */
  lemma RecipeNamesCookbook(name: string, rest: string)
    requires ':' !in name && (rest == "" || "::" <= rest)
    ensures CookbookOf("recipe[" + (name + rest) + "]") == name
  {
    CookbookOfRecipe(name + rest);
    BeforeColonsOf(name, rest);
  }

  predicate HasColons(s: string) {
    exists i {:trigger s[i]} :: 0 <= i < |s| - 1 && s[i] == ':' && s[i + 1] == ':'
  }

  lemma {:induction false} NoColons(s: string)
    requires !HasColons(s)
    ensures BeforeColons(s) == s
  {
    if |s| >= 2 {
      assert s[0] != ':' || s[1] != ':';
      forall i | 0 <= i < |s[1..]| - 1 ensures s[1..][i] != ':' || s[1..][i + 1] != ':' {
        assert s[1..][i] == s[i + 1] && s[1..][i + 1] == s[i + 2];
      }
      NoColons(s[1..]);
    }
  }

  lemma {:induction false} ColonsEndIt(s: string, more: string)
    requires HasColons(s)
    ensures BeforeColons(s + more) == BeforeColons(s)
  {
    var t := s + more;
    assert t[0] == s[0] && t[1] == s[1];
    if s[0] != ':' || s[1] != ':' {
      var i :| 0 <= i < |s| - 1 && s[i] == ':' && s[i + 1] == ':';
      assert s[1..][i - 1] == ':' && s[1..][i] == ':';
      assert t[1..] == s[1..] + more;
      ColonsEndIt(s[1..], more);
    }
  }

  /** Text that a colon does not continue names at least as much. */
  lemma {:induction false} MoreNamesMore(s: string, more: string)
    requires more != "" && more[0] != ':'
    ensures |BeforeColons(s)| <= |BeforeColons(s + more)|
  {
    var t := s + more;
    if s != "" {
      assert t[0] == s[0] && t[1..] == s[1..] + more;
      MoreNamesMore(s[1..], more);
      if |s| == 1 {
        assert t[1] == more[0];
      } else {
        assert t[1] == s[1];
      }
    }
  }

  lemma {:induction false} AfterPlain(pre: string, s: string)
    requires ':' !in pre
    ensures BeforeColons(pre + s) == pre + BeforeColons(s)
  {
    if pre == "" {
      assert pre + s == s && pre + BeforeColons(s) == BeforeColons(s);
    } else {
      assert (pre + s)[1..] == pre[1..] + s && (pre + s)[0] == pre[0];
      AfterPlain(pre[1..], s);
      assert |pre + s| == 1 ==> s == "" && pre + s == pre;
    }
  }

  lemma {:induction false} BracketsNameLess(s: string, trail: string)
    requires "recipe[" <= s && s[|s| - 1] == ']'
    ensures |BeforeColons(s[7..|s| - 1])| < |BeforeColons(s + trail)|
  {
    var inner := s[7..|s| - 1];
    assert s + trail == "recipe[" + (inner + ("]" + trail));
    AfterPlain("recipe[", inner + ("]" + trail));
    MoreNamesMore(inner, "]" + trail);
  }

  /** What a trimmed item names is empty, starts as the item does, or is shorter than what its whole text would name. */
  lemma {:induction false} NameOfTrimmed(s: string, trail: string)
    ensures NameIn(s) == "" || NameIn(s)[0] == s[0] || |NameIn(s)| < |BeforeColons(s + trail)|
  {
    if !("role[" <= s) && "recipe[" <= s && s[|s| - 1] == ']' {
      BracketsNameLess(s, trail);
    }
  }

  /** A bare item that starts with a space is stored as one that names something else. */
  lemma {:induction false} LeadingSpaceDiffers(item: string)
    requires item != "" && IsSpace(item[0])
    ensures BeforeColons(item) != CookbookOf(item)
  {
    var s := TrimSpace(item);
    var lead, trail := TrimParts(item);
    assert ':' !in lead;
    AfterPlain(lead, s + trail);
    NameOfTrimmed(s, trail);
  }

  lemma {:induction false} BareStaysBare(s: string, trail: string)
    requires RunList.Qualify(s + trail) != s + trail
    ensures NameIn(s) == BeforeColons(s)
  {
    assert "role[" <= s ==> "role[" <= s + trail;
    assert "recipe[" <= s ==> "recipe[" <= s + trail;
  }

  lemma {:induction false} ColonsStay(s: string, trail: string)
    requires HasColons(s)
    ensures HasColons(s + trail)
  {
    var i :| 0 <= i < |s| - 1 && s[i] == ':' && s[i + 1] == ':';
    assert (s + trail)[i] == ':' && (s + trail)[i + 1] == ':';
  }

  lemma {:induction false} TrailingSpace(item: string)
    requires item != "" && !IsSpace(item[0]) && IsSpace(item[|item| - 1]) && RunList.Qualify(item) != item
    ensures BeforeColons(item) == CookbookOf(item) <==> HasColons(item)
  {
    var s := TrimSpace(item);
    var lead, trail := TrimParts(item);
    assert item == s + trail;
    BareStaysBare(s, trail);
    if HasColons(s) {
      ColonsEndIt(s, trail);
      ColonsStay(s, trail);
    } else {
      SpacesAddNoColons(s, trail);
      NoColons(s);
      NoColons(s + trail);
    }
  }

  lemma SpacesAddNoColons(s: string, trail: string)
    requires !HasColons(s) && AllSpace(trail)
    ensures !HasColons(s + trail)
  {
    var t := s + trail;
    forall i | 0 <= i < |t| - 1 ensures t[i] != ':' || t[i + 1] != ':' {
      if i + 1 < |s| {
        assert t[i] == s[i] && t[i + 1] == s[i + 1];
      } else {
        assert t[i + 1] == trail[i + 1 - |s|];
      }
    }
  }

  /** The stored form of a run-list item names the same cookbook as the item, if and only if the item is stored as it is,
      or is empty, or starts with no space and either ends with none or names a recipe after "::". */
  lemma QualifyKeepsCookbook(item: string)
    ensures CookbookOf(RunList.Qualify(item)) == CookbookOf(item) <==>
            || RunList.Qualify(item) == item || item == ""
            || (!IsSpace(item[0]) && (!IsSpace(item[|item| - 1]) || HasColons(item)))
  {
    if RunList.Qualify(item) != item {
      CookbookOfRecipe(item);
      if item == "" {
      } else if IsSpace(item[0]) {
        LeadingSpaceDiffers(item);
      } else if IsSpace(item[|item| - 1]) {
        TrailingSpace(item);
      } else {
        TrimNothing(item);
      }
    }
  }

  lemma {:induction false} SpacedName(name: string)
    requires name != "" && !IsSpace(name[0]) && !IsSpace(name[|name| - 1]) && ':' !in name
    requires !("role[" <= name) && !("recipe[" <= name)
    ensures CookbookOf(" " + name) == name && CookbookOf(RunList.Qualify(" " + name)) == " " + name
  {
    var item := " " + name;
    assert item[1..] == name && TrimLeft(item) == TrimLeft(name);
    TrimNothing(name);
    assert item[0] == ' ' && !("role[" <= item) && !("recipe[" <= item);
    CookbookOfRecipe(item);
    BeforeColonsOf(name, "");
    BeforeColonsOf(item, "");
    assert name + "" == name && item + "" == item;
  }

  lemma {:induction false} ApacheIsName()
    ensures var name := "apache2";
            !IsSpace(name[0]) && !IsSpace(name[|name| - 1]) && ':' !in name && !("role[" <= name) && !("recipe[" <= name)
  {
    var name := "apache2";
    assert name[0] == 'a' && name[6] == '2';
    assert "role["[0] == 'r' && "recipe["[0] == 'r';
  }

  /** The failing input: " apache2" names apache2, and is stored as an item that names " apache2". */
  lemma {:induction false} LeadingSpaceIsKept()
    ensures CookbookOf(" apache2") == "apache2" && CookbookOf(RunList.Qualify(" apache2")) == " apache2"
  {
    ApacheIsName();
    SpacedName("apache2");
    assert " " + "apache2" == " apache2";
  }

  function Roots(runList: seq<string>): (r: seq<string>)
    ensures |r| == |runList| && forall i :: 0 <= i < |r| ==> r[i] == CookbookOf(runList[i])
  {
    seq(|runList|, i requires 0 <= i < |runList| => CookbookOf(runList[i]))
  }

  // The handler

  lemma HasIsOffered(shelf: Shelf, keys: seq<string>, constraints: map<string, string>, name: string)
    requires IsAvailable(keys, constraints, shelf.available) && forall key :: key in keys ==> key in shelf.docs
    ensures shelf.Has(name) <==> exists v :: Offered(keys, constraints, name, v)
  {
    if name in shelf.available {
      assert IsNewest(keys, constraints, name, shelf.available[name][0]);
    }
  }

  /** Every non-empty name reachable from the run list has a version the environment admits. */
  ghost predicate AllOffered(shelf: Shelf, roots: seq<string>, keys: seq<string>, constraints: map<string, string>) {
    forall name :: shelf.Reaches(roots, name) && name != "" ==> exists v :: Offered(keys, constraints, name, v)
  }

  lemma SolvableIsOffered(shelf: Shelf, roots: seq<string>, keys: seq<string>, constraints: map<string, string>)
    requires IsAvailable(keys, constraints, shelf.available)
    ensures (forall key :: key in keys ==> key in shelf.docs)
            ==> (shelf.Solvable(roots) <==> AllOffered(shelf, roots, keys, constraints))
  {
    if forall key :: key in keys ==> key in shelf.docs {
      forall name ensures shelf.Has(name) <==> exists v :: Offered(keys, constraints, name, v) {
        HasIsOffered(shelf, keys, constraints, name);
      }
    }
  }

  /** A manifest stored for a newest admitted version of the cookbook. */
  ghost predicate Answered(keys: seq<string>, constraints: map<string, string>, docs: map<string, Option<Json>>,
                           name: string, m: Json) {
    exists v :: IsNewest(keys, constraints, name, v) && CookbookKey(name, v) in docs && docs[CookbookKey(name, v)] == Some(m)
  }

  lemma ClosureAnswers(shelf: Shelf, roots: seq<string>, keys: seq<string>, constraints: map<string, string>,
                       solved: map<string, Json>)
    requires IsAvailable(keys, constraints, shelf.available) && shelf.IsClosure(roots, solved)
    ensures forall name :: name in solved ==> Answered(keys, constraints, shelf.docs, name, solved[name])
  {
    forall name | name in solved ensures Answered(keys, constraints, shelf.docs, name, solved[name]) {
      assert IsNewest(keys, constraints, name, shelf.available[name][0]);
    }
  }

  /** envCookbookVersions: on a listing whose documents are all stored, it succeeds exactly when every non-empty name
      reachable through the chosen manifests has an admitted version, and answers with exactly the reachable names that
      decode, each with the manifest of a newest admitted version. */
  method EnvCookbookVersions(runList: seq<string>, keys: seq<string>, constraints: map<string, string>,
                             docs: map<string, Option<Json>>)
    returns (shelf: Shelf, r: Result<map<string, Json>, string>)
    ensures shelf.docs == docs && IsAvailable(keys, constraints, shelf.available)
    ensures r.Ok? <==> shelf.Solvable(Roots(runList))
    ensures r.Ok? ==> shelf.IsClosure(Roots(runList), r.value)
    ensures (forall key :: key in keys ==> key in docs) ==> (r.Ok? <==> AllOffered(shelf, Roots(runList), keys, constraints))
    ensures r.Ok? ==> forall name :: name in r.value ==> Answered(keys, constraints, docs, name, r.value[name])
  {
    var available := Available(keys, constraints);
    shelf := Shelf(available, docs);
    var queue := [];
    for i := 0 to |runList|
      invariant queue == Roots(runList[..i])
    {
      queue := queue + [CookbookOf(runList[i])];
    }
    assert runList[..|runList|] == runList;
    r := Solve(shelf, queue);
    SolvableIsOffered(shelf, queue, keys, constraints);
    if r.Ok? {
      ClosureAnswers(shelf, queue, keys, constraints, r.value);
    }
  }

}
