/** Run lists in the form the server stores them (internal/runlist/runlist.go): bare items qualified as recipes, exact
    duplicates dropped, and a document rewritten only when one of its run lists needs it. */
module RunList {
  import opened Prelude
  import opened Json
  import opened ChefJson
  import opened JsonText

  // Lists

  /** qualify: a bare item names a recipe. */
  function Qualify(item: string): string {
    if "recipe[" <= item || "role[" <= item then item else "recipe[" + item + "]"
  }

  function Qualified(items: seq<string>): (r: seq<string>)
    ensures |r| == |items| && forall i :: 0 <= i < |r| ==> r[i] == Qualify(items[i])
  {
    seq(|items|, i requires 0 <= i < |items| => Qualify(items[i]))
  }

  /** The distinct elements of a list, each where it first occurs. */
  function Distinct(items: seq<string>): (r: seq<string>)
    ensures forall x :: x in r <==> x in items
  {
    if items == [] then []
    else
      var n := |items| - 1;
      var r := Distinct(items[..n]);
      assert items == items[..n] + [items[n]];
      if items[n] in r then r else r + [items[n]]
  }

  /** The canonical form of a run list. */
  function Canonical(items: seq<string>): seq<string> {
    Distinct(Qualified(items))
  }

  predicate NoDuplicates(items: seq<string>) {
    forall i, j :: 0 <= i < j < |items| ==> items[i] != items[j]
  }

  /** Where an element first occurs. */
  function FirstIndex(items: seq<string>, x: string): (i: nat)
    requires x in items
    ensures i < |items| && items[i] == x && x !in items[..i]
  {
    if items[0] == x then 0
    else
      assert items == [items[0]] + items[1..];
      var i := FirstIndex(items[1..], x);
      assert items[..i + 1] == [items[0]] + items[1..][..i];
      i + 1
  }

  lemma FirstIndexIs(items: seq<string>, x: string, i: nat)
    requires i < |items| && items[i] == x && x !in items[..i]
    ensures FirstIndex(items, x) == i
  {
    var j := FirstIndex(items, x);
    assert forall k :: 0 <= k < i ==> items[..i][k] != x;
    assert forall k :: 0 <= k < j ==> items[..j][k] != x;
  }

  /** The canonical list keeps the order of first occurrences and has no duplicates. */
  lemma {:induction false} DistinctKeepsFirsts(items: seq<string>)
    ensures NoDuplicates(Distinct(items))
    ensures forall p, q :: 0 <= p < q < |Distinct(items)| ==>
              FirstIndex(items, Distinct(items)[p]) < FirstIndex(items, Distinct(items)[q])
  {
    if items != [] {
      var n := |items| - 1;
      var before := items[..n];
      DistinctKeepsFirsts(before);
      forall x | x in before
        ensures FirstIndex(items, x) == FirstIndex(before, x)
      {
        var i := FirstIndex(before, x);
        assert items[..i] == before[..i];
        FirstIndexIs(items, x, i);
      }
      if items[n] !in Distinct(before) {
        FirstIndexIs(items, items[n], n);
      }
    }
  }

  lemma {:induction false} DistinctFixed(items: seq<string>)
    ensures Distinct(items) == items <==> NoDuplicates(items)
  {
    DistinctKeepsFirsts(items);
    if items != [] && NoDuplicates(items) {
      var n := |items| - 1;
      DistinctFixed(items[..n]);
      assert items == items[..n] + [items[n]];
      assert forall i :: 0 <= i < n ==> items[..n][i] == items[i];
    }
  }

  lemma QualifyTwice(item: string)
    ensures Qualify(Qualify(item)) == Qualify(item)
  {
    assert "recipe[" <= "recipe[" + item + "]";
  }

  /** A list is left as it is exactly when it is canonical: every item qualified, none twice. */
  lemma CanonicalFixed(items: seq<string>)
    ensures Canonical(items) == items <==> Qualified(items) == items && NoDuplicates(items)
  {
    DistinctFixed(items);
    if Canonical(items) == items {
      DistinctKeepsFirsts(Qualified(items));
      forall i | 0 <= i < |items|
        ensures Qualified(items)[i] == items[i]
      {
        assert items[i] in Qualified(items);
        var j :| 0 <= j < |items| && Qualify(items[j]) == items[i];
        QualifyTwice(items[j]);
      }
    }
  }

  /** Canonical lists are fixed points. */
  lemma CanonicalTwice(items: seq<string>)
    ensures Canonical(Canonical(items)) == Canonical(items)
  {
    var r := Canonical(items);
    DistinctKeepsFirsts(Qualified(items));
    forall i | 0 <= i < |r|
      ensures Qualify(r[i]) == r[i]
    {
      assert r[i] in Qualified(items);
      var j :| 0 <= j < |items| && Qualify(items[j]) == r[i];
      QualifyTwice(items[j]);
    }
    assert Qualified(r) == r;
    CanonicalFixed(r);
  }

  /** Every item of a canonical list names a recipe or a role: it is an item as given, or a bare one wrapped. */
  lemma CanonicalIsQualified(items: seq<string>, x: string)
    requires x in Canonical(items)
    ensures "recipe[" <= x || "role[" <= x
    ensures exists i :: 0 <= i < |items| && (x == items[i] || x == "recipe[" + items[i] + "]")
  {
    assert x in Qualified(items);
    var i :| 0 <= i < |items| && Qualify(items[i]) == x;
    assert "recipe[" <= "recipe[" + items[i] + "]";
  }

  /** And every item given is in it, as it was if it named one, wrapped if it was bare. */
  lemma ItemsAreKept(items: seq<string>, i: nat)
    requires i < |items|
    ensures (if "recipe[" <= items[i] || "role[" <= items[i] then items[i] else "recipe[" + items[i] + "]") in Canonical(items)
  {
    assert Qualified(items)[i] in Qualified(items);
  }

  lemma DistinctSnoc(items: seq<string>, i: nat)
    requires i < |items|
    ensures var r := Distinct(items[..i]); Distinct(items[..i + 1]) == if items[i] in r then r else r + [items[i]]
  {
    assert items[..i + 1][..i] == items[..i];
  }

  /** One turn of the pass. */
  method AddItem(out: seq<string>, seen: set<string>, item: string) returns (out': seq<string>, seen': set<string>)
    requires seen == set x | x in out
    ensures out' == (if item in out then out else out + [item]) && seen' == set x | x in out'
  {
    out', seen' := out, seen;
    if item !in seen {
      seen' := seen + {item};
      out' := out + [item];
    }
  }

  /** Normalize: one pass with the set of items seen. */
  method Normalize(items: seq<string>) returns (out: seq<string>)
    ensures out == Canonical(items)
  {
    out := [];
    var seen: set<string> := {};
    ghost var all := Qualified(items);
    for i := 0 to |items|
      invariant out == Distinct(all[..i])
      invariant seen == set x | x in out
    {
      DistinctSnoc(all, i);
      out, seen := AddItem(out, seen, Qualify(items[i]));
    }
    assert all[..|items|] == all;
  }

  // Documents

  /** stringList: a list of strings, or None when the value is not one. */
  function StringList(v: Json): (r: Option<seq<string>>)
    ensures r.Some? ==> v == ToArr(r.value)
  {
    if v.Arr? && forall e :: e in v.elems ==> e.Str? then
      var items := seq(|v.elems|, i requires 0 <= i < |v.elems| => (assert v.elems[i] in v.elems; v.elems[i].s));
      assert forall i :: 0 <= i < |items| ==> v.elems[i] in v.elems && ToArr(items).elems[i] == v.elems[i];
      assert ToArr(items).elems == v.elems;
      Some(items)
    else None
  }

  function ToArr(items: seq<string>): Json {
    Arr(seq(|items|, i requires 0 <= i < |items| => Str(items[i])))
  }

  lemma ListOfArr(items: seq<string>)
    ensures StringList(ToArr(items)) == Some(items)
  {
    var v := ToArr(items);
    assert StringList(v).Some?;
    assert StringList(v).value == items;
  }

  /** A run list in canonical form; anything that is not a list of strings is left alone. */
  function RewriteList(v: Json): Json {
    match StringList(v)
    case None => v
    case Some(items) => ToArr(Canonical(items))
  }

  /** listChanges: a list of strings that Normalize would change. */
  predicate ListChanges(v: Json) {
    StringList(v).Some? && Canonical(StringList(v).value) != StringList(v).value
  }

  lemma ListFixed(v: Json)
    ensures RewriteList(v) == v <==> !ListChanges(v)
    ensures !ListChanges(RewriteList(v))
  {
    if StringList(v).Some? {
      var items := StringList(v).value;
      ListOfArr(items);
      ListOfArr(Canonical(items));
      CanonicalTwice(items);
    }
  }

  function RewriteEach(members: seq<Member>): (r: seq<Member>)
    ensures |r| == |members| && forall i :: 0 <= i < |r| ==> r[i] == Member(members[i].name, RewriteList(members[i].value))
  {
    seq(|members|, i requires 0 <= i < |members| => Member(members[i].name, RewriteList(members[i].value)))
  }

  /** Every list of an env_run_lists object, repeated environments included. */
  function RewriteEnvs(v: Json): Json {
    if v.Obj? then Obj(RewriteEach(v.members)) else v
  }

  predicate EnvListsChange(v: Json) {
    v.Obj? && exists m :: m in v.members && ListChanges(m.value)
  }

  lemma EnvsFixed(v: Json)
    ensures RewriteEnvs(v) == v <==> !EnvListsChange(v)
    ensures !EnvListsChange(RewriteEnvs(v))
  {
    if v.Obj? {
      var ms, rs := v.members, RewriteEach(v.members);
      forall i | 0 <= i < |ms|
        ensures rs[i] == ms[i] <==> !ListChanges(ms[i].value)
        ensures !ListChanges(rs[i].value)
      {
        ListFixed(ms[i].value);
      }
      if rs == ms {
        assert forall m :: m in ms ==> !ListChanges(m.value);
      }
      if !EnvListsChange(v) {
        assert forall i :: 0 <= i < |ms| ==> ms[i] in ms && rs[i] == ms[i];
      }
    }
  }

  /** Where the first member with a name is, or the number of members when there is none. */
  function Find(members: seq<Member>, name: string): (i: nat)
    ensures i <= |members| && (i < |members| ==> members[i].name == name)
    ensures forall j :: 0 <= j < i ==> members[j].name != name
  {
    if members == [] || members[0].name == name then 0 else 1 + Find(members[1..], name)
  }

  /** Get the first member's value, rewrite it, and Set it back: the other members keep their places. */
  function Update(members: seq<Member>, name: string, f: Json -> Json): (r: seq<Member>)
    ensures |r| == |members| && forall i :: 0 <= i < |r| ==> r[i].name == members[i].name
  {
    var i := Find(members, name);
    if i < |members| then members[i := Member(name, f(members[i].value))] else members
  }

  lemma FindByNames(a: seq<Member>, b: seq<Member>, name: string)
    requires |a| == |b| && forall i :: 0 <= i < |a| ==> a[i].name == b[i].name
    ensures Find(a, name) == Find(b, name)
  {
    assert forall k :: 0 <= k < Find(a, name) ==> b[k].name == a[k].name;
  }

  const RUN_LIST := "run_list"
  const ENV_RUN_LISTS := "env_run_lists"

  /** The rewrite: the run_list of a node or role, and for a role every env_run_lists entry. */
  function Rewrite(role: bool, v: Json): Json {
    if !v.Obj? then v
    else
      var ms := Update(v.members, RUN_LIST, RewriteList);
      Obj(if role then Update(ms, ENV_RUN_LISTS, RewriteEnvs) else ms)
  }

  /** `i` is the first member with a name. */
  predicate IsFirst(members: seq<Member>, name: string, i: nat)
    requires i < |members|
  {
    members[i].name == name && forall j :: 0 <= j < i ==> members[j].name != name
  }

  /** What the rewrite does to each member: the first run_list is put in canonical form, and for a role every list of the
      first env_run_lists; all else stays, and so does the order. */
  lemma RewriteMeans(role: bool, ms: seq<Member>, i: nat)
    requires i < |ms|
    ensures var out := Rewrite(role, Obj(ms));
            && out.Obj? && |out.members| == |ms| && out.members[i].name == ms[i].name
            && out.members[i].value ==
               (if IsFirst(ms, "run_list", i) then RewriteList(ms[i].value)
                else if role && IsFirst(ms, "env_run_lists", i) then RewriteEnvs(ms[i].value)
                else ms[i].value)
  {
    var once := Update(ms, RUN_LIST, RewriteList);
    assert |RUN_LIST| != |ENV_RUN_LISTS|;
    FirstIsFind(ms, RUN_LIST, i);
    FirstIsFind(ms, ENV_RUN_LISTS, i);
    FindByNames(ms, once, ENV_RUN_LISTS);
  }

  lemma FirstIsFind(ms: seq<Member>, name: string, i: nat)
    requires i < |ms|
    ensures IsFirst(ms, name, i) <==> Find(ms, name) == i
  {
  }

  /** Whether a run list of the document is not canonical. */
  predicate Needs(role: bool, v: Json) {
    v.Obj? &&
    var i, j := Find(v.members, RUN_LIST), Find(v.members, ENV_RUN_LISTS);
    || (i < |v.members| && ListChanges(v.members[i].value))
    || (role && j < |v.members| && EnvListsChange(v.members[j].value))
  }

  /** needsChange: one pass over the members, decoding only the run lists, that stops at the first change. */
  method NeedsChange(role: bool, v: Json) returns (r: bool)
    ensures r == Needs(role, v)
  {
    if !v.Obj? {
      return false;
    }
    var ms := v.members;
    ghost var i, j := Find(ms, RUN_LIST), Find(ms, ENV_RUN_LISTS);
    assert |RUN_LIST| != |ENV_RUN_LISTS|;
    var seenRunList, seenEnvRunLists := false, false;
    for k := 0 to |ms|
      invariant seenRunList == (i < k) && (role ==> seenEnvRunLists == (j < k))
      invariant i < k ==> !ListChanges(ms[i].value)
      invariant role && j < k ==> !EnvListsChange(ms[j].value)
    {
      var isRunList := ms[k].name == RUN_LIST && !seenRunList;
      var isEnvRunLists := ms[k].name == ENV_RUN_LISTS && role && !seenEnvRunLists;
      assert isRunList ==> k == i;
      assert isEnvRunLists ==> k == j;
      if isRunList {
        seenRunList := true;
        if ListChanges(ms[k].value) {
          return true;
        }
      } else if isEnvRunLists {
        seenEnvRunLists := true;
        if EnvListsChange(ms[k].value) {
          return true;
        }
      }
    }
    return false;
  }

  /** Skipping is sound and tight: the rewrite leaves a document alone exactly when needsChange is false, and its result
      needs no further change. */
  lemma RewriteFixed(role: bool, v: Json)
    ensures Rewrite(role, v) == v <==> !Needs(role, v)
    ensures !Needs(role, Rewrite(role, v))
    ensures Rewrite(role, Rewrite(role, v)) == Rewrite(role, v)
  {
    OnePass(role, v);
    OnePass(role, Rewrite(role, v));
  }

  /** An update in place changes the first member of that name and nothing else. */
  lemma UpdateAt(ms: seq<Member>, name: string, f: Json -> Json, other: string)
    ensures var r, i := Update(ms, name, f), Find(ms, name);
            && Find(r, name) == i && Find(r, other) == Find(ms, other)
            && (i < |ms| ==> r[i].value == f(ms[i].value))
            && (forall k :: 0 <= k < |ms| && k != i ==> r[k] == ms[k])
            && (r == ms <==> (i < |ms| ==> f(ms[i].value) == ms[i].value))
  {
    var r, i := Update(ms, name, f), Find(ms, name);
    FindByNames(ms, r, name);
    FindByNames(ms, r, other);
    if i < |ms| {
      assert ms[i] == Member(name, ms[i].value);
    }
  }

  lemma OnePass(role: bool, v: Json)
    ensures Rewrite(role, v) == v <==> !Needs(role, v)
    ensures !Needs(role, Rewrite(role, v))
  {
    if v.Obj? {
      var ms := v.members;
      var once := Update(ms, RUN_LIST, RewriteList);
      var i, j := Find(ms, RUN_LIST), Find(ms, ENV_RUN_LISTS);
      UpdateAt(ms, RUN_LIST, RewriteList, ENV_RUN_LISTS);
      UpdateAt(once, ENV_RUN_LISTS, RewriteEnvs, RUN_LIST);
      assert |RUN_LIST| != |ENV_RUN_LISTS|;
      if i < |ms| {
        ListFixed(ms[i].value);
      }
      if j < |ms| {
        EnvsFixed(ms[j].value);
      }
      if role {
        RoleParts(ms, once, Update(once, ENV_RUN_LISTS, RewriteEnvs), i, j);
      }
    }
  }

  /** The two rewrites touch different members, so together they leave the document alone only if each does. */
  lemma RoleParts(ms: seq<Member>, once: seq<Member>, twice: seq<Member>, i: nat, j: nat)
    requires |ms| == |once| == |twice| && (i < |ms| ==> i != j)
    requires forall k :: 0 <= k < |ms| && k != i ==> once[k] == ms[k]
    requires forall k :: 0 <= k < |ms| && k != j ==> twice[k] == once[k]
    ensures twice == ms <==> once == ms && twice == once
  {
    if twice == ms {
      assert forall k :: 0 <= k < |ms| ==> once[k] == ms[k] && twice[k] == once[k];
    }
  }

  // Texts

  lemma ListKeepsNumbers(parse: FloatParser, v: Json)
    requires NumbersFixed(parse, v)
    ensures NumbersFixed(parse, RewriteList(v))
  {
  }

  lemma EnvsKeepNumbers(parse: FloatParser, v: Json)
    requires NumbersFixed(parse, v)
    ensures NumbersFixed(parse, RewriteEnvs(v))
  {
    if v.Obj? {
      forall i | 0 <= i < |v.members| ensures NumbersFixed(parse, RewriteEach(v.members)[i].value) {
        ListKeepsNumbers(parse, v.members[i].value);
      }
    }
  }

  lemma UpdateKeepsNumbers(parse: FloatParser, members: seq<Member>, name: string, f: Json -> Json)
    requires NumbersFixed(parse, Obj(members))
    requires forall v :: NumbersFixed(parse, v) ==> NumbersFixed(parse, f(v))
    ensures NumbersFixed(parse, Obj(Update(members, name, f)))
  {
  }

  lemma RewriteKeepsNumbers(parse: FloatParser, role: bool, v: Json)
    requires NumbersFixed(parse, v)
    ensures NumbersFixed(parse, Rewrite(role, v))
  {
    if v.Obj? {
      forall u | NumbersFixed(parse, u)
        ensures NumbersFixed(parse, RewriteList(u)) && NumbersFixed(parse, RewriteEnvs(u))
      {
        ListKeepsNumbers(parse, u);
        EnvsKeepNumbers(parse, u);
      }
      var once := Update(v.members, RUN_LIST, RewriteList);
      UpdateKeepsNumbers(parse, v.members, RUN_LIST, RewriteList);
      UpdateKeepsNumbers(parse, once, ENV_RUN_LISTS, RewriteEnvs);
    }
  }

  /** What normalizing the run lists of a readable text gives. */
  function Normalized(parse: FloatParser, role: bool, doc: string): string
    requires ReadText(doc).Some?
  {
    var v := Tree(ReadText(doc).value);
    if Needs(role, v) then Marshal(parse, Rewrite(role, v)) else doc
  }

  /** On a stored text, one that normalizes to itself, normalizing run lists is rewriting always, and gives a stored text
      that holds the rewritten tree and is left alone when normalized again. */
  lemma NormalizedIsStored(parse: FloatParser, role: bool, doc: string)
    requires Faithful(parse) && NormalizeText(parse, doc) == Some(doc)
    ensures var v, out := Tree(ReadText(doc).value), Normalized(parse, role, doc);
            && out == Marshal(parse, Rewrite(role, v)) && NormalizeText(parse, out) == Some(out)
            && ReadText(out).Some? && Tree(ReadText(out).value) == Rewrite(role, v)
            && Normalized(parse, role, out) == out
  {
    var v := Tree(ReadText(doc).value);
    TextIsMarshalParse(parse, doc);
    RewriteFixed(role, v);
    StoredTextNumbers(parse, doc);
    RewriteKeepsNumbers(parse, role, v);
    MarshalReads(parse, Rewrite(role, v));
  }

  /** normalize, on the text of a document: what needs no change is returned as it came, anything else is parsed,
      rewritten and marshalled. On a stored text, one that normalizes to itself, that is what rewriting always would
      give. A text that is no document is returned as it came or refused, as the scan stops before or after its flaw. */
  method NormalizeDoc(parse: FloatParser, role: bool, doc: string) returns (r: Option<string>)
    ensures ReadText(doc).None? ==> r == Some(doc) || r == None
    ensures ReadText(doc).Some? ==>
              && r == Some(Normalized(parse, role, doc))
              && (NormalizeText(parse, doc) == Some(doc) ==> r == Some(Marshal(parse, Rewrite(role, Tree(ReadText(doc).value)))))
    ensures Faithful(parse) && NormalizeText(parse, doc) == Some(doc) ==>
              && r.Some? && NormalizeText(parse, r.value) == r
              && ReadText(r.value).Some? && Some(Normalized(parse, role, r.value)) == r
  {
    if Faithful(parse) && NormalizeText(parse, doc) == Some(doc) {
      NormalizedIsStored(parse, role, doc);
    }
    var d := ReadText(doc);
    if d.None? {
      var stopped: bool := *;
      return if stopped then Some(doc) else None;
    }
    var tree := ChefJson.Parse(Toks(d.value));
    TextIsMarshalParse(parse, doc);
    var v := tree.value;
    var change := NeedsChange(role, v);
    if !change {
      RewriteFixed(role, v);
      return Some(doc);
    }
    r := Some(Marshal(parse, Rewrite(role, v)));
  }
}
