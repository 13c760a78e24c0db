/** The key of a membership row (internal/api/groupmembers.go): group, kind and actor, separated by NUL. */
module MemberKeys {
  import opened Prelude

  const NUL: char := '\0'

  /** The kinds of membership, named after the member arrays of a group document. */
  const USERS := "users"
  const CLIENTS := "clients"
  const GROUPS := "groups"

  /** One membership row, decoded. */
  datatype Row = Row(group: string, kind: string, actor: string)

  predicate NulFree(s: string) {
    NUL !in s
  }

  predicate Clean(r: Row) {
    NulFree(r.group) && NulFree(r.kind) && NulFree(r.actor)
  }

  function MemberKey(r: Row): string {
    r.group + [NUL] + r.kind + [NUL] + r.actor
  }

  function SplitMemberKey(key: string): (r: Option<Row>)
    ensures r.Some? ==> Clean(r.value)
  {
    var parts := Split(key, NUL);
    if |parts| != 3 then None else Some(Row(parts[0], parts[1], parts[2]))
  }

  lemma SplitOfKey(r: Row)
    ensures Split(MemberKey(r), NUL) == Split(r.group, NUL) + Split(r.kind, NUL) + Split(r.actor, NUL)
  {
    SplitAtSeparator(r.group + [NUL] + r.kind, r.actor, NUL);
    SplitAtSeparator(r.group, r.kind, NUL);
  }

  /** Reading a key gives a row exactly when the key was written for it from NUL-free names: the two functions
      are inverse to each other, so distinct rows never share a key. */
  lemma MemberKeyRoundTrip(key: string, r: Row)
    ensures SplitMemberKey(key) == Some(r) <==> Clean(r) && MemberKey(r) == key
  {
    if Clean(r) {
      SplitOfKey(r);
      SplitWhole(r.group, NUL);
      SplitWhole(r.kind, NUL);
      SplitWhole(r.actor, NUL);
    }
    if SplitMemberKey(key) == Some(r) {
      JoinSplit(key, NUL);
      var parts := Split(key, NUL);
      assert Join(parts, NUL) == r.group + [NUL] + Join(parts[1..], NUL);
      assert Join(parts[1..], NUL) == r.kind + [NUL] + Join(parts[1..][1..], NUL);
      assert MemberKey(r) == r.group + [NUL] + (r.kind + [NUL] + r.actor);
    }
  }

  predicate HasPrefix(s: string, p: string) {
    p <= s
  }

  predicate HasSuffix(s: string, p: string) {
    |p| <= |s| && s[|s| - |p|..] == p
  }

  /** clearMembers finds a group's rows by key prefix: the prefix test selects exactly the rows of that group. */
  lemma PrefixSelectsGroup(r: Row, group: string)
    requires Clean(r) && NulFree(group)
    ensures HasPrefix(MemberKey(r), group + [NUL]) <==> r.group == group
  {
    var key := MemberKey(r);
    assert key == r.group + [NUL] + (r.kind + [NUL] + r.actor);
    if HasPrefix(key, group + [NUL]) {
      var rest := key[|group| + 1..];
      assert key == group + [NUL] + rest;
      SplitAtSeparator(group, rest, NUL);
      SplitOfKey(r);
      SplitWhole(group, NUL);
      SplitWhole(r.group, NUL);
      assert Split(key, NUL)[0] == r.group;
    }
  }

  /** removeMemberRows finds an actor's rows by key suffix: the suffix test selects exactly the rows of that kind
      and actor, in whatever group. */
  lemma SuffixSelectsActor(r: Row, kind: string, actor: string)
    requires Clean(r) && NulFree(kind) && NulFree(actor)
    ensures HasSuffix(MemberKey(r), [NUL] + kind + [NUL] + actor) <==> r.kind == kind && r.actor == actor
  {
    var key, suffix := MemberKey(r), [NUL] + kind + [NUL] + actor;
    assert key == r.group + ([NUL] + r.kind + [NUL] + r.actor);
    if HasSuffix(key, suffix) {
      var head := key[..|key| - |suffix|];
      assert key == (head + [NUL] + kind) + [NUL] + actor;
      SplitAtSeparator(head + [NUL] + kind, actor, NUL);
      SplitAtSeparator(head, kind, NUL);
      SplitOfKey(r);
      SplitWhole(r.group, NUL);
      SplitWhole(r.kind, NUL);
      SplitWhole(r.actor, NUL);
      SplitWhole(kind, NUL);
      SplitWhole(actor, NUL);
      var parts := Split(key, NUL);
      assert parts == [r.group, r.kind, r.actor];
      assert parts == Split(head, NUL) + [kind] + [actor];
      assert parts[|parts| - 1] == actor && parts[|parts| - 2] == kind;
    }
  }
}
