/** The keys of one actor (internal/api/keys.go, internal/api/actor.go). They live in two places, the public_key on the
    actor's record and the rows of its keys collection, and behave as one map from name to key. */
module ActorKeys {
  import opened Prelude

  datatype Key = Key(pub: string, expiry: string)

  const DEFAULT := "default"
  const INFINITY := "infinity"

  datatype Status = Done | NotFound | Conflict | BadRequest

  /** What the two places stand for: whether the actor exists, and its keys by name. */
  datatype Account = Account(known: bool, keys: map<string, Key>)

  // The plain map

  /** A field of a request body: the given text, or what stands for an empty one. */
  function Or(given: string, otherwise: string): string {
    if given != "" then given else otherwise
  }

  function CreateSpec(a: Account, pub: string): (Account, Status) {
    if a.known then (a, Conflict)
    else (Account(true, if pub == "" then map[] else map[DEFAULT := Key(pub, INFINITY)]), Done)
  }

  /** An update that carries a key replaces the default one and keeps its expiry. */
  function UpdateSpec(a: Account, pub: string): (Account, Status) {
    if !a.known then (a, NotFound)
    else if pub == "" then (a, Done)
    else (a.(keys := a.keys[DEFAULT := Key(pub, if DEFAULT in a.keys then a.keys[DEFAULT].expiry else INFINITY)]), Done)
  }

  function DeleteSpec(a: Account): (Account, Status) {
    if !a.known then (a, NotFound) else (Account(false, map[]), Done)
  }

  function AddKeySpec(a: Account, name: string, pub: string, expiry: string): (Account, Status) {
    if !a.known then (a, NotFound)
    else if name == "" then (a, BadRequest)
    else if name in a.keys then (a, Conflict)
    else (a.(keys := a.keys[name := Key(pub, Or(expiry, INFINITY))]), Done)
  }

  /** An update of a key, with a rename when a new name is given. */
  function PutKeySpec(a: Account, name: string, newName: string, pub: string, expiry: string): (Account, Status) {
    if !a.known || name !in a.keys then (a, NotFound)
    else
      var key := Key(Or(pub, a.keys[name].pub), Or(expiry, a.keys[name].expiry));
      var target := Or(newName, name);
      if target == name then (a.(keys := a.keys[name := key]), Done)
      else if target in a.keys then (a, Conflict)
      else (a.(keys := (a.keys - {name})[target := key]), Done)
  }

  function DeleteKeySpec(a: Account, name: string): (Account, Status) {
    if !a.known || name !in a.keys then (a, NotFound) else (a.(keys := a.keys - {name}), Done)
  }

  /** keyExpired: "infinity" and no date never expire, a date that does not parse has expired. */
  predicate Expired(parseTime: string -> Option<int>, expiry: string, now: int) {
    expiry != "" && expiry != INFINITY &&
    match parseTime(expiry)
    case None => true
    case Some(at) => at <= now
  }

  // The two places

  datatype Request =
    | CreateActor(pub: string)
    | UpdateActor(pub: string)
    | DeleteActor
    | AddKey(name: string, pub: string, expiry: string)
    | PutKey(name: string, newName: string, pub: string, expiry: string)
    | DeleteKey(name: string)

  function Spec(a: Account, req: Request): (Account, Status) {
    match req
    case CreateActor(pub) => CreateSpec(a, pub)
    case UpdateActor(pub) => UpdateSpec(a, pub)
    case DeleteActor => DeleteSpec(a)
    case AddKey(name, pub, expiry) => AddKeySpec(a, name, pub, expiry)
    case PutKey(name, newName, pub, expiry) => PutKeySpec(a, name, newName, pub, expiry)
    case DeleteKey(name) => DeleteKeySpec(a, name)
  }

  /** A run against the plain map. */
  function RunSpec(a: Account, reqs: seq<Request>): Account {
    if reqs == [] then a else Spec(RunSpec(a, reqs[..|reqs| - 1]), reqs[|reqs| - 1]).0
  }

  // The map and the one thing about where its default lives that shows

  /** The keys, and whether the default is a row of its own rather than made from the record. */
  datatype Ledger = Ledger(account: Account, stored: bool)

  /** A rename of a default that was never stored. */
  predicate RenamesUnstored(l: Ledger, req: Request) {
    && req.PutKey? && req.name == DEFAULT && req.newName != "" && req.newName != DEFAULT
    && l.account.known && DEFAULT in l.account.keys && !l.stored
  }

  /** The request the two places act on: such a rename is taken as the update without the rename. */
  function Meant(l: Ledger, req: Request): Request {
    if RenamesUnstored(l, req) then req.(newName := "") else req
  }

  predicate WritesDefaultRow(req: Request) {
    match req
    case AddKey(name, _, _) => name == DEFAULT
    case PutKey(name, newName, _, _) => Or(newName, name) == DEFAULT
    case _ => false
  }

  function Step(l: Ledger, req: Request): (Ledger, Status) {
    var (a, r) := Spec(l.account, Meant(l, req));
    (Ledger(a, DEFAULT in a.keys && (l.stored || (r.Done? && WritesDefaultRow(Meant(l, req))))), r)
  }

  function Steps(l: Ledger, reqs: seq<Request>): Ledger {
    if reqs == [] then l else Step(Steps(l, reqs[..|reqs| - 1]), reqs[|reqs| - 1]).0
  }

  /** No request of the run renames a default that is not stored at that point. */
  predicate NeverRenamesUnstored(l: Ledger, reqs: seq<Request>) {
    reqs != [] ==>
      var n := |reqs| - 1;
      NeverRenamesUnstored(l, reqs[..n]) && !RenamesUnstored(Steps(l, reqs[..n]), reqs[n])
  }

  /** The excepted request is always a real difference: whatever the account and the rest of the request. */
  lemma UnstoredRenameDiffers(l: Ledger, req: Request)
    requires RenamesUnstored(l, req)
    ensures Spec(l.account, Meant(l, req)) != Spec(l.account, req)
  {
    var (plain, r) := Spec(l.account, req);
    assert r.Done? ==> DEFAULT !in plain.keys;
  }

  /** Otherwise it is the plain map, step by step: a run that never renames an unstored default is its run. */
  lemma {:induction false} PlainRun(l: Ledger, reqs: seq<Request>)
    requires NeverRenamesUnstored(l, reqs)
    ensures Steps(l, reqs).account == RunSpec(l.account, reqs)
  {
    if reqs != [] {
      PlainRun(l, reqs[..|reqs| - 1]);
    }
  }

  /** Whether a request can give the actor a default key. */
  predicate GivesDefault(req: Request) {
    match req
    case CreateActor(pub) => pub != ""
    case UpdateActor(pub) => pub != ""
    case AddKey(name, _, _) => name == DEFAULT
    case PutKey(_, newName, _, _) => newName == DEFAULT
    case _ => false
  }

  /** A default that is gone stays gone until a request gives one: deleting or renaming it never lets it resurface. */
  lemma {:induction false} DefaultNeverResurfaces(l: Ledger, reqs: seq<Request>)
    requires DEFAULT !in l.account.keys && forall req :: req in reqs ==> !GivesDefault(req)
    ensures DEFAULT !in Steps(l, reqs).account.keys
  {
    if reqs != [] {
      var n := |reqs| - 1;
      DefaultNeverResurfaces(l, reqs[..n]);
      assert reqs[n] in reqs;
    }
  }

  /** One entry of the key list. */
  datatype Item = Item(name: string, expired: bool)

  class Actor {
    /** The actor's record, when it exists: its public_key, "" when it has none. */
    var record: Option<string>
    /** The rows of its keys collection. */
    var rows: map<string, Key>

    constructor ()
      ensures Valid() && Keys() == Account(false, map[])
    {
      record, rows := None, map[];
    }

    /** A stored default row always equals the record's public_key, rows belong to an existing actor, and no row lacks
        a key. */
    ghost predicate Valid()
      reads this
    {
      && (record.None? ==> rows == map[])
      && (DEFAULT in rows ==> record == Some(rows[DEFAULT].pub))
      && forall name :: name in rows ==> rows[name].pub != ""
    }

    /** The keys the actor has: its rows, and the default made from its record when no row takes its place. */
    ghost function Keys(): Account
      reads this
    {
      Account(record.Some?,
              if DEFAULT !in rows && record.Some? && record.value != ""
              then rows[DEFAULT := Key(record.value, INFINITY)] else rows)
    }

    ghost function State(): Ledger
      reads this
    {
      Ledger(Keys(), DEFAULT in rows)
    }

    method CreateActor(pub: string) returns (r: Status)
      requires Valid()
      modifies this
      ensures Valid() && (Keys(), r) == CreateSpec(old(Keys()), pub) && rows == old(rows)
    {
      if record.Some? {
        return Conflict;
      }
      record := Some(pub);
      return Done;
    }

    /** scopedPut: a body without a key carries the stored one forward; one with a key points a stored default row at it
        before rewriting the record. */
    method UpdateActor(pub: string) returns (r: Status)
      requires Valid()
      modifies this
      ensures Valid() && (Keys(), r) == UpdateSpec(old(Keys()), pub) && rows.Keys == old(rows.Keys)
    {
      if record.None? {
        return NotFound;
      }
      if pub != "" {
        if DEFAULT in rows {
          rows := rows[DEFAULT := rows[DEFAULT].(pub := pub)];
        }
        record := Some(pub);
      }
      assert Keys().keys == UpdateSpec(old(Keys()), pub).0.keys;
      return Done;
    }

    /** scopedDelete, as far as keys go: every row, then the record. */
    method DeleteActor() returns (r: Status)
      requires Valid()
      modifies this
      ensures Valid() && (Keys(), r) == DeleteSpec(old(Keys()))
    {
      if record.None? {
        return NotFound;
      }
      var names := rows.Keys;
      while names != {}
        invariant rows.Keys == names && record == old(record)
      {
        var name :| name in names;
        rows := rows - {name};
        names := names - {name};
      }
      record := None;
      return Done;
    }

    /** addKey; `pub` is the body's key or the one generated for it. */
    method AddKey(name: string, pub: string, expiry: string) returns (r: Status)
      requires Valid() && pub != ""
      modifies this
      ensures Valid() && (Keys(), r) == AddKeySpec(old(Keys()), name, pub, expiry)
      ensures rows.Keys == old(rows.Keys) + if r.Done? then {name} else {}
    {
      if record.None? {
        return NotFound;
      }
      if name == "" {
        return BadRequest;
      }
      if name == DEFAULT && record.value != "" {
        return Conflict;
      }
      if name in rows {
        return Conflict;
      }
      rows := rows[name := Key(pub, Or(expiry, INFINITY))];
      if name == DEFAULT {
        record := Some(pub);
      }
      assert Keys().keys == AddKeySpec(old(Keys()), name, pub, expiry).0.keys;
      return Done;
    }

    /** putKey; an empty field keeps the stored value. It does to the map what was asked, except exactly for a rename of
        a default that was never stored, which is answered as the update without the rename. */
    method PutKey(name: string, newName: string, pub: string, expiry: string) returns (r: Status)
      requires Valid()
      modifies this
      ensures Valid() && (State(), r) == Step(old(State()), Request.PutKey(name, newName, pub, expiry))
      ensures (Keys(), r) == PutKeySpec(old(Keys()), name, newName, pub, expiry) <==>
              !RenamesUnstored(old(State()), Request.PutKey(name, newName, pub, expiry))
    {
      ghost var req, before := Request.PutKey(name, newName, pub, expiry), State();
      if RenamesUnstored(before, req) {
        UnstoredRenameDiffers(before, req);
      }
      if record.None? {
        return NotFound;
      }
      var stored := name in rows;
      if !stored && name != DEFAULT {
        return NotFound;
      }
      if !stored {
        if record.value == "" {
          return NotFound;
        }
        var key := Key(Or(pub, record.value), Or(expiry, INFINITY));
        rows := rows[DEFAULT := key];
        record := Some(key.pub);
        assert Keys().keys == PutKeySpec(old(Keys()), name, "", pub, expiry).0.keys;
        return Done;
      }
      var key := Key(Or(pub, rows[name].pub), Or(expiry, rows[name].expiry));
      var target := Or(newName, name);
      if target == name {
        rows := rows[name := key];
        if name == DEFAULT {
          record := Some(key.pub);
        }
        assert Keys().keys == PutKeySpec(old(Keys()), name, newName, pub, expiry).0.keys;
        return Done;
      }
      r := Rename(name, target, key);
    }

    /** A rename: refused when another key answers to the new name, the record's own included. */
    method Rename(name: string, target: string, key: Key) returns (r: Status)
      requires Valid() && record.Some? && name in rows && target != name && key.pub != ""
      modifies this
      ensures Valid() && record.Some?
      ensures r == if target in old(Keys()).keys then Conflict else Done
      ensures r.Conflict? ==> Keys() == old(Keys())
      ensures r.Done? ==> Keys().keys == (old(Keys()).keys - {name})[target := key]
      ensures rows.Keys == if r.Done? then old(rows.Keys) - {name} + {target} else old(rows.Keys)
    {
      if target == DEFAULT && record.value != "" {
        return Conflict;
      }
      if target in rows {
        return Conflict;
      }
      rows := rows[target := key];
      rows := rows - {name};
      if name == DEFAULT {
        record := Some("");
      } else if target == DEFAULT {
        record := Some(key.pub);
      }
      assert Keys().keys == (old(Keys()).keys - {name})[target := key];
      return Done;
    }

    /** deleteKey: a deleted default takes the record's public_key with it, stored or not. */
    method DeleteKey(name: string) returns (r: Status)
      requires Valid()
      modifies this
      ensures Valid() && (Keys(), r) == DeleteKeySpec(old(Keys()), name) && rows.Keys == old(rows.Keys) - {name}
    {
      if record.None? {
        return NotFound;
      }
      if name in rows {
        rows := rows - {name};
        if name == DEFAULT && record.value != "" {
          record := Some("");
        }
        assert Keys().keys == DeleteKeySpec(old(Keys()), name).0.keys;
        return Done;
      }
      if name == DEFAULT && record.value != "" {
        record := Some("");
        assert Keys().keys == DeleteKeySpec(old(Keys()), name).0.keys;
        return Done;
      }
      return NotFound;
    }

    /** getKey: the stored row, or the default made from the record. */
    method GetKey(name: string) returns (key: Option<Key>)
      requires Valid()
      ensures key == if name in Keys().keys then Some(Keys().keys[name]) else None
    {
      if record.None? {
        return None;
      }
      if name in rows {
        return Some(rows[name]);
      }
      if name == DEFAULT && record.value != "" {
        return Some(Key(record.value, INFINITY));
      }
      return None;
    }

    /** SigningKeys: one key for each name the actor has that has not expired, and no other. */
    method SigningKeys(parseTime: string -> Option<int>, now: int) returns (pubs: seq<string>)
      requires Valid()
      ensures exists names :: Signs(Keys(), parseTime, now, names, pubs)
    {
      pubs := [];
      ghost var names := [];
      var todo := rows.Keys;
      while todo != {}
        invariant todo <= rows.Keys && |pubs| == |names|
        invariant forall i, j :: 0 <= i < j < |names| ==> names[i] != names[j]
        invariant forall name :: name in names <==> name in rows && name !in todo && !Expired(parseTime, rows[name].expiry, now)
        invariant forall i :: 0 <= i < |names| ==> names[i] in rows && pubs[i] == rows[names[i]].pub
      {
        var name :| name in todo;
        if rows[name].pub != "" && !Expired(parseTime, rows[name].expiry, now) {
          pubs, names := pubs + [rows[name].pub], names + [name];
        }
        todo := todo - {name};
      }
      if DEFAULT !in rows && record.Some? && record.value != "" {
        pubs, names := pubs + [record.value], names + [DEFAULT];
      }
      assert Signs(Keys(), parseTime, now, names, pubs);
    }

    /** listKeys: every name once, with whether its key has expired; the default made from the record comes first. */
    method ListKeys(parseTime: string -> Option<int>, now: int) returns (items: seq<Item>)
      requires Valid()
      ensures forall i, j :: 0 <= i < j < |items| ==> items[i].name != items[j].name
      ensures forall it :: it in items <==>
                it.name in Keys().keys && it.expired == Expired(parseTime, Keys().keys[it.name].expiry, now)
    {
      items := [];
      if DEFAULT !in rows && record.Some? && record.value != "" {
        items := [Item(DEFAULT, false)];
      }
      var todo := rows.Keys;
      while todo != {}
        invariant todo <= rows.Keys
        invariant forall i, j :: 0 <= i < j < |items| ==> items[i].name != items[j].name
        invariant forall it :: it in items <==>
                    it.name in Keys().keys && it.name !in todo && it.expired == Expired(parseTime, Keys().keys[it.name].expiry, now)
      {
        var name :| name in todo;
        assert forall i :: 0 <= i < |items| ==> items[i] in items && items[i].name != name;
        items := items + [Item(name, Expired(parseTime, rows[name].expiry, now))];
        todo := todo - {name};
      }
    }

    /** One request. */
    method Handle(req: Request) returns (r: Status)
      requires Valid() && (req.AddKey? ==> req.pub != "")
      modifies this
      ensures Valid() && (State(), r) == Step(old(State()), req)
    {
      match req {
        case CreateActor(pub) => r := CreateActor(pub);
        case UpdateActor(pub) => r := UpdateActor(pub);
        case DeleteActor => r := DeleteActor();
        case AddKey(name, pub, expiry) => r := AddKey(name, pub, expiry);
        case PutKey(name, newName, pub, expiry) => r := PutKey(name, newName, pub, expiry);
        case DeleteKey(name) => r := DeleteKey(name);
      }
    }

    /** Any run of requests: the record and the rows stand for the ledger after the same run; they are the plain map's
        unless an unstored default was renamed; and a default that is gone stays gone until a request gives one. */
    method Run(reqs: seq<Request>)
      requires Valid() && forall req :: req in reqs && req.AddKey? ==> req.pub != ""
      modifies this
      ensures Valid() && State() == Steps(old(State()), reqs)
      ensures NeverRenamesUnstored(old(State()), reqs) ==> Keys() == RunSpec(old(Keys()), reqs)
      ensures DEFAULT !in old(Keys()).keys && (forall req :: req in reqs ==> !GivesDefault(req)) ==> DEFAULT !in Keys().keys
    {
      ghost var start := State();
      for i := 0 to |reqs|
        invariant Valid() && State() == Steps(start, reqs[..i])
      {
        var _ := Handle(reqs[i]);
        assert reqs[..i + 1][..i] == reqs[..i];
      }
      assert reqs[..|reqs|] == reqs;
      if NeverRenamesUnstored(start, reqs) {
        PlainRun(start, reqs);
      }
      if DEFAULT !in start.account.keys && forall req :: req in reqs ==> !GivesDefault(req) {
        DefaultNeverResurfaces(start, reqs);
      }
    }
  }

  /** The public keys of exactly the names that have not expired, each name once. */
  ghost predicate Signs(a: Account, parseTime: string -> Option<int>, now: int, names: seq<string>, pubs: seq<string>) {
    && |pubs| == |names| && (forall i, j :: 0 <= i < j < |names| ==> names[i] != names[j])
    && (forall name :: name in names <==> name in a.keys && !Expired(parseTime, a.keys[name].expiry, now))
    && forall i :: 0 <= i < |names| ==> names[i] in a.keys && pubs[i] == a.keys[names[i]].pub
  }

  function KeyOf(a: Account, name: string): Option<Key> {
    if name in a.keys then Some(a.keys[name]) else None
  }

  /** An update of a key is read back: each field as given, or as it was; under the new name when one is given, and no
      longer under the old; and no other key changes. */
  lemma UpdateIsReadBack(a: Account, name: string, newName: string, pub: string, expiry: string, other: string)
    requires PutKeySpec(a, name, newName, pub, expiry).1.Done?
    ensures var b := PutKeySpec(a, name, newName, pub, expiry).0;
            var target := if newName == "" then name else newName;
            && name in a.keys && KeyOf(b, target).Some?
            && (pub != "" ==> b.keys[target].pub == pub) && (pub == "" ==> b.keys[target].pub == a.keys[name].pub)
            && (expiry != "" ==> b.keys[target].expiry == expiry)
            && (expiry == "" ==> b.keys[target].expiry == a.keys[name].expiry)
            && (target != name ==> name !in b.keys && target !in a.keys)
            && (other != name && other != target ==> KeyOf(b, other) == KeyOf(a, other))
  {
    assert Or(newName, name) == if newName == "" then name else newName;
  }

  /** Adding and then deleting a key, or renaming one and renaming it back, leaves the keys as they were. */
  lemma KeysComeBack(a: Account, name: string, newName: string, pub: string, expiry: string)
    ensures AddKeySpec(a, name, pub, expiry).1.Done? ==> DeleteKeySpec(AddKeySpec(a, name, pub, expiry).0, name) == (a, Done)
    ensures PutKeySpec(a, name, newName, "", "").1.Done? && name != "" && newName != "" ==>
              PutKeySpec(PutKeySpec(a, name, newName, "", "").0, newName, name, "", "") == (a, Done)
  {
    if AddKeySpec(a, name, pub, expiry).1.Done? {
      assert AddKeySpec(a, name, pub, expiry).0.keys - {name} == a.keys;
    }
    if PutKeySpec(a, name, newName, "", "").1.Done? && name != "" && newName != "" {
      var b := PutKeySpec(a, name, newName, "", "").0;
      assert PutKeySpec(b, newName, name, "", "").0.keys == a.keys;
    }
  }

  /** A name signs exactly when its key has no date, "infinity", or one that is still to come. */
  lemma SignsUntilItsDate(a: Account, parseTime: string -> Option<int>, now: int, names: seq<string>, pubs: seq<string>,
                          name: string)
    requires Signs(a, parseTime, now, names, pubs)
    ensures name in names <==>
            name in a.keys && var date := a.keys[name].expiry;
                              date == "" || date == "infinity" || (parseTime(date).Some? && now < parseTime(date).value)
  {
  }

  /** A key that does not sign at one time never signs later. */
  lemma NeverSignsAgain(a: Account, parseTime: string -> Option<int>, now: int, names: seq<string>, pubs: seq<string>,
                        later: int, names': seq<string>, pubs': seq<string>)
    requires Signs(a, parseTime, now, names, pubs) && Signs(a, parseTime, later, names', pubs') && now <= later
    ensures forall name :: name in names' ==> name in names
  {
    forall name | name in names'
      ensures name in names
    {
      SignsUntilItsDate(a, parseTime, later, names', pubs', name);
      SignsUntilItsDate(a, parseTime, now, names, pubs, name);
    }
  }
}
