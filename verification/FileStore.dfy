/** Cookbook file bodies: uploads, the manifests that reference them, and the collection of bodies no manifest
    references any more (internal/api/cookbooks.go:122-148, 500-615 and 707-788; internal/api/cookbook_artifacts.go:98-177).
    Each handler is one step. Collection reads manifests with json.Unmarshal and passes over one that does not decode. */
module FileStore {
  import opened Prelude
  import opened Json
  import opened Manifests
  import opened FloatLayout

  // Specification

  /** File bodies by checksum, and the two collections of manifests by "name/version" or "name/identifier". */
  datatype State = State(blobs: map<string, string>, cookbooks: map<string, Json>, artifacts: map<string, Json>)

  const EMPTY := State(map[], map[], map[])

  /** The checksums the manifests of a collection name. */
  function Named(manifests: map<string, Json>): set<string> {
    set key, sum | key in manifests && sum in Checksums(LastWins, manifests[key]) :: sum
  }

  /** The checksums some stored manifest names. */
  function AllNamed(s: State): set<string> {
    Named(s.cookbooks) + Named(s.artifacts)
  }

  /** The checksums garbage collection finds in a manifest: none in one that does not decode. */
  function Found(fits: string -> bool, m: Json): set<string> {
    if Decodes(fits, m) then Checksums(LastWins, m) else {}
  }

  function Refs(fits: string -> bool, manifests: map<string, Json>): set<string> {
    set key, sum | key in manifests && sum in Found(fits, manifests[key]) :: sum
  }

  /** The checksums garbage collection takes to be referenced. */
  function Referenced(fits: string -> bool, s: State): set<string> {
    Refs(fits, s.cookbooks) + Refs(fits, s.artifacts)
  }

  /** Drops each candidate that garbage collection finds no reference to. */
  function Collected(fits: string -> bool, s: State, candidates: set<string>): State {
    s.(blobs := s.blobs - (candidates - Referenced(fits, s)))
  }

  datatype Request =
    | Upload(sum: string, body: string)
    | PutCookbook(key: string, manifest: Option<Json>)
    | DeleteCookbook(key: string)
    | PutArtifact(key: string, manifest: Option<Json>)
    | DeleteArtifact(key: string)

  datatype Reply = Done | Created | Refused | NotFound | Conflict

  /** A manifest is storable when it is an object the validators pass, it repeats no name, and every file it names, read
      as the upload check reads it, has been uploaded. */
  predicate Storable(s: State, manifest: Option<Json>) {
    && manifest.Some? && manifest.value.Obj? && NoRepeats(manifest.value)
    && Checksums(FirstWins, manifest.value) <= s.blobs.Keys
  }

  function Under(manifests: map<string, Json>, key: string): Option<Json> {
    if key in manifests then Some(manifests[key]) else None
  }

  /** The manifest a request removes or overwrites. */
  function Dropped(s: State, req: Request): Option<Json> {
    match req
    case PutCookbook(key, m) => if Storable(s, m) then Under(s.cookbooks, key) else None
    case DeleteCookbook(key) => Under(s.cookbooks, key)
    case DeleteArtifact(key) => Under(s.artifacts, key)
    case _ => None
  }

  /** What a request does before anything is collected. */
  function Kept(hash: string -> string, s: State, req: Request): State {
    match req
    case Upload(sum, body) => if hash(body) == sum then s.(blobs := s.blobs[sum := body]) else s
    case PutCookbook(key, m) => if Storable(s, m) then s.(cookbooks := s.cookbooks[key := m.value]) else s
    case DeleteCookbook(key) => s.(cookbooks := s.cookbooks - {key})
    case PutArtifact(key, m) =>
      if key !in s.artifacts && Storable(s, m) then s.(artifacts := s.artifacts[key := m.value]) else s
    case DeleteArtifact(key) => s.(artifacts := s.artifacts - {key})
  }

  function Sums(m: Option<Json>): set<string> {
    if m.Some? then Checksums(LastWins, m.value) else {}
  }

  /** What a request offers for collection. */
  function Offered(fits: string -> bool, s: State, req: Request): set<string> {
    var m := Dropped(s, req);
    if m.Some? then Found(fits, m.value) else {}
  }

  function Spec(hash: string -> string, fits: string -> bool, s: State, req: Request): State {
    Collected(fits, Kept(hash, s, req), Offered(fits, s, req))
  }

  function ReplySpec(hash: string -> string, s: State, req: Request): Reply {
    match req
    case Upload(sum, body) => if hash(body) == sum then Done else Refused
    case PutCookbook(key, m) => if !Storable(s, m) then Refused else if key in s.cookbooks then Done else Created
    case DeleteCookbook(key) => if key in s.cookbooks then Done else NotFound
    case PutArtifact(key, m) => if key in s.artifacts then Conflict else if Storable(s, m) then Created else Refused
    case DeleteArtifact(key) => if key in s.artifacts then Done else NotFound
  }

  function RunSpec(hash: string -> string, fits: string -> bool, s: State, reqs: seq<Request>): State {
    if reqs == [] then s else Spec(hash, fits, RunSpec(hash, fits, s, reqs[..|reqs| - 1]), reqs[|reqs| - 1])
  }

  // Manifests are read back

  /** A request that could change the cookbook under a key. */
  predicate TouchesCookbook(req: Request, key: string) {
    (req.PutCookbook? || req.DeleteCookbook?) && req.key == key
  }

  predicate TouchesArtifact(req: Request, key: string) {
    (req.PutArtifact? || req.DeleteArtifact?) && req.key == key
  }

  lemma StepLeavesCookbook(hash: string -> string, fits: string -> bool, s: State, req: Request, key: string)
    requires !TouchesCookbook(req, key)
    ensures Under(Spec(hash, fits, s, req).cookbooks, key) == Under(s.cookbooks, key)
  {
  }

  lemma StepLeavesArtifact(hash: string -> string, fits: string -> bool, s: State, req: Request, key: string)
    requires !TouchesArtifact(req, key)
    ensures Under(Spec(hash, fits, s, req).artifacts, key) == Under(s.artifacts, key)
  {
  }

  /** What is under a key stays there, or stays away, until a request on that key. */
  lemma {:induction false} CookbookStays(hash: string -> string, fits: string -> bool, s: State, reqs: seq<Request>, key: string)
    requires forall i :: 0 <= i < |reqs| ==> !TouchesCookbook(reqs[i], key)
    ensures Under(RunSpec(hash, fits, s, reqs).cookbooks, key) == Under(s.cookbooks, key)
  {
    if reqs != [] {
      var n := |reqs| - 1;
      CookbookStays(hash, fits, s, reqs[..n], key);
      StepLeavesCookbook(hash, fits, RunSpec(hash, fits, s, reqs[..n]), reqs[n], key);
    }
  }

  lemma {:induction false} ArtifactStays(hash: string -> string, fits: string -> bool, s: State, reqs: seq<Request>, key: string)
    requires forall i :: 0 <= i < |reqs| ==> !TouchesArtifact(reqs[i], key)
    ensures Under(RunSpec(hash, fits, s, reqs).artifacts, key) == Under(s.artifacts, key)
  {
    if reqs != [] {
      var n := |reqs| - 1;
      ArtifactStays(hash, fits, s, reqs[..n], key);
      StepLeavesArtifact(hash, fits, RunSpec(hash, fits, s, reqs[..n]), reqs[n], key);
    }
  }

  /** After a PUT that is not refused, and until a later request on the key, the manifest is read back under it; after a
      deletion nothing is. */
  lemma PutIsReadBack(hash: string -> string, fits: string -> bool, s: State, req: Request, later: seq<Request>)
    requires req.PutCookbook? || req.DeleteCookbook?
    requires forall i :: 0 <= i < |later| ==> !TouchesCookbook(later[i], req.key)
    ensures var reply, t := ReplySpec(hash, s, req), RunSpec(hash, fits, Spec(hash, fits, s, req), later);
            Under(t.cookbooks, req.key) ==
            if req.DeleteCookbook? then None
            else if reply.Refused? then Under(s.cookbooks, req.key)
            else req.manifest
  {
    CookbookStays(hash, fits, Spec(hash, fits, s, req), later, req.key);
  }

  /** The same for artifacts, which are never overwritten. */
  lemma ArtifactIsReadBack(hash: string -> string, fits: string -> bool, s: State, req: Request, later: seq<Request>)
    requires req.PutArtifact? || req.DeleteArtifact?
    requires forall i :: 0 <= i < |later| ==> !TouchesArtifact(later[i], req.key)
    ensures var reply, t := ReplySpec(hash, s, req), RunSpec(hash, fits, Spec(hash, fits, s, req), later);
            Under(t.artifacts, req.key) ==
            if req.DeleteArtifact? then None
            else if reply.Created? then req.manifest
            else Under(s.artifacts, req.key)
  {
    ArtifactStays(hash, fits, Spec(hash, fits, s, req), later, req.key);
  }

  /** An upload is taken exactly when the body has the checksum it is sent under, and then it is there. */
  lemma UploadIsThere(hash: string -> string, fits: string -> bool, s: State, sum: string, body: string)
    ensures var t := Spec(hash, fits, s, Upload(sum, body));
            && (ReplySpec(hash, s, Upload(sum, body)) == if hash(body) == sum then Done else Refused)
            && t.cookbooks == s.cookbooks && t.artifacts == s.artifacts
            && t.blobs == if hash(body) == sum then s.blobs[sum := body] else s.blobs
  {
    NothingOffered(fits, Kept(hash, s, Upload(sum, body)));
  }

  /** What a PUT takes: an object without repeated names whose files have all been uploaded, and for an artifact a key
      not in use. */
  lemma PutIsTaken(hash: string -> string, s: State, key: string, manifest: Option<Json>)
    ensures ReplySpec(hash, s, PutCookbook(key, manifest)).Refused? <==>
            manifest.None? || !manifest.value.Obj? || !NoRepeats(manifest.value) ||
            exists path, sum :: At(FirstWins, manifest.value, path + CHECKSUM) == Some(Str(sum)) && sum !in s.blobs
  {
    if manifest.Some? && manifest.value.Obj? && NoRepeats(manifest.value) {
      var sums := Checksums(FirstWins, manifest.value);
      if sum :| sum in sums && sum !in s.blobs {
        ChecksumsAreEverywhere(FirstWins, manifest.value, sum);
        var path :| At(FirstWins, manifest.value, path + CHECKSUM) == Some(Str(sum));
      }
      forall path, sum | At(FirstWins, manifest.value, path + CHECKSUM) == Some(Str(sum)) && sum !in s.blobs
        ensures !(sums <= s.blobs.Keys)
      {
        ChecksumsAreEverywhere(FirstWins, manifest.value, sum);
      }
    }
  }

  // Every reference resolves

  predicate Unambiguous(manifests: map<string, Json>) {
    forall key :: key in manifests ==> NoRepeats(manifests[key])
  }

  /** No stored manifest repeats a name, every checksum anywhere in one has a body, and every body has the checksum it
      is stored under. */
  predicate Resolves(hash: string -> string, s: State) {
    && Unambiguous(s.cookbooks) && Unambiguous(s.artifacts)
    && AllNamed(s) <= s.blobs.Keys
    && forall sum :: sum in s.blobs ==> hash(s.blobs[sum]) == sum
  }

  lemma NamedUpdate(manifests: map<string, Json>, key: string, m: Json)
    ensures Named(manifests[key := m]) <= Named(manifests) + Checksums(LastWins, m)
    ensures Named(manifests) <= Named(manifests[key := m]) + Sums(Under(manifests, key))
  {
    var updated := manifests[key := m];
    forall sum | sum in Named(manifests) ensures sum in Named(updated) + Sums(Under(manifests, key)) {
      var k :| k in manifests && sum in Checksums(LastWins, manifests[k]);
      if k != key {
        assert k in updated && updated[k] == manifests[k];
      }
    }
  }

  lemma NamedRemove(manifests: map<string, Json>, key: string)
    ensures Named(manifests - {key}) <= Named(manifests)
    ensures Named(manifests) <= Named(manifests - {key}) + Sums(Under(manifests, key))
  {
    var removed := manifests - {key};
    forall sum | sum in Named(manifests) ensures sum in Named(removed) + Sums(Under(manifests, key)) {
      var k :| k in manifests && sum in Checksums(LastWins, manifests[k]);
      if k != key {
        assert k in removed && removed[k] == manifests[k];
      }
    }
  }

  /** The checksums named grow only by ones that have a body, and shrink only by those of the manifest dropped. */
  lemma StepNames(hash: string -> string, s: State, req: Request)
    ensures AllNamed(Kept(hash, s, req)) <= AllNamed(s) + s.blobs.Keys
    ensures AllNamed(s) <= AllNamed(Kept(hash, s, req)) + Sums(Dropped(s, req))
  {
    match req {
      case Upload(_, _) =>
      case PutCookbook(key, m) => if Storable(s, m) { ReadingsAgree(m.value); NamedUpdate(s.cookbooks, key, m.value); }
      case DeleteCookbook(key) => NamedRemove(s.cookbooks, key);
      case PutArtifact(key, m) => if Storable(s, m) { ReadingsAgree(m.value); NamedUpdate(s.artifacts, key, m.value); }
      case DeleteArtifact(key) => NamedRemove(s.artifacts, key);
    }
  }

  lemma FoundIsNamed(fits: string -> bool, s: State)
    ensures Referenced(fits, s) <= AllNamed(s)
  {
  }

  /** A request is safe when each checksum it offers that a remaining manifest names is named by one that decodes. */
  predicate Safe(hash: string -> string, fits: string -> bool, s: State, req: Request) {
    Offered(fits, s, req) * AllNamed(Kept(hash, s, req)) <= Referenced(fits, Kept(hash, s, req))
  }

  lemma CollectionKeeps(named: set<string>, bodies: set<string>, offered: set<string>, refs: set<string>)
    requires named <= bodies
    ensures named <= bodies - (offered - refs) <==> offered * named <= refs
  {
    forall sum | sum in named && named <= bodies - (offered - refs) && sum in offered ensures sum in refs {
      assert sum in bodies - (offered - refs);
    }
  }

  lemma KeptIsSound(hash: string -> string, s: State, req: Request)
    requires Resolves(hash, s)
    ensures Resolves(hash, Kept(hash, s, req))
  {
    StepNames(hash, s, req);
  }

  /** A request keeps every reference resolved if and only if it is safe. */
  lemma StepResolves(hash: string -> string, fits: string -> bool, s: State, req: Request)
    requires Resolves(hash, s)
    ensures Resolves(hash, Spec(hash, fits, s, req)) <==> Safe(hash, fits, s, req)
  {
    KeptIsSound(hash, s, req);
    CollectedResolves(hash, fits, Kept(hash, s, req), Offered(fits, s, req));
  }

  lemma CollectedResolves(hash: string -> string, fits: string -> bool, kept: State, offered: set<string>)
    requires Resolves(hash, kept)
    ensures Resolves(hash, Collected(fits, kept, offered)) <==> offered * AllNamed(kept) <= Referenced(fits, kept)
  {
    var t, refs := Collected(fits, kept, offered), Referenced(fits, kept);
    assert AllNamed(t) == AllNamed(kept) && t.blobs.Keys == kept.blobs.Keys - (offered - refs);
    CollectionKeeps(AllNamed(kept), kept.blobs.Keys, offered, refs);
  }

  /** Each request of a run is safe where it comes. */
  predicate SafeRun(hash: string -> string, fits: string -> bool, reqs: seq<Request>) {
    reqs == [] ||
    var n := |reqs| - 1;
    SafeRun(hash, fits, reqs[..n]) && Safe(hash, fits, RunSpec(hash, fits, EMPTY, reqs[..n]), reqs[n])
  }

  /** Every reference resolves at the start of a run and after each of its requests. */
  ghost predicate ResolvesThroughout(hash: string -> string, fits: string -> bool, reqs: seq<Request>) {
    (reqs != [] ==> ResolvesThroughout(hash, fits, reqs[..|reqs| - 1])) && Resolves(hash, RunSpec(hash, fits, EMPTY, reqs))
  }

  /** Safety over runs: from an empty store, every checksum in every stored manifest has its body after each request of a
      run, if and only if each request is safe where it comes. */
  lemma {:induction false} RunResolves(hash: string -> string, fits: string -> bool, reqs: seq<Request>)
    ensures ResolvesThroughout(hash, fits, reqs) <==> SafeRun(hash, fits, reqs)
  {
    if reqs != [] {
      var n := |reqs| - 1;
      var before := RunSpec(hash, fits, EMPTY, reqs[..n]);
      RunResolves(hash, fits, reqs[..n]);
      if Resolves(hash, before) {
        StepResolves(hash, fits, before, reqs[n]);
      }
    }
  }

  /** A request that stores no manifest with a number beyond a double. */
  predicate Readable(fits: string -> bool, req: Request) {
    (req.PutCookbook? || req.PutArtifact?) && req.manifest.Some? && req.manifest.value.Obj? ==>
      NumbersFit(fits, req.manifest.value)
  }

  predicate AllDecode(fits: string -> bool, s: State) {
    && (forall key :: key in s.cookbooks ==> Decodes(fits, s.cookbooks[key]))
    && (forall key :: key in s.artifacts ==> Decodes(fits, s.artifacts[key]))
  }

  lemma AllIsFound(fits: string -> bool, manifests: map<string, Json>)
    requires forall key :: key in manifests ==> Decodes(fits, manifests[key])
    ensures Refs(fits, manifests) == Named(manifests)
  {
    forall sum | sum in Named(manifests) ensures sum in Refs(fits, manifests) {
      var key :| key in manifests && sum in Checksums(LastWins, manifests[key]);
      assert sum in Found(fits, manifests[key]);
    }
  }

  /** Where every manifest decodes, collection sees every reference. */
  lemma DecodableIsSafe(hash: string -> string, fits: string -> bool, s: State, req: Request)
    requires AllDecode(fits, s) && Readable(fits, req)
    ensures Safe(hash, fits, s, req) && AllDecode(fits, Spec(hash, fits, s, req))
  {
    var kept := Kept(hash, s, req);
    assert AllDecode(fits, kept);
    AllIsFound(fits, kept.cookbooks);
    AllIsFound(fits, kept.artifacts);
  }

  /** So a run that stores no number beyond a double keeps every reference resolved. */
  lemma {:induction false} DecodableRuns(hash: string -> string, fits: string -> bool, reqs: seq<Request>)
    requires forall i :: 0 <= i < |reqs| ==> Readable(fits, reqs[i])
    ensures AllDecode(fits, RunSpec(hash, fits, EMPTY, reqs)) && SafeRun(hash, fits, reqs)
  {
    if reqs != [] {
      var n := |reqs| - 1;
      DecodableRuns(hash, fits, reqs[..n]);
      DecodableIsSafe(hash, fits, RunSpec(hash, fits, EMPTY, reqs[..n]), reqs[n]);
    }
  }

  predicate StoredIn(s: State, m: Json) {
    (exists key :: key in s.cookbooks && s.cookbooks[key] == m) || exists key :: key in s.artifacts && s.artifacts[key] == m
  }

  /** So whichever way a stored manifest is read, every checksum at any depth of it has a body of that checksum. */
  lemma EveryFileIsThere(hash: string -> string, fits: string -> bool, reqs: seq<Request>,
                         r: Reading, m: Json, path: seq<Place>, sum: string)
    requires SafeRun(hash, fits, reqs) && StoredIn(RunSpec(hash, fits, EMPTY, reqs), m)
    requires At(r, m, path + CHECKSUM) == Some(Str(sum))
    ensures var s := RunSpec(hash, fits, EMPTY, reqs); sum in s.blobs && hash(s.blobs[sum]) == sum
  {
    var s := RunSpec(hash, fits, EMPTY, reqs);
    RunResolves(hash, fits, reqs);
    ReadingsAgree(m);
    FoundInside(r, m, path, sum);
    assert sum in AllNamed(s);
  }

  /** Why repeated names are refused: the upload check would pass a manifest whose reference dangles once stored. */
  lemma RefusalIsNeeded(s: State, key: string, a: string, b: string) returns (m: Json)
    requires a in s.blobs && b !in s.blobs
    ensures m.Obj? && !NoRepeats(m) && Checksums(FirstWins, m) <= s.blobs.Keys
    ensures !(AllNamed(s.(cookbooks := s.cookbooks[key := m])) <= s.blobs.Keys)
  {
    m := RepeatsCanDisagree(a, b);
    var stored := s.cookbooks[key := m];
    assert key in stored && b in Checksums(LastWins, stored[key]);
  }

  // Nothing is left behind

  /** What a request leaves behind: the bodies of a manifest it drops that does not decode and that nothing else names. */
  function Leftover(hash: string -> string, fits: string -> bool, s: State, req: Request): set<string> {
    var m := Dropped(s, req);
    if m.Some? && !Decodes(fits, m.value) then Sums(m) * s.blobs.Keys - AllNamed(Kept(hash, s, req)) else {}
  }

  /** Completeness of one step: of the checksums that lose their last name, exactly the leftover ones have a body
      afterwards. */
  lemma LastReferenceTakesBody(hash: string -> string, fits: string -> bool, s: State, req: Request)
    ensures var t := Spec(hash, fits, s, req); (AllNamed(s) - AllNamed(t)) * t.blobs.Keys == Leftover(hash, fits, s, req)
  {
    var kept, t := Kept(hash, s, req), Spec(hash, fits, s, req);
    StepNames(hash, s, req);
    FoundIsNamed(fits, kept);
    assert AllNamed(t) == AllNamed(kept);
    assert AllNamed(s) <= AllNamed(kept) || kept.blobs == s.blobs;
  }

  predicate Uploads(reqs: seq<Request>, sum: string) {
    exists i :: 0 <= i < |reqs| && reqs[i].Upload? && reqs[i].sum == sum
  }

  predicate Garbage(s: State, sum: string) {
    sum in s.blobs && sum !in AllNamed(s)
  }

  /** Some request of a run leaves a body behind. */
  predicate LeftBehind(hash: string -> string, fits: string -> bool, s: State, reqs: seq<Request>, sum: string) {
    reqs != [] &&
    var n := |reqs| - 1;
    LeftBehind(hash, fits, s, reqs[..n], sum) || sum in Leftover(hash, fits, RunSpec(hash, fits, s, reqs[..n]), reqs[n])
  }

  lemma GarbageStep(hash: string -> string, fits: string -> bool, s: State, req: Request, sum: string)
    requires !(req.Upload? && req.sum == sum) && Garbage(Spec(hash, fits, s, req), sum)
    ensures Garbage(s, sum) || sum in Leftover(hash, fits, s, req)
  {
    LastReferenceTakesBody(hash, fits, s, req);
  }

  lemma UploadsBefore(reqs: seq<Request>, sum: string)
    requires reqs != [] && !Uploads(reqs, sum)
    ensures var n := |reqs| - 1; !Uploads(reqs[..n], sum) && !(reqs[n].Upload? && reqs[n].sum == sum)
  {
    assert forall i :: 0 <= i < |reqs| - 1 ==> reqs[..|reqs| - 1][i] == reqs[i];
  }

  /** Completeness over runs: a body nothing names was not named before the run either, or some request of the run left
      it behind. */
  lemma {:induction false} NoGarbage(hash: string -> string, fits: string -> bool, s: State, reqs: seq<Request>, sum: string)
    requires !Uploads(reqs, sum) && Garbage(RunSpec(hash, fits, s, reqs), sum)
    ensures Garbage(s, sum) || LeftBehind(hash, fits, s, reqs, sum)
  {
    if reqs != [] {
      var n := |reqs| - 1;
      var before := RunSpec(hash, fits, s, reqs[..n]);
      UploadsBefore(reqs, sum);
      GarbageStep(hash, fits, before, reqs[n], sum);
      if Garbage(before, sum) {
        NoGarbage(hash, fits, s, reqs[..n], sum);
      }
    }
  }

  /** Where every manifest decodes nothing is left behind: whatever a manifest once named and no longer does is gone. */
  lemma {:induction false} DecodableLeavesNothing(hash: string -> string, fits: string -> bool, s: State,
                                                  reqs: seq<Request>, sum: string)
    requires AllDecode(fits, s) && forall i :: 0 <= i < |reqs| ==> Readable(fits, reqs[i])
    ensures !LeftBehind(hash, fits, s, reqs, sum)
  {
    if reqs != [] {
      var n := |reqs| - 1;
      DecodableLeavesNothing(hash, fits, s, reqs[..n], sum);
      StaysDecodable(hash, fits, s, reqs[..n]);
      NothingLeftover(hash, fits, RunSpec(hash, fits, s, reqs[..n]), reqs[n]);
    }
  }

  lemma NothingLeftover(hash: string -> string, fits: string -> bool, s: State, req: Request)
    requires AllDecode(fits, s)
    ensures Leftover(hash, fits, s, req) == {}
  {
  }

  lemma {:induction false} StaysDecodable(hash: string -> string, fits: string -> bool, s: State, reqs: seq<Request>)
    requires AllDecode(fits, s) && forall i :: 0 <= i < |reqs| ==> Readable(fits, reqs[i])
    ensures AllDecode(fits, RunSpec(hash, fits, s, reqs))
  {
    if reqs != [] {
      var n := |reqs| - 1;
      StaysDecodable(hash, fits, s, reqs[..n]);
      DecodableIsSafe(hash, fits, RunSpec(hash, fits, s, reqs[..n]), reqs[n]);
    }
  }

  // A manifest that does not decode

  /** Two artifacts that name one file; the second also holds a number. */
  function Plain(sum: string): Json {
    Obj([Member("checksum", Str(sum))])
  }

  function Numbered(sum: string, lit: string): Json {
    Obj([Member("checksum", Str(sum)), Member("n", Num(lit))])
  }

  lemma PlainNames(fits: string -> bool, r: Reading, sum: string)
    ensures Checksums(r, Plain(sum)) == {sum} && NoRepeats(Plain(sum)) && Decodes(fits, Plain(sum))
  {
    var ms := Plain(sum).members;
    LiveIsFound(r, ms, 0);
    ScalarMembers(r, ms, 1);
  }

  lemma NumberedNames(fits: string -> bool, r: Reading, sum: string, lit: string)
    requires !fits(lit)
    ensures Checksums(r, Numbered(sum, lit)) == {sum} && NoRepeats(Numbered(sum, lit)) && !Decodes(fits, Numbered(sum, lit))
  {
    var ms := Numbered(sum, lit).members;
    assert ms[0].name == "checksum" && |ms[1].name| == 1;
    LiveIsFound(r, ms, 0);
    ScalarMembers(r, ms, 2);
    assert !NumbersFit(fits, ms[1].value);
  }

  lemma RunSnoc(hash: string -> string, fits: string -> bool, s: State, reqs: seq<Request>, req: Request)
    ensures RunSpec(hash, fits, s, reqs + [req]) == Spec(hash, fits, RunSpec(hash, fits, s, reqs), req)
  {
    assert (reqs + [req])[..|reqs|] == reqs;
  }

  lemma AloneNames(key: string, m: Json)
    ensures Named(map[key := m]) == Checksums(LastWins, m)
  {
    assert key in map[key := m];
  }

  /** One body and some artifacts. */
  function Only(sum: string, body: string, artifacts: map<string, Json>): State {
    State(map[sum := body], map[], artifacts)
  }

  lemma UploadFirst(hash: string -> string, fits: string -> bool, body: string)
    ensures RunSpec(hash, fits, EMPTY, [Upload(hash(body), body)]) == Only(hash(body), body, map[])
  {
    RunSnoc(hash, fits, EMPTY, [], Upload(hash(body), body));
    assert [] + [Upload(hash(body), body)] == [Upload(hash(body), body)];
  }

  lemma PutNext(hash: string -> string, fits: string -> bool, sum: string, body: string, artifacts: map<string, Json>,
                key: string, m: Json)
    requires key !in artifacts && m.Obj? && NoRepeats(m) && Checksums(FirstWins, m) == {sum}
    ensures Spec(hash, fits, Only(sum, body, artifacts), PutArtifact(key, Some(m))) == Only(sum, body, artifacts[key := m])
  {
  }

  /** The failing input. An artifact with an integer beyond a double shares a file with another; when the other is
      deleted the file goes, and the artifact that is left names nothing. */
  lemma {:induction false} HugeNumberDangles(hash: string -> string, body: string, n: nat)
    requires n >= 400
    ensures var sum, huge := hash(body), Numbered(hash(body), "1" + Zeros(n));
            var reqs := [Upload(sum, body), PutArtifact("web/1", Some(Plain(sum))), PutArtifact("db/1", Some(huge))];
            var before := RunSpec(hash, FitsDouble, EMPTY, reqs);
            var after := Spec(hash, FitsDouble, before, DeleteArtifact("web/1"));
            && Resolves(hash, before) && !Safe(hash, FitsDouble, before, DeleteArtifact("web/1"))
            && after.artifacts == map["db/1" := huge] && sum in AllNamed(after) && sum !in after.blobs
  {
    HugeInteger(n);
    SharedFileGoes(hash, FitsDouble, body, "1" + Zeros(n));
  }

  lemma {:induction false} SharedFileGoes(hash: string -> string, fits: string -> bool, body: string, lit: string)
    requires !fits(lit)
    ensures var sum, huge := hash(body), Numbered(hash(body), lit);
            var reqs := [Upload(sum, body), PutArtifact("web/1", Some(Plain(sum))), PutArtifact("db/1", Some(huge))];
            var before := RunSpec(hash, fits, EMPTY, reqs);
            var after := Spec(hash, fits, before, DeleteArtifact("web/1"));
            && Resolves(hash, before) && !Safe(hash, fits, before, DeleteArtifact("web/1"))
            && after.artifacts == map["db/1" := huge] && sum in AllNamed(after) && sum !in after.blobs
  {
    var sum, plain, huge := hash(body), Plain(hash(body)), Numbered(hash(body), lit);
    PlainNames(fits, FirstWins, sum);
    PlainNames(fits, LastWins, sum);
    NumberedNames(fits, FirstWins, sum, lit);
    NumberedNames(fits, LastWins, sum, lit);
    var upload, web, db := Upload(sum, body), PutArtifact("web/1", Some(plain)), PutArtifact("db/1", Some(huge));
    UploadFirst(hash, fits, body);
    RunSnoc(hash, fits, EMPTY, [upload], web);
    PutNext(hash, fits, sum, body, map[], "web/1", plain);
    RunSnoc(hash, fits, EMPTY, [upload, web], db);
    var one := map["web/1" := plain];
    assert "db/1" !in one by {
      assert |"db/1"| != |"web/1"|;
    }
    PutNext(hash, fits, sum, body, one, "db/1", huge);
    assert [upload] + [web] == [upload, web] && [upload, web] + [db] == [upload, web, db];
    DeleteShared(hash, fits, sum, body, plain, huge);
  }

  lemma {:induction false} DeleteShared(hash: string -> string, fits: string -> bool, sum: string, body: string,
                                        plain: Json, huge: Json)
    requires sum == hash(body) && NoRepeats(plain) && NoRepeats(huge) && Decodes(fits, plain) && !Decodes(fits, huge)
    requires Checksums(LastWins, plain) == {sum} == Checksums(LastWins, huge)
    ensures var before := Only(sum, body, map["web/1" := plain]["db/1" := huge]);
            var after := Spec(hash, fits, before, DeleteArtifact("web/1"));
            && Resolves(hash, before) && !Safe(hash, fits, before, DeleteArtifact("web/1"))
            && after.artifacts == map["db/1" := huge] && sum in AllNamed(after) && sum !in after.blobs
  {
    var both := map["web/1" := plain]["db/1" := huge];
    var req := DeleteArtifact("web/1");
    assert |"db/1"| != |"web/1"|;
    assert both - {"web/1"} == map["db/1" := huge];
    AloneNames("db/1", huge);
    assert Refs(fits, map["db/1" := huge]) == {};
    assert Kept(hash, Only(sum, body, both), req) == Only(sum, body, map["db/1" := huge]);
    assert Offered(fits, Only(sum, body, both), req) == {sum};
  }

  /** And its own file outlives it. */
  lemma {:induction false} HugeNumberLeavesBody(hash: string -> string, body: string, n: nat)
    requires n >= 400
    ensures var sum, huge := hash(body), Numbered(hash(body), "1" + Zeros(n));
            RunSpec(hash, FitsDouble, EMPTY, [Upload(sum, body), PutArtifact("db/1", Some(huge)), DeleteArtifact("db/1")]) ==
            Only(sum, body, map[])
  {
    HugeInteger(n);
    OwnFileStays(hash, FitsDouble, body, "1" + Zeros(n));
  }

  lemma {:induction false} OwnFileStays(hash: string -> string, fits: string -> bool, body: string, lit: string)
    requires !fits(lit)
    ensures var sum, huge := hash(body), Numbered(hash(body), lit);
            RunSpec(hash, fits, EMPTY, [Upload(sum, body), PutArtifact("db/1", Some(huge)), DeleteArtifact("db/1")]) ==
            Only(sum, body, map[])
  {
    var sum, huge := hash(body), Numbered(hash(body), lit);
    NumberedNames(fits, FirstWins, sum, lit);
    var upload, db, drop := Upload(sum, body), PutArtifact("db/1", Some(huge)), DeleteArtifact("db/1");
    UploadFirst(hash, fits, body);
    RunSnoc(hash, fits, EMPTY, [upload], db);
    PutNext(hash, fits, sum, body, map[], "db/1", huge);
    RunSnoc(hash, fits, EMPTY, [upload, db], drop);
    assert [upload] + [db] == [upload, db] && [upload, db] + [drop] == [upload, db, drop];
    var s := Only(sum, body, map["db/1" := huge]);
    assert Offered(fits, s, drop) == {} && Kept(hash, s, drop) == Only(sum, body, map[]);
    NothingOffered(fits, Only(sum, body, map[]));
  }

  // The handlers

  lemma FoundInRefs(fits: string -> bool, manifests: map<string, Json>, key: string)
    requires key in manifests
    ensures Found(fits, manifests[key]) <= Refs(fits, manifests)
  {
  }

  lemma NothingOffered(fits: string -> bool, s: State)
    ensures Collected(fits, s, {}) == s
  {
    assert s.blobs - ({} - Referenced(fits, s)) == s.blobs;
  }

  class Store {
    const hash: string -> string
    const fits: string -> bool
    var blobs: map<string, string>
    var cookbooks: map<string, Json>
    var artifacts: map<string, Json>

    constructor (hash: string -> string, fits: string -> bool)
      ensures this.hash == hash && this.fits == fits && Abs() == EMPTY
    {
      this.hash, this.fits := hash, fits;
      blobs, cookbooks, artifacts := map[], map[], map[];
    }

    function Abs(): State
      reads this
    {
      State(blobs, cookbooks, artifacts)
    }

    /** One collection's part of referencedChecksums. */
    method RefsOf(manifests: map<string, Json>) returns (refs: set<string>)
      ensures refs == Refs(fits, manifests)
    {
      refs := {};
      var left := manifests.Keys;
      while left != {}
        invariant left <= manifests.Keys && refs <= Refs(fits, manifests)
        invariant forall key :: key in manifests && key !in left ==> Found(fits, manifests[key]) <= refs
        decreases left
      {
        var key :| key in left;
        FoundInRefs(fits, manifests, key);
        if Decodes(fits, manifests[key]) {
          var sums := ManifestChecksums(LastWins, manifests[key]);
          refs := refs + Elements(sums);
        }
        left := left - {key};
      }
    }

    method ReferencedChecksums() returns (refs: set<string>)
      ensures refs == Referenced(fits, Abs())
    {
      var a := RefsOf(cookbooks);
      var b := RefsOf(artifacts);
      refs := a + b;
    }

    /** gcOrphanedBlobs. */
    method GcOrphanedBlobs(candidates: seq<string>)
      modifies this
      ensures Abs() == Collected(fits, old(Abs()), Elements(candidates))
    {
      if candidates == [] {
        return;
      }
      var referenced := ReferencedChecksums();
      var i := 0;
      while i < |candidates|
        invariant 0 <= i <= |candidates|
        invariant cookbooks == old(cookbooks) && artifacts == old(artifacts)
        invariant blobs == old(blobs) - (Elements(candidates[..i]) - referenced)
      {
        var sum := candidates[i];
        assert Elements(candidates[..i + 1]) == Elements(candidates[..i]) + {sum};
        if sum !in referenced {
          blobs := blobs - {sum};
        }
        i := i + 1;
      }
      assert candidates[..i] == candidates;
    }

    /** Collects what a dropped manifest named, if it decodes. */
    method CollectFrom(m: Json)
      modifies this
      ensures Abs() == Collected(fits, old(Abs()), Found(fits, m))
    {
      if Decodes(fits, m) {
        var sums := ManifestChecksums(LastWins, m);
        GcOrphanedBlobs(sums);
      } else {
        NothingOffered(fits, Abs());
      }
    }

    /** The upload check: whether every checksum has a body. */
    method AllUploaded(manifest: Json) returns (ok: bool)
      ensures ok <==> Checksums(FirstWins, manifest) <= blobs.Keys
    {
      var sums := ManifestChecksums(FirstWins, manifest);
      var i := 0;
      while i < |sums|
        invariant 0 <= i <= |sums| && forall j :: 0 <= j < i ==> sums[j] in blobs
      {
        if sums[i] !in blobs {
          assert sums[i] in Elements(sums);
          return false;
        }
        i := i + 1;
      }
      return true;
    }

    method PutFile(sum: string, body: string) returns (r: Reply)
      modifies this
      ensures Abs() == Spec(hash, fits, old(Abs()), Upload(sum, body)) && r == ReplySpec(hash, old(Abs()), Upload(sum, body))
    {
      if hash(body) != sum {
        return Refused;
      }
      blobs := blobs[sum := body];
      return Done;
    }

    /** putCookbookVersion: stored, then what the overwritten manifest alone referenced is collected. */
    method PutCookbookVersion(key: string, manifest: Option<Json>) returns (r: Reply)
      modifies this
      ensures Abs() == Spec(hash, fits, old(Abs()), PutCookbook(key, manifest))
      ensures r == ReplySpec(hash, old(Abs()), PutCookbook(key, manifest))
    {
      if manifest.None? || !manifest.value.Obj? || !NoRepeats(manifest.value) {
        return Refused;
      }
      var ok := AllUploaded(manifest.value);
      if !ok {
        return Refused;
      }
      var prev := if key in cookbooks then Some(cookbooks[key]) else None;
      cookbooks := cookbooks[key := manifest.value];
      if prev.Some? {
        CollectFrom(prev.value);
        return Done;
      }
      NothingOffered(fits, Abs());
      return Created;
    }

    method DeleteCookbookVersion(key: string) returns (r: Reply)
      modifies this
      ensures Abs() == Spec(hash, fits, old(Abs()), DeleteCookbook(key)) && r == ReplySpec(hash, old(Abs()), DeleteCookbook(key))
    {
      if key !in cookbooks {
        assert cookbooks - {key} == cookbooks;
        NothingOffered(fits, Abs());
        return NotFound;
      }
      var m := cookbooks[key];
      cookbooks := cookbooks - {key};
      CollectFrom(m);
      return Done;
    }

    method PutArtifactVersion(key: string, manifest: Option<Json>) returns (r: Reply)
      modifies this
      ensures Abs() == Spec(hash, fits, old(Abs()), PutArtifact(key, manifest))
      ensures r == ReplySpec(hash, old(Abs()), PutArtifact(key, manifest))
    {
      if key in artifacts {
        return Conflict;
      }
      if manifest.None? || !manifest.value.Obj? || !NoRepeats(manifest.value) {
        return Refused;
      }
      var ok := AllUploaded(manifest.value);
      if !ok {
        return Refused;
      }
      artifacts := artifacts[key := manifest.value];
      return Created;
    }

    method DeleteArtifactVersion(key: string) returns (r: Reply)
      modifies this
      ensures Abs() == Spec(hash, fits, old(Abs()), DeleteArtifact(key)) && r == ReplySpec(hash, old(Abs()), DeleteArtifact(key))
    {
      if key !in artifacts {
        assert artifacts - {key} == artifacts;
        NothingOffered(fits, Abs());
        return NotFound;
      }
      var m := artifacts[key];
      artifacts := artifacts - {key};
      CollectFrom(m);
      return Done;
    }

    method Handle(req: Request) returns (r: Reply)
      modifies this
      ensures Abs() == Spec(hash, fits, old(Abs()), req) && r == ReplySpec(hash, old(Abs()), req)
    {
      match req {
        case Upload(sum, body) => r := PutFile(sum, body);
        case PutCookbook(key, m) => r := PutCookbookVersion(key, m);
        case DeleteCookbook(key) => r := DeleteCookbookVersion(key);
        case PutArtifact(key, m) => r := PutArtifactVersion(key, m);
        case DeleteArtifact(key) => r := DeleteArtifactVersion(key);
      }
    }

    /** Any run of requests ends where the specification says. */
    method Run(reqs: seq<Request>)
      modifies this
      ensures Abs() == RunSpec(hash, fits, old(Abs()), reqs)
    {
      var i := 0;
      while i < |reqs|
        invariant 0 <= i <= |reqs| && Abs() == RunSpec(hash, fits, old(Abs()), reqs[..i])
      {
        var _ := Handle(reqs[i]);
        assert reqs[..i + 1][..i] == reqs[..i];
        i := i + 1;
      }
      assert reqs[..i] == reqs;
    }
  }
}
