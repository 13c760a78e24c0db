/** Building a search index while writers run, as a step system (internal/api/searchindex.go:201-257).

    A write lands in the store and is reported after, on the writing thread: it looks the index up in the registry,
    waits for that index's lock, and applies the write. A first search registers an empty, locked index, scans the
    collection, and unlocks it. A stored document is represented by what it flattens to, or by nothing when it does
    not decode. */
module IndexBuild {
  import opened Prelude
  import opened SearchIndex
  import opened Runs

  type Coll = map<string, Option<Fields>>

  /** How far a landed write has got: not yet looked up, or waiting to be applied to the index it found. */
  datatype Stage = Landed | Found(index: nat)

  datatype Write = Write(key: string, flat: Option<Fields>, stage: Stage)

  /** An index is locked until its build has scanned the collection and returned. */
  datatype Phase = Building | Scanned | Ready

  datatype Index = Index(phase: Phase, docs: map<string, Fields>)

  datatype State = State(
    coll: Coll,
    registry: Option<nat>,
    indexes: map<nat, Index>,
    writes: map<nat, Write>,
    dropping: bool)

  datatype Step =
    | Land(t: nat, key: string, value: Option<Option<Fields>>)
    | LookUp(t: nat)
    | ApplyWrite(t: nat)
    | Register(o: nat)
    | Scan(o: nat)
    | Unlock(o: nat)
    | FailBuild(o: nat, partial: map<string, Fields>)
    | LandOrgDrop
    | ReportOrgDrop

  /** The documents a scan of the collection indexes. */
  function Contents(coll: Coll): map<string, Fields> {
    map id | id in coll && coll[id].Some? :: coll[id].value
  }

  function FlatAt(coll: Coll, key: string): Option<Fields> {
    if key in coll then coll[key] else None
  }

  predicate KeyBusy(s: State, key: string) {
    exists t :: t in s.writes && s.writes[t].key == key
  }

  /** Whether a step can be taken. `oneWriter` says whether a key is written only when no write of it is in flight; an
      organization drop writes every key. */
  predicate Enabled(oneWriter: bool, s: State, step: Step) {
    match step
    case Land(t, key, _) => t !in s.writes && (oneWriter ==> !KeyBusy(s, key) && !s.dropping)
    case LookUp(t) => t in s.writes && s.writes[t].stage.Landed?
    case ApplyWrite(t) =>
      && t in s.writes && s.writes[t].stage.Found?
      && s.writes[t].stage.index in s.indexes && s.indexes[s.writes[t].stage.index].phase.Ready?
    case Register(o) => s.registry.None? && o !in s.indexes
    case Scan(o) => o in s.indexes && s.indexes[o].phase.Building?
    case Unlock(o) => o in s.indexes && s.indexes[o].phase.Scanned?
    case FailBuild(o, _) => o in s.indexes && s.indexes[o].phase.Building?
    case LandOrgDrop => oneWriter ==> s.writes == map[] && !s.dropping
    case ReportOrgDrop => s.dropping
  }

  function Apply(s: State, step: Step): State
    requires Enabled(false, s, step)
  {
    match step
    case Land(t, key, value) =>
      var coll := if value.Some? then s.coll[key := value.value] else s.coll - {key};
      s.(coll := coll, writes := s.writes[t := Write(key, FlatAt(coll, key), Landed)])
    case LookUp(t) =>
      if s.registry.None? then s.(writes := s.writes - {t})
      else s.(writes := s.writes[t := s.writes[t].(stage := Found(s.registry.value))])
    case ApplyWrite(t) =>
      var w := s.writes[t];
      var o := w.stage.index;
      s.(indexes := s.indexes[o := Index(Ready, Indexed(s.indexes[o].docs, w.key, w.flat))], writes := s.writes - {t})
    case Register(o) => s.(indexes := s.indexes[o := Index(Building, map[])], registry := Some(o))
    case Scan(o) => s.(indexes := s.indexes[o := Index(Scanned, Contents(s.coll))])
    case Unlock(o) => s.(indexes := s.indexes[o := s.indexes[o].(phase := Ready)])
    case FailBuild(o, partial) => s.(indexes := s.indexes[o := Index(Ready, partial)], registry := None)
    case LandOrgDrop => s.(coll := map[], dropping := true)
    case ReportOrgDrop => s.(registry := None, dropping := false)
  }

  predicate OneWriter(s: State, step: Step, s': State) {
    Enabled(true, s, step) && s' == Apply(s, step)
  }

  predicate ManyWriters(s: State, step: Step, s': State) {
    Enabled(false, s, step) && s' == Apply(s, step)
  }

  predicate Init(s: State) {
    s.registry.None? && s.indexes == map[] && s.writes == map[] && !s.dropping
  }

  /** A key reads the same in an index as in the collection. */
  predicate Agrees(s: State, o: nat, key: string)
    requires o in s.indexes
  {
    (if key in s.indexes[o].docs then Some(s.indexes[o].docs[key]) else None) == FlatAt(s.coll, key)
  }

  /** Some write of the key has still to reach index `o`. */
  predicate Underway(s: State, o: nat, key: string) {
    exists t :: t in s.writes && s.writes[t].key == key && (s.writes[t].stage.Landed? || s.writes[t].stage == Found(o))
  }

  predicate WritesInv(s: State) {
    && (forall t :: t in s.writes ==> s.writes[t].flat == FlatAt(s.coll, s.writes[t].key))
    && (forall t :: t in s.writes && s.writes[t].stage.Found? ==> s.writes[t].stage.index in s.indexes)
    && (forall t, u :: t in s.writes && u in s.writes && s.writes[t].key == s.writes[u].key ==> t == u)
    && (s.dropping ==> s.writes == map[])
  }

  ghost predicate IndexInv(s: State) {
    s.registry.Some? ==>
      && s.registry.value in s.indexes
      && (!s.indexes[s.registry.value].phase.Building? && !s.dropping ==>
            forall key :: Agrees(s, s.registry.value, key) || Underway(s, s.registry.value, key))
  }

  ghost predicate Inv(s: State) {
    WritesInv(s) && IndexInv(s)
  }

  lemma LandKeepsInv(s: State, step: Step)
    requires Inv(s) && step.Land? && Enabled(true, s, step)
    ensures Inv(Apply(s, step))
  {
    var s' := Apply(s, step);
    if s'.registry.Some? && !s'.indexes[s'.registry.value].phase.Building? {
      var o := s'.registry.value;
      forall key
        ensures Agrees(s', o, key) || Underway(s', o, key)
      {
        if key == step.key {
          assert s'.writes[step.t].key == key && s'.writes[step.t].stage.Landed?;
        } else if Underway(s, o, key) {
          var t :| t in s.writes && s.writes[t].key == key && (s.writes[t].stage.Landed? || s.writes[t].stage == Found(o));
          assert s'.writes[t] == s.writes[t];
        }
      }
    }
  }

  lemma LookUpKeepsInv(s: State, t: nat)
    requires Inv(s) && Enabled(true, s, LookUp(t))
    ensures Inv(Apply(s, LookUp(t)))
  {
    var s' := Apply(s, LookUp(t));
    if s'.registry.Some? && !s'.indexes[s'.registry.value].phase.Building? {
      var o := s'.registry.value;
      forall key
        ensures Agrees(s', o, key) || Underway(s', o, key)
      {
        assert Agrees(s', o, key) <==> Agrees(s, o, key);
        if Underway(s, o, key) {
          var u :| u in s.writes && s.writes[u].key == key && (s.writes[u].stage.Landed? || s.writes[u].stage == Found(o));
          assert s'.writes[u].key == key && (s'.writes[u].stage.Landed? || s'.writes[u].stage == Found(o));
        }
      }
    }
  }

  lemma ApplyKeepsInv(s: State, t: nat)
    requires Inv(s) && Enabled(true, s, ApplyWrite(t))
    ensures Inv(Apply(s, ApplyWrite(t)))
  {
    var s' := Apply(s, ApplyWrite(t));
    var w := s.writes[t];
    if s'.registry.Some? && !s'.indexes[s'.registry.value].phase.Building? {
      var o := s'.registry.value;
      forall key
        ensures Agrees(s', o, key) || Underway(s', o, key)
      {
        if key == w.key {
          assert w.stage == Found(o) || !Underway(s, o, key);
        } else {
          assert Agrees(s', o, key) <==> Agrees(s, o, key);
          if Underway(s, o, key) {
            var u :| u in s.writes && s.writes[u].key == key && (s.writes[u].stage.Landed? || s.writes[u].stage == Found(o));
            assert s'.writes[u] == s.writes[u];
          }
        }
      }
    }
  }

  lemma BuildKeepsInv(s: State, step: Step)
    requires Inv(s) && Enabled(true, s, step)
    requires step.Register? || step.Scan? || step.Unlock? || step.FailBuild? || step.LandOrgDrop? || step.ReportOrgDrop?
    ensures Inv(Apply(s, step))
  {
    var s' := Apply(s, step);
    if s'.registry.Some? && !s'.indexes[s'.registry.value].phase.Building? && !s'.dropping {
      var o := s'.registry.value;
      forall key
        ensures Agrees(s', o, key) || Underway(s', o, key)
      {
        if !(step.Scan? && step.o == o) {
          assert s'.indexes[o].docs == s.indexes[o].docs && s'.coll == s.coll && s'.writes == s.writes;
          assert Agrees(s', o, key) <==> Agrees(s, o, key);
          assert Underway(s', o, key) <==> Underway(s, o, key);
        }
      }
    }
  }

  lemma RunKeepsInv(states: seq<State>, steps: seq<Step>, n: nat)
    requires IsRun(Init, OneWriter, states, steps) && n < |states|
    ensures Inv(states[n])
  {
    forall s, step, s' | Inv(s) && OneWriter(s, step, s')
      ensures Inv(s')
    {
      match step {
        case Land(_, _, _) => LandKeepsInv(s, step);
        case LookUp(t) => LookUpKeepsInv(s, t);
        case ApplyWrite(t) => ApplyKeepsInv(s, t);
        case _ => BuildKeepsInv(s, step);
      }
    }
    Invariant(Init, OneWriter, Inv, states, steps, n);
  }

  /** No write is lost by a build: in every state of every run, a registered, unlocked index agrees with the
      collection on every key that no write in flight concerns. */
  lemma SettledKeysAgree(states: seq<State>, steps: seq<Step>, n: nat, key: string)
    requires IsRun(Init, OneWriter, states, steps) && n < |states|
    requires states[n].registry.Some? && states[n].registry.value in states[n].indexes
    requires states[n].indexes[states[n].registry.value].phase.Ready? && !states[n].dropping
    requires !KeyBusy(states[n], key)
    ensures Agrees(states[n], states[n].registry.value, key)
  {
    RunKeepsInv(states, steps, n);
  }

  /** So a quiescent built index is what indexing the collection's current contents gives. */
  lemma QuiescentIndexIsExact(states: seq<State>, steps: seq<Step>, n: nat)
    requires IsRun(Init, OneWriter, states, steps) && n < |states|
    requires states[n].registry.Some? && states[n].registry.value in states[n].indexes
    requires states[n].indexes[states[n].registry.value].phase.Ready?
    requires states[n].writes == map[] && !states[n].dropping
    ensures states[n].indexes[states[n].registry.value].docs == Contents(states[n].coll)
  {
    var s := states[n];
    var docs := s.indexes[s.registry.value].docs;
    forall key
      ensures key in docs <==> key in Contents(s.coll)
      ensures key in docs ==> docs[key] == Contents(s.coll)[key]
    {
      SettledKeysAgree(states, steps, n, key);
    }
  }

  lemma Act(states: seq<State>, steps: seq<Step>, step: Step) returns (states': seq<State>, steps': seq<Step>)
    requires IsRun(Init, ManyWriters, states, steps) && Enabled(false, states[|steps|], step)
    ensures IsRun(Init, ManyWriters, states', steps') && states'[|steps'|] == Apply(states[|steps|], step)
  {
    states', steps' := Extend(Init, ManyWriters, states, steps, step, Apply(states[|steps|], step));
  }

  /** Why the premise on writers is there: two overlapping writes of one key may be reported in the opposite order, and
      the quiescent index then keeps the older document. */
  lemma OverlappingWritesCanReorder() returns (states: seq<State>, steps: seq<Step>)
    ensures IsRun(Init, ManyWriters, states, steps)
    ensures var s := states[|steps|];
            && s.writes == map[] && !s.dropping && s.registry.Some? && s.registry.value in s.indexes
            && s.indexes[s.registry.value].phase.Ready?
            && s.indexes[s.registry.value].docs != Contents(s.coll)
  {
    var first, second := Some(Some(map["a" := ["1"]])), Some(Some(map["a" := ["2"]]));
    states, steps := [State(map[], None, map[], map[], false)], [];
    states, steps := Act(states, steps, Register(0));
    states, steps := Act(states, steps, Scan(0));
    states, steps := Act(states, steps, Unlock(0));
    states, steps := OverlappingTail(states, steps, first, second);
    var s := states[|steps|];
    assert s.indexes[0].docs["k"] == map["a" := ["1"]];
    assert Contents(s.coll)["k"] == map["a" := ["2"]];
    assert map["a" := ["1"]]["a"] != map["a" := ["2"]]["a"];
  }

  lemma OverlappingTail(states: seq<State>, steps: seq<Step>, first: Option<Option<Fields>>, second: Option<Option<Fields>>)
    returns (states': seq<State>, steps': seq<Step>)
    requires IsRun(Init, ManyWriters, states, steps)
    requires states[|steps|] == State(map[], Some(0), map[0 := Index(Ready, map[])], map[], false)
    requires first.Some? && first.value.Some? && second.Some? && second.value.Some?
    ensures IsRun(Init, ManyWriters, states', steps')
    ensures states'[|steps'|] ==
            State(map["k" := second.value], Some(0), map[0 := Index(Ready, map["k" := first.value.value])], map[], false)
  {
    states', steps' := Act(states, steps, Land(1, "k", first));
    states', steps' := Act(states', steps', Land(2, "k", second));
    states', steps' := Act(states', steps', LookUp(1));
    states', steps' := Act(states', steps', LookUp(2));
    states', steps' := Act(states', steps', ApplyWrite(2));
    states', steps' := Act(states', steps', ApplyWrite(1));
    var s := states'[|steps'|];
    assert s.coll == map["k" := second.value] && s.writes == map[];
    assert s.indexes[0].docs == map["k" := first.value.value];
    assert s.indexes == map[0 := Index(Ready, map["k" := first.value.value])];
  }
}
