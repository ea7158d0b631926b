/** The receive sequences by source: which one is registered as packs arrive and as closed sequences clean up late. */
module ReceiveBuffer {
  import opened Options
  import opened TransferTypes

  type Source = nat

  datatype ReceiveSequenceId = ReceiveSequenceId(source: Source, sequenceId: Id)

  /** The identity of a receive sequence object, a pointer in the program. */
  type Handle = nat

  datatype Registry = Registry(
    sequences: map<ReceiveSequenceId, Handle>,
    heads: map<Source, ReceiveSequenceId>,
    created: map<Handle, ReceiveSequenceId>,
    next: Handle)

  datatype InitResult =
    | Existing(handle: Handle)
    | Started(handle: Handle, canceled: Option<Handle>)
    | Dropped
    | IncorrectHead  // panic
    | UpgradeOfSame  // panic

  /** The two maps describe the same sequences, one for each source. */
  ghost predicate Consistent(r: Registry) {
    && (forall s <- r.heads :: r.heads[s].source == s && r.heads[s] in r.sequences)
    && (forall id <- r.sequences :: id.source in r.heads && r.heads[id.source] == id)
    && (forall id <- r.sequences :: r.sequences[id] in r.created && r.created[r.sequences[id]] == id)
    && (forall h <- r.created :: h < r.next)
  }

  function Start(r: Registry, id: ReceiveSequenceId, canceled: Option<Handle>): (Registry, InitResult) {
    (Registry(r.sequences[id := r.next], r.heads[id.source := id], r.created[r.next := id], r.next + 1),
     Started(r.next, canceled))
  }

  /** What an arrival for a sequence does; `skip` is the sequence that refused the pack just before. */
  function Init(r: Registry, id: ReceiveSequenceId, skip: Option<Handle>): (Registry, InitResult) {
    if id in r.sequences then
      if skip != Some(r.sequences[id]) then (r, Existing(r.sequences[id]))
      else if id.source !in r.heads || r.heads[id.source] != id then (r, IncorrectHead)
      else Start(r, id, Some(r.sequences[id]))
    else if id.source in r.heads then
      var head := r.heads[id.source];
      if id.sequenceId < head.sequenceId then (r, Dropped)
      else if id.sequenceId == head.sequenceId then (r, UpgradeOfSame)
      else Start(r.(sequences := r.sequences - {head}), id, HandleOf(r, head))
    else Start(r, id, None)
  }

  function HandleOf(r: Registry, id: ReceiveSequenceId): Option<Handle> {
    if id in r.sequences then Some(r.sequences[id]) else None
  }

  /** What the end of a sequence does, however late it comes. */
  function Cleanup(r: Registry, h: Handle): Registry {
    if h in r.created && r.created[h] in r.sequences && r.sequences[r.created[h]] == h then
      r.(sequences := r.sequences - {r.created[h]}, heads := r.heads - {r.created[h].source})
    else r
  }

  datatype Event = Arrive(id: ReceiveSequenceId, skip: Option<Handle>) | End(handle: Handle)

  function Step(r: Registry, e: Event): Registry {
    match e
    case Arrive(id, skip) => Init(r, id, skip).0
    case End(h) => Cleanup(r, h)
  }

  function Run(r: Registry, events: seq<Event>): Registry
    decreases |events|
  {
    if events == [] then r else Run(Step(r, events[0]), events[1..])
  }

  lemma StepKeeps(r: Registry, e: Event)
    requires Consistent(r)
    ensures Consistent(Step(r, e))
    ensures e.Arrive? ==> !Init(r, e.id, e.skip).1.IncorrectHead? && !Init(r, e.id, e.skip).1.UpgradeOfSame?
  {
  }

  /** Over every run the maps stay consistent, and neither panic is reached by what arrives next. */
  lemma {:induction false} RunKeeps(r: Registry, events: seq<Event>, id: ReceiveSequenceId, skip: Option<Handle>)
    requires Consistent(r)
    ensures Consistent(Run(r, events))
    ensures !Init(Run(r, events), id, skip).1.IncorrectHead? && !Init(Run(r, events), id, skip).1.UpgradeOfSame?
    decreases |events|
  {
    if events == [] {
      StepKeeps(r, Arrive(id, skip));
    } else {
      StepKeeps(r, events[0]);
      RunKeeps(Step(r, events[0]), events[1..], id, skip);
    }
  }

  /** The sequence registered for the source does not end during the run. */
  ghost predicate NotEnded(r: Registry, events: seq<Event>, source: Source)
    decreases |events|
  {
    events == [] ||
    ((source in r.heads && events[0].End? ==> Some(events[0].handle) != HandleOf(r, r.heads[source]))
     && NotEnded(Step(r, events[0]), events[1..], source))
  }

  /** While it is not ended, the registered sequence is the newest of all that have arrived for the source. */
  lemma {:induction false} NewestStays(r: Registry, events: seq<Event>, source: Source)
    requires Consistent(r) && source in r.heads && NotEnded(r, events, source)
    ensures source in Run(r, events).heads
    ensures r.heads[source].sequenceId <= Run(r, events).heads[source].sequenceId
    ensures forall e <- events :: e.Arrive? && e.id.source == source ==>
              e.id.sequenceId <= Run(r, events).heads[source].sequenceId
    decreases |events|
  {
    if events != [] {
      StepKeeps(r, events[0]);
      NewestStays(Step(r, events[0]), events[1..], source);
    }
  }

  /** A pack of an older sequence changes nothing while a newer one is registered. */
  lemma OlderIsDropped(r: Registry, events: seq<Event>, source: Source, id: ReceiveSequenceId, skip: Option<Handle>)
    requires Consistent(r) && source in r.heads && NotEnded(r, events, source)
    requires id.source == source && id.sequenceId < r.heads[source].sequenceId
    ensures Init(Run(r, events), id, skip) == (Run(r, events), Dropped)
  {
    NewestStays(r, events, source);
    RunKeeps(r, events, id, skip);
  }

  /** The sequence that is registered for a source. */
  function Registered(r: Registry, source: Source): Option<Handle> {
    if source in r.heads then HandleOf(r, r.heads[source]) else None
  }

  /**
   A pack goes to the sequence registered for its id, unless that one has just refused it. It starts a sequence
   of its own when its id is newer than what is registered for the source, and the registered one is canceled.
   */
  lemma InitIsExact(r: Registry, id: ReceiveSequenceId, skip: Option<Handle>)
    requires Consistent(r)
    ensures var (t, result) := Init(r, id, skip);
            match result
            case Existing(h) => t == r && Registered(r, id.source) == Some(h) && r.created[h] == id && skip != Some(h)
            case Started(h, canceled) =>
              && h !in r.created && Registered(t, id.source) == Some(h) && t.created == r.created[h := id]
              && canceled == Registered(r, id.source)
              && (id.source in r.heads ==>
                    r.heads[id.source].sequenceId < id.sequenceId || (r.heads[id.source] == id && skip == canceled))
              && (forall s: Source | s != id.source :: Registered(t, s) == Registered(r, s))
            case Dropped => t == r && id.source in r.heads && id.sequenceId < r.heads[id.source].sequenceId
            case _ => false
  {
    StepKeeps(r, Arrive(id, skip));
  }

  /** The end of a registered sequence makes room for a new one; that of any other removes nothing. */
  lemma LateEndIsHarmless(r: Registry, h: Handle)
    requires Consistent(r)
    ensures forall s: Source ::
              Registered(Cleanup(r, h), s) == if Registered(r, s) == Some(h) then None else Registered(r, s)
    ensures Cleanup(r, h) != r ==> exists id <- r.sequences :: r.sequences[id] == h
    ensures forall id <- r.sequences ::
              r.sequences[id] != h ==> HandleOf(Cleanup(r, h), id) == Some(r.sequences[id])
  {
  }

  /** A sequence runs on only while it is registered: every other one was canceled or has ended. */
  ghost predicate NoneIsForgotten(r: Registry, canceled: set<Handle>, ended: set<Handle>) {
    && (forall h <- r.created :: h in canceled || h in ended || HandleOf(r, r.created[h]) == Some(h))
    && (forall id <- r.sequences :: r.sequences[id] !in canceled && r.sequences[id] !in ended)
    && (forall h <- canceled + ended :: h in r.created)
  }

  /** What is canceled by an arrival. */
  function CanceledBy(result: InitResult): set<Handle> {
    if result.Started? && result.canceled.Some? then {result.canceled.value} else {}
  }

  function HandleOfResult(result: InitResult): Option<Handle> {
    if result.Existing? || result.Started? then Some(result.handle) else None
  }

  lemma InitForgetsNone(r: Registry, id: ReceiveSequenceId, skip: Option<Handle>, canceled: set<Handle>, ended: set<Handle>)
    requires Consistent(r) && NoneIsForgotten(r, canceled, ended)
    ensures var (t, result) := Init(r, id, skip); NoneIsForgotten(t, canceled + CanceledBy(result), ended)
  {
    InitIsExact(r, id, skip);
    var (t, result) := Init(r, id, skip);
    if result.Started? {
      forall h | h in t.created
        ensures h in canceled + CanceledBy(result) || h in ended || HandleOf(t, t.created[h]) == Some(h)
      {
        if h != result.handle {
          assert h in canceled || h in ended || HandleOf(r, r.created[h]) == Some(h);
        }
      }
    }
  }

  class ReceiveBuffer {
    var receiveSequences: map<ReceiveSequenceId, Handle>
    var headReceiveSequenceIds: map<Source, ReceiveSequenceId>
    var canceled: set<Handle>
    var next: Handle
    ghost var created: map<Handle, ReceiveSequenceId>
    ghost var ended: set<Handle>

    ghost function State(): Registry
      reads this
    {
      Registry(receiveSequences, headReceiveSequenceIds, created, next)
    }

    ghost predicate Valid()
      reads this
    {
      Consistent(State()) && NoneIsForgotten(State(), canceled, ended)
    }

    constructor ()
      ensures Valid() && receiveSequences == map[] && canceled == {}
    {
      receiveSequences, headReceiveSequenceIds, canceled, next, created := map[], map[], {}, 0, map[];
      ended := {};
    }

    /** One locked region of Pack: the sequence that takes the pack, None when the pack is dropped. */
    method InitReceiveSequence(id: ReceiveSequenceId, skip: Option<Handle>) returns (h: Option<Handle>)
      requires Valid()
      modifies `receiveSequences, `headReceiveSequenceIds, `canceled, `next, `created
      ensures Valid() && State() == Init(old(State()), id, skip).0
      ensures h.Some? ==> id in receiveSequences && receiveSequences[id] == h.value && h.value !in canceled
      ensures match Init(old(State()), id, skip).1
              case Existing(e) => h == Some(e) && canceled == old(canceled)
              case Started(n, c) => h == Some(n) && canceled == old(canceled) + if c.Some? then {c.value} else {}
              case Dropped => h == None && canceled == old(canceled)
              case _ => false
    {
      InitIsExact(State(), id, skip);
      StepKeeps(State(), Arrive(id, skip));
      InitForgetsNone(State(), id, skip, canceled, ended);
      h := Place(id, skip);
    }

    method Place(id: ReceiveSequenceId, skip: Option<Handle>) returns (h: Option<Handle>)
      requires Consistent(State())
      modifies `receiveSequences, `headReceiveSequenceIds, `canceled, `next, `created
      ensures State() == Init(old(State()), id, skip).0
      ensures canceled == old(canceled) + CanceledBy(Init(old(State()), id, skip).1)
      ensures h == HandleOfResult(Init(old(State()), id, skip).1)
    {
      if id in receiveSequences {
        if skip != Some(receiveSequences[id]) {
          return Some(receiveSequences[id]);
        }
        canceled := canceled + {receiveSequences[id]};
        assert headReceiveSequenceIds[id.source] == id;  // otherwise the "incorrect head sequence" panic
      } else if id.source in headReceiveSequenceIds {
        var head := headReceiveSequenceIds[id.source];
        if id.sequenceId < head.sequenceId {
          return None;
        }
        assert head.sequenceId != id.sequenceId;  // otherwise the "upgrade older sequence" panic
        canceled := canceled + {receiveSequences[head]};
        receiveSequences := receiveSequences - {head};
      }
      receiveSequences := receiveSequences[id := next];
      headReceiveSequenceIds := headReceiveSequenceIds[id.source := id];
      created := created[next := id];
      h := Some(next);
      next := next + 1;
    }

    /** The deferred end of the sequence that was started for an id. */
    method End(h: Handle, id: ReceiveSequenceId)
      requires Valid() && h in created && created[h] == id
      modifies this
      ensures Valid() && State() == Cleanup(old(State()), h) && canceled == old(canceled) && ended == old(ended) + {h}
    {
      StepKeeps(State(), Event.End(h));
      if id in receiveSequences && receiveSequences[id] == h {
        receiveSequences := receiveSequences - {id};
        headReceiveSequenceIds := headReceiveSequenceIds - {id.source};
      }
      ended := ended + {h};
    }
  }
}
