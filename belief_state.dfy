/**
 * `BeliefState`: what a test agent knows about the game world. Once per observation the store
 * advances its tick counter, copies the agent's own position and velocity, admits the observed
 * entities, records the navigation nodes each interactive entity blocks, and rebuilds the
 * blocked-node set when some interactive entity changed state.
 */
module Belief {
  import opened Common

  // ----- Java `int` -----

  const Int32Min: int := -0x8000_0000
  const Int32Max: int := 0x7fff_ffff
  const TwoTo32: int := 0x1_0000_0000

  /** Java `int` arithmetic: `x` reduced modulo 2^32 into the signed range. */
  function Wrap(x: int): (r: int32)
    ensures (r as int - x) % TwoTo32 == 0
    ensures Int32Min <= x <= Int32Max ==> r as int == x
  {
    var k := (x - Int32Min) % TwoTo32;
    assert x - Int32Min == ((x - Int32Min) / TwoTo32) * TwoTo32 + k;
    (k + Int32Min) as int32
  }

  /** `lastUpdated++` */
  function Increment(t: int32): (r: int32)
    ensures t as int < Int32Max ==> r as int == t as int + 1
    ensures t as int == Int32Max ==> r as int == Int32Min
  {
    Wrap(t as int + 1)
  }

  /** `a - b` on Java `int`. */
  function Minus(a: int32, b: int32): (r: int32)
    ensures (r as int - (a as int - b as int)) % TwoTo32 == 0
  {
    Wrap(a as int - b as int)
  }

  /** A wrapped difference is zero only for equal operands. */
  lemma MinusZero(a: int32, b: int32)
    ensures Minus(a, b) == 0 <==> a == b
  {
    var d := a as int - b as int;
    if Minus(a, b) == 0 {
      assert (0 - d) % TwoTo32 == 0;
      assert -TwoTo32 < d < TwoTo32;
    }
  }

  // ----- Entities and observations -----

  /** `Entity` and its subclass `InteractiveEntity`, which adds `isActive`. */
  datatype Kind = NonInteractive | Interactive(isActive: bool)

  datatype Entity = Entity(id: string, tag: string, kind: Kind, lastUpdated: int32)

  /** The parts of an `Observation` the belief store reads. */
  datatype Observation = Observation(
    didNothing: bool,
    agentPosition: Option<Vec3>,
    velocity: Option<Vec3>,
    entities: seq<Entity>)

  /** Exceptions `markObservation` and the queries can throw. */
  datatype Fault =
    | NullObservation          // IllegalArgumentException("Null observation received")
    | ClassCast(id: string)    // `(InteractiveEntity) getEntity(id)` on a non-interactive entity
    | NullDereference(id: string) // `original.lastUpdated` with `original == null`

  /** What `markObservation` did: returned normally, or threw. */
  datatype Marked = Done | Failed(fault: Fault)

  /** The entity as `addEntity` leaves it after `newEntity.lastUpdated = this.lastUpdated`. */
  function Stamp(e: Entity, t: int32): (r: Entity)
    ensures r.id == e.id && r.tag == e.tag && r.kind == e.kind && r.lastUpdated == t
  {
    e.(lastUpdated := t)
  }

  /** The ids of a list of entities. */
  function Ids(es: seq<Entity>): set<string>
  {
    set i | 0 <= i < |es| :: es[i].id
  }

  /** The ids of the interactive entities of a list. */
  function InteractiveIds(es: seq<Entity>): set<string>
  {
    set i | 0 <= i < |es| && es[i].kind.Interactive? :: es[i].id
  }

  lemma InteractiveIdsAreIds(es: seq<Entity>)
    ensures InteractiveIds(es) <= Ids(es)
  {
  }

  /** Every entry of the map is stored under its own id. */
  predicate KeyedById(m: map<string, Entity>)
  {
    forall id :: id in m ==> m[id].id == id
  }

  // ----- addEntity -----

  /**
   * `addEntity` with the missing-entity test it evidently intends: the stamped entity is
   * stored unless the entry already there carries a stamp at or above the current tick.
   */
  function Admit(m: map<string, Entity>, e: Entity, t: int32): map<string, Entity>
  {
    if e.id in m && m[e.id].lastUpdated >= t then m else m[e.id := Stamp(e, t)]
  }

  /**
   * `addEntity` as written: `evaluateEntity` tests the id, not the looked-up entity, so the
   * predicate `original.lastUpdated >= newEntity.lastUpdated` reads a field of `null` whenever
   * the id is new.
   */
  function AddEntityAsWritten(m: map<string, Entity>, e: Entity, t: int32): (r: Result<map<string, Entity>, Fault>)
    ensures r.Err? <==> e.id !in m
    ensures r.Err? ==> r.error == NullDereference(e.id)
  {
    if e.id !in m then Err(NullDereference(e.id))
    else if m[e.id].lastUpdated >= t then Ok(m)
    else Ok(m[e.id := Stamp(e, t)])
  }

  /** On a known id the code as written and the corrected `Admit` agree. */
  lemma AddEntityAsWrittenAgreesOnKnownIds(m: map<string, Entity>, e: Entity, t: int32)
    requires e.id in m
    ensures AddEntityAsWritten(m, e, t) == Ok(Admit(m, e, t))
  {
  }

  /** The first sighting of any entity throws in the code as written; `Admit` stores it. */
  lemma AddEntityAsWrittenRejectsFirstSighting()
    ensures AddEntityAsWritten(map[], Entity("door1", "Door", Interactive(false), 0), 0)
      == Err(NullDereference("door1"))
    ensures Admit(map[], Entity("door1", "Door", Interactive(false), 0), 0)
      == map["door1" := Entity("door1", "Door", Interactive(false), 0)]
  {
  }

  /** The `for (var e : observation.entities) addEntity(e)` loop, in list order. */
  function Absorb(m: map<string, Entity>, es: seq<Entity>, t: int32): map<string, Entity>
  {
    if es == [] then m else Admit(Absorb(m, es[..|es| - 1], t), es[|es| - 1], t)
  }

  /** The observed ids are split off the last one as `Absorb` and `RecordBlocked` split the list. */
  lemma IdsSnoc(es: seq<Entity>)
    requires es != []
    ensures Ids(es) == Ids(es[..|es| - 1]) + {es[|es| - 1].id}
    ensures InteractiveIds(es)
      == InteractiveIds(es[..|es| - 1]) + (if es[|es| - 1].kind.Interactive? then {es[|es| - 1].id} else {})
  {
    var init := es[..|es| - 1];
    forall i | 0 <= i < |init| ensures init[i] == es[i] { }
  }

  /** One observation adds exactly the observed ids and keeps every unobserved entry. */
  lemma {:induction false} AbsorbFrame(m: map<string, Entity>, es: seq<Entity>, t: int32)
    ensures Absorb(m, es, t).Keys == m.Keys + Ids(es)
    ensures forall id :: id in m && id !in Ids(es) ==> Absorb(m, es, t)[id] == m[id]
  {
    if es != [] {
      AbsorbFrame(m, es[..|es| - 1], t);
      IdsSnoc(es);
    }
  }

  /** After one observation every observed id carries a stamp at or above the tick. */
  lemma {:induction false} AbsorbStamps(m: map<string, Entity>, es: seq<Entity>, t: int32)
    ensures forall i :: 0 <= i < |es| ==> es[i].id in Absorb(m, es, t) && Absorb(m, es, t)[es[i].id].lastUpdated >= t
  {
    if es != [] {
      var init := es[..|es| - 1];
      AbsorbStamps(m, init, t);
      forall i | 0 <= i < |es| ensures es[i].id in Absorb(m, es, t) && Absorb(m, es, t)[es[i].id].lastUpdated >= t {
        if i < |init| { assert init[i] == es[i]; }
      }
    }
  }

  /** `es[i]` is the first entity of the list with its id. */
  predicate FirstOfId(es: seq<Entity>, i: nat)
    requires i < |es|
  {
    forall j :: 0 <= j < i ==> es[j].id != es[i].id
  }

  /**
   * When every stored stamp is older than the current tick, one observation stores, for each
   * id it mentions, the first entity with that id, stamped; later duplicates are ignored.
   */
  lemma {:induction false} FirstOccurrenceWins(m: map<string, Entity>, es: seq<Entity>, t: int32)
    requires forall id :: id in m ==> m[id].lastUpdated < t
    ensures forall i :: 0 <= i < |es| && FirstOfId(es, i) ==>
      es[i].id in Absorb(m, es, t) && Absorb(m, es, t)[es[i].id] == Stamp(es[i], t)
  {
    if es != [] {
      var n := |es| - 1;
      var init := es[..n];
      FirstOccurrenceWins(m, init, t);
      forall i | 0 <= i < |es| && FirstOfId(es, i)
        ensures es[i].id in Absorb(m, es, t) && Absorb(m, es, t)[es[i].id] == Stamp(es[i], t)
      {
        if i < n {
          assert init[i] == es[i];
          FirstOccurrenceKept(m, es, t, i);
        } else {
          FirstOccurrenceNew(m, es, t);
        }
      }
    }
  }

  /** A step of `FirstOccurrenceWins` for an earlier first occurrence: admitting `es`'s last entity keeps its entry. */
  lemma FirstOccurrenceKept(m: map<string, Entity>, es: seq<Entity>, t: int32, i: nat)
    requires i < |es| - 1 && FirstOfId(es, i)
    requires forall j :: 0 <= j < |es| - 1 && FirstOfId(es[..|es| - 1], j) ==>
      es[j].id in Absorb(m, es[..|es| - 1], t) && Absorb(m, es[..|es| - 1], t)[es[j].id] == Stamp(es[j], t)
    ensures es[i].id in Absorb(m, es, t) && Absorb(m, es, t)[es[i].id] == Stamp(es[i], t)
  {
    var init := es[..|es| - 1];
    assert init[i] == es[i];
    assert FirstOfId(init, i) by {
      forall j | 0 <= j < i ensures init[j].id != init[i].id { assert init[j] == es[j]; }
    }
    assert Absorb(m, es, t) == Admit(Absorb(m, init, t), es[|es| - 1], t);
  }

  /** A step of `FirstOccurrenceWins` for the last entity of `es` when it is a first occurrence: admitting stores it. */
  lemma FirstOccurrenceNew(m: map<string, Entity>, es: seq<Entity>, t: int32)
    requires forall id :: id in m ==> m[id].lastUpdated < t
    requires es != [] && FirstOfId(es, |es| - 1)
    ensures es[|es| - 1].id in Absorb(m, es, t) && Absorb(m, es, t)[es[|es| - 1].id] == Stamp(es[|es| - 1], t)
  {
    var n := |es| - 1;
    var init := es[..n];
    var last := es[n];
    AbsorbFrame(m, init, t);
    assert last.id !in Ids(init) by {
      forall j | 0 <= j < n ensures init[j].id != last.id { assert init[j] == es[j]; }
    }
    assert Absorb(m, es, t) == Admit(Absorb(m, init, t), last, t);
  }

  /** No stored entity carries a stamp above the tick `t`. */
  predicate StampsAtMost(m: map<string, Entity>, t: int32)
  {
    forall id :: id in m ==> m[id].lastUpdated <= t
  }

  /** One observation at tick `t` stores no stamp above `t`. */
  lemma {:induction false} AbsorbKeepsStampsAtMost(m: map<string, Entity>, es: seq<Entity>, t: int32)
    requires StampsAtMost(m, t)
    ensures StampsAtMost(Absorb(m, es, t), t)
  {
    if es != [] {
      AbsorbKeepsStampsAtMost(m, es[..|es| - 1], t);
    }
  }

  /**
   * An entry stamped with the largest `int` is never replaced: no tick exceeds it, so the
   * `>=` test of `addEntity` always keeps the stored entity.
   */
  lemma {:induction false} MaxStampFreezes(m: map<string, Entity>, es: seq<Entity>, t: int32, id: string)
    requires id in m && m[id].lastUpdated as int == Int32Max
    ensures id in Absorb(m, es, t) && Absorb(m, es, t)[id] == m[id]
  {
    if es != [] {
      MaxStampFreezes(m, es[..|es| - 1], t, id);
    }
  }

  /**
   * Once the tick has wrapped to the smallest `int`, every stored stamp is at or above it, so an
   * observation changes no known entry and only adds ids never seen before.
   */
  lemma {:induction false} WrappedTickFreezes(m: map<string, Entity>, es: seq<Entity>)
    ensures var r := Absorb(m, es, Increment(Int32Max as int32));
      r.Keys == m.Keys + Ids(es) && forall id :: id in m ==> r[id] == m[id]
  {
    var t := Increment(Int32Max as int32);
    AbsorbFrame(m, es, t);
    if es != [] {
      WrappedTickFreezes(m, es[..|es| - 1]);
    }
  }

  /** Admitting keeps every entry under its own id. */
  lemma {:induction false} AbsorbKeyedById(m: map<string, Entity>, es: seq<Entity>, t: int32)
    requires KeyedById(m)
    ensures KeyedById(Absorb(m, es, t))
  {
    if es != [] {
      AbsorbKeyedById(m, es[..|es| - 1], t);
    }
  }

  // ----- nodesBlockedByEntity -----

  /**
   * The `nodesBlockedByEntity.put(e.id, blocked)` of the observation loop: every interactive
   * entity records the nodes `blockedBy` (the navigation-mesh intersection) gives for it.
   */
  function RecordBlocked(nbe: map<string, seq<int>>, es: seq<Entity>, t: int32, blockedBy: Entity -> seq<int>): map<string, seq<int>>
  {
    if es == [] then nbe
    else
      var e := es[|es| - 1];
      var prior := RecordBlocked(nbe, es[..|es| - 1], t, blockedBy);
      if e.kind.Interactive? then prior[e.id := blockedBy(Stamp(e, t))] else prior
  }

  /** Every interactive entity of the observation gets an entry, and no other entry changes. */
  lemma {:induction false} RecordBlockedFrame(nbe: map<string, seq<int>>, es: seq<Entity>, t: int32, blockedBy: Entity -> seq<int>)
    ensures RecordBlocked(nbe, es, t, blockedBy).Keys == nbe.Keys + InteractiveIds(es)
    ensures forall k :: k in nbe && k !in InteractiveIds(es) ==> RecordBlocked(nbe, es, t, blockedBy)[k] == nbe[k]
  {
    if es != [] {
      var init := es[..|es| - 1];
      var e := es[|es| - 1];
      RecordBlockedFrame(nbe, init, t, blockedBy);
      IdsSnoc(es);
    }
  }

  /** `es[i]` is the last interactive entity of the list with its id. */
  predicate LastInteractiveOfId(es: seq<Entity>, i: nat)
    requires i < |es|
  {
    es[i].kind.Interactive? && forall j :: i < j < |es| && es[j].kind.Interactive? ==> es[j].id != es[i].id
  }

  /** For each interactive id of the observation, the last interactive entity with it decides the entry. */
  lemma {:induction false} LastInteractiveOccurrenceWins(nbe: map<string, seq<int>>, es: seq<Entity>, t: int32, blockedBy: Entity -> seq<int>)
    ensures forall i :: 0 <= i < |es| && LastInteractiveOfId(es, i) ==>
      es[i].id in RecordBlocked(nbe, es, t, blockedBy)
      && RecordBlocked(nbe, es, t, blockedBy)[es[i].id] == blockedBy(Stamp(es[i], t))
  {
    if es != [] {
      var n := |es| - 1;
      var init := es[..n];
      var prior := RecordBlocked(nbe, init, t, blockedBy);
      var last := es[n];
      assert RecordBlocked(nbe, es, t, blockedBy)
        == if last.kind.Interactive? then prior[last.id := blockedBy(Stamp(last, t))] else prior;
      LastInteractiveOccurrenceWins(nbe, init, t, blockedBy);
      forall i | 0 <= i < n && LastInteractiveOfId(es, i)
        ensures es[i].id in RecordBlocked(nbe, es, t, blockedBy)
          && RecordBlocked(nbe, es, t, blockedBy)[es[i].id] == blockedBy(Stamp(es[i], t))
      {
        assert init[i] == es[i];
        assert LastInteractiveOfId(init, i) by {
          forall j | i < j < n && init[j].kind.Interactive? ensures init[j].id != init[i].id { assert init[j] == es[j]; }
        }
        assert es[i].id in prior && prior[es[i].id] == blockedBy(Stamp(es[i], t));
      }
    }
  }

  /** Unfolds `Absorb` and `RecordBlocked` by one entity, as the observation loop advances. */
  lemma ObservationStep(m: map<string, Entity>, nbe: map<string, seq<int>>, es: seq<Entity>, i: nat, t: int32, blockedBy: Entity -> seq<int>)
    requires i < |es|
    ensures Absorb(m, es[..i + 1], t) == Admit(Absorb(m, es[..i], t), es[i], t)
    ensures RecordBlocked(nbe, es[..i + 1], t, blockedBy)
      == if es[i].kind.Interactive? then RecordBlocked(nbe, es[..i], t, blockedBy)[es[i].id := blockedBy(Stamp(es[i], t))]
         else RecordBlocked(nbe, es[..i], t, blockedBy)
  {
    assert es[..i + 1][..i] == es[..i];
  }

  /** One observation keeps the entity map keyed by id and every blocked-node entry backed by an entity. */
  lemma AbsorbKeepsValid(m: map<string, Entity>, nbe: map<string, seq<int>>, es: seq<Entity>, t: int32, blockedBy: Entity -> seq<int>)
    requires KeyedById(m) && nbe.Keys <= m.Keys
    ensures KeyedById(Absorb(m, es, t))
    ensures RecordBlocked(nbe, es, t, blockedBy).Keys <= Absorb(m, es, t).Keys
  {
    AbsorbKeyedById(m, es, t);
    AbsorbFrame(m, es, t);
    RecordBlockedFrame(nbe, es, t, blockedBy);
    InteractiveIdsAreIds(es);
  }

  // ----- anyInteractiveEntityChanged -----

  /** The stored entity an interactive observation would be compared with is not interactive: the cast throws. */
  predicate Clashes(m: map<string, Entity>, e: Entity)
  {
    e.kind.Interactive? && e.id in m && !m[e.id].kind.Interactive?
  }

  /** An interactive observation that is new to the store or differs from it in `isActive`. */
  predicate Changed(m: map<string, Entity>, e: Entity)
  {
    e.kind.Interactive? && (e.id !in m || (m[e.id].kind.Interactive? && m[e.id].kind.isActive != e.kind.isActive))
  }

  /** The early-return loop of `anyInteractiveEntityChanged`, over the stored entities `m`. */
  function ChangeDetected(m: map<string, Entity>, es: seq<Entity>): Result<bool, Fault>
  {
    if es == [] then Ok(false)
    else
      var e := es[0];
      if !e.kind.Interactive? then ChangeDetected(m, es[1..])
      else if e.id !in m then Ok(true)
      else if !m[e.id].kind.Interactive? then Err(ClassCast(e.id))
      else if m[e.id].kind.isActive != e.kind.isActive then Ok(true)
      else ChangeDetected(m, es[1..])
  }

  /**
   * When no entity before `es[i]` clashes, a change at `es[i]` makes the scan report a change,
   * and a clash at `es[i]` with no change before it makes the cast throw for `es[i]`.
   */
  lemma {:induction false} ChangeDetectedAt(m: map<string, Entity>, es: seq<Entity>, i: nat)
    requires i < |es| && forall j :: 0 <= j < i ==> !Clashes(m, es[j])
    ensures Changed(m, es[i]) ==> ChangeDetected(m, es) == Ok(true)
    ensures Clashes(m, es[i]) && (forall j :: 0 <= j < i ==> !Changed(m, es[j])) ==>
      ChangeDetected(m, es) == Err(ClassCast(es[i].id))
    decreases i
  {
    if i > 0 && !Changed(m, es[0]) {
      var tail := es[1..];
      assert forall j :: 0 <= j < |tail| ==> tail[j] == es[j + 1];
      ChangeDetectedAt(m, tail, i - 1);
      assert ChangeDetected(m, es) == ChangeDetected(m, tail);
    }
  }

  /**
   * The first entity that changed or clashes decides the result: a clash there makes the cast
   * throw for it, and a change there, after no clash, reports a change whatever follows.
   */
  lemma {:induction false} ChangeDetectedFirstDecides(m: map<string, Entity>, es: seq<Entity>)
    ensures forall i :: 0 <= i < |es| && Clashes(m, es[i])
                        && (forall j :: 0 <= j < i ==> !Changed(m, es[j]) && !Clashes(m, es[j])) ==>
              ChangeDetected(m, es) == Err(ClassCast(es[i].id))
    ensures forall i :: 0 <= i < |es| && Changed(m, es[i]) && (forall j :: 0 <= j < i ==> !Clashes(m, es[j])) ==>
              ChangeDetected(m, es) == Ok(true)
  {
    forall i | 0 <= i < |es| && (forall j :: 0 <= j < i ==> !Clashes(m, es[j]))
      ensures Changed(m, es[i]) ==> ChangeDetected(m, es) == Ok(true)
      ensures Clashes(m, es[i]) && (forall j :: 0 <= j < i ==> !Changed(m, es[j])) ==>
                ChangeDetected(m, es) == Err(ClassCast(es[i].id))
    {
      ChangeDetectedAt(m, es, i);
    }
  }

  /**
   * Without a cast failure, a change is reported exactly when some interactive entity of the
   * observation is unknown or differs in `isActive`; a cast failure names the first clashing
   * entity, and no entity before it changed or clashed.
   */
  lemma {:induction false} ChangeDetectedIff(m: map<string, Entity>, es: seq<Entity>)
    ensures (forall i :: 0 <= i < |es| ==> !Clashes(m, es[i]))
      ==> ChangeDetected(m, es) == Ok(exists i :: 0 <= i < |es| && Changed(m, es[i]))
    ensures ChangeDetected(m, es).Err? ==>
      exists i :: 0 <= i < |es| && Clashes(m, es[i]) && ChangeDetected(m, es).error == ClassCast(es[i].id)
        && forall j :: 0 <= j < i ==> !Changed(m, es[j]) && !Clashes(m, es[j])
  {
    if es != [] {
      var tail := es[1..];
      ChangeDetectedIff(m, tail);
      assert forall i :: 0 <= i < |tail| ==> tail[i] == es[i + 1];
      if (exists i :: 0 <= i < |tail| && Changed(m, tail[i])) {
        var i :| 0 <= i < |tail| && Changed(m, tail[i]);
        assert Changed(m, es[i + 1]);
      }
      if (exists i :: 0 <= i < |es| && Changed(m, es[i])) {
        var i :| 0 <= i < |es| && Changed(m, es[i]);
        if i > 0 { assert Changed(m, tail[i - 1]); }
      }
      if ChangeDetected(m, es).Err? && ChangeDetected(m, tail).Err? && !Clashes(m, es[0]) {
        var i :| 0 <= i < |tail| && Clashes(m, tail[i])
          && ChangeDetected(m, tail).error == ClassCast(tail[i].id)
          && forall j :: 0 <= j < i ==> !Changed(m, tail[j]) && !Clashes(m, tail[j]);
        assert Clashes(m, es[i + 1]);
        assert forall j :: 0 <= j < i + 1 ==> !Changed(m, es[j]) && !Clashes(m, es[j]) by {
          forall j | 0 <= j < i + 1 ensures !Changed(m, es[j]) && !Clashes(m, es[j]) {
            if j > 0 { assert es[j] == tail[j - 1]; }
          }
        }
      }
    }
  }

  // ----- recalculateBlockedNodes -----

  /** The predicate `ie.tag.equals("Door") && !ie.isActive` of `recalculateBlockedNodes`. */
  predicate IsClosedDoorEntity(e: Entity)
  {
    e.tag == "Door" && e.kind == Interactive(false)
  }

  /** The entry of `nodesBlockedByEntity` under `k` makes the cast of `getInteractiveEntity(k)` fail. */
  predicate CastFailsAt(m: map<string, Entity>, k: string)
  {
    k in m && !m[k].kind.Interactive?
  }

  predicate CastFails(m: map<string, Entity>, nbe: map<string, seq<int>>)
  {
    exists k :: k in nbe && CastFailsAt(m, k)
  }

  /** The nodes blocked by the closed doors among the given keys. */
  function DoorNodes(m: map<string, Entity>, nbe: map<string, seq<int>>, keys: set<string>): set<int>
  {
    set k, n | k in keys && k in nbe && k in m && IsClosedDoorEntity(m[k]) && n in nbe[k] :: n
  }

  /** The nodes of a node list. */
  function Elements(s: seq<int>): set<int>
  {
    set n | n in s
  }

  /** Visiting one more key adds that key's nodes when its entity is a closed door. */
  lemma DoorNodesAdd(m: map<string, Entity>, nbe: map<string, seq<int>>, keys: set<string>, k: string)
    requires k in nbe
    ensures DoorNodes(m, nbe, keys + {k})
      == DoorNodes(m, nbe, keys) + (if k in m && IsClosedDoorEntity(m[k]) then Elements(nbe[k]) else {})
  {
    var extra := if k in m && IsClosedDoorEntity(m[k]) then Elements(nbe[k]) else {};
    forall x | x in DoorNodes(m, nbe, keys + {k}) ensures x in DoorNodes(m, nbe, keys) + extra {
      var k', n :| k' in keys + {k} && k' in nbe && k' in m && IsClosedDoorEntity(m[k']) && n in nbe[k'] && x == n;
      if k' != k { assert k' in keys; }
    }
    forall x | x in DoorNodes(m, nbe, keys) + extra ensures x in DoorNodes(m, nbe, keys + {k}) {
      if x in DoorNodes(m, nbe, keys) {
        var k', n :| k' in keys && k' in nbe && k' in m && IsClosedDoorEntity(m[k']) && n in nbe[k'] && x == n;
        assert k' in keys + {k};
      } else {
        assert k in keys + {k};
      }
    }
  }

  lemma DoorNodesMonotone(m: map<string, Entity>, nbe: map<string, seq<int>>, keys: set<string>, more: set<string>)
    requires keys <= more
    ensures DoorNodes(m, nbe, keys) <= DoorNodes(m, nbe, more)
  {
  }

  /** The union of `nodesBlockedByEntity[k]` over every key whose entity is a closed door. */
  function ClosedDoorNodes(m: map<string, Entity>, nbe: map<string, seq<int>>): set<int>
  {
    DoorNodes(m, nbe, nbe.Keys)
  }

  /** A node is blocked exactly when some closed door lists it. */
  lemma ClosedDoorNodesIff(m: map<string, Entity>, nbe: map<string, seq<int>>, n: int)
    ensures n in ClosedDoorNodes(m, nbe) <==> exists k :: k in nbe && k in m && IsClosedDoorEntity(m[k]) && n in nbe[k]
  {
  }

  /** A door that is open, or an entity that is no door, blocks nothing. */
  lemma OpenDoorsBlockNothing(m: map<string, Entity>, nbe: map<string, seq<int>>, k: string, n: int)
    requires k in nbe && n in nbe[k]
    requires forall k' :: k' in nbe && k' != k ==> n !in nbe[k']
    ensures n in ClosedDoorNodes(m, nbe) <==> k in m && IsClosedDoorEntity(m[k])
  {
  }

  // ----- the belief store -----

  class BeliefState {
    var position: Option<Vec3>
    var velocity: Option<Vec3>
    /** `entities`: what is known of each entity, by id. */
    var entities: map<string, Entity>
    var lastUpdated: int32
    var didNothingPreviousTurn: bool
    var blockedNodes: set<int>
    var nodesBlockedByEntity: map<string, seq<int>>

    /** Every entity is stored under its own id, and every blocked-node entry belongs to a known entity. */
    ghost predicate Valid()
      reads this
    {
      KeyedById(entities) && nodesBlockedByEntity.Keys <= entities.Keys
    }

    constructor ()
      ensures Valid()
      ensures StampsAtMost(entities, lastUpdated)
      ensures position == None && velocity == None && entities == map[] && lastUpdated == -1
      ensures !didNothingPreviousTurn && blockedNodes == {} && nodesBlockedByEntity == map[]
    {
      position := None;
      velocity := None;
      entities := map[];
      lastUpdated := -1;
      didNothingPreviousTurn := false;
      blockedNodes := {};
      nodesBlockedByEntity := map[];
    }

    // --- queries ---

    function GetEntity(id: string): (r: Option<Entity>)
      reads this
      ensures r.Some? <==> id in entities
      ensures r.Some? ==> r.value == entities[id]
    {
      if id in entities then Some(entities[id]) else None
    }

    /** `(InteractiveEntity) getEntity(id)`: null for an unknown id, a cast failure for a non-interactive one. */
    function GetInteractiveEntity(id: string): (r: Result<Option<Entity>, Fault>)
      reads this
      ensures r.Err? <==> CastFailsAt(entities, id)
      ensures r.Err? ==> r.error == ClassCast(id)
      ensures r.Ok? ==> (r.value.Some? <==> id in entities)
      ensures r.Ok? && r.value.Some? ==> r.value.value == entities[id] && r.value.value.kind.Interactive?
    {
      match GetEntity(id)
      case None => Ok(None)
      case Some(e) => if e.kind.Interactive? then Ok(Some(e)) else Err(ClassCast(id))
    }

    /** A null id is false; otherwise the predicate sees the looked-up entity, absent or not. */
    function EvaluateEntity(id: Option<string>, p: Option<Entity> -> bool): (r: bool)
      reads this
      ensures id.None? ==> !r
      ensures id.Some? && id.value !in entities ==> r == p(None)
      ensures id.Some? && id.value in entities ==> r == p(Some(entities[id.value]))
    {
      var e := if id.Some? then GetEntity(id.value) else None;
      if id.None? then false else p(e)
    }

    /** `evaluateInteractiveEntity`: the predicate is applied only to a known interactive entity. */
    function EvaluateInteractiveEntity(id: Option<string>, p: Entity -> bool): (r: bool)
      reads this
      ensures r <==> id.Some? && id.value in entities && entities[id.value].kind.Interactive? && p(entities[id.value])
    {
      EvaluateEntity(id, (e: Option<Entity>) => e.Some? && e.value.kind.Interactive? && p(e.value))
    }

    predicate IsDoor(e: Option<Entity>)
    {
      e.Some? && e.value.kind.Interactive? && e.value.tag == "Door"
    }

    /** Buttons are recognised by the first letter of their id. */
    predicate IsButton(e: Option<Entity>)
    {
      e.Some? && e.value.kind.Interactive? && (StartsWith(e.value.id, "b") || StartsWith(e.value.id, "B"))
    }

    function KnownInteractiveEntities(): (r: set<Entity>)
      reads this
      ensures forall e :: e in r <==> exists id :: id in entities && entities[id] == e && e.kind.Interactive?
    {
      set e | e in entities.Values && e.kind.Interactive?
    }

    function KnownButtons(): (r: set<Entity>)
      reads this
      ensures r <= KnownInteractiveEntities()
      ensures forall id :: id in entities && IsButton(Some(entities[id])) ==> entities[id] in r
      ensures forall e :: e in r ==> IsButton(Some(e))
    {
      set e | e in KnownInteractiveEntities() && IsButton(Some(e))
    }

    function KnownDoors(): (r: set<Entity>)
      reads this
      ensures r <= KnownInteractiveEntities()
      ensures forall id :: id in entities && IsDoor(Some(entities[id])) ==> entities[id] in r
      ensures forall e :: e in r ==> IsDoor(Some(e))
    {
      set e | e in KnownInteractiveEntities() && IsDoor(Some(e))
    }

    /** How many ticks ago the entity was last updated; null for a null entity. */
    function Age(e: Option<Entity>): (r: Option<int32>)
      reads this
      ensures r.None? <==> e.None?
      ensures e.Some? ==> (r.value as int - (lastUpdated as int - e.value.lastUpdated as int)) % TwoTo32 == 0
    {
      if e.None? then None else Some(Minus(lastUpdated, e.value.lastUpdated))
    }

    function AgeById(id: string): (r: Option<int32>)
      reads this
      ensures r.None? <==> id !in entities
      ensures id in entities ==> r == Age(Some(entities[id]))
    {
      Age(GetEntity(id))
    }

    predicate EntityIsUpToDate(e: Option<Entity>)
      reads this
    {
      e != None && e.value.lastUpdated == lastUpdated
    }

    /** An entity is up to date exactly when its age is zero. */
    lemma UpToDateIffAgeZero(e: Option<Entity>)
      ensures EntityIsUpToDate(e) <==> Age(e) == Some(0)
    {
      if e.Some? {
        MinusZero(lastUpdated, e.value.lastUpdated);
      }
    }

    function GetNodesBlockedByEntity(id: string): (r: seq<int>)
      reads this
      ensures id in nodesBlockedByEntity ==> r == nodesBlockedByEntity[id]
      ensures id !in nodesBlockedByEntity ==> r == []
    {
      if id in nodesBlockedByEntity then nodesBlockedByEntity[id] else []
    }

    /** `isOn(InteractiveEntity)` and `isOpen(InteractiveEntity)`: the same test, on a possibly null entity. */
    predicate IsOn(e: Option<Entity>)
      requires e.Some? ==> e.value.kind.Interactive?
    {
      e.Some? && e.value.kind.isActive
    }

    /** `isOn(String)` and `isOpen(String)`: true for a known active entity, a cast failure for a non-interactive one. */
    function IsOnById(id: string): (r: Result<bool, Fault>)
      reads this
      ensures r == Ok(true) <==> id in entities && entities[id].kind == Interactive(true)
      ensures r.Err? <==> CastFailsAt(entities, id)
    {
      match GetInteractiveEntity(id)
      case Err(f) => Err(f)
      case Ok(e) => Ok(IsOn(e))
    }

    // --- updates ---

    method AddEntity(newEntity: Entity)
      modifies this`entities
      ensures entities == Admit(old(entities), newEntity, lastUpdated)
    {
      var stamp := lastUpdated;
      if EvaluateEntity(Some(newEntity.id), (original: Option<Entity>) => original.Some? && original.value.lastUpdated >= stamp) {
        return;
      }
      entities := entities[newEntity.id := Stamp(newEntity, lastUpdated)];
    }

    method AnyInteractiveEntityChanged(o: Observation) returns (r: Result<bool, Fault>)
      ensures r == ChangeDetected(entities, o.entities)
    {
      var i := 0;
      while i < |o.entities|
        invariant 0 <= i <= |o.entities|
        invariant ChangeDetected(entities, o.entities) == ChangeDetected(entities, o.entities[i..])
      {
        assert o.entities[i..][0] == o.entities[i] && o.entities[i..][1..] == o.entities[i + 1..];
        var newEntity := o.entities[i];
        if newEntity.kind.Interactive? {
          var original := GetInteractiveEntity(newEntity.id);
          if original.Err? {
            return Err(original.error);
          }
          if original.value.None? {
            return Ok(true);
          }
          if original.value.value.kind.isActive != newEntity.kind.isActive {
            return Ok(true);
          }
        }
        i := i + 1;
      }
      assert o.entities[i..] == [];
      return Ok(false);
    }

    /**
     * Rebuilds `blockedNodes` from the closed doors, visiting the keys of `nodesBlockedByEntity`
     * in an unspecified order; a key whose entity is not interactive makes the cast throw, and
     * the set is then left with what was added before.
     */
    method RecalculateBlockedNodes() returns (r: Marked)
      modifies this`blockedNodes
      ensures r == Done <==> !CastFails(entities, nodesBlockedByEntity)
      ensures r == Done ==> blockedNodes == ClosedDoorNodes(entities, nodesBlockedByEntity)
      ensures r.Failed? ==> r.fault.ClassCast? && r.fault.id in nodesBlockedByEntity
      ensures r.Failed? ==> CastFailsAt(entities, r.fault.id)
      ensures r.Failed? ==> blockedNodes <= ClosedDoorNodes(entities, nodesBlockedByEntity)
      ensures Valid() && r == Done ==>
        forall k :: k in nodesBlockedByEntity ==> k in entities && entities[k].kind.Interactive?
    {
      blockedNodes := {};
      var todo := nodesBlockedByEntity.Keys;
      ghost var m, nbe := entities, nodesBlockedByEntity;
      ghost var done: set<string> := {};
      while todo != {}
        invariant done + todo == nbe.Keys && done !! todo
        invariant forall k :: k in done ==> !CastFailsAt(m, k)
        invariant blockedNodes == DoorNodes(m, nbe, done)
        decreases |todo|
      {
        var k :| k in todo;
        var ie := GetInteractiveEntity(k);
        if ie.Err? {
          DoorNodesMonotone(m, nbe, done, nbe.Keys);
          assert CastFailsAt(m, k) && k in nbe;
          return Failed(ie.error);
        }
        DoorNodesAdd(m, nbe, done, k);
        if EvaluateInteractiveEntity(Some(k), IsClosedDoorEntity) {
          blockedNodes := blockedNodes + Elements(nodesBlockedByEntity[k]);
        }
        done := done + {k};
        todo := todo - {k};
      }
      assert !CastFails(m, nbe);
      return Done;
    }

    /** The loop of `markObservation` over the observed entities: `addEntity` and the blocked-node entry of each interactive one. */
    method AbsorbObservation(o: Observation, blockedBy: Entity -> seq<int>)
      modifies this`entities, this`nodesBlockedByEntity
      ensures entities == Absorb(old(entities), o.entities, lastUpdated)
      ensures nodesBlockedByEntity == RecordBlocked(old(nodesBlockedByEntity), o.entities, lastUpdated, blockedBy)
      ensures old(Valid()) ==> Valid()
    {
      ghost var m, nbe := entities, nodesBlockedByEntity;
      var i := 0;
      while i < |o.entities|
        invariant 0 <= i <= |o.entities|
        invariant entities == Absorb(m, o.entities[..i], lastUpdated)
        invariant nodesBlockedByEntity == RecordBlocked(nbe, o.entities[..i], lastUpdated, blockedBy)
      {
        var e := o.entities[i];
        ObservationStep(m, nbe, o.entities, i, lastUpdated, blockedBy);
        AddEntity(e);
        if e.kind.Interactive? {
          nodesBlockedByEntity := nodesBlockedByEntity[e.id := blockedBy(Stamp(e, lastUpdated))];
        }
        i := i + 1;
      }
      assert o.entities[..i] == o.entities;
      assert entities == Absorb(m, o.entities, lastUpdated);
      assert nodesBlockedByEntity == RecordBlocked(nbe, o.entities, lastUpdated, blockedBy);
      if KeyedById(m) && nbe.Keys <= m.Keys {
        AbsorbKeepsValid(m, nbe, o.entities, lastUpdated, blockedBy);
        assert KeyedById(entities);
      }
    }

    /**
     * Folds one observation into the store. The change check reads the entities as they were
     * before the observation; the blocked-node set is rebuilt only when it reported a change.
     */
    method MarkObservation(observation: Option<Observation>, blockedBy: Entity -> seq<int>) returns (r: Marked)
      modifies this
      ensures observation.None? ==> r == Failed(NullObservation)
      ensures observation.None? ==>
        position == old(position) && velocity == old(velocity) && entities == old(entities)
        && lastUpdated == old(lastUpdated) && didNothingPreviousTurn == old(didNothingPreviousTurn)
        && blockedNodes == old(blockedNodes) && nodesBlockedByEntity == old(nodesBlockedByEntity)
      ensures observation.Some? ==>
        didNothingPreviousTurn == observation.value.didNothing && position == observation.value.agentPosition
        && velocity == observation.value.velocity && lastUpdated == Increment(old(lastUpdated))
      ensures observation.Some? && ChangeDetected(old(entities), observation.value.entities).Err? ==>
        r == Failed(ChangeDetected(old(entities), observation.value.entities).error)
        && entities == old(entities) && nodesBlockedByEntity == old(nodesBlockedByEntity)
        && blockedNodes == old(blockedNodes)
      ensures observation.Some? && ChangeDetected(old(entities), observation.value.entities).Ok? ==>
        entities == Absorb(old(entities), observation.value.entities, lastUpdated)
        && nodesBlockedByEntity == RecordBlocked(old(nodesBlockedByEntity), observation.value.entities, lastUpdated, blockedBy)
      ensures observation.Some? && ChangeDetected(old(entities), observation.value.entities) == Ok(false) ==>
        r == Done && blockedNodes == old(blockedNodes)
      ensures observation.Some? && ChangeDetected(old(entities), observation.value.entities) == Ok(true) ==>
        (r == Done <==> !CastFails(entities, nodesBlockedByEntity))
        && (r == Done ==> blockedNodes == ClosedDoorNodes(entities, nodesBlockedByEntity))
        && (r.Failed? ==>
              r.fault.ClassCast? && CastFailsAt(entities, r.fault.id)
              && blockedNodes <= ClosedDoorNodes(entities, nodesBlockedByEntity))
      ensures observation.Some? && old(StampsAtMost(entities, lastUpdated)) && old(lastUpdated) as int < Int32Max ==>
        StampsAtMost(entities, lastUpdated)
      ensures (observation.Some? && ChangeDetected(old(entities), observation.value.entities).Ok?
               && old(StampsAtMost(entities, lastUpdated)) && old(lastUpdated) as int < Int32Max) ==>
        var es := observation.value.entities;
        forall i :: 0 <= i < |es| && FirstOfId(es, i) ==> es[i].id in entities && entities[es[i].id] == Stamp(es[i], lastUpdated)
      ensures old(Valid()) ==> Valid()
    {
      if observation.None? {
        return Failed(NullObservation);
      }
      var o := observation.value;
      didNothingPreviousTurn := o.didNothing;
      position := o.agentPosition;
      velocity := o.velocity;
      ghost var bounded := StampsAtMost(entities, lastUpdated) && lastUpdated as int < Int32Max;
      lastUpdated := Increment(lastUpdated);
      var changed := AnyInteractiveEntityChanged(o);
      if changed.Err? {
        return Failed(changed.error);
      }
      ghost var m := entities;
      AbsorbObservation(o, blockedBy);
      if bounded {
        AbsorbKeepsStampsAtMost(m, o.entities, lastUpdated);
        FirstOccurrenceWins(m, o.entities, lastUpdated);
      }
      if changed.value {
        r := RecalculateBlockedNodes();
      } else {
        r := Done;
      }
    }
  }
}
