/** The event registry: trigger descriptors, one per event id, drawn from a fixed pool with
    the same free/active discipline as the delay pool. The functions describe the active
    list as a sequence of records, head first; class EventPool is the pool itself. */
module Events {
  import opened Types
  import opened Pool

  /** One event descriptor: id, run-enabled, in-use and triggered flags, callback and user data. */
  datatype Event = Event(id: u8, running: bool, used: bool, triggered: bool, fn: Ptr, userdata: Ptr)

  /** A descriptor after memset: every field zero. */
  const Cleared: Event := Event(0, false, false, false, NULL, NULL)

  function Ids(es: seq<Event>): (r: seq<u8>)
    ensures |r| == |es| && forall i | 0 <= i < |es| :: r[i] == es[i].id
  {
    seq(|es|, i requires 0 <= i < |es| => es[i].id)
  }

  /** At most one active descriptor per id. */
  ghost predicate UniqueIds(es: seq<Event>)
  {
    Distinct(Ids(es))
  }

  /** Every active descriptor is marked in use. */
  ghost predicate AllUsed(es: seq<Event>)
  {
    forall i | 0 <= i < |es| :: es[i].used
  }

  /** Position of the descriptor of `id` in the active list, or -1. */
  function Position(es: seq<Event>, id: u8): int
  {
    IndexOf(Ids(es), id)
  }

  /** The descriptor the list walk finds for `id`. */
  function Lookup(es: seq<Event>, id: u8): (r: Option<Event>)
    ensures r.None? <==> id !in Ids(es)
    ensures r.Some? ==> r.value in es && r.value.id == id
  {
    var k := Position(es, id);
    if k < 0 then None else Some(es[k])
  }

  /** MicroOS_RegisterEvent: a NULL callback is an Error; an active `id` is overwritten in
      place; otherwise a descriptor is taken from the pool while it has room. */
  function Registered(es: seq<Event>, id: u8, fn: Ptr, userdata: Ptr): (Status, seq<Event>)
  {
    if fn == NULL then (Error, es)
    else
      var k := Position(es, id);
      if k >= 0 then
        (Ok, es[k := es[k].(fn := fn, running := true, userdata := userdata, triggered := false, used := true)])
      else if |es| >= EVENT_POOL_SIZE then (Busy, es)
      else (Ok, [Event(id, true, true, false, fn, userdata)] + es)
  }

  /** MicroOS_TriggerEvent: mark `id` triggered, whatever its run-enabled flag. */
  function Triggered(es: seq<Event>, id: u8): (Status, seq<Event>)
  {
    var k := Position(es, id);
    if k < 0 then (Error, es) else (Ok, es[k := es[k].(triggered := true)])
  }

  /** MicroOS_SuspendEvent: clear the run-enabled flag of `id`. */
  function Suspended(es: seq<Event>, id: u8): (Status, seq<Event>)
  {
    var k := Position(es, id);
    if k < 0 then (Error, es) else (Ok, es[k := es[k].(running := false)])
  }

  /** MicroOS_ResumeEvent: set the run-enabled flag of `id`. */
  function Resumed(es: seq<Event>, id: u8): (Status, seq<Event>)
  {
    var k := Position(es, id);
    if k < 0 then (Error, es) else (Ok, es[k := es[k].(running := true)])
  }

  /** MicroOS_DeleteEvent: unlink the descriptor of `id`, if any. */
  function Deleted(es: seq<Event>, id: u8): seq<Event>
  {
    var k := Position(es, id);
    if k < 0 then es else Unlinked(es, k)
  }

  /** The active descriptors whose id is not `id`, in order: the reference for Deleted. */
  function Without(es: seq<Event>, id: u8): seq<Event>
  {
    if es == [] then []
    else (if es[0].id == id then [] else [es[0]]) + Without(es[1..], id)
  }

  /** A descriptor the dispatch pass fires. */
  predicate Ready(e: Event)
  {
    e.running && e.triggered && e.used
  }

  function CallOf(e: Event): Call
  {
    EventCall(e.id, e.fn, e.userdata)
  }

  /** A fired descriptor's pending trigger is consumed. */
  function Consumed(e: Event): Event
  {
    if Ready(e) then e.(triggered := false) else e
  }

  /** The active list after one pass of MicroOS_DispatchAllEvents. */
  function Dispatched(es: seq<Event>): seq<Event>
  {
    seq(|es|, i requires 0 <= i < |es| => Consumed(es[i]))
  }

  /** The callbacks one dispatch pass makes, in active-list order. */
  function Fired(es: seq<Event>): seq<Call>
  {
    if es == [] then []
    else (if Ready(es[0]) then [CallOf(es[0])] else []) + Fired(es[1..])
  }

  /** CurrentEventId after a dispatch pass that started with `current`. */
  function LastFired(es: seq<Event>, current: u8): u8
  {
    if es == [] then current
    else if Ready(es[|es| - 1]) then es[|es| - 1].id
    else LastFired(es[..|es| - 1], current)
  }

  lemma LookupAfterWrite(es: seq<Event>, k: int, v: Event, x: u8)
    requires 0 <= k < |es| && v.id == es[k].id && k == Position(es, v.id)
    ensures Ids(es[k := v]) == Ids(es)
    ensures Lookup(es[k := v], x) == if x == v.id then Some(v) else Lookup(es, x)
  {
    assert Ids(es[k := v]) == Ids(es);
  }

  lemma LookupAfterPush(es: seq<Event>, v: Event, x: u8)
    ensures Ids([v] + es) == [v.id] + Ids(es)
    ensures Lookup([v] + es, x) == if x == v.id then Some(v) else Lookup(es, x)
  {
    assert Ids([v] + es) == [v.id] + Ids(es);
    IndexOfCons(v.id, Ids(es), x);
  }

  /** Registering: a NULL callback is refused with Error, and a full pool with Busy exactly
      when `id` is not active; both change nothing. Otherwise `id` ends up with one
      run-enabled, untriggered, in-use descriptor holding the new callback and user data,
      a new one only if it had none, and every other id keeps its own. */
  lemma RegisteredSpec(es: seq<Event>, id: u8, fn: Ptr, userdata: Ptr, x: u8)
    ensures var (st, es') := Registered(es, id, fn, userdata);
            && (st == Error <==> fn == NULL)
            && (st == Busy <==> fn != NULL && Lookup(es, id).None? && |es| >= EVENT_POOL_SIZE)
            && (st == Ok || st == Error || st == Busy)
            && (st != Ok ==> es' == es)
            && (st == Ok ==> Lookup(es', id) == Some(Event(id, true, true, false, fn, userdata)))
            && (x != id ==> Lookup(es', x) == Lookup(es, x))
            && |es'| == |es| + (if st == Ok && Lookup(es, id).None? then 1 else 0)
  {
    if fn != NULL {
      var k := Position(es, id);
      if k >= 0 {
        LookupAfterWrite(es, k, es[k].(fn := fn, running := true, userdata := userdata, triggered := false, used := true), x);
      } else {
        LookupAfterPush(es, Event(id, true, true, false, fn, userdata), x);
      }
    }
  }

  /** Registering never creates a second descriptor for one id, nor one not in use. */
  lemma RegisteredKeepsInvariant(es: seq<Event>, id: u8, fn: Ptr, userdata: Ptr)
    requires UniqueIds(es) && AllUsed(es)
    ensures UniqueIds(Registered(es, id, fn, userdata).1) && AllUsed(Registered(es, id, fn, userdata).1)
  {
    if fn != NULL {
      var k := Position(es, id);
      if k >= 0 {
        LookupAfterWrite(es, k, es[k].(fn := fn, running := true, userdata := userdata, triggered := false, used := true), id);
      } else {
        LookupAfterPush(es, Event(id, true, true, false, fn, userdata), id);
      }
    }
  }

  /** Trigger, suspend and resume each fail with Error exactly when `id` is not active,
      and otherwise set one flag of `id`'s descriptor and touch nothing else. */
  lemma FlagOpsSpec(es: seq<Event>, id: u8, x: u8)
    ensures var (st, es') := Triggered(es, id);
            && (st == Ok <==> Lookup(es, id).Some?) && (st != Ok ==> st == Error && es' == es)
            && Ids(es') == Ids(es)
            && (st == Ok ==> Lookup(es', id) == Some(Lookup(es, id).value.(triggered := true)))
            && (x != id ==> Lookup(es', x) == Lookup(es, x))
    ensures var (st, es') := Suspended(es, id);
            && (st == Ok <==> Lookup(es, id).Some?) && (st != Ok ==> st == Error && es' == es)
            && Ids(es') == Ids(es)
            && (st == Ok ==> Lookup(es', id) == Some(Lookup(es, id).value.(running := false)))
            && (x != id ==> Lookup(es', x) == Lookup(es, x))
    ensures var (st, es') := Resumed(es, id);
            && (st == Ok <==> Lookup(es, id).Some?) && (st != Ok ==> st == Error && es' == es)
            && Ids(es') == Ids(es)
            && (st == Ok ==> Lookup(es', id) == Some(Lookup(es, id).value.(running := true)))
            && (x != id ==> Lookup(es', x) == Lookup(es, x))
  {
    var k := Position(es, id);
    if k >= 0 {
      LookupAfterWrite(es, k, es[k].(triggered := true), x);
      LookupAfterWrite(es, k, es[k].(running := false), x);
      LookupAfterWrite(es, k, es[k].(running := true), x);
    }
  }

  /** The flag operations keep the registry's invariants. */
  lemma FlagOpsKeepInvariant(es: seq<Event>, id: u8)
    requires UniqueIds(es) && AllUsed(es)
    ensures UniqueIds(Triggered(es, id).1) && AllUsed(Triggered(es, id).1)
    ensures UniqueIds(Suspended(es, id).1) && AllUsed(Suspended(es, id).1)
    ensures UniqueIds(Resumed(es, id).1) && AllUsed(Resumed(es, id).1)
  {
    FlagOpsSpec(es, id, id);
  }

  /** A trigger recorded while an event is suspended stays pending, and the event is
      ready to fire as soon as it is resumed. */
  lemma TriggerSurvivesSuspension(es: seq<Event>, id: u8)
    requires AllUsed(es) && Lookup(es, id).Some?
    ensures var es1 := Suspended(es, id).1;
            var es2 := Triggered(es1, id).1;
            var es3 := Resumed(es2, id).1;
            && Lookup(es2, id).Some? && Lookup(es2, id).value.triggered && !Lookup(es2, id).value.running
            && Lookup(es3, id) == Some(Lookup(es, id).value.(running := true, triggered := true))
            && Ready(Lookup(es3, id).value)
  {
    var es1 := Suspended(es, id).1;
    var es2 := Triggered(es1, id).1;
    FlagOpsSpec(es, id, id);
    FlagOpsSpec(es1, id, id);
    FlagOpsSpec(es2, id, id);
    var k := Position(es, id);
    assert es[k].used;
  }

  /** Deleting drops exactly the descriptors of `id` and keeps the others in order. */
  lemma {:induction false} DeletedIsWithout(es: seq<Event>, id: u8)
    requires UniqueIds(es)
    ensures Deleted(es, id) == Without(es, id)
  {
    if es != [] {
      var t := es[1..];
      PositionCons(es, id);
      DeletedIsWithout(t, id);
      if es[0].id == id {
        WithoutAbsent(t, id);
      } else {
        var k := Position(t, id);
        if k >= 0 {
          UnlinkedCons(es, k);
        }
      }
    }
  }

  /** The list walk looks at the head first, then searches the rest. */
  lemma PositionCons(es: seq<Event>, id: u8)
    requires es != []
    ensures Ids(es[1..]) == Ids(es)[1..]
    ensures Distinct(Ids(es)) ==> Distinct(Ids(es[1..]))
    ensures Position(es, id) ==
              if es[0].id == id then 0 else (var k := Position(es[1..], id); if k < 0 then -1 else k + 1)
  {
    assert Ids(es[1..]) == Ids(es)[1..];
  }

  lemma {:induction false} WithoutAbsent(es: seq<Event>, id: u8)
    requires id !in Ids(es)
    ensures Without(es, id) == es
  {
    if es != [] {
      assert Ids(es[1..]) == Ids(es)[1..];
      WithoutAbsent(es[1..], id);
    }
  }

  /** After a deletion `id` has no descriptor, every other id keeps its own, and the
      number of active events drops by one exactly when `id` was active. */
  lemma DeletedSpec(es: seq<Event>, id: u8, x: u8)
    requires UniqueIds(es) && AllUsed(es)
    ensures UniqueIds(Deleted(es, id)) && AllUsed(Deleted(es, id))
    ensures Lookup(Deleted(es, id), id).None?
    ensures x != id ==> Lookup(Deleted(es, id), x) == Lookup(es, x)
    ensures |Deleted(es, id)| == |es| - (if Lookup(es, id).Some? then 1 else 0)
  {
    var k := Position(es, id);
    if k >= 0 {
      var r := Deleted(es, id);
      assert Ids(r) == Unlinked(Ids(es), k);
      UnlinkedIndexOf(Ids(es), k, x);
    }
  }

  /** Every callback a dispatch pass makes belongs to a ready descriptor. */
  lemma {:induction false} FiredSound(es: seq<Event>)
    ensures forall c | c in Fired(es) :: exists i | 0 <= i < |es| :: Ready(es[i]) && c == CallOf(es[i])
  {
    if es != [] {
      var t := es[1..];
      FiredSound(t);
      forall c | c in Fired(es) ensures exists i | 0 <= i < |es| :: Ready(es[i]) && c == CallOf(es[i]) {
        if c in Fired(t) {
          var i :| 0 <= i < |t| && Ready(t[i]) && c == CallOf(t[i]);
          assert es[i + 1] == t[i];
        } else {
          assert Ready(es[0]) && c == CallOf(es[0]);
        }
      }
    }
  }

  /** Every ready descriptor is called back by a dispatch pass. */
  lemma {:induction false} FiredComplete(es: seq<Event>)
    ensures forall i | 0 <= i < |es| && Ready(es[i]) :: CallOf(es[i]) in Fired(es)
  {
    if es != [] {
      var t := es[1..];
      FiredComplete(t);
      forall i | 0 <= i < |es| && Ready(es[i]) ensures CallOf(es[i]) in Fired(es) {
        if i > 0 {
          assert es[i] == t[i - 1];
        }
      }
    }
  }

  /** A pass over descriptors none of which carries the id of `c` never makes the call `c`. */
  lemma FiredNotNamed(es: seq<Event>, c: Call)
    requires c.EventCall? && c.id !in Ids(es)
    ensures c !in Fired(es)
  {
    FiredSound(es);
    forall c' | c' in Fired(es) ensures c' != c {
      var i :| 0 <= i < |es| && Ready(es[i]) && c' == CallOf(es[i]);
      assert Ids(es)[i] == c'.id;
    }
  }

  /** With ids unique, a ready descriptor is called back exactly once in a dispatch pass. */
  lemma {:induction false} FiredOnce(es: seq<Event>, k: int)
    requires UniqueIds(es) && 0 <= k < |es| && Ready(es[k])
    ensures multiset(Fired(es))[CallOf(es[k])] == 1
  {
    var t := es[1..];
    assert forall i | 0 <= i < |t| :: Ids(t)[i] == Ids(es)[i + 1];
    assert UniqueIds(t);
    assert Fired(es) == (if Ready(es[0]) then [CallOf(es[0])] else []) + Fired(t);
    if k == 0 {
      assert es[0].id !in Ids(t) by {
        forall i | 0 <= i < |t| ensures Ids(t)[i] != es[0].id {
          assert Ids(es)[0] != Ids(es)[i + 1];
        }
      }
      FiredNotNamed(t, CallOf(es[0]));
    } else {
      assert es[k] == t[k - 1];
      FiredOnce(t, k - 1);
      assert Ids(es)[0] != Ids(es)[k];
    }
  }

  /** Register, suspend, trigger, resume: the next dispatch pass calls the callback exactly
      once and consumes the trigger, so the registry is back where registration left it. */
  lemma SuspendTriggerResumeDispatch(id: u8, fn: Ptr, userdata: Ptr)
    requires fn != NULL
    ensures var es := Registered([], id, fn, userdata).1;
            var pending := Resumed(Triggered(Suspended(es, id).1, id).1, id).1;
            && Fired(pending) == [EventCall(id, fn, userdata)]
            && Dispatched(pending) == es
            && Fired(Dispatched(pending)) == []
  {
    var e := Event(id, true, true, false, fn, userdata);
    assert Ids([e]) == [id];
    assert Registered([], id, fn, userdata).1 == [e];
    assert Ids([e.(running := false)]) == [id];
    assert Ids([e.(running := false, triggered := true)]) == [id];
    assert Resumed(Triggered(Suspended([e], id).1, id).1, id).1 == [e.(triggered := true)];
    assert [e.(triggered := true)][1..] == [];
    assert Dispatched([e.(triggered := true)]) == [e];
    assert [e][1..] == [];
  }

  /** Callbacks of two stretches of the list, one after the other. */
  lemma {:induction false} FiredAppend(a: seq<Event>, b: seq<Event>)
    ensures Fired(a + b) == Fired(a) + Fired(b)
  {
    if a == [] {
      assert a + b == b;
    } else {
      var head := if Ready(a[0]) then [CallOf(a[0])] else [];
      assert (a + b)[0] == a[0];
      assert (a + b)[1..] == a[1..] + b;
      assert Fired(a + b) == head + Fired(a[1..] + b);
      FiredAppend(a[1..], b);
      assert Fired(a) == head + Fired(a[1..]);
    }
  }

  /** The current event after a dispatch pass is the last one called back, or the old one
      when none fired. */
  lemma {:induction false} LastFiredIsLast(es: seq<Event>, current: u8)
    ensures LastFired(es, current) == if Fired(es) == [] then current else Fired(es)[|Fired(es)| - 1].id
  {
    if es != [] {
      var n := |es| - 1;
      LastFiredIsLast(es[..n], current);
      FiredAppend(es[..n], [es[n]]);
      assert es[..n] + [es[n]] == es;
    }
  }

  /** One more descriptor visited by the dispatch walk. */
  lemma FiredStep(es: seq<Event>, k: int, current: u8)
    requires 0 <= k < |es|
    ensures Dispatched(es[..k + 1]) + es[k + 1..] == (Dispatched(es[..k]) + es[k..])[k := Consumed(es[k])]
    ensures Fired(es[..k + 1]) == Fired(es[..k]) + (if Ready(es[k]) then [CallOf(es[k])] else [])
    ensures LastFired(es[..k + 1], current) == if Ready(es[k]) then es[k].id else LastFired(es[..k], current)
  {
    assert es[..k + 1][..k] == es[..k];
    assert es[..k + 1] == es[..k] + [es[k]];
    FiredAppend(es[..k], [es[k]]);
    assert [es[k]][1..] == [];
  }

  /** After a dispatch pass nothing is pending: a second pass calls nothing back. The pass
      keeps every descriptor under its id and leaves all fields but `triggered` alone. */
  lemma {:induction false} DispatchedSpec(es: seq<Event>)
    ensures Fired(Dispatched(es)) == []
    ensures Ids(Dispatched(es)) == Ids(es)
    ensures forall i | 0 <= i < |es| :: Dispatched(es)[i] == es[i].(triggered := es[i].triggered && !Ready(es[i]))
  {
    assert Ids(Dispatched(es)) == Ids(es);
    if es != [] {
      DispatchedSpec(es[1..]);
      assert Dispatched(es)[1..] == Dispatched(es[1..]);
    }
  }

  /** A dispatch pass keeps the registry's invariants. */
  lemma DispatchedKeepsInvariant(es: seq<Event>)
    requires UniqueIds(es) && AllUsed(es)
    ensures UniqueIds(Dispatched(es)) && AllUsed(Dispatched(es))
  {
    DispatchedSpec(es);
  }

  /** Registering `ids` one after the other: the statuses returned, and the final list. */
  function RegisterAll(es: seq<Event>, ids: seq<u8>, fn: Ptr, userdata: Ptr): (seq<Status>, seq<Event>)
    decreases |ids|
  {
    if ids == [] then ([], es)
    else
      var (st, es1) := Registered(es, ids[0], fn, userdata);
      var (rest, es2) := RegisterAll(es1, ids[1..], fn, userdata);
      ([st] + rest, es2)
  }

  /** Exhaustion: into a registry with room for `n` more, registering `n` + 1 distinct new ids
      succeeds `n` times and then fails with Busy. */
  lemma {:induction false} Exhaustion(es: seq<Event>, ids: seq<u8>, fn: Ptr, userdata: Ptr)
    requires fn != NULL && Distinct(ids)
    requires forall i | 0 <= i < |ids| :: ids[i] !in Ids(es)
    requires |es| <= EVENT_POOL_SIZE && |es| + |ids| == EVENT_POOL_SIZE + 1
    ensures RegisterAll(es, ids, fn, userdata).0 == seq(|ids| - 1, _ => Ok) + [Busy]
    decreases |ids|
  {
    var (st, es1) := Registered(es, ids[0], fn, userdata);
    RegisteredSpec(es, ids[0], fn, userdata, ids[0]);
    if |ids| == 1 {
      assert st == Busy;
    } else {
      assert st == Ok;
      forall i | 0 <= i < |ids| - 1 ensures ids[1..][i] !in Ids(es1) {
        LookupAfterPush(es, Event(ids[0], true, true, false, fn, userdata), ids[1..][i]);
        assert ids[1..][i] != ids[0];
      }
      Exhaustion(es1, ids[1..], fn, userdata);
      assert seq(|ids| - 1, _ => Ok) == [Ok] + seq(|ids| - 2, _ => Ok);
    }
  }

  /** Registering an id that is not active, with room in the pool, puts its descriptor at
      the head of the active list. */
  lemma RegisteredFresh(es: seq<Event>, id: u8, fn: Ptr, userdata: Ptr)
    requires fn != NULL && id !in Ids(es) && |es| < EVENT_POOL_SIZE
    ensures Registered(es, id, fn, userdata) == (Ok, [Event(id, true, true, false, fn, userdata)] + es)
  {
  }

  /** Triggering the id of the descriptor at position `k` marks exactly that descriptor. */
  lemma TriggeredAt(es: seq<Event>, k: int)
    requires UniqueIds(es) && 0 <= k < |es|
    ensures Triggered(es, es[k].id) == (Ok, es[k := es[k].(triggered := true)])
  {
    IndexOfDistinct(Ids(es), k);
  }

  /** Ids 1, 2, 3 registered in that order on an empty registry and all triggered fire
      newest first: 3, 2, 1. */
  lemma NewestFiresFirst(f1: Ptr, f2: Ptr, f3: Ptr, d: Ptr)
    requires f1 != NULL && f2 != NULL && f3 != NULL
    ensures var es := Registered(Registered(Registered([], 1, f1, d).1, 2, f2, d).1, 3, f3, d).1;
            var pending := Triggered(Triggered(Triggered(es, 1).1, 2).1, 3).1;
            Fired(pending) == [EventCall(3, f3, d), EventCall(2, f2, d), EventCall(1, f1, d)]
  {
    var e1 := Event(1, true, true, false, f1, d);
    var e2 := Event(2, true, true, false, f2, d);
    var e3 := Event(3, true, true, false, f3, d);
    RegisterOneTwoThree(f1, f2, f3, d);
    TriggerEach(e1, e2, e3);
    var r1, r2, r3 := e1.(triggered := true), e2.(triggered := true), e3.(triggered := true);
    assert [r1][1..] == [];
    assert Fired([r1]) == [CallOf(r1)];
    assert [r2, r1][1..] == [r1];
    assert Fired([r2, r1]) == [CallOf(r2), CallOf(r1)];
    assert [r3, r2, r1][1..] == [r2, r1];
  }

  lemma RegisterOneTwoThree(f1: Ptr, f2: Ptr, f3: Ptr, d: Ptr)
    requires f1 != NULL && f2 != NULL && f3 != NULL
    ensures Registered(Registered(Registered([], 1, f1, d).1, 2, f2, d).1, 3, f3, d).1 ==
              [Event(3, true, true, false, f3, d), Event(2, true, true, false, f2, d), Event(1, true, true, false, f1, d)]
  {
    var e1 := Event(1, true, true, false, f1, d);
    var e2 := Event(2, true, true, false, f2, d);
    RegisteredFresh([], 1, f1, d);
    assert Ids([e1]) == [1];
    RegisteredFresh([e1], 2, f2, d);
    assert Ids([e2, e1]) == [2, 1];
    RegisteredFresh([e2, e1], 3, f3, d);
  }

  lemma TriggerEach(e1: Event, e2: Event, e3: Event)
    requires e1.id == 1 && e2.id == 2 && e3.id == 3
    ensures Triggered(Triggered(Triggered([e3, e2, e1], 1).1, 2).1, 3).1 ==
              [e3.(triggered := true), e2.(triggered := true), e1.(triggered := true)]
  {
    var r1, r2, r3 := e1.(triggered := true), e2.(triggered := true), e3.(triggered := true);
    var es := [e3, e2, e1];
    assert Ids(es) == [3, 2, 1];
    TriggeredAt(es, 2);
    assert es[2 := r1] == [e3, e2, r1];
    var t1 := [e3, e2, r1];
    assert Ids(t1) == [3, 2, 1];
    TriggeredAt(t1, 1);
    assert t1[1 := r2] == [e3, r2, r1];
    var t2 := [e3, r2, r1];
    assert Ids(t2) == [3, 2, 1];
    TriggeredAt(t2, 0);
    assert t2[0 := r3] == [r3, r2, r1];
  }

  /** The registry pool: OS_EVENT_POOLSIZE descriptors linked into a free and an active
      list, with the count of active events and the id of the last event dispatched. */
  class EventPool {
    var slot: array<Event>
    var next: array<int>
    var freeHead: int
    var activeHead: int
    var eventNum: u8
    var currentEventId: u8

    ghost var freeList: seq<int>
    ghost var activeList: seq<int>
    ghost var Repr: set<object>

    /** The two lists thread the whole pool through `next`. */
    ghost predicate Shape()
      reads this`slot, this`next, this`freeHead, this`activeHead, this`freeList, this`activeList, next
    {
      && slot.Length == EVENT_POOL_SIZE && next.Length == EVENT_POOL_SIZE
      && Linked(next[..], freeHead, freeList)
      && Linked(next[..], activeHead, activeList)
      && Partition(EVENT_POOL_SIZE, freeList, activeList)
    }

    ghost predicate Valid()
      reads this, Repr
    {
      && Repr == {this, slot, next}
      && Shape()
      && UniqueIds(View(slot[..], activeList))
      && AllUsed(View(slot[..], activeList))
      && eventNum == |activeList|
    }

    /** The active descriptors, head first. */
    ghost function Entries(): seq<Event>
      reads this, Repr
      requires Valid()
    {
      View(slot[..], activeList)
    }

    /** The zero-initialised registry after MicroOS_OSEvent_Init: every node free, linked
        in index order, no event active. */
    constructor ()
      ensures Valid() && fresh(Repr)
      ensures Entries() == [] && freeList == Range(EVENT_POOL_SIZE) && activeList == []
      ensures eventNum == 0 && currentEventId == 0
    {
      var links := ThreadedLinks(EVENT_POOL_SIZE);
      next := links;
      slot := new Event[EVENT_POOL_SIZE](_ => Cleared);
      freeHead := 0;
      activeHead := NIL;
      eventNum := 0;
      currentEventId := 0;
      freeList := Range(EVENT_POOL_SIZE);
      activeList := [];
      Repr := {this, slot, next};
      new;
      assert View(slot[..], activeList) == [];
    }

    /** The walk from the active head to the descriptor of `id`: its node, or NIL, and
        its position in the active list. */
    method Find(id: u8) returns (p: int, ghost k: int)
      requires Valid()
      ensures k == Position(Entries(), id)
      ensures p == At(activeList, k)
      ensures p != NIL ==> 0 <= p < EVENT_POOL_SIZE && slot[p].id == id
    {
      p := activeHead;
      k := 0;
      while p != NIL
        invariant 0 <= k <= |activeList| && p == At(activeList, k)
        invariant forall j | 0 <= j < k :: slot[activeList[j]].id != id
        decreases |activeList| - k
      {
        if slot[p].id == id {
          assert Ids(Entries())[k] == id;
          return;
        }
        p := next[p];
        k := k + 1;
      }
      k := -1;
      assert id !in Ids(Entries());
    }

    /** MicroOS_RegisterEvent */
    method Register(id: u8, fn: Ptr, userdata: Ptr) returns (st: Status)
      requires Valid()
      modifies Repr
      ensures Valid() && Repr == old(Repr) && currentEventId == old(currentEventId)
      ensures (st, Entries()) == Registered(old(Entries()), id, fn, userdata)
      ensures st == Ok && old(Lookup(Entries(), id)).None? ==>
                freeList == old(freeList[1..]) && activeList == [old(freeList[0])] + old(activeList)
      ensures st != Ok || old(Lookup(Entries(), id)).Some? ==>
                freeList == old(freeList) && activeList == old(activeList)
    {
      if fn == NULL {
        return Error;
      }
      var p, k := Find(id);
      if p != NIL {
        Rewrite(k, p, slot[p].(fn := fn, running := true, userdata := userdata, triggered := false, used := true));
        return Ok;
      }
      if freeHead == NIL {
        return Busy;
      }
      var node := Claim(Event(id, true, true, false, fn, userdata));
      return Ok;
    }

    /** Overwrite the descriptor at position `k` of the active list, keeping its id. */
    method Rewrite(ghost k: int, p: int, e: Event)
      requires Valid() && 0 <= k < |activeList| && p == activeList[k]
      requires e.id == slot[p].id && e.used
      modifies slot
      ensures Valid()
      ensures Entries() == old(Entries())[k := e]
    {
      ghost var E := Entries();
      LookupAfterWrite(E, k, e, e.id);
      ViewUpdate(slot[..], activeList, k, e);
      slot[p] := e;
    }

    /** Count one more event, take the free head and make it the active head holding `e`.
        Every field of the descriptor is written, so the node's old contents do not matter. */
    method Claim(e: Event) returns (node: int)
      requires Valid() && freeHead != NIL && e.id !in Ids(Entries()) && e.used
      modifies slot, next, this`freeHead, this`activeHead, this`freeList, this`activeList, this`eventNum
      ensures Valid()
      ensures Entries() == [e] + old(Entries())
      ensures node == old(freeList[0]) && freeList == old(freeList[1..]) && activeList == [node] + old(activeList)
    {
      ghost var E := Entries();
      LookupAfterPush(E, e, e.id);
      eventNum := eventNum + 1;
      ghost var S, L := slot[..], activeList;
      node := TakeFree();
      assert node !in L;
      ViewPush(S, L, node, e);
      slot[node] := e;
    }

    /** MicroOS_DeleteEvent: unlink `id`'s descriptor, clear it, push it onto the free
        list and count one event fewer; nothing happens when `id` has none. */
    method Delete(id: u8)
      requires Valid()
      modifies Repr
      ensures Valid() && Repr == old(Repr) && currentEventId == old(currentEventId)
      ensures Entries() == Deleted(old(Entries()), id)
      ensures var k := Position(old(Entries()), id);
              if k < 0 then freeList == old(freeList) && activeList == old(activeList)
              else && activeList == Unlinked(old(activeList), k)
                   && freeList == [old(activeList)[k]] + old(freeList)
                   && slot[old(activeList)[k]] == Cleared
    {
      ghost var E := Entries();
      var prev := NIL;
      var p := activeHead;
      ghost var k := 0;
      while p != NIL
        invariant 0 <= k <= |activeList| && p == At(activeList, k) && prev == At(activeList, k - 1)
        invariant forall j | 0 <= j < k :: slot[activeList[j]].id != id
        decreases |activeList| - k
      {
        if slot[p].id == id {
          assert Ids(E)[k] == id;
          assert Position(E, id) == k;
          UnlinkAt(k, prev, p);
          return;
        }
        prev := p;
        p := next[p];
        k := k + 1;
      }
      assert id !in Ids(E);
    }

    /** Unlink the active node `p` at position `k`, whose predecessor is `prev`: the active
        head or the predecessor's link skips it, it is cleared and pushed onto the free list. */
    method UnlinkAt(ghost k: int, prev: int, p: int)
      requires Valid() && 0 <= k < |activeList| && p == activeList[k] && prev == At(activeList, k - 1)
      modifies slot, next, this`freeHead, this`activeHead, this`freeList, this`activeList, this`eventNum
      ensures Valid()
      ensures Entries() == Unlinked(old(Entries()), k)
      ensures activeList == Unlinked(old(activeList), k) && freeList == [p] + old(freeList)
      ensures slot[p] == Cleared
    {
      ghost var E := Entries();
      assert Ids(Unlinked(E, k)) == Unlinked(Ids(E), k);
      UnlinkedIndexOf(Ids(E), k, 0);
      ViewUnlink(slot[..], activeList, k, Cleared);
      Splice(k, prev, p);
      eventNum := eventNum - 1;
      slot[p] := Cleared;
    }

    /** Pop the free head and push it onto the active head; slot contents are untouched. */
    method TakeFree() returns (node: int)
      requires Shape() && freeHead != NIL
      modifies next, this`freeHead, this`activeHead, this`freeList, this`activeList
      ensures Shape()
      ensures node == old(freeList[0]) && freeList == old(freeList[1..]) && activeList == [node] + old(activeList)
    {
      node := freeHead;
      Acquire(next[..], freeList, activeHead, activeList);
      freeHead := next[node];
      next[node] := activeHead;
      activeHead := node;
      freeList := freeList[1..];
      activeList := [node] + activeList;
    }

    /** Unlink the active node `p` at position `k`, whose predecessor is `prev` (NIL at the
        head), and push it onto the free head; slot contents are untouched. */
    method Splice(ghost k: int, prev: int, p: int)
      requires Shape() && 0 <= k < |activeList| && p == activeList[k] && prev == At(activeList, k - 1)
      modifies next, this`freeHead, this`activeHead, this`freeList, this`activeList
      ensures Shape()
      ensures activeList == Unlinked(old(activeList), k) && freeList == [p] + old(freeList)
    {
      Release(next[..], freeHead, freeList, activeHead, activeList, k);
      var succ := next[p];
      if prev == NIL {
        activeHead := succ;
      } else {
        next[prev] := succ;
      }
      next[p] := freeHead;
      freeHead := p;
      freeList := [p] + freeList;
      activeList := Unlinked(activeList, k);
    }

    /** MicroOS_TriggerEvent */
    method Trigger(id: u8) returns (st: Status)
      requires Valid()
      modifies Repr
      ensures Valid() && Repr == old(Repr) && currentEventId == old(currentEventId)
      ensures freeList == old(freeList) && activeList == old(activeList)
      ensures (st, Entries()) == Triggered(old(Entries()), id)
    {
      FlagOpsKeepInvariant(Entries(), id);
      var p, k := Find(id);
      if p == NIL {
        return Error;
      }
      ViewUpdate(slot[..], activeList, k, slot[p].(triggered := true));
      slot[p] := slot[p].(triggered := true);
      return Ok;
    }

    /** MicroOS_SuspendEvent */
    method Suspend(id: u8) returns (st: Status)
      requires Valid()
      modifies Repr
      ensures Valid() && Repr == old(Repr) && currentEventId == old(currentEventId)
      ensures freeList == old(freeList) && activeList == old(activeList)
      ensures (st, Entries()) == Suspended(old(Entries()), id)
    {
      FlagOpsKeepInvariant(Entries(), id);
      var p, k := Find(id);
      if p == NIL {
        return Error;
      }
      ViewUpdate(slot[..], activeList, k, slot[p].(running := false));
      slot[p] := slot[p].(running := false);
      return Ok;
    }

    /** MicroOS_ResumeEvent */
    method Resume(id: u8) returns (st: Status)
      requires Valid()
      modifies Repr
      ensures Valid() && Repr == old(Repr) && currentEventId == old(currentEventId)
      ensures freeList == old(freeList) && activeList == old(activeList)
      ensures (st, Entries()) == Resumed(old(Entries()), id)
    {
      FlagOpsKeepInvariant(Entries(), id);
      var p, k := Find(id);
      if p == NIL {
        return Error;
      }
      ViewUpdate(slot[..], activeList, k, slot[p].(running := true));
      slot[p] := slot[p].(running := true);
      return Ok;
    }

    /** MicroOS_DispatchAllEvents: walk the active list from the head and call back every
        ready descriptor, consuming its trigger. The callbacks made are returned in order. */
    method DispatchAll() returns (ghost calls: seq<Call>)
      requires Valid()
      modifies Repr
      ensures Valid() && Repr == old(Repr)
      ensures freeList == old(freeList) && activeList == old(activeList)
      ensures Entries() == Dispatched(old(Entries()))
      ensures calls == Fired(old(Entries()))
      ensures currentEventId == LastFired(old(Entries()), old(currentEventId))
    {
      DispatchedKeepsInvariant(Entries());
      calls := DispatchWalk();
    }

    /** The state of the dispatch walk after visiting the first `k` descriptors of `E`
        from a current event id of `current`; `p` is the next node to visit. */
    ghost predicate Walked(E: seq<Event>, k: int, p: int, calls: seq<Call>, current: u8)
      reads this`slot, this`next, this`freeHead, this`activeHead, this`freeList, this`activeList
      reads this`currentEventId, next, slot
    {
      && Shape()
      && 0 <= k <= |activeList| == |E| && p == At(activeList, k)
      && View(slot[..], activeList) == Dispatched(E[..k]) + E[k..]
      && calls == Fired(E[..k])
      && currentEventId == LastFired(E[..k], current)
    }

    /** The walk itself: only payloads and the current event id change. */
    method DispatchWalk() returns (ghost calls: seq<Call>)
      requires Shape()
      modifies slot, this`currentEventId
      ensures View(slot[..], activeList) == Dispatched(old(View(slot[..], activeList)))
      ensures calls == Fired(old(View(slot[..], activeList)))
      ensures currentEventId == LastFired(old(View(slot[..], activeList)), old(currentEventId))
    {
      ghost var E := View(slot[..], activeList);
      var p := activeHead;
      ghost var k := 0;
      calls := [];
      assert E[..0] == [] && E[0..] == E;
      while p != NIL
        invariant Walked(E, k, p, calls, old(currentEventId))
        decreases |activeList| - k
      {
        calls := Visit(E, k, p, calls, old(currentEventId));
        p := next[p];
        k := k + 1;
      }
      assert k == |E| && E[..k] == E && E[k..] == [];
    }

    /** One node of the walk: a ready descriptor becomes the current event, its callback
        runs and its trigger is consumed. */
    method Visit(ghost E: seq<Event>, ghost k: int, p: int, ghost calls: seq<Call>, ghost current: u8)
      returns (ghost calls': seq<Call>)
      requires Walked(E, k, p, calls, current) && p != NIL
      modifies slot, this`currentEventId
      ensures 0 <= p < next.Length && Walked(E, k + 1, next[p], calls', current)
    {
      FiredStep(E, k, current);
      calls' := calls;
      var e := slot[p];
      assert e == View(slot[..], activeList)[k] == E[k];
      if e.running && e.triggered && e.used {
        currentEventId := e.id;
        calls' := calls' + [EventCall(e.id, e.fn, e.userdata)];
        ViewUpdate(slot[..], activeList, k, e.(triggered := false));
        slot[p] := e.(triggered := false);
      }
    }
  }
}
