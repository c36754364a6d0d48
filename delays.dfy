/** The non-blocking delay manager: countdown descriptors, one per caller id, drawn from a
    fixed pool. The functions describe the active list as a sequence of records, head
    first; class DelayPool is the pool itself, with its arrays and links. */
module Delays {
  import opened Types
  import opened Pool

  /** One delay descriptor: the caller's id, the ticks still to count and the timed-out flag. */
  datatype Delay = Delay(id: u8, ms: u32, timedOut: bool)

  /** A descriptor after memset: every field zero. */
  const Cleared: Delay := Delay(0, 0, false)

  function Ids(ds: seq<Delay>): (r: seq<u8>)
    ensures |r| == |ds| && forall i | 0 <= i < |ds| :: r[i] == ds[i].id
  {
    seq(|ds|, i requires 0 <= i < |ds| => ds[i].id)
  }

  /** At most one active descriptor per id. */
  ghost predicate UniqueIds(ds: seq<Delay>)
  {
    Distinct(Ids(ds))
  }

  /** Position of the descriptor of `id` in the active list, or -1. */
  function Position(ds: seq<Delay>, id: u8): int
  {
    IndexOf(Ids(ds), id)
  }

  /** The descriptor the list walk finds for `id`. */
  function Lookup(ds: seq<Delay>, id: u8): (r: Option<Delay>)
    ensures r.None? <==> id !in Ids(ds)
    ensures r.Some? ==> r.value in ds && r.value.id == id
  {
    var k := Position(ds, id);
    if k < 0 then None else Some(ds[k])
  }

  /** MicroOS_OSdelay: restart the descriptor of `id` if it is active, otherwise take a
      descriptor from the pool, which has room while fewer than DELAY_POOL_SIZE are active. */
  function Armed(ds: seq<Delay>, id: u8, ticks: u32): (Status, seq<Delay>)
  {
    var k := Position(ds, id);
    if k >= 0 then (Ok, ds[k := ds[k].(ms := ticks, timedOut := false)])
    else if |ds| >= DELAY_POOL_SIZE then (Busy, ds)
    else (Ok, [Delay(id, ticks, false)] + ds)
  }

  /** One tick of one descriptor: a running countdown loses one tick and times out on reaching 0. */
  function TickOne(d: Delay): Delay
  {
    if d.ms > 0 then
      d.(ms := d.ms - 1, timedOut := if d.ms - 1 == 0 then true else d.timedOut)
    else d
  }

  /** MicroOS_OSdelay_Tick: every active descriptor counts down; none leaves the list. */
  function CountedDown(ds: seq<Delay>): seq<Delay>
  {
    seq(|ds|, i requires 0 <= i < |ds| => TickOne(ds[i]))
  }

  /** MicroOS_OSdelayDone: the timed-out flag of the descriptor of `id`, false when none is active. */
  function TimedOut(ds: seq<Delay>, id: u8): bool
  {
    var k := Position(ds, id);
    k >= 0 && ds[k].timedOut
  }

  /** MicroOS_OSdelay_Remove: unlink the descriptor of `id`, if any. */
  function Removed(ds: seq<Delay>, id: u8): seq<Delay>
  {
    var k := Position(ds, id);
    if k < 0 then ds else Unlinked(ds, k)
  }

  /** The active descriptors whose id is not `id`, in order: the reference for Removed. */
  function Without(ds: seq<Delay>, id: u8): seq<Delay>
  {
    if ds == [] then []
    else (if ds[0].id == id then [] else [ds[0]]) + Without(ds[1..], id)
  }

  /** `n` ticks in a row. */
  function CountedDownN(ds: seq<Delay>, n: nat): seq<Delay>
  {
    if n == 0 then ds else CountedDown(CountedDownN(ds, n - 1))
  }

  lemma LookupAfterWrite(ds: seq<Delay>, k: int, v: Delay, x: u8)
    requires 0 <= k < |ds| && v.id == ds[k].id && k == Position(ds, v.id)
    ensures Ids(ds[k := v]) == Ids(ds)
    ensures Lookup(ds[k := v], x) == if x == v.id then Some(v) else Lookup(ds, x)
  {
    assert Ids(ds[k := v]) == Ids(ds);
  }

  lemma LookupAfterPush(ds: seq<Delay>, v: Delay, x: u8)
    ensures Ids([v] + ds) == [v.id] + Ids(ds)
    ensures Lookup([v] + ds, x) == if x == v.id then Some(v) else Lookup(ds, x)
  {
    assert Ids([v] + ds) == [v.id] + Ids(ds);
    IndexOfCons(v.id, Ids(ds), x);
  }

  /** Starting a delay: it fails with Busy exactly when `id` has no descriptor and the pool
      is exhausted, and then changes nothing. Otherwise `id` ends up with one descriptor
      holding the full count and no timeout, a new one only if it had none, and every other
      id's descriptor is left as it was. */
  lemma ArmedSpec(ds: seq<Delay>, id: u8, ticks: u32, x: u8)
    ensures var (st, ds') := Armed(ds, id, ticks);
            && (st == Busy <==> Lookup(ds, id).None? && |ds| >= DELAY_POOL_SIZE)
            && (st == Ok || st == Busy)
            && (st == Busy ==> ds' == ds)
            && (st == Ok ==> Lookup(ds', id) == Some(Delay(id, ticks, false)))
            && (x != id ==> Lookup(ds', x) == Lookup(ds, x))
            && |ds'| == |ds| + (if st == Ok && Lookup(ds, id).None? then 1 else 0)
  {
    var k := Position(ds, id);
    if k >= 0 {
      LookupAfterWrite(ds, k, ds[k].(ms := ticks, timedOut := false), x);
    } else {
      LookupAfterPush(ds, Delay(id, ticks, false), x);
    }
  }

  /** Starting a delay never creates a second descriptor for one id. */
  lemma ArmedKeepsUnique(ds: seq<Delay>, id: u8, ticks: u32)
    requires UniqueIds(ds)
    ensures UniqueIds(Armed(ds, id, ticks).1)
  {
    var k := Position(ds, id);
    if k >= 0 {
      LookupAfterWrite(ds, k, ds[k].(ms := ticks, timedOut := false), id);
    } else {
      LookupAfterPush(ds, Delay(id, ticks, false), id);
    }
  }

  /** A tick keeps every descriptor in place under its id and ticks each one once. */
  lemma CountedDownSpec(ds: seq<Delay>, x: u8)
    ensures Ids(CountedDown(ds)) == Ids(ds)
    ensures Lookup(CountedDown(ds), x) ==
              if Lookup(ds, x).Some? then Some(TickOne(Lookup(ds, x).value)) else None
  {
    assert Ids(CountedDown(ds)) == Ids(ds);
  }

  /** A descriptor started with `t` ticks reads "not done" for the first t-1 ticks and
      "done" from tick t on; started with 0 ticks it never reads "done". */
  lemma {:induction false} CountdownExact(ds: seq<Delay>, id: u8, t: u32, n: nat)
    requires Lookup(ds, id) == Some(Delay(id, t, false))
    ensures Lookup(CountedDownN(ds, n), id) ==
              Some(Delay(id, if n < t then t - n else 0, t > 0 && n >= t))
    ensures TimedOut(CountedDownN(ds, n), id) == (t > 0 && n >= t)
  {
    if n > 0 {
      CountdownExact(ds, id, t, n - 1);
      CountedDownSpec(CountedDownN(ds, n - 1), id);
    }
    var ds' := CountedDownN(ds, n);
    assert TimedOut(ds', id) == Lookup(ds', id).value.timedOut;
  }

  /** Starting a 3-tick delay and ticking three times reads false, false, true. */
  lemma ThreeTickDelay(ds: seq<Delay>, id: u8)
    requires Armed(ds, id, 3).0 == Ok
    ensures var armed := Armed(ds, id, 3).1;
            && !TimedOut(CountedDownN(armed, 1), id)
            && !TimedOut(CountedDownN(armed, 2), id)
            && TimedOut(CountedDownN(armed, 3), id)
  {
    ArmedSpec(ds, id, 3, id);
    var armed := Armed(ds, id, 3).1;
    CountdownExact(armed, id, 3, 1);
    CountdownExact(armed, id, 3, 2);
    CountdownExact(armed, id, 3, 3);
  }

  /** One more descriptor visited by the tick walk. */
  lemma CountedDownStep(ds: seq<Delay>, k: int)
    requires 0 <= k < |ds|
    ensures CountedDown(ds[..k + 1]) + ds[k + 1..] == (CountedDown(ds[..k]) + ds[k..])[k := TickOne(ds[k])]
  {
  }

  /** A tick never drops a descriptor or merges two. */
  lemma CountedDownKeepsUnique(ds: seq<Delay>)
    requires UniqueIds(ds)
    ensures UniqueIds(CountedDown(ds)) && |CountedDown(ds)| == |ds|
  {
    CountedDownSpec(ds, 0);
  }

  /** Removing a delay drops exactly the descriptors of `id` and keeps the others in order. */
  lemma {:induction false} RemovedIsWithout(ds: seq<Delay>, id: u8)
    requires UniqueIds(ds)
    ensures Removed(ds, id) == Without(ds, id)
  {
    if ds != [] {
      var t := ds[1..];
      PositionCons(ds, id);
      RemovedIsWithout(t, id);
      if ds[0].id == id {
        WithoutAbsent(t, id);
      } else {
        var k := Position(t, id);
        if k >= 0 {
          UnlinkedCons(ds, k);
        }
      }
    }
  }

  /** The list walk looks at the head first, then searches the rest. */
  lemma PositionCons(ds: seq<Delay>, id: u8)
    requires ds != []
    ensures Ids(ds[1..]) == Ids(ds)[1..]
    ensures Distinct(Ids(ds)) ==> Distinct(Ids(ds[1..]))
    ensures Position(ds, id) ==
              if ds[0].id == id then 0 else (var k := Position(ds[1..], id); if k < 0 then -1 else k + 1)
  {
    assert Ids(ds[1..]) == Ids(ds)[1..];
  }

  lemma {:induction false} WithoutAbsent(ds: seq<Delay>, id: u8)
    requires id !in Ids(ds)
    ensures Without(ds, id) == ds
  {
    if ds != [] {
      assert Ids(ds[1..]) == Ids(ds)[1..];
      WithoutAbsent(ds[1..], id);
    }
  }

  /** After a removal `id` reads "not done" and has no descriptor; every other id keeps its own. */
  lemma RemovedSpec(ds: seq<Delay>, id: u8, x: u8)
    requires UniqueIds(ds)
    ensures UniqueIds(Removed(ds, id))
    ensures Lookup(Removed(ds, id), id).None? && !TimedOut(Removed(ds, id), id)
    ensures x != id ==> Lookup(Removed(ds, id), x) == Lookup(ds, x)
    ensures |Removed(ds, id)| == |ds| - (if Lookup(ds, id).Some? then 1 else 0)
  {
    var k := Position(ds, id);
    if k >= 0 {
      var r := Removed(ds, id);
      assert Ids(r) == Unlinked(Ids(ds), k);
      UnlinkedIndexOf(Ids(ds), k, x);
    }
  }

  /** The delay pool: OS_DELAY_POOLSIZE descriptors linked into a free and an active list. */
  class DelayPool {
    /** The descriptors' payloads. */
    var slot: array<Delay>
    /** The descriptors' intrusive `next` links, NIL for NULL. */
    var next: array<int>
    var freeHead: int
    var activeHead: int

    /** The nodes on each list, head first. */
    ghost var freeList: seq<int>
    ghost var activeList: seq<int>
    ghost var Repr: set<object>

    /** The two lists thread the whole pool through `next`. */
    ghost predicate Shape()
      reads this`slot, this`next, this`freeHead, this`activeHead, this`freeList, this`activeList, next
    {
      && slot.Length == DELAY_POOL_SIZE && next.Length == DELAY_POOL_SIZE
      && Linked(next[..], freeHead, freeList)
      && Linked(next[..], activeHead, activeList)
      && Partition(DELAY_POOL_SIZE, freeList, activeList)
    }

    ghost predicate Valid()
      reads this, Repr
    {
      && Repr == {this, slot, next}
      && Shape()
      && UniqueIds(View(slot[..], activeList))
    }

    /** The active descriptors, head first. */
    ghost function Entries(): seq<Delay>
      reads this, Repr
      requires Valid()
    {
      View(slot[..], activeList)
    }

    /** The zero-initialised pool after MicroOS_OSdelay_Init: every node free, linked in
        index order, so the first acquisition takes node 0. */
    constructor ()
      ensures Valid() && fresh(Repr)
      ensures Entries() == [] && freeList == Range(DELAY_POOL_SIZE) && activeList == []
    {
      var links := ThreadedLinks(DELAY_POOL_SIZE);
      next := links;
      slot := new Delay[DELAY_POOL_SIZE](_ => Cleared);
      freeHead := 0;
      activeHead := NIL;
      freeList := Range(DELAY_POOL_SIZE);
      activeList := [];
      Repr := {this, slot, next};
      new;
      assert View(slot[..], activeList) == [];
    }

    /** The walk from the active head to the descriptor of `id`: its node, or NIL, and
        its position in the active list. */
    method Find(id: u8) returns (p: int, ghost k: int)
      requires Valid()
      ensures k == Position(Entries(), id)
      ensures p == At(activeList, k)
      ensures p != NIL ==> 0 <= p < DELAY_POOL_SIZE && slot[p].id == id
    {
      p := activeHead;
      k := 0;
      while p != NIL
        invariant 0 <= k <= |activeList| && p == At(activeList, k)
        invariant forall j | 0 <= j < k :: slot[activeList[j]].id != id
        decreases |activeList| - k
      {
        if slot[p].id == id {
          assert Ids(Entries())[k] == id;
          return;
        }
        p := next[p];
        k := k + 1;
      }
      k := -1;
      assert id !in Ids(Entries());
    }

    /** MicroOS_OSdelay: restart the descriptor of `id` or acquire one from the free list. */
    method Start(id: u8, ticks: u32) returns (st: Status)
      requires Valid()
      modifies Repr
      ensures Valid() && Repr == old(Repr)
      ensures (st, Entries()) == Armed(old(Entries()), id, ticks)
      ensures old(Lookup(Entries(), id)).None? && st == Ok ==>
                freeList == old(freeList[1..]) && activeList == [old(freeList[0])] + old(activeList)
      ensures old(Lookup(Entries(), id)).Some? || st == Busy ==>
                freeList == old(freeList) && activeList == old(activeList)
    {
      var p, k := Find(id);
      if p != NIL {
        Rewrite(k, p, slot[p].(ms := ticks, timedOut := false));
        return Ok;
      }
      if freeHead == NIL {
        return Busy;
      }
      var node := Claim(Delay(id, ticks, false));
      return Ok;
    }

    /** Overwrite the descriptor at position `k` of the active list, keeping its id. */
    method Rewrite(ghost k: int, p: int, d: Delay)
      requires Valid() && 0 <= k < |activeList| && p == activeList[k]
      requires d.id == slot[p].id
      modifies slot
      ensures Valid()
      ensures Entries() == old(Entries())[k := d]
    {
      ghost var E := Entries();
      LookupAfterWrite(E, k, d, d.id);
      ViewUpdate(slot[..], activeList, k, d);
      slot[p] := d;
    }

    /** Take the free head and make it the active head holding `d`. Every field of the
        descriptor is written, so the node's old contents do not matter. */
    method Claim(d: Delay) returns (node: int)
      requires Valid() && freeHead != NIL && d.id !in Ids(Entries())
      modifies slot, next, this`freeHead, this`activeHead, this`freeList, this`activeList
      ensures Valid()
      ensures Entries() == [d] + old(Entries())
      ensures node == old(freeList[0]) && freeList == old(freeList[1..]) && activeList == [node] + old(activeList)
    {
      ghost var E := Entries();
      LookupAfterPush(E, d, d.id);
      ghost var S, L := slot[..], activeList;
      node := TakeFree();
      assert node !in L;
      ViewPush(S, L, node, d);
      slot[node] := d;
    }

    /** MicroOS_OSdelayDone: read the timed-out flag of `id`'s descriptor; changes nothing. */
    method IsDone(id: u8) returns (done: bool)
      requires Valid()
      ensures done == TimedOut(Entries(), id)
    {
      var p, k := Find(id);
      done := p != NIL && slot[p].timedOut;
    }

    /** MicroOS_OSdelay_Tick: walk the active list and count every descriptor down once. */
    method Tick()
      requires Valid()
      modifies Repr
      ensures Valid() && Repr == old(Repr)
      ensures Entries() == CountedDown(old(Entries()))
      ensures freeList == old(freeList) && activeList == old(activeList)
    {
      CountedDownKeepsUnique(Entries());
      TickWalk();
    }

    /** The walk itself: only payloads change. */
    method TickWalk()
      requires Shape()
      modifies slot
      ensures View(slot[..], activeList) == CountedDown(old(View(slot[..], activeList)))
    {
      ghost var E := View(slot[..], activeList);
      var p := activeHead;
      ghost var k := 0;
      while p != NIL
        invariant 0 <= k <= |activeList| && p == At(activeList, k)
        invariant View(slot[..], activeList) == CountedDown(E[..k]) + E[k..]
        decreases |activeList| - k
      {
        CountedDownStep(E, k);
        var d := slot[p];
        assert d == View(slot[..], activeList)[k] == E[k];
        if d.ms > 0 {
          d := d.(ms := d.ms - 1);
          if d.ms == 0 {
            d := d.(timedOut := true);
          }
        }
        ViewUpdate(slot[..], activeList, k, d);
        slot[p] := d;
        p := next[p];
        k := k + 1;
      }
      assert k == |E| && E[..k] == E && E[k..] == [];
    }

    /** MicroOS_OSdelay_Remove: unlink `id`'s descriptor, clear it and push it onto the
        free list; nothing happens when `id` has none. */
    method Remove(id: u8)
      requires Valid()
      modifies Repr
      ensures Valid() && Repr == old(Repr)
      ensures Entries() == Removed(old(Entries()), id)
      ensures var k := Position(old(Entries()), id);
              if k < 0 then freeList == old(freeList) && activeList == old(activeList)
              else && activeList == Unlinked(old(activeList), k)
                   && freeList == [old(activeList)[k]] + old(freeList)
                   && slot[old(activeList)[k]] == Cleared
    {
      ghost var E := Entries();
      var prev := NIL;
      var p := activeHead;
      ghost var k := 0;
      while p != NIL
        invariant 0 <= k <= |activeList| && p == At(activeList, k) && prev == At(activeList, k - 1)
        invariant forall j | 0 <= j < k :: slot[activeList[j]].id != id
        decreases |activeList| - k
      {
        if slot[p].id == id {
          assert Ids(E)[k] == id;
          assert Position(E, id) == k;
          UnlinkAt(k, prev, p);
          return;
        }
        prev := p;
        p := next[p];
        k := k + 1;
      }
      assert id !in Ids(E);
    }

    /** Unlink the active node `p` at position `k`, whose predecessor is `prev`: the active
        head or the predecessor's link skips it, it is cleared and pushed onto the free list. */
    method UnlinkAt(ghost k: int, prev: int, p: int)
      requires Valid() && 0 <= k < |activeList| && p == activeList[k] && prev == At(activeList, k - 1)
      modifies slot, next, this`freeHead, this`activeHead, this`freeList, this`activeList
      ensures Valid()
      ensures Entries() == Unlinked(old(Entries()), k)
      ensures activeList == Unlinked(old(activeList), k) && freeList == [p] + old(freeList)
      ensures slot[p] == Cleared
    {
      ghost var E := Entries();
      assert Ids(Unlinked(E, k)) == Unlinked(Ids(E), k);
      UnlinkedIndexOf(Ids(E), k, 0);
      ViewUnlink(slot[..], activeList, k, Cleared);
      Splice(k, prev, p);
      slot[p] := Cleared;
    }

    /** Pop the free head and push it onto the active head; slot contents are untouched. */
    method TakeFree() returns (node: int)
      requires Shape() && freeHead != NIL
      modifies next, this`freeHead, this`activeHead, this`freeList, this`activeList
      ensures Shape()
      ensures node == old(freeList[0]) && freeList == old(freeList[1..]) && activeList == [node] + old(activeList)
    {
      node := freeHead;
      Acquire(next[..], freeList, activeHead, activeList);
      freeHead := next[node];
      next[node] := activeHead;
      activeHead := node;
      freeList := freeList[1..];
      activeList := [node] + activeList;
    }

    /** Unlink the active node `p` at position `k`, whose predecessor is `prev` (NIL at the
        head), and push it onto the free head; slot contents are untouched. */
    method Splice(ghost k: int, prev: int, p: int)
      requires Shape() && 0 <= k < |activeList| && p == activeList[k] && prev == At(activeList, k - 1)
      modifies next, this`freeHead, this`activeHead, this`freeList, this`activeList
      ensures Shape()
      ensures activeList == Unlinked(old(activeList), k) && freeList == [p] + old(freeList)
    {
      Release(next[..], freeHead, freeList, activeHead, activeList, k);
      var succ := next[p];
      if prev == NIL {
        activeHead := succ;
      } else {
        next[prev] := succ;
      }
      next[p] := freeHead;
      freeHead := p;
      freeList := [p] + freeList;
      activeList := Unlinked(activeList, k);
    }
  }
}
