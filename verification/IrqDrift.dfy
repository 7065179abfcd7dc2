/**
 kern/irq.c as written: kern/irq.c:103 and kern/irq.c:157 step `allocated`, the modulus of every
 search, while the block of entries keeps its size, and `used` stays 0.  This module works out
 what that does to runs of registrations and removals.
 */
module IrqDrift {
  import opened IrqTable

  /** The block, and the number of slots it is believed to have. */
  datatype AsWritten = AsWritten(entries: seq<Entry>, capacity: nat)

  const BLOCK := 8
  const INITIAL := AsWritten([EMPTY, EMPTY, EMPTY, EMPTY, EMPTY, EMPTY, EMPTY, EMPTY], BLOCK)

  datatype Search = Found(slot: nat) | Absent | OutOfBounds(slot: nat)

  function Next(idx: nat, capacity: nat): nat
    requires capacity > 0
  {
    (idx + 1) % capacity
  }

  /** The loop of irq_fire and irq_unregister, at its i-th round. */
  function Probe(t: seq<Entry>, capacity: nat, id: nat, idx: nat, i: nat): (r: Search)
    requires capacity > 0
    ensures r.Found? ==> r.slot < |t| && t[r.slot].id == id
    decreases capacity - i
  {
    if i >= capacity then Absent
    else if idx >= |t| then OutOfBounds(idx)
    else if t[idx].id == id then Found(idx)
    else if t[idx].id == IRQ_NULL then Absent
    else Probe(t, capacity, id, Next(idx, capacity), i + 1)
  }

  function Look(s: AsWritten, id: nat): Search
    requires s.capacity > 0
  {
    Probe(s.entries, s.capacity, id, id % s.capacity, 0)
  }

  datatype Place = Free(slot: nat) | Full | Outside(slot: nat)

  /** The loop of irq_register, at its i-th round. */
  function FreeFrom(t: seq<Entry>, capacity: nat, idx: nat, i: nat): (r: Place)
    requires capacity > 0
    ensures r.Free? ==> r.slot < |t| && !IsLive(t[r.slot])
    decreases capacity - i
  {
    if i >= capacity then Full
    else if idx >= |t| then Outside(idx)
    else if t[idx].id == IRQ_NULL || t[idx].id == IRQ_TOMBSTONE then Free(idx)
    else FreeFrom(t, capacity, Next(idx, capacity), i + 1)
  }

  /** How a call ends: it returns, panics, comes to irq_rehash, leaves the block, or divides
      by an `allocated` of 0. */
  datatype Effect = Returns | Panics | Rehashes | Leaves(slot: nat) | DividesByZero

  /** irq_register: with `used` at 0 its load test asks whether `allocated` is at most 2. */
  function RegisterEffect(s: AsWritten, id: nat, fn: nat, userdata: nat): (AsWritten, Effect) {
    if fn == NULL || id == IRQ_NULL || id == IRQ_TOMBSTONE then (s, Panics)
    else if 2 >= s.capacity then (s, Rehashes)
    else
      match FreeFrom(s.entries, s.capacity, id % s.capacity, 0)
      case Free(p) => (AsWritten(s.entries[p := Entry(id, fn, userdata)], s.capacity + 1), Returns)
      case Full => (s, Panics)
      case Outside(p) => (s, Leaves(p))
  }

  /** irq_unregister. */
  function UnregisterEffect(s: AsWritten, id: nat): (AsWritten, Effect) {
    if s.capacity == 0 then (s, DividesByZero)
    else
      match Look(s, id)
      case Found(p) => (AsWritten(s.entries[p := DELETED], s.capacity - 1), Returns)
      case Absent => (s, Returns)
      case OutOfBounds(p) => (s, Leaves(p))
  }

  /** The code, with its loops; an access outside the block ends it. */
  class Written {
    const entries: array<Entry>
    var capacity: nat
    var used: nat

    function View(): AsWritten
      reads this`capacity, entries
    {
      AsWritten(entries[..], capacity)
    }

    constructor ()
      ensures View() == INITIAL && used == 0 && fresh(entries)
    {
      capacity, used := BLOCK, 0;
      entries := new Entry[BLOCK](_ => EMPTY);
    }

    method Register(id: nat, fn: nat, userdata: nat) returns (r: Effect)
      requires used == 0
      modifies this`capacity, entries
      ensures (View(), r) == RegisterEffect(old(View()), id, fn, userdata)
    {
      if fn == NULL || id == IRQ_NULL || id == IRQ_TOMBSTONE {
        return Panics;
      }
      if (used + 1) * 2 >= capacity {
        return Rehashes;
      }
      hide Next;
      var idx: nat, i: nat := id % capacity, 0;
      while i < capacity
        invariant View() == old(View()) && i <= capacity
        invariant FreeFrom(entries[..], capacity, id % capacity, 0) == FreeFrom(entries[..], capacity, idx, i)
      {
        if idx >= entries.Length {
          return Leaves(idx);
        }
        if entries[idx].id == IRQ_NULL || entries[idx].id == IRQ_TOMBSTONE {
          entries[idx] := Entry(id, fn, userdata);
          capacity := capacity + 1;
          return Returns;
        }
        idx, i := Next(idx, capacity), i + 1;
      }
      r := Panics;
    }

    /** irq_fire up to the call of the callback. */
    method Search(id: nat) returns (r: Search)
      requires capacity > 0
      ensures r == Look(View(), id)
    {
      hide Next;
      var idx: nat, i: nat := id % capacity, 0;
      while i < capacity
        invariant i <= capacity
        invariant Look(View(), id) == Probe(entries[..], capacity, id, idx, i)
      {
        if idx >= entries.Length {
          return OutOfBounds(idx);
        }
        if entries[idx].id == id {
          return Found(idx);
        }
        if entries[idx].id == IRQ_NULL {
          return Absent;
        }
        idx, i := Next(idx, capacity), i + 1;
      }
      r := Absent;
    }

    method Unregister(id: nat) returns (r: Effect)
      modifies this`capacity, entries
      ensures (View(), r) == UnregisterEffect(old(View()), id)
    {
      if capacity == 0 {
        return DividesByZero;
      }
      hide Next;
      var idx: nat, i: nat := id % capacity, 0;
      while i < capacity
        invariant View() == old(View()) && i <= capacity
        invariant Look(View(), id) == Probe(entries[..], capacity, id, idx, i)
      {
        if idx >= entries.Length {
          return Leaves(idx);
        }
        if entries[idx].id == id {
          entries[idx] := DELETED;
          capacity := capacity - 1;
          return Returns;
        }
        if entries[idx].id == IRQ_NULL {
          return Returns;
        }
        idx, i := Next(idx, capacity), i + 1;
      }
      r := Returns;
    }
  }

  // ----- runs ------------------------------------------------------------------------------

  datatype Reached = At(s: AsWritten) | Stopped(effect: Effect)

  function Effects(s: AsWritten, op: Op): (AsWritten, Effect) {
    match op
    case Register(id, fn, userdata) => RegisterEffect(s, id, fn, userdata)
    case Unregister(id) => UnregisterEffect(s, id)
  }

  /** The table after irq_init and these calls, or what became of the first that failed. */
  function Reach(ops: seq<Op>): Reached {
    if ops == [] then At(INITIAL)
    else
      match Reach(ops[..|ops| - 1])
      case Stopped(e) => Stopped(e)
      case At(s) =>
        var (s', e) := Effects(s, ops[|ops| - 1]);
        if e == Returns then At(s') else Stopped(e)
  }

  lemma ReachNone()
    ensures Reach([]) == At(INITIAL)
  {
  }

  lemma ReachLast(ops: seq<Op>, op: Op)
    ensures Reach(ops + [op]) ==
            match Reach(ops)
            case Stopped(e) => Stopped(e)
            case At(s) => var (s', e) := Effects(s, op); if e == Returns then At(s') else Stopped(e)
  {
    assert (ops + [op])[..|ops|] == ops;
  }

  /** The methods follow the functions through a whole run. */
  method RunWritten(ops: seq<Op>) returns (w: Written, effect: Effect)
    ensures Reach(ops) == if effect == Returns then At(w.View()) else Stopped(effect)
  {
    hide RegisterEffect, UnregisterEffect, Reach;
    w := new Written();
    ReachNone();
    effect := Returns;
    var k := 0;
    while k < |ops|
      invariant k <= |ops| && fresh(w) && fresh(w.entries) && w.used == 0
      invariant effect == Returns && Reach(ops[..k]) == At(w.View())
    {
      assert ops[..k + 1] == ops[..k] + [ops[k]];
      ReachLast(ops[..k], ops[k]);
      match ops[k] {
        case Register(id, fn, userdata) => effect := w.Register(id, fn, userdata);
        case Unregister(id) => effect := w.Unregister(id);
      }
      if effect != Returns {
        StopsForGood(ops, k + 1, effect);
        return;
      }
      k := k + 1;
    }
    assert ops[..|ops|] == ops;
  }

  lemma {:induction false} StopsForGood(ops: seq<Op>, k: nat, e: Effect)
    requires k <= |ops| && Reach(ops[..k]) == Stopped(e)
    ensures Reach(ops) == Stopped(e)
    decreases |ops| - k
  {
    if k < |ops| {
      assert ops[..k + 1][..k] == ops[..k];
      StopsForGood(ops, k + 1, e);
    } else {
      assert ops[..k] == ops;
    }
  }

  predicate RealIds(ops: seq<Op>) {
    forall k :: 0 <= k < |ops| ==> ops[k].id > IRQ_TOMBSTONE
  }

  /** Whatever ids are registered and removed: `allocated` is 8 plus the number of entries, so
      the load test never asks for a rehash, and the block never grows. */
  lemma {:induction false} NeverRehashes(ops: seq<Op>)
    requires RealIds(ops)
    ensures match Reach(ops)
            case At(s) => |s.entries| == BLOCK && s.capacity == BLOCK + |LiveSlots(s.entries)|
            case Stopped(e) => e != Rehashes && e != DividesByZero
  {
    if ops == [] {
      assert LiveSlots(INITIAL.entries) == {};
    } else {
      var n := |ops| - 1;
      NeverRehashes(ops[..n]);
      if Reach(ops[..n]).At? {
        EffectCounts(Reach(ops[..n]).s, ops[n]);
      }
    }
  }

  lemma EffectCounts(s: AsWritten, op: Op)
    requires op.id > IRQ_TOMBSTONE && |s.entries| == BLOCK && s.capacity == BLOCK + |LiveSlots(s.entries)|
    ensures var (s', e) := Effects(s, op);
            e != Rehashes && e != DividesByZero
            && |s'.entries| == BLOCK && s'.capacity == BLOCK + |LiveSlots(s'.entries)|
  {
    hide FreeFrom, Probe;
    match op
    case Register(id, fn, userdata) =>
      var place := FreeFrom(s.entries, s.capacity, id % s.capacity, 0);
      if place.Free? {
        FilledCounts(s.entries, place.slot, Entry(id, fn, userdata));
      }
    case Unregister(id) =>
      var found := Look(s, id);
      if found.Found? {
        FreedCounts(s.entries, found.slot);
      }
  }

  lemma FilledCounts(t: seq<Entry>, p: nat, e: Entry)
    requires p < |t| && !IsLive(t[p]) && IsLive(e)
    ensures |LiveSlots(t[p := e])| == |LiveSlots(t)| + 1
  {
    assert LiveSlots(t[p := e]) == LiveSlots(t) + {p};
  }

  lemma FreedCounts(t: seq<Entry>, p: nat)
    requires p < |t| && IsLive(t[p])
    ensures |LiveSlots(t[p := DELETED])| == |LiveSlots(t)| - 1
  {
    assert LiveSlots(t[p := DELETED]) == LiveSlots(t) - {p};
  }

  // ----- any ids: where a search ends ------------------------------------------------------

  /** No slot from `from` up to p holds the id or a NULL. */
  predicate Clear(t: seq<Entry>, id: nat, from: nat, p: nat)
    requires p <= |t|
  {
    forall q :: from <= q < p ==> t[q].id != id && t[q].id != IRQ_NULL
  }

  /** With `allocated` larger than the block, a search goes up from its slot and never wraps. */
  lemma {:induction false} ProbeUp(t: seq<Entry>, capacity: nat, id: nat, idx: nat, i: nat)
    requires |t| == BLOCK < capacity && idx <= BLOCK && i + BLOCK - idx < capacity
    ensures match Probe(t, capacity, id, idx, i)
            case Found(p) => idx <= p < BLOCK && t[p].id == id && Clear(t, id, idx, p)
            case Absent => exists p :: idx <= p < BLOCK && t[p].id == IRQ_NULL && t[p].id != id && Clear(t, id, idx, p)
            case OutOfBounds(p) => p == BLOCK && Clear(t, id, idx, BLOCK)
    decreases BLOCK - idx
  {
    hide Next;
    if idx < BLOCK {
      NextIndex(capacity, idx);
      if t[idx].id != id && t[idx].id != IRQ_NULL {
        ProbeUp(t, capacity, id, idx + 1, i + 1);
      } else {
        assert Clear(t, id, idx, idx);
      }
    }
  }

  /** An entry of the id lies at or above the home slot with no NULL before it. */
  ghost predicate InReach(s: AsWritten, id: nat)
    requires s.capacity > 0
  {
    exists p :: id % s.capacity <= p < |s.entries| && s.entries[p].id == id
                && forall q :: id % s.capacity <= q < p ==> s.entries[q].id != IRQ_NULL
  }

  /** A NULL lies at or above the home slot. */
  ghost predicate NullAbove(s: AsWritten, id: nat)
    requires s.capacity > 0
  {
    exists p :: id % s.capacity <= p < |s.entries| && s.entries[p].id == IRQ_NULL
  }

  /** This slot is the first at or above the home slot that holds the id, and no NULL comes before. */
  predicate FirstAbove(s: AsWritten, id: nat, p: nat)
    requires s.capacity > 0
  {
    && id % s.capacity <= p < |s.entries| && s.entries[p].id == id
    && forall q :: id % s.capacity <= q < p ==> s.entries[q].id != id && s.entries[q].id != IRQ_NULL
  }

  ghost predicate HeldAbove(s: AsWritten, id: nat)
    requires s.capacity > 0
  {
    exists p :: id % s.capacity <= p < |s.entries| && s.entries[p].id == id
  }

  /** Any table that has an entry, any id: the search finds the id exactly if an entry of it is
      in reach, and leaves the block exactly if its home slot is outside or neither the id nor a
      NULL lies above it. */
  lemma LookIff(s: AsWritten, id: nat)
    requires |s.entries| == BLOCK < s.capacity && id > IRQ_TOMBSTONE
    ensures Look(s, id).Found? <==> InReach(s, id)
    ensures Look(s, id).OutOfBounds? <==> id % s.capacity >= BLOCK || (!HeldAbove(s, id) && !NullAbove(s, id))
    ensures Look(s, id).Absent? <==> NullAbove(s, id) && !InReach(s, id)
    ensures Look(s, id).Found? ==> FirstAbove(s, id, Look(s, id).slot)
    ensures Look(s, id).OutOfBounds? ==> Look(s, id).slot == if id % s.capacity < BLOCK then BLOCK else id % s.capacity
  {
    var h := id % s.capacity;
    if h >= BLOCK {
      ProbeOutside(s.entries, s.capacity, id, h, 0);
    } else {
      ProbeUp(s.entries, s.capacity, id, h, 0);
    }
    hide Probe;
  }

  /** Without entries `allocated` is 8: a search goes round, and finds nothing. */
  lemma {:induction false} EmptyProbe(t: seq<Entry>, id: nat, idx: nat, i: nat)
    requires |t| == BLOCK && idx < BLOCK && forall p :: 0 <= p < BLOCK ==> t[p].id != id
    ensures Probe(t, BLOCK, id, idx, i) == Absent
    decreases BLOCK - i
  {
    if i < BLOCK {
      EmptyProbe(t, id, Next(idx, BLOCK), i + 1);
    }
  }

  lemma {:induction false} PlaceUp(t: seq<Entry>, capacity: nat, idx: nat, i: nat)
    requires |t| == BLOCK < capacity && idx <= BLOCK && i + BLOCK - idx < capacity
    ensures match FreeFrom(t, capacity, idx, i)
            case Free(p) => idx <= p < BLOCK && forall q :: idx <= q < p ==> IsLive(t[q])
            case Full => false
            case Outside(p) => p == BLOCK && forall q :: idx <= q < BLOCK ==> IsLive(t[q])
    decreases BLOCK - idx
  {
    hide Next;
    if idx < BLOCK {
      NextIndex(capacity, idx);
      if IsLive(t[idx]) {
        PlaceUp(t, capacity, idx + 1, i + 1);
      }
    }
  }

  /** A registration succeeds exactly if its home slot is in the block and a slot at or above it
      is free, and then fills the first such slot and steps `allocated`; otherwise it is written
      past the block. */
  lemma RegisterIff(s: AsWritten, id: nat, fn: nat, userdata: nat)
    requires |s.entries| == BLOCK && s.capacity == BLOCK + |LiveSlots(s.entries)| && id > IRQ_TOMBSTONE && fn != NULL
    ensures var h := id % s.capacity; var e := RegisterEffect(s, id, fn, userdata).1;
            (e == Returns <==> exists p :: h <= p < BLOCK && !IsLive(s.entries[p]))
            && (e != Returns ==> e == Leaves(if h < BLOCK then BLOCK else h))
    ensures var h := id % s.capacity;
            forall p :: h <= p < BLOCK && !IsLive(s.entries[p]) && (forall q :: h <= q < p ==> IsLive(s.entries[q])) ==>
              RegisterEffect(s, id, fn, userdata).0
              == AsWritten(s.entries[p := Entry(id, fn, userdata)], s.capacity + 1)
  {
    var h := id % s.capacity;
    if s.capacity == BLOCK {
      NoneLive(s.entries);
      assert h < BLOCK && !IsLive(s.entries[h]);
    } else if h < BLOCK {
      PlaceUp(s.entries, s.capacity, h, 0);
    }
  }

  /** A removal puts a tombstone over the entry its search finds and steps `allocated` back; it
      changes nothing if the search finds none. */
  lemma UnregisterIff(s: AsWritten, id: nat)
    requires |s.entries| == BLOCK < s.capacity && id > IRQ_TOMBSTONE
    ensures forall p: nat :: FirstAbove(s, id, p) ==>
              UnregisterEffect(s, id) == (AsWritten(s.entries[p := Entry(1, 0, 0)], s.capacity - 1), Returns)
    ensures !InReach(s, id) ==>
              UnregisterEffect(s, id) ==
              (s, if NullAbove(s, id) then Returns
                  else Leaves(if id % s.capacity < BLOCK then BLOCK else id % s.capacity))
  {
    hide Look;
    LookIff(s, id);
    forall p: nat | FirstAbove(s, id, p) ensures InReach(s, id) && Look(s, id) == Found(p) {
      assert InReach(s, id);
      assert FirstAbove(s, id, Look(s, id).slot);
    }
  }

  lemma NoneLive(t: seq<Entry>)
    requires |LiveSlots(t)| == 0
    ensures forall p :: 0 <= p < |t| ==> !IsLive(t[p])
  {
    forall p: nat | p < |t| ensures !IsLive(t[p]) {
      assert p !in LiveSlots(t);
    }
  }

  // ----- any ids: runs ---------------------------------------------------------------------

  /** The k-th call removes a registered id and does not find it. */
  ghost predicate Misses(ops: seq<Op>, k: nat) {
    && k < |ops| && ops[k].Unregister? && ops[k].id in Meaning(ops[..k])
    && Reach(ops[..k]).At? && Reach(ops[..k]).s.capacity > 0 && !Look(Reach(ops[..k]).s, ops[k].id).Found?
  }

  /** Every removal of a registered id finds it. */
  ghost predicate RemovalsFound(ops: seq<Op>) {
    forall k: nat :: !Misses(ops, k)
  }

  /** After each call the live entries of the table are what has been registered. */
  ghost predicate TableStands(ops: seq<Op>) {
    forall k {:trigger ops[..k]} :: 0 <= k <= |ops| && Reach(ops[..k]).At? ==>
      Represents(Reach(ops[..k]).s.entries, Meaning(ops[..k]))
  }

  lemma EffectRepresents(s: AsWritten, m: map<nat, Callback>, op: Op)
    requires |s.entries| == BLOCK && s.capacity >= BLOCK && Represents(s.entries, m)
    requires op.id > IRQ_TOMBSTONE && (op.Register? ==> op.id !in m)
    requires Effects(s, op).1 == Returns
    ensures var m' := match op
                      case Register(id, fn, userdata) => m[id := Callback(fn, userdata)]
                      case Unregister(id) => m - {id};
            Represents(Effects(s, op).0.entries, m') <==>
            (op.Unregister? && op.id in m ==> Look(s, op.id).Found?)
  {
    hide Probe, FreeFrom;
    match op
    case Register(id, fn, userdata) =>
      var place := FreeFrom(s.entries, s.capacity, id % s.capacity, 0);
      PutRepresents(s.entries, m, place.slot, Entry(id, fn, userdata));
    case Unregister(id) =>
      var found := Look(s, id);
      if found.Found? {
        DeleteRepresents(s.entries, m, found.slot);
      } else if id in m {
        StillThere(s.entries, m, id);
      } else {
        assert m - {id} == m;
      }
  }

  lemma StillThere(t: seq<Entry>, m: map<nat, Callback>, id: nat)
    requires Represents(t, m) && id in m
    ensures !Represents(t, m - {id})
  {
    var p :| Holds(t, p, id);
  }

  lemma ReachPrefix(ops: seq<Op>, k: nat)
    requires Reach(ops).At? && k <= |ops|
    ensures Reach(ops[..k]).At?
  {
    if Reach(ops[..k]).Stopped? {
      StopsForGood(ops, k, Reach(ops[..k]).effect);
    }
  }

  lemma RealPrefix(ops: seq<Op>, k: nat)
    requires Allowed(ops) && k <= |ops|
    ensures Allowed(ops[..k]) && RealIds(ops[..k])
  {
    assert forall j :: 0 <= j < k ==> ops[..k][j] == ops[j] && ops[..k][..j] == ops[..j];
  }

  lemma IsReal(ops: seq<Op>, k: nat)
    requires Allowed(ops) && k < |ops|
    ensures ops[k].id > IRQ_TOMBSTONE && (ops[k].Register? ==> ops[k].id !in Meaning(ops[..k]))
  {
  }

  /** The next call of a run that goes on. */
  lemma NextCall(ops: seq<Op>, k: nat)
    requires Allowed(ops) && Reach(ops).At? && k < |ops|
    ensures Reach(ops[..k]).At? && Reach(ops[..k + 1]).At?
    ensures var s := Reach(ops[..k]).s;
            |s.entries| == BLOCK && s.capacity == BLOCK + |LiveSlots(s.entries)|
            && Effects(s, ops[k]) == (Reach(ops[..k + 1]).s, Returns)
            && (Represents(s.entries, Meaning(ops[..k])) ==>
                  (Represents(Reach(ops[..k + 1]).s.entries, Meaning(ops[..k + 1])) <==> !Misses(ops, k)))
  {
    hide Effects, Reach, Represents, Look, Allowed;
    IsReal(ops, k);
    ReachPrefix(ops, k);
    ReachPrefix(ops, k + 1);
    RealPrefix(ops, k);
    NeverRehashes(ops[..k]);
    assert ops[..k + 1] == ops[..k] + [ops[k]];
    ReachLast(ops[..k], ops[k]);
    assert ops[..k + 1][..k] == ops[..k];
    if Represents(Reach(ops[..k]).s.entries, Meaning(ops[..k])) {
      EffectRepresents(Reach(ops[..k]).s, Meaning(ops[..k]), ops[k]);
    }
  }

  /** Whatever real ids: while every removal finds its entry, the live entries of the table are
      exactly what has been registered. */
  lemma {:induction false} EntriesStand(ops: seq<Op>, k: nat)
    requires Allowed(ops) && Reach(ops).At? && k <= |ops| && RemovalsFound(ops)
    ensures Reach(ops[..k]).At? && Represents(Reach(ops[..k]).s.entries, Meaning(ops[..k]))
  {
    hide Reach, Represents, Misses, Allowed;
    if k == 0 {
      NothingStands();
      assert ops[..0] == [];
    } else {
      EntriesStand(ops, k - 1);
      NextCall(ops, k - 1);
    }
  }

  lemma NothingStands()
    ensures Reach([]).At? && Represents(Reach([]).s.entries, Meaning([]))
  {
  }

  /** ... and not any longer. */
  lemma StandsIff(ops: seq<Op>)
    requires Allowed(ops) && Reach(ops).At?
    ensures TableStands(ops) <==> RemovalsFound(ops)
  {
    hide Reach, Represents, Allowed;
    if RemovalsFound(ops) {
      forall k {:trigger ops[..k]} | 0 <= k <= |ops| && Reach(ops[..k]).At?
        ensures Represents(Reach(ops[..k]).s.entries, Meaning(ops[..k]))
      {
        EntriesStand(ops, k);
      }
    }
    forall k: nat | Misses(ops, k) ensures !TableStands(ops) {
      NextCall(ops, k);
    }
  }

  /** In a run without misses so far, a registered id is missed exactly if it is not in reach. */
  lemma MissesIff(ops: seq<Op>, k: nat)
    requires Allowed(ops) && k < |ops| && Reach(ops[..k]).At? && RemovalsFound(ops[..k])
    requires ops[k].Unregister? && ops[k].id in Meaning(ops[..k])
    ensures Reach(ops[..k]).s.capacity > 0 && (Misses(ops, k) <==> !InReach(Reach(ops[..k]).s, ops[k].id))
  {
    hide Reach, Represents, Allowed, Look, InReach, Meaning;
    RealPrefix(ops, k);
    IsReal(ops, k);
    assert ops[..k][..k] == ops[..k];
    EntriesStand(ops[..k], k);
    NeverRehashes(ops[..k]);
    LiveSlotOf(Reach(ops[..k]).s.entries, Meaning(ops[..k]), ops[k].id);
    LookIff(Reach(ops[..k]).s, ops[k].id);
  }

  lemma LiveSlotOf(t: seq<Entry>, m: map<nat, Callback>, id: nat)
    requires Represents(t, m) && id in m
    ensures |LiveSlots(t)| > 0
  {
    var p :| Holds(t, p, id);
    assert p in LiveSlots(t);
  }

  lemma RegistrationsOnly(ops: seq<Op>)
    requires forall k :: 0 <= k < |ops| ==> ops[k].Register?
    ensures RemovalsFound(ops)
  {
  }

  /** What a search should say. */
  ghost predicate Agrees(s: AsWritten, m: map<nat, Callback>, id: nat)
    requires s.capacity > 0
  {
    match Look(s, id)
    case Found(p) => p < |s.entries| && id in m && m[id] == Callback(s.entries[p].fn, s.entries[p].userdata)
    case Absent => id !in m
    case OutOfBounds(_) => false
  }

  /** What the table says about an id, before it is searched for: nothing is registered, or its
      home slot is in the block, and a registered id is in reach, or an absent one has a NULL
      above. */
  ghost predicate Answers(s: AsWritten, m: map<nat, Callback>, id: nat)
    requires s.capacity > 0
  {
    m == map[] || (id % s.capacity < BLOCK && if id in m then InReach(s, id) else NullAbove(s, id))
  }

  /** After any run in which every removal found its entry, a search for any real id agrees with
      what has been registered exactly then. */
  lemma AgreesIff(ops: seq<Op>, id: nat)
    requires Allowed(ops) && Reach(ops).At? && RemovalsFound(ops) && id > IRQ_TOMBSTONE
    ensures var s := Reach(ops).s;
            s.capacity > 0 && (Agrees(s, Meaning(ops), id) <==> Answers(s, Meaning(ops), id))
  {
    hide Reach, Represents, Misses, Allowed, Agrees, Answers;
    assert ops[..|ops|] == ops;
    EntriesStand(ops, |ops|);
    RealPrefix(ops, |ops|);
    NeverRehashes(ops);
    AgreesOnTable(Reach(ops).s, Meaning(ops), id);
  }

  lemma AgreesOnTable(s: AsWritten, m: map<nat, Callback>, id: nat)
    requires |s.entries| == BLOCK && s.capacity == BLOCK + |LiveSlots(s.entries)| && Represents(s.entries, m)
    requires id > IRQ_TOMBSTONE
    ensures Agrees(s, m, id) <==> Answers(s, m, id)
  {
    hide Look;
    if s.capacity == BLOCK {
      NoneLive(s.entries);
      NoEntriesNoMap(s.entries, m);
      EmptyLook(s, id);
    } else {
      SomeEntrySomeMap(s.entries, m);
      LookIff(s, id);
      IdsOf(s.entries, m, id);
      SlotOf(s, id);
    }
    hide Represents, LiveSlots;
  }

  lemma NoEntriesNoMap(t: seq<Entry>, m: map<nat, Callback>)
    requires Represents(t, m) && forall p :: 0 <= p < |t| ==> !IsLive(t[p])
    ensures m == map[]
  {
    assert forall id :: id in m ==> exists p :: Holds(t, p, id);
  }

  lemma SomeEntrySomeMap(t: seq<Entry>, m: map<nat, Callback>)
    requires Represents(t, m) && LiveSlots(t) != {}
    ensures m != map[]
  {
    var p :| p in LiveSlots(t);
    assert t[p].id in m;
  }

  lemma IdsOf(t: seq<Entry>, m: map<nat, Callback>, id: nat)
    requires Represents(t, m) && id > IRQ_TOMBSTONE
    ensures forall p :: 0 <= p < |t| && t[p].id == id ==> id in m && m[id] == Callback(t[p].fn, t[p].userdata)
  {
  }

  lemma SlotOf(s: AsWritten, id: nat)
    requires s.capacity > 0
    ensures Look(s, id).Found? ==> Look(s, id).slot < |s.entries| && s.entries[Look(s, id).slot].id == id
  {
  }

  lemma EmptyLook(s: AsWritten, id: nat)
    requires |s.entries| == BLOCK == s.capacity && id > IRQ_TOMBSTONE
    requires forall p :: 0 <= p < BLOCK ==> !IsLive(s.entries[p])
    ensures Look(s, id) == Absent
  {
    EmptyProbe(s.entries, id, id % s.capacity, 0);
  }

  // ----- ids that are slots of the block ---------------------------------------------------

  predicate IsSmall(id: nat) { IRQ_TOMBSTONE < id < BLOCK }

  predicate SmallIds(ops: seq<Op>) {
    forall k :: 0 <= k < |ops| ==> IsSmall(ops[k].id)
  }

  /** Every registered id is in the slot of its own number, which no drift can move. */
  ghost predicate InPlace(s: AsWritten, m: map<nat, Callback>) {
    && |s.entries| == BLOCK && s.capacity == BLOCK + |m| && (forall id :: id in m ==> IsSmall(id))
    && s.entries[0].id == IRQ_NULL && s.entries[1].id == IRQ_NULL
    && forall p :: 2 <= p < BLOCK ==>
         if p in m then s.entries[p] == Entry(p, m[p].fn, m[p].userdata)
         else s.entries[p].id == IRQ_NULL || s.entries[p].id == IRQ_TOMBSTONE
  }

  /** A search for the id reads past the block: its slot is a tombstone, no NULL slot follows,
      and some entry makes `allocated` larger than the block. */
  predicate LeavesBlock(s: AsWritten, id: nat)
    requires |s.entries| == BLOCK
  {
    && s.capacity > BLOCK && id < BLOCK && s.entries[id].id == IRQ_TOMBSTONE
    && NoNullFrom(s.entries, id)
  }

  predicate NoNullFrom(t: seq<Entry>, idx: nat)
    requires |t| == BLOCK
  {
    forall p :: idx <= p < BLOCK ==> t[p].id != IRQ_NULL
  }

  lemma NoNullStep(t: seq<Entry>, idx: nat)
    requires |t| == BLOCK && idx < BLOCK
    ensures NoNullFrom(t, idx) <==> t[idx].id != IRQ_NULL && NoNullFrom(t, idx + 1)
    ensures NoNullFrom(t, BLOCK)
  {
  }

  lemma InPlaceRegister(s: AsWritten, m: map<nat, Callback>, id: nat, fn: nat, userdata: nat)
    requires InPlace(s, m) && IsSmall(id) && id !in m && fn != NULL
    ensures var (s', e) := RegisterEffect(s, id, fn, userdata);
            e == Returns && InPlace(s', m[id := Callback(fn, userdata)])
  {
    hide InPlace, FreeFrom;
    FreeAtHome(s, m, id);
    Added(s, m, id, Callback(fn, userdata));
  }

  lemma FreeAtHome(s: AsWritten, m: map<nat, Callback>, id: nat)
    requires InPlace(s, m) && IsSmall(id) && id !in m
    ensures s.capacity > 2 && |s.entries| == BLOCK && FreeFrom(s.entries, s.capacity, id % s.capacity, 0) == Free(id)
  {
    OwnSlot(s.capacity, id);
  }

  lemma Added(s: AsWritten, m: map<nat, Callback>, id: nat, c: Callback)
    requires InPlace(s, m) && IsSmall(id) && id !in m
    ensures InPlace(AsWritten(s.entries[id := Entry(id, c.fn, c.userdata)], s.capacity + 1), m[id := c])
  {
    assert (m[id := c]).Keys == m.Keys + {id};
  }

  lemma Removed(s: AsWritten, m: map<nat, Callback>, id: nat)
    requires InPlace(s, m) && id in m
    ensures IsSmall(id) && s.capacity > 0 && InPlace(AsWritten(s.entries[id := DELETED], s.capacity - 1), m - {id})
  {
    assert (m - {id}).Keys == m.Keys - {id};
  }

  lemma OwnSlot(capacity: nat, id: nat)
    requires id < BLOCK <= capacity
    ensures id % capacity == id
  {
  }

  lemma InPlaceLook(s: AsWritten, m: map<nat, Callback>, id: nat)
    requires InPlace(s, m) && IsSmall(id)
    ensures Look(s, id) == if id in m then Found(id) else if LeavesBlock(s, id) then OutOfBounds(BLOCK) else Absent
  {
    OwnSlot(s.capacity, id);
    if id !in m {
      ProbeOn(s.entries, s.capacity, id, id, 0);
      assert s.capacity == BLOCK ==> |m| == 0;
    }
  }

  predicate NotIn(t: seq<Entry>, id: nat) {
    |t| == BLOCK && IsSmall(id) && t[0].id == IRQ_NULL && forall p :: 0 <= p < BLOCK ==> t[p].id != id
  }

  /** From a slot on, the search for an id that is not there meets a NULL or the end. */
  lemma {:induction false} ProbeOn(t: seq<Entry>, capacity: nat, id: nat, idx: nat, i: nat)
    requires NotIn(t, id) && BLOCK <= capacity && idx < BLOCK && i == idx - id
    ensures Probe(t, capacity, id, idx, i) ==
            if capacity > BLOCK && NoNullFrom(t, idx) then OutOfBounds(BLOCK) else Absent
    decreases BLOCK - idx
  {
    NextIndex(capacity, idx);
    NoNullStep(t, idx);
    hide Probe, Next, NoNullFrom;
    if t[idx].id == IRQ_NULL {
      ProbeHere(t, capacity, id, idx, i);
    } else {
      ProbePast(t, capacity, id, idx, i);
      if idx + 1 < BLOCK {
        ProbeOn(t, capacity, id, idx + 1, i + 1);
      } else if capacity == BLOCK {
        ProbeHere(t, capacity, id, 0, i + 1);
      } else {
        ProbeOutside(t, capacity, id, BLOCK, i + 1);
      }
    }
  }

  lemma NextIndex(capacity: nat, idx: nat)
    requires idx < BLOCK <= capacity
    ensures Next(idx, capacity) == if idx + 1 < capacity then idx + 1 else 0
  {
  }

  lemma ProbePast(t: seq<Entry>, capacity: nat, id: nat, idx: nat, i: nat)
    requires i < capacity && idx < |t| && t[idx].id != id && t[idx].id != IRQ_NULL
    ensures Probe(t, capacity, id, idx, i) == Probe(t, capacity, id, Next(idx, capacity), i + 1)
  {
  }

  lemma ProbeHere(t: seq<Entry>, capacity: nat, id: nat, idx: nat, i: nat)
    requires i < capacity && idx < |t| && t[idx].id == IRQ_NULL && id != IRQ_NULL
    ensures Probe(t, capacity, id, idx, i) == Absent
  {
  }

  lemma ProbeOutside(t: seq<Entry>, capacity: nat, id: nat, idx: nat, i: nat)
    requires i < capacity && |t| <= idx
    ensures Probe(t, capacity, id, idx, i) == OutOfBounds(idx)
  {
  }

  lemma InPlaceUnregister(s: AsWritten, m: map<nat, Callback>, id: nat)
    requires InPlace(s, m) && IsSmall(id)
    ensures var (s', e) := UnregisterEffect(s, id);
            if id !in m && LeavesBlock(s, id) then e != Returns else e == Returns && InPlace(s', m - {id})
  {
    hide Look, InPlace, LeavesBlock;
    BlockSize(s, m);
    InPlaceLook(s, m, id);
    if id in m {
      Removed(s, m, id);
    } else {
      assert m - {id} == m;
    }
  }

  /** The k-th call removes an id that is not registered, and its search leaves the block. */
  ghost predicate Strays(ops: seq<Op>, k: nat) {
    && k < |ops| && ops[k].Unregister? && ops[k].id !in Meaning(ops[..k])
    && Reach(ops[..k]).At? && |Reach(ops[..k]).s.entries| == BLOCK && LeavesBlock(Reach(ops[..k]).s, ops[k].id)
  }

  /** Runs over the ids 2 to 7.  They stop exactly where a removal strays, and else leave every
      registered id in its slot. */
  lemma {:induction false} SmallRuns(ops: seq<Op>)
    requires Allowed(ops) && SmallIds(ops)
    ensures Reach(ops).At? <==> forall k: nat :: !Strays(ops, k)
    ensures Reach(ops).At? ==> InPlace(Reach(ops).s, Meaning(ops))
  {
    hide InPlace, Effects, Reach, Meaning, Allowed, SmallIds, LeavesBlock;
    if ops == [] {
      NothingReached();
    } else {
      var n := |ops| - 1;
      var before := ops[..n];
      assert ops == before + [ops[n]];
      AllowedPrefix(ops, n);
      SmallRuns(before);
      ReachLast(before, ops[n]);
      forall k: nat | k < n
        ensures Strays(ops, k) <==> Strays(before, k)
      {
        assert before[..k] == ops[..k] && before[k] == ops[k];
      }
      if Reach(before).At? {
        BlockSize(Reach(before).s, Meaning(before));
        LastCall(Reach(before).s, Meaning(before), ops, n);
        assert Strays(ops, n) <==> Reach(ops).Stopped?;
      } else {
        var k: nat :| Strays(before, k);
        assert Strays(ops, k);
      }
    }
  }

  lemma NothingReached()
    ensures Reach([]).At? && InPlace(Reach([]).s, Meaning([]))
  {
  }

  lemma AllowedPrefix(ops: seq<Op>, n: nat)
    requires Allowed(ops) && SmallIds(ops) && n <= |ops|
    ensures Allowed(ops[..n]) && SmallIds(ops[..n])
  {
    assert forall k :: 0 <= k < n ==> ops[..n][k] == ops[k] && ops[..n][..k] == ops[..k];
  }

  lemma LastCall(s: AsWritten, m: map<nat, Callback>, ops: seq<Op>, n: nat)
    requires |ops| == n + 1 && Allowed(ops) && SmallIds(ops) && m == Meaning(ops[..n]) && InPlace(s, m)
    ensures var (s', e) := Effects(s, ops[n]);
            if ops[n].Unregister? && ops[n].id !in m && LeavesBlock(s, ops[n].id) then e != Returns
            else e == Returns && InPlace(s', Meaning(ops))
  {
    hide InPlace, LeavesBlock, RegisterEffect, UnregisterEffect;
    BlockSize(s, m);
    match ops[n]
    case Register(id, fn, userdata) => InPlaceRegister(s, m, id, fn, userdata);
    case Unregister(id) => InPlaceUnregister(s, m, id);
  }

  lemma BlockSize(s: AsWritten, m: map<nat, Callback>)
    requires InPlace(s, m)
    ensures |s.entries| == BLOCK && s.capacity >= BLOCK
  {
  }

  /** After such a run the search for an id agrees with what has been registered exactly unless
      it leaves the block; every registered id is found. */
  lemma SearchAgreesIff(ops: seq<Op>, id: nat)
    requires Allowed(ops) && SmallIds(ops) && IsSmall(id) && Reach(ops).At?
    ensures var s := Reach(ops).s;
            s.capacity > 0 && |s.entries| == BLOCK
            && (Agrees(s, Meaning(ops), id) <==> !LeavesBlock(s, id))
            && (id in Meaning(ops) ==> Agrees(s, Meaning(ops), id))
  {
    SmallRuns(ops);
    InPlaceLook(Reach(ops).s, Meaning(ops), id);
    hide Look, Reach, Meaning;
  }

  ghost predicate EverRegistered(ops: seq<Op>, id: nat) {
    exists k :: 0 <= k < |ops| && ops[k].Register? && ops[k].id == id
  }

  /** A search leaves the block exactly if the id is not registered now, another id is, and every
      id from this one to 7 was registered at some time. */
  lemma LeavesBlockIff(ops: seq<Op>, id: nat)
    requires Allowed(ops) && SmallIds(ops) && IsSmall(id) && Reach(ops).At?
    ensures var s := Reach(ops).s;
            |s.entries| == BLOCK
            && (LeavesBlock(s, id) <==>
                  id !in Meaning(ops) && Meaning(ops) != map[]
                  && forall p :: id <= p < BLOCK ==> EverRegistered(ops, p))
  {
    hide Reach, Meaning, Allowed, SmallIds, EverRegistered;
    SmallRuns(ops);
    forall p | id <= p < BLOCK
      ensures |Reach(ops).s.entries| == BLOCK
      ensures EverRegistered(ops, p) <==> Reach(ops).s.entries[p].id != IRQ_NULL
    {
      SlotHistory(ops, p);
    }
    SomeRegistered(Meaning(ops));
  }

  lemma SomeRegistered(m: map<nat, Callback>)
    ensures |m| > 0 <==> m != map[]
  {
  }

  /** A slot of the block is NULL until its id is registered. */
  lemma {:induction false} SlotHistory(ops: seq<Op>, p: nat)
    requires Allowed(ops) && SmallIds(ops) && IsSmall(p) && Reach(ops).At?
    ensures |Reach(ops).s.entries| == BLOCK
    ensures Reach(ops).s.entries[p].id != IRQ_NULL <==> EverRegistered(ops, p)
  {
    hide Reach, Meaning, Allowed, InPlace, Effects, SmallIds, EverRegistered;
    if ops == [] {
      NothingReached();
      FreshSlot(p);
    } else {
      var n := |ops| - 1;
      var before := ops[..n];
      assert ops == before + [ops[n]] && ops[..n + 1] == ops;
      ReachPrefix(ops, n);
      AllowedPrefix(ops, n);
      ReachLast(before, ops[n]);
      SmallRuns(before);
      BlockSize(Reach(before).s, Meaning(before));
      SlotHistory(before, p);
      NewCall(ops, n);
      SlotAfter(Reach(before).s, Meaning(before), ops[n], p);
      EverMore(before, ops[n], p);
    }
  }

  lemma FreshSlot(p: nat)
    requires IsSmall(p)
    ensures Reach([]).At? && |Reach([]).s.entries| == BLOCK && Reach([]).s.entries[p].id == IRQ_NULL
    ensures !EverRegistered([], p)
  {
  }

  lemma NewCall(ops: seq<Op>, k: nat)
    requires Allowed(ops) && SmallIds(ops) && k < |ops|
    ensures IsSmall(ops[k].id) && (ops[k].Register? ==> ops[k].id !in Meaning(ops[..k]) && ops[k].fn != NULL)
  {
  }

  lemma SlotAfter(s: AsWritten, m: map<nat, Callback>, op: Op, p: nat)
    requires InPlace(s, m) && IsSmall(op.id) && IsSmall(p) && (op.Register? ==> op.id !in m && op.fn != NULL)
    requires Effects(s, op).1 == Returns
    ensures var t := Effects(s, op).0.entries;
            |t| == |s.entries| == BLOCK
            && (t[p].id != IRQ_NULL <==> s.entries[p].id != IRQ_NULL || (op.Register? && op.id == p))
  {
    match op
    case Register(id, fn, userdata) => FreeAtHome(s, m, id);
    case Unregister(id) => InPlaceLook(s, m, id);
    hide Look, FreeFrom;
  }

  lemma EverMore(ops: seq<Op>, op: Op, id: nat)
    ensures EverRegistered(ops + [op], id) <==> EverRegistered(ops, id) || (op.Register? && op.id == id)
  {
    var more := ops + [op];
    assert more[|ops|] == op && forall k :: 0 <= k < |ops| ==> more[k] == ops[k];
  }

  /** If only registered ids are removed, no call fails. */
  lemma TidyRuns(ops: seq<Op>)
    requires Allowed(ops) && SmallIds(ops)
    requires forall k {:trigger ops[k]} :: 0 <= k < |ops| && ops[k].Unregister? ==> ops[k].id in Meaning(ops[..k])
    ensures Reach(ops).At?
  {
    SmallRuns(ops);
    hide Reach, Meaning;
    assert forall k: nat :: !Strays(ops, k);
  }

  // ----- other ids ---------------------------------------------------------------------------

  lemma ReachOne(op: Op)
    ensures Reach([op]) == var (s, e) := Effects(INITIAL, op); if e == Returns then At(s) else Stopped(e)
  {
    assert [op][..0] == [];
  }

  lemma ReachTwo(a: Op, b: Op)
    requires Reach([a]).At?
    ensures Reach([a, b]) == var (s, e) := Effects(Reach([a]).s, b); if e == Returns then At(s) else Stopped(e)
  {
    assert [a, b][..1] == [a];
  }

  lemma ReachThree(a: Op, b: Op, c: Op)
    requires Reach([a, b]).At?
    ensures Reach([a, b, c]) == var (s, e) := Effects(Reach([a, b]).s, c); if e == Returns then At(s) else Stopped(e)
  {
    assert [a, b, c][..2] == [a, b];
  }

  /** Directly after the first registration, its entry is found exactly for ids with
      `id % 72 < 8`; any other search ends at an empty slot, or reads past the block. */
  lemma FirstRegistrationFoundIff(id: nat, fn: nat, userdata: nat)
    requires id > IRQ_TOMBSTONE && fn != NULL
    ensures var r := Reach([Register(id, fn, userdata)]);
            r.At? && r.s.capacity == 9
            && (Look(r.s, id).Found? <==> id % 72 < 8) && (Look(r.s, id).OutOfBounds? <==> id % 9 == 8)
  {
    ReachOne(Register(id, fn, userdata));
    HomesAgree(id);
  }

  lemma HomesAgree(id: nat)
    ensures id % 8 == id % 9 <==> id % 72 < 8
  {
    var q, r := id / 72, id % 72;
    SameRemainder(q, r, 8, 9);
    SameRemainder(q, r, 9, 8);
    var a, b := r / 8, r / 9;
    if r % 8 == r % 9 {
      assert 8 * a == 9 * b;
    }
  }

  lemma SameRemainder(q: nat, r: nat, m: nat, k: nat)
    requires m in {8, 9} && m * k == 72
    ensures (72 * q + r) % m == r % m
  {
  }

  /** Id 10 is registered and then not found. */
  lemma TenIsLost(fn: nat, userdata: nat)
    requires fn != NULL
    ensures var r := Reach([Register(10, fn, userdata)]); r.At? && r.s.capacity > 0 && Look(r.s, 10) == Absent
  {
    ReachOne(Register(10, fn, userdata));
    assert 10 % 8 == 2 && 10 % 9 == 1;
  }

  /** And its removal does not remove it. */
  lemma TenIsMissed(fn: nat, userdata: nat)
    requires fn != NULL
    ensures Misses([Register(10, fn, userdata), Unregister(10)], 1)
  {
    var a := Register(10, fn, userdata);
    var ops := [a, Unregister(10)];
    assert ops[..1] == [a] && [a][..0] == [];
    TenIsLost(fn, userdata);
    hide Look, Reach;
  }

  /** Id 72 is found until another id is registered. */
  lemma SeventyTwoIsLost(fn: nat, userdata: nat)
    requires fn != NULL
    ensures var one := Reach([Register(72, fn, userdata)]);
            var two := Reach([Register(72, fn, userdata), Register(3, fn, userdata)]);
            one.At? && one.s.capacity > 0 && Look(one.s, 72).Found?
            && two.At? && two.s.capacity > 0 && Look(two.s, 72) == Absent
  {
    var a, b := Register(72, fn, userdata), Register(3, fn, userdata);
    ReachOne(a);
    ReachTwo(a, b);
    assert 72 % 8 == 0 && 72 % 9 == 0 && 72 % 10 == 2 && 3 % 9 == 3;
  }

  /** Id 8, registered second, is written past the block. */
  lemma EightLeavesBlock(fn: nat, userdata: nat)
    requires fn != NULL
    ensures Reach([Register(3, fn, userdata), Register(8, fn, userdata)]) == Stopped(Leaves(8))
  {
    ReachOne(Register(3, fn, userdata));
    ReachTwo(Register(3, fn, userdata), Register(8, fn, userdata));
  }

  /** Also a small id that was removed can send the search past the block. */
  lemma SevenLeavesBlock(fn: nat, userdata: nat)
    requires fn != NULL
    ensures var r := Reach([Register(7, fn, userdata), Register(2, fn, userdata), Unregister(7)]);
            r.At? && r.s.capacity > 0 && Look(r.s, 7) == OutOfBounds(8)
  {
    var a, b, c := Register(7, fn, userdata), Register(2, fn, userdata), Unregister(7);
    ReachOne(a);
    ReachTwo(a, b);
    ReachThree(a, b, c);
    assert 7 % 10 == 7 && 7 % 9 == 7 && (7 + 1) % 9 == 8;
  }
}
