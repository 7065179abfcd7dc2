/**
 The linear-probing IRQ table of kern/irq.c, as a map from IRQ ids to callbacks.

 kern/irq.c:103 and kern/irq.c:157 step `allocated` (here `capacity`), the modulus of the probe
 sequence, where the load test of kern/irq.c:89 counts entries with `used`.  The class follows
 the load test and steps `used`; module IrqDrift has the code as written.
 */
module IrqTable {
  import opened Wrappers

  const IRQ_NULL := 0
  const IRQ_TOMBSTONE := 1
  const NULL := 0

  datatype Entry = Entry(id: nat, fn: nat, userdata: nat)

  const EMPTY := Entry(IRQ_NULL, NULL, NULL)
  const DELETED := Entry(IRQ_TOMBSTONE, NULL, NULL)

  datatype Callback = Callback(fn: nat, userdata: nat)

  predicate IsLive(e: Entry) { e.id != IRQ_NULL && e.id != IRQ_TOMBSTONE }

  // ----- the probe sequence: n slots, cyclically, from the home slot ------------------

  function Home(id: nat, n: nat): (p: nat)
    requires n > 0
    ensures p < n
  {
    id % n
  }

  /** The slot some distance along the sequence. */
  function At(home: nat, distance: nat, n: nat): (p: nat)
    requires home < n && distance < n
    ensures p < n && (distance == 0 ==> p == home)
  {
    if home + distance < n then home + distance else home + distance - n
  }

  function Distance(home: nat, p: nat, n: nat): (d: nat)
    requires home < n && p < n
    ensures d < n && At(home, d, n) == p
  {
    if home <= p then p - home else p + n - home
  }

  /** `(idx + 1) % n`, for idx in range. */
  lemma NextSlot(home: nat, distance: nat, n: nat)
    requires home < n && distance < n
    ensures (At(home, distance, n) + 1) % n == if distance + 1 < n then At(home, distance + 1, n) else home
  {
    var next := At(home, distance, n) + 1;
    if next < n {
      assert next % n == next;
    } else {
      assert n % n == 0;
    }
  }

  // ----- tables ---------------------------------------------------------------------------

  ghost predicate Holds(t: seq<Entry>, p: nat, id: nat) { p < |t| && IsLive(t[p]) && t[p].id == id }

  /** The live entries are exactly the map, each id once. */
  ghost predicate Represents(t: seq<Entry>, m: map<nat, Callback>) {
    && (forall p :: 0 <= p < |t| && IsLive(t[p]) ==> t[p].id in m && m[t[p].id] == Callback(t[p].fn, t[p].userdata))
    && (forall id :: id in m ==> exists p :: Holds(t, p, id))
    && DistinctIds(t)
  }

  /** No NULL lies between the home slot of an entry and its position. */
  ghost predicate Reachable(t: seq<Entry>) {
    |t| > 0 &&
    forall p, d {:trigger At(Home(t[p].id, |t|), d, |t|)} ::
      0 <= p < |t| && IsLive(t[p]) && 0 <= d < Distance(Home(t[p].id, |t|), p, |t|) ==>
        t[At(Home(t[p].id, |t|), d, |t|)].id != IRQ_NULL
  }

  ghost predicate IsTable(t: seq<Entry>, m: map<nat, Callback>) {
    Represents(t, m) && Reachable(t)
  }

  ghost function LiveSlots(t: seq<Entry>): set<nat> {
    set p: nat | p < |t| && IsLive(t[p])
  }

  /** Fewer entries than slots: every probe sequence meets a free slot. */
  lemma FreeSlotExists(t: seq<Entry>, home: nat)
    requires |LiveSlots(t)| < |t| && home < |t|
    ensures exists d :: 0 <= d < |t| && !IsLive(t[At(home, d, |t|)])
  {
    if forall p :: 0 <= p < |t| ==> IsLive(t[p]) {
      AllLive(t);
    } else {
      var p :| 0 <= p < |t| && !IsLive(t[p]);
      assert !IsLive(t[At(home, Distance(home, p, |t|), |t|)]);
    }
  }

  lemma {:induction false} AllLive(t: seq<Entry>)
    requires forall p :: 0 <= p < |t| ==> IsLive(t[p])
    ensures |LiveSlots(t)| == |t|
  {
    if t != [] {
      var n := |t| - 1;
      AllLive(t[..n]);
      assert LiveSlots(t) == LiveSlots(t[..n]) + {n};
    }
  }

  /** Putting an entry into a free slot, with no NULL before it on its probe sequence. */
  lemma PutKeepsTable(t: seq<Entry>, m: map<nat, Callback>, d: nat, e: Entry)
    requires IsTable(t, m) && IsLive(e) && e.id !in m
    requires d < |t| && !IsLive(t[At(Home(e.id, |t|), d, |t|)])
    requires forall i :: 0 <= i < d ==> t[At(Home(e.id, |t|), i, |t|)].id != IRQ_NULL
    ensures var p := At(Home(e.id, |t|), d, |t|); var t' := t[p := e];
            IsTable(t', m[e.id := Callback(e.fn, e.userdata)]) && |LiveSlots(t')| == |LiveSlots(t)| + 1
  {
    var p := At(Home(e.id, |t|), d, |t|);
    PutKeepsReachable(t, d, e);
    PutRepresents(t, m, p, e);
    assert LiveSlots(t[p := e]) == LiveSlots(t) + {p};
    hide Reachable, Represents, Home, At;
  }

  lemma PutRepresents(t: seq<Entry>, m: map<nat, Callback>, p: nat, e: Entry)
    requires Represents(t, m) && IsLive(e) && e.id !in m && p < |t| && !IsLive(t[p])
    ensures Represents(t[p := e], m[e.id := Callback(e.fn, e.userdata)])
  {
    var t' := t[p := e];
    forall id | id in m || id == e.id
      ensures exists q :: Holds(t', q, id)
    {
      if id == e.id {
        assert Holds(t', p, id);
      } else {
        var q :| Holds(t, q, id);
        assert Holds(t', q, id);
      }
    }
  }

  lemma PutKeepsReachable(t: seq<Entry>, d: nat, e: Entry)
    requires Reachable(t) && IsLive(e)
    requires d < |t| && !IsLive(t[At(Home(e.id, |t|), d, |t|)])
    requires forall i :: 0 <= i < d ==> t[At(Home(e.id, |t|), i, |t|)].id != IRQ_NULL
    ensures Reachable(t[At(Home(e.id, |t|), d, |t|) := e])
  {
    var n := |t|;
    var p := At(Home(e.id, n), d, n);
    var t' := t[p := e];
    forall q, i | 0 <= q < n && IsLive(t'[q]) && 0 <= i < Distance(Home(t'[q].id, n), q, n)
      ensures t'[At(Home(t'[q].id, n), i, n)].id != IRQ_NULL
    {
      hide Home;
      if q != p {
        assert t[At(Home(t[q].id, n), i, n)].id != IRQ_NULL;
      }
    }
  }

  /** Replacing a live entry by a tombstone. */
  lemma DeleteKeepsTable(t: seq<Entry>, m: map<nat, Callback>, p: nat)
    requires IsTable(t, m) && p < |t| && IsLive(t[p])
    ensures IsTable(t[p := DELETED], m - {t[p].id}) && |LiveSlots(t[p := DELETED])| == |LiveSlots(t)| - 1
  {
    DeleteKeepsReachable(t, p);
    DeleteRepresents(t, m, p);
    assert LiveSlots(t[p := DELETED]) == LiveSlots(t) - {p};
    hide Reachable, Represents;
  }

  lemma DeleteRepresents(t: seq<Entry>, m: map<nat, Callback>, p: nat)
    requires Represents(t, m) && p < |t| && IsLive(t[p])
    ensures Represents(t[p := DELETED], m - {t[p].id})
  {
    var t' := t[p := DELETED];
    forall id | id in m && id != t[p].id
      ensures exists q :: Holds(t', q, id)
    {
      var q :| Holds(t, q, id);
      assert Holds(t', q, id);
    }
  }

  lemma DeleteKeepsReachable(t: seq<Entry>, p: nat)
    requires Reachable(t) && p < |t|
    ensures Reachable(t[p := DELETED])
  {
    var n := |t|;
    var t' := t[p := DELETED];
    hide Home, At, Distance;
    forall q, i | 0 <= q < n && IsLive(t'[q]) && 0 <= i < Distance(Home(t'[q].id, n), q, n)
      ensures t'[At(Home(t'[q].id, n), i, n)].id != IRQ_NULL
    {
      assert t[At(Home(t[q].id, n), i, n)].id != IRQ_NULL;
    }
  }

  lemma ReservedIdsAbsent(t: seq<Entry>, m: map<nat, Callback>)
    requires IsTable(t, m)
    ensures IRQ_NULL !in m && IRQ_TOMBSTONE !in m
  {
    assert forall p :: !Holds(t, p, IRQ_NULL) && !Holds(t, p, IRQ_TOMBSTONE);
  }

  /** A search that met a NULL, or went all the way round, has proved the id absent. */
  lemma SearchIsComplete(t: seq<Entry>, m: map<nat, Callback>, id: nat, d: nat)
    requires IsTable(t, m) && d <= |t|
    requires forall i :: 0 <= i < d ==> t[At(Home(id, |t|), i, |t|)].id != id
    requires d == |t| || t[At(Home(id, |t|), d, |t|)].id == IRQ_NULL
    ensures id !in m
  {
    if id in m {
      var p :| Holds(t, p, id);
      var k := Distance(Home(id, |t|), p, |t|);
      assert false;
    }
  }

  // ----- what a search answers, on any table -------------------------------------------------

  /** The loop of irq_fire from distance d on. */
  function Answer(t: seq<Entry>, id: nat, d: nat): Option<Callback>
    requires 0 < |t| && d <= |t|
    decreases |t| - d
  {
    if d == |t| then None
    else
      var p := At(Home(id, |t|), d, |t|);
      if t[p].id == id then Some(Callback(t[p].fn, t[p].userdata))
      else if t[p].id == IRQ_NULL then None
      else Answer(t, id, d + 1)
  }

  /** The entry of `id` at distance D is the first thing its search stops at. */
  ghost predicate FirstMet(t: seq<Entry>, id: nat, D: nat) {
    && D < |t| && t[At(Home(id, |t|), D, |t|)].id == id
    && forall i :: 0 <= i < D ==>
         t[At(Home(id, |t|), i, |t|)].id != id && t[At(Home(id, |t|), i, |t|)].id != IRQ_NULL
  }

  lemma {:induction false} AnswerFound(t: seq<Entry>, id: nat, D: nat, d: nat)
    requires FirstMet(t, id, D) && d <= D
    ensures var p := At(Home(id, |t|), D, |t|); Answer(t, id, d) == Some(Callback(t[p].fn, t[p].userdata))
    decreases D - d
  {
    hide At, Home;
    if d < D {
      AnswerFound(t, id, D, d + 1);
    }
  }

  lemma {:induction false} AnswerNone(t: seq<Entry>, id: nat, d: nat)
    requires 0 < |t| && d <= |t| && forall p :: 0 <= p < |t| ==> t[p].id != id
    ensures Answer(t, id, d) == None
    decreases |t| - d
  {
    hide At, Home;
    if d < |t| {
      AnswerNone(t, id, d + 1);
    }
  }

  /** On any table: an answer is that of the first slot holding the id, if no NULL lies before it. */
  lemma {:induction false} AnswerIff(t: seq<Entry>, id: nat, d: nat, callback: Callback)
    requires 0 < |t| && d <= |t| && id > IRQ_TOMBSTONE
    requires forall i :: 0 <= i < d ==>
               t[At(Home(id, |t|), i, |t|)].id != id && t[At(Home(id, |t|), i, |t|)].id != IRQ_NULL
    ensures Answer(t, id, d) == Some(callback) <==>
            exists D :: FirstMet(t, id, D) && var e := t[At(Home(id, |t|), D, |t|)];
                        callback == Callback(e.fn, e.userdata)
    decreases |t| - d
  {
    hide At, Home;
    if d < |t| {
      var p := At(Home(id, |t|), d, |t|);
      if t[p].id == id {
        assert FirstMet(t, id, d);
      } else if t[p].id != IRQ_NULL {
        AnswerIff(t, id, d + 1, callback);
      }
    }
  }

  lemma MetAt(t: seq<Entry>, m: map<nat, Callback>, id: nat) returns (D: nat)
    requires IsTable(t, m) && id in m
    ensures FirstMet(t, id, D)
    ensures var p := At(Home(id, |t|), D, |t|); Callback(t[p].fn, t[p].userdata) == m[id]
  {
    var p :| Holds(t, p, id);
    D := Distance(Home(id, |t|), p, |t|);
    forall i | 0 <= i < D
      ensures t[At(Home(id, |t|), i, |t|)].id != id && t[At(Home(id, |t|), i, |t|)].id != IRQ_NULL
    {
      assert At(Home(id, |t|), i, |t|) != p;
    }
  }

  /** On a table the answers are the map. */
  lemma AnswerIsMap(t: seq<Entry>, m: map<nat, Callback>, id: nat)
    requires IsTable(t, m) && id > IRQ_TOMBSTONE
    ensures Answer(t, id, 0) == if id in m then Some(m[id]) else None
  {
    if id in m {
      var D := MetAt(t, m, id);
      AnswerFound(t, id, D, 0);
    } else {
      NotThere(t, m, id);
      AnswerNone(t, id, 0);
    }
    hide Answer, At, Home;
  }

  lemma NotThere(t: seq<Entry>, m: map<nat, Callback>, id: nat)
    requires IsTable(t, m) && id > IRQ_TOMBSTONE && id !in m
    ensures forall p :: 0 <= p < |t| ==> t[p].id != id
  {
  }

  /** A tombstone lies between the home slot of an id and its entry. */
  ghost predicate TombstoneBefore(t: seq<Entry>, id: nat) {
    0 < |t| && exists d, D :: 0 <= d < D && FirstMet(t, id, D) && t[At(Home(id, |t|), d, |t|)].id == IRQ_TOMBSTONE
  }

  lemma FirstMetOnce(t: seq<Entry>, id: nat, D: nat, D': nat)
    requires FirstMet(t, id, D) && FirstMet(t, id, D')
    ensures D == D'
  {
  }

  lemma OnlyLiveBefore(t: seq<Entry>, id: nat, D: nat)
    requires FirstMet(t, id, D) && forall i :: 0 <= i < D ==> IsLive(t[At(Home(id, |t|), i, |t|)])
    ensures !TombstoneBefore(t, id)
  {
    forall D' | FirstMet(t, id, D') ensures D' == D {
      FirstMetOnce(t, id, D, D');
    }
    hide FirstMet, At, Home;
  }

  /** The removed neighbour decides: without it the first entry answers. */
  lemma SecondEntryExample()
    ensures TombstoneBefore([EMPTY, EMPTY, DELETED, Entry(10, 1, 0), EMPTY, EMPTY, EMPTY, EMPTY], 10)
    ensures !TombstoneBefore([EMPTY, EMPTY, Entry(10, 1, 0), EMPTY, EMPTY, EMPTY, EMPTY, EMPTY], 10)
  {
    var t := [EMPTY, EMPTY, DELETED, Entry(10, 1, 0), EMPTY, EMPTY, EMPTY, EMPTY];
    assert FirstMet(t, 10, 1) && t[At(Home(10, 8), 0, 8)].id == IRQ_TOMBSTONE;
    var u := [EMPTY, EMPTY, Entry(10, 1, 0), EMPTY, EMPTY, EMPTY, EMPTY, EMPTY];
    assert FirstMet(u, 10, 0);
    OnlyLiveBefore(u, 10, 0);
  }

  /** Two entries for one id: this one answers, and all other ids answer as the map has them. */
  ghost predicate TwoEntries(t: seq<Entry>, m: map<nat, Callback>, id: nat, answer: Callback) {
    && 0 < |t| && Answer(t, id, 0) == Some(answer)
    && forall other {:trigger Answer(t, other, 0)} :: other > IRQ_TOMBSTONE && other != id ==>
         Answer(t, other, 0) == if other in m then Some(m[other]) else None
  }

  lemma SecondEntry(t: seq<Entry>, m: map<nat, Callback>, d: nat, e: Entry)
    requires IsTable(t, m) && IsLive(e) && e.id in m
    requires d < |t| && !IsLive(t[At(Home(e.id, |t|), d, |t|)])
    requires forall i :: 0 <= i < d ==> IsLive(t[At(Home(e.id, |t|), i, |t|)])
    ensures TwoEntries(t[At(Home(e.id, |t|), d, |t|) := e], m, e.id,
                       if TombstoneBefore(t, e.id) then Callback(e.fn, e.userdata) else m[e.id])
  {
    hide IsTable, Answer, TombstoneBefore, At, Home;
    var p := At(Home(e.id, |t|), d, |t|);
    SecondEntryAnswers(t, m, d, e);
    forall other | other > IRQ_TOMBSTONE && other != e.id
      ensures Answer(t[p := e], other, 0) == if other in m then Some(m[other]) else None
    {
      OthersAnswerAsBefore(t, m, p, e, other);
    }
  }

  /** A second entry for a registered id, in the first free slot: it answers exactly if a
      tombstone came before the first; no other id is answered differently. */
  lemma SecondEntryAnswers(t: seq<Entry>, m: map<nat, Callback>, d: nat, e: Entry)
    requires IsTable(t, m) && IsLive(e) && e.id in m
    requires d < |t| && !IsLive(t[At(Home(e.id, |t|), d, |t|)])
    requires forall i :: 0 <= i < d ==> IsLive(t[At(Home(e.id, |t|), i, |t|)])
    ensures Answer(t[At(Home(e.id, |t|), d, |t|) := e], e.id, 0) ==
            Some(if TombstoneBefore(t, e.id) then Callback(e.fn, e.userdata) else m[e.id])
  {
    var n, id := |t|, e.id;
    var t' := t[At(Home(id, n), d, n) := e];
    var D := MetAt(t, m, id);
    SlotsDiffer(Home(id, n), n);
    if d < D {
      assert t[At(Home(id, n), d, n)].id == IRQ_TOMBSTONE;
      assert FirstMet(t', id, d);
      AnswerFound(t', id, d, 0);
    } else {
      assert FirstMet(t', id, D);
      AnswerFound(t', id, D, 0);
      OnlyLiveBefore(t, id, D);
    }
    hide Answer, At, Home, Distance, IsTable;
  }

  lemma SlotsDiffer(home: nat, n: nat)
    requires home < n
    ensures forall i, j :: 0 <= i < n && 0 <= j < n && i != j ==> At(home, i, n) != At(home, j, n)
  {
  }

  lemma OthersAnswerAsBefore(t: seq<Entry>, m: map<nat, Callback>, p: nat, e: Entry, id: nat)
    requires IsTable(t, m) && p < |t| && !IsLive(t[p]) && IsLive(e) && id != e.id && id > IRQ_TOMBSTONE
    ensures Answer(t[p := e], id, 0) == if id in m then Some(m[id]) else None
  {
    hide Answer, At, Home, Distance;
    var t' := t[p := e];
    if id in m {
      var D := MetAt(t, m, id);
      assert At(Home(id, |t|), D, |t|) != p;
      assert FirstMet(t', id, D);
      AnswerFound(t', id, D, 0);
    } else {
      NotThere(t, m, id);
      AnswerNone(t', id, 0);
    }
  }

  /** A tombstone over a slot that holds no entry. */
  lemma BuryKeepsTable(t: seq<Entry>, m: map<nat, Callback>, p: nat)
    requires IsTable(t, m) && p < |t| && !IsLive(t[p])
    ensures IsTable(t[p := DELETED], m) && LiveSlots(t[p := DELETED]) == LiveSlots(t)
  {
    DeleteKeepsReachable(t, p);
    BuryRepresents(t, m, p);
    hide Reachable, Represents;
  }

  lemma BuryRepresents(t: seq<Entry>, m: map<nat, Callback>, p: nat)
    requires Represents(t, m) && p < |t| && !IsLive(t[p])
    ensures Represents(t[p := DELETED], m)
  {
    var t' := t[p := DELETED];
    forall id | id in m
      ensures exists q :: Holds(t', q, id)
    {
      var q :| Holds(t, q, id);
      assert Holds(t', q, id);
    }
  }

  datatype Result = Done | Panic

  datatype Fired = NotFound | Called(callback: Callback, result: int) | Panicked

  class Irqs {
    var entries: array<Entry>
    var capacity: nat
    var used: nat
    ghost var registered: map<nat, Callback>

    ghost predicate Valid()
      reads this, entries
    {
      && entries.Length == capacity && IsTable(entries[..], registered)
      && used == |LiveSlots(entries[..])| && used * 2 < capacity
    }

    /** irq_init. */
    constructor ()
      ensures Valid() && fresh(entries) && registered == map[] && capacity == 8
    {
      capacity := 8;
      used := 0;
      entries := new Entry[8](_ => EMPTY);
      registered := map[];
      new;
      assert LiveSlots(entries[..]) == {};
    }

    lemma TableFacts()
      requires Valid()
      ensures DistinctIds(entries[..]) && Represents(entries[..], registered)
    {
    }

    /** Keeps the map, drops every tombstone, and at least doubles the slots; the panic for a
        full table is not reached. */
    method Rehash()
      requires Valid()
      modifies this
      ensures Valid() && fresh(entries) && registered == old(registered)
      ensures used == old(used) && capacity == 2 * (if old(capacity) < 8 then 8 else old(capacity))
      ensures forall p :: 0 <= p < entries.Length ==> entries[p].id != IRQ_TOMBSTONE
    {
      TableFacts();
      hide IsTable, Represents, Reachable, LiveSlots, DistinctIds;
      var newAlloc := capacity;
      if capacity < 8 {
        newAlloc := 8;
      }
      newAlloc := newAlloc * 2;
      var newEntries := new Entry[newAlloc](_ => EMPTY);
      ghost var was: seq<Entry>, m: map<nat, Callback> := entries[..], map[];
      EmptyTable(newEntries[..], was[..0]);
      for oldIdx := 0 to capacity
        invariant fresh(newEntries) && newEntries.Length == newAlloc
        invariant entries == old(entries) && entries[..] == was && capacity == old(capacity) && used == old(used)
        invariant registered == old(registered)
        invariant IsTable(newEntries[..], m) && Represents(was[..oldIdx], m)
        invariant |LiveSlots(newEntries[..])| == |LiveSlots(was[..oldIdx])| <= oldIdx
        invariant forall p :: 0 <= p < newAlloc ==> newEntries[p].id != IRQ_TOMBSTONE
      {
        var e := entries[oldIdx];
        OneMore(was, m, oldIdx);
        if e.id != IRQ_NULL && e.id != IRQ_TOMBSTONE {
          InsertNew(newEntries, m, e);
          m := m[e.id := Callback(e.fn, e.userdata)];
        }
      }
      assert was[..capacity] == was;
      assert m == registered by { RepresentsUnique(was, m, registered); }
      entries := newEntries;
      capacity := newAlloc;
    }

    /** Adds the callback; panics exactly when an assertion of the source fails.  The panic for
        a table without a free slot is not reached.  The source does not look whether the id is
        registered already: then there are two entries, and the new one answers exactly if the
        table was not rehashed and has a tombstone on the way to the old one. */
    method Register(id: nat, fn: nat, userdata: nat) returns (r: Result)
      requires Valid()
      modifies this, entries
      ensures entries == old(entries) || fresh(entries)
      ensures r == Panic <==> fn == NULL || id == IRQ_NULL || id == IRQ_TOMBSTONE
      ensures r == Panic ==> Valid() && registered == old(registered) && capacity == old(capacity)
      ensures r == Done ==> capacity == if (old(used) + 1) * 2 < old(capacity) then old(capacity)
                                        else 2 * (if old(capacity) < 8 then 8 else old(capacity))
      ensures r == Done && id !in old(registered) ==>
                Valid() && registered == old(registered)[id := Callback(fn, userdata)]
      ensures r == Done && id in old(registered) ==>
                registered == old(registered) && used == old(used) + 1
                && TwoEntries(entries[..], registered, id,
                              if (old(used) + 1) * 2 < old(capacity) && old(TombstoneBefore(entries[..], id))
                              then Callback(fn, userdata) else registered[id])
    {
      hide IsTable, LiveSlots, At, Home, TwoEntries, TombstoneBefore;
      if fn == NULL || id == IRQ_NULL || id == IRQ_TOMBSTONE {
        return Panic;
      }
      if (used + 1) * 2 >= capacity {
        Rehash();
        NoTombstoneBefore(entries[..], id);
      }
      Insert(Entry(id, fn, userdata));
      r := Done;
    }

    /** The loop of irq_register: the first free slot takes the entry. */
    method Insert(e: Entry)
      requires Valid() && (used + 1) * 2 < capacity && IsLive(e)
      modifies this`used, this`registered, entries
      ensures used == old(used) + 1
      ensures e.id !in old(registered) ==> Valid() && registered == old(registered)[e.id := Callback(e.fn, e.userdata)]
      ensures e.id in old(registered) ==>
                registered == old(registered)
                && TwoEntries(entries[..], registered, e.id,
                              if old(TombstoneBefore(entries[..], e.id)) then Callback(e.fn, e.userdata)
                              else registered[e.id])
    {
      hide IsTable, LiveSlots, At, Home, TwoEntries, TombstoneBefore;
      var home, n := Home(e.id, capacity), capacity;
      var idx := home;
      ghost var t := entries[..];
      FreeSlotExists(t, home);
      for i := 0 to n
        invariant i < n ==> idx == At(home, i, n)
        invariant Valid() && entries[..] == t && n == capacity && registered == old(registered) && used == old(used)
        invariant forall d :: 0 <= d < i ==> IsLive(t[At(home, d, n)])
      {
        if entries[idx].id == IRQ_NULL || entries[idx].id == IRQ_TOMBSTONE {
          Put(i, e, idx);
          return;
        }
        NextSlot(home, i, n);
        idx := (idx + 1) % n;
      }
      assert false;
    }

    /** The four assignments of irq_register. */
    method Put(ghost d: nat, e: Entry, idx: nat)
      requires Valid() && (used + 1) * 2 < capacity && IsLive(e)
      requires d < capacity && idx == At(Home(e.id, capacity), d, capacity) && !IsLive(entries[idx])
      requires forall i :: 0 <= i < d ==> IsLive(entries[At(Home(e.id, capacity), i, capacity)])
      modifies this`used, this`registered, entries
      ensures used == old(used) + 1
      ensures e.id !in old(registered) ==> Valid() && registered == old(registered)[e.id := Callback(e.fn, e.userdata)]
      ensures e.id in old(registered) ==>
                registered == old(registered)
                && TwoEntries(entries[..], registered, e.id,
                              if old(TombstoneBefore(entries[..], e.id)) then Callback(e.fn, e.userdata)
                              else registered[e.id])
    {
      hide IsTable, LiveSlots, At, Home, TwoEntries, TombstoneBefore;
      ghost var t := entries[..];
      if e.id !in registered {
        PutKeepsTable(t, registered, d, e);
        registered := registered[e.id := Callback(e.fn, e.userdata)];
      } else {
        SecondEntry(t, registered, d, e);
      }
      entries[idx] := e;
      assert entries[..] == t[idx := e];
      used := used + 1;
    }

    /** Runs what a search of the table answers: on a table of distinct ids, exactly the
        registered callback with its own data, or nothing exactly when the id is not registered,
        also when tombstones have left no NULL slot. */
    method Fire(id: nat, run: (nat, nat) -> int) returns (r: Fired)
      requires entries.Length == capacity > 0
      ensures id == IRQ_NULL ==> r == NotFound
      ensures id == IRQ_TOMBSTONE ==> r == Panicked
      ensures id > IRQ_TOMBSTONE ==>
                r == match Answer(entries[..], id, 0)
                     case Some(callback) => Called(callback, run(callback.fn, callback.userdata))
                     case None => NotFound
      ensures Valid() && id != IRQ_TOMBSTONE ==>
                r == if id in registered then
                       Called(registered[id], run(registered[id].fn, registered[id].userdata))
                     else NotFound
    {
      hide IsTable, LiveSlots, At, Home, Valid;
      if id > IRQ_TOMBSTONE && Valid() {
        ValidAnswers(id);
      }
      if Valid() {
        ReservedAreAbsent();
      }
      if id == IRQ_NULL {
        return NotFound;
      }
      if id == IRQ_TOMBSTONE {
        return Panicked;
      }
      var home, n := Home(id, capacity), capacity;
      var idx := home;
      for i := 0 to n
        invariant i < n ==> idx == At(home, i, n)
        invariant Answer(entries[..], id, 0) == Answer(entries[..], id, i)
      {
        if entries[idx].id == id {
          return Called(Callback(entries[idx].fn, entries[idx].userdata), run(entries[idx].fn, entries[idx].userdata));
        }
        if entries[idx].id == IRQ_NULL {
          return NotFound;
        }
        NextSlot(home, i, n);
        idx := (idx + 1) % n;
      }
      return NotFound;
    }

    lemma ValidLength()
      requires Valid()
      ensures entries.Length == capacity > 0
    {
    }

    lemma ValidAnswers(id: nat)
      requires Valid() && id > IRQ_TOMBSTONE
      ensures entries.Length > 0
      ensures Answer(entries[..], id, 0) == if id in registered then Some(registered[id]) else None
    {
      AnswerIsMap(entries[..], registered, id);
    }

    lemma ReservedAreAbsent()
      requires Valid()
      ensures IRQ_NULL !in registered && IRQ_TOMBSTONE !in registered
    {
      ReservedIdsAbsent(entries[..], registered);
    }

    /** Removes the id, if it is there.  The source does not reject the two reserved ids: their
        search can come to a slot that holds no entry, and takes it for one; the map is kept,
        but `used` falls behind. */
    method Unregister(id: nat)
      requires Valid()
      modifies this, entries
      ensures entries == old(entries) && capacity == old(capacity)
      ensures registered == old(registered) - {id} && IsTable(entries[..], registered)
      ensures Valid() <==> id > IRQ_TOMBSTONE || !old(Struck(entries[..], id))
      ensures !Valid() ==> used == if old(used) == 0 then WORD - 1 else old(used) - 1
    {
      hide IsTable, LiveSlots, At, Home;
      ReservedIdsAbsent(entries[..], registered);
      var home, n := Home(id, capacity), capacity;
      var idx := home;
      ghost var t := entries[..];
      for i := 0 to n
        invariant i < n ==> idx == At(home, i, n)
        invariant Valid() && entries == old(entries) && entries[..] == t && n == capacity
                  && registered == old(registered)
        invariant used == old(used) && capacity == old(capacity)
        invariant forall d :: 0 <= d < i ==> t[At(home, d, n)].id != id && t[At(home, d, n)].id != IRQ_NULL
      {
        if entries[idx].id == id {
          if id > IRQ_TOMBSTONE {
            DeleteKeepsTable(t, registered, idx);
            SomeLive(t, idx);
          } else {
            BuryKeepsTable(t, registered, idx);
            assert registered == registered - {id};
            assert FirstMet(t, id, i);
          }
          entries[idx] := DELETED;
          assert entries[..] == t[idx := DELETED];
          used := if used == 0 then WORD - 1 else used - 1;
          registered := registered - {id};
          return;
        }
        if entries[idx].id == IRQ_NULL {
          SearchIsComplete(t, registered, id, i);
          NotStruck(t, id, i);
          assert registered == registered - {id};
          return;
        }
        NextSlot(home, i, n);
        idx := (idx + 1) % n;
      }
      SearchIsComplete(t, registered, id, n);
      NotStruck(t, id, n);
      assert registered == registered - {id};
    }
  }

  /** The search for this id comes to a slot marked with it. */
  ghost predicate Struck(t: seq<Entry>, id: nat) {
    0 < |t| && exists d :: FirstMet(t, id, d)
  }

  lemma NotStruck(t: seq<Entry>, id: nat, d: nat)
    requires 0 < |t| && d <= |t| && (d == |t| || (t[At(Home(id, |t|), d, |t|)].id == IRQ_NULL && id != IRQ_NULL))
    requires forall i :: 0 <= i < d ==> t[At(Home(id, |t|), i, |t|)].id != id
    ensures !Struck(t, id)
  {
    hide At, Home;
  }

  lemma SomeLive(t: seq<Entry>, p: nat)
    requires p < |t| && IsLive(t[p])
    ensures |LiveSlots(t)| > 0
  {
    assert p in LiveSlots(t);
  }

  lemma NoTombstoneBefore(t: seq<Entry>, id: nat)
    requires forall p :: 0 <= p < |t| ==> t[p].id != IRQ_TOMBSTONE
    ensures !TombstoneBefore(t, id)
  {
    hide At, Home;
  }

  lemma EmptyTable(t: seq<Entry>, s: seq<Entry>)
    requires |t| > 0 && s == [] && forall p :: 0 <= p < |t| ==> t[p] == EMPTY
    ensures IsTable(t, map[]) && LiveSlots(t) == {} && Represents(s, map[]) && LiveSlots(s) == {}
  {
  }

  lemma RepresentsUnique(t: seq<Entry>, m: map<nat, Callback>, m': map<nat, Callback>)
    requires Represents(t, m) && Represents(t, m')
    ensures m == m'
  {
    forall id | id in m || id in m'
      ensures id in m && id in m' && m[id] == m'[id]
    {
      var p :| Holds(t, p, id);
    }
  }

  ghost predicate DistinctIds(t: seq<Entry>) {
    forall p, q :: 0 <= p < q < |t| && IsLive(t[p]) && IsLive(t[q]) ==> t[p].id != t[q].id
  }

  /** One more slot of the old table. */
  lemma OneMore(t: seq<Entry>, m: map<nat, Callback>, i: nat)
    requires i < |t| && Represents(t[..i], m) && DistinctIds(t)
    ensures !IsLive(t[i]) ==> Represents(t[..i + 1], m) && LiveSlots(t[..i + 1]) == LiveSlots(t[..i])
    ensures IsLive(t[i]) ==>
              t[i].id !in m && Represents(t[..i + 1], m[t[i].id := Callback(t[i].fn, t[i].userdata)])
              && |LiveSlots(t[..i + 1])| == |LiveSlots(t[..i])| + 1
  {
    var s, s' := t[..i], t[..i + 1];
    assert s' == s + [t[i]];
    NotYetThere(t, m, i);
    AppendRepresents(s, m, t[i]);
    assert LiveSlots(s') == LiveSlots(s) + if IsLive(t[i]) then {i} else {};
    hide Represents, DistinctIds;
  }

  lemma NotYetThere(t: seq<Entry>, m: map<nat, Callback>, i: nat)
    requires i < |t| && Represents(t[..i], m) && DistinctIds(t)
    ensures IsLive(t[i]) ==> t[i].id !in m
  {
  }

  lemma AppendRepresents(s: seq<Entry>, m: map<nat, Callback>, e: Entry)
    requires Represents(s, m) && (IsLive(e) ==> e.id !in m)
    ensures Represents(s + [e], if IsLive(e) then m[e.id := Callback(e.fn, e.userdata)] else m)
  {
    var s' := s + [e];
    forall id | id in m
      ensures exists p :: Holds(s', p, id)
    {
      var p :| Holds(s, p, id);
      assert Holds(s', p, id);
    }
    if IsLive(e) {
      assert Holds(s', |s|, e.id);
    }
  }

  /** The inner loop of irq_rehash: the first NULL slot takes the entry. */
  method InsertNew(a: array<Entry>, ghost m: map<nat, Callback>, e: Entry)
    requires IsTable(a[..], m) && IsLive(e) && e.id !in m
    requires |LiveSlots(a[..])| < a.Length
    requires forall p :: 0 <= p < a.Length ==> a[p].id != IRQ_TOMBSTONE
    modifies a
    ensures IsTable(a[..], m[e.id := Callback(e.fn, e.userdata)])
    ensures |LiveSlots(a[..])| == old(|LiveSlots(a[..])|) + 1
    ensures forall p :: 0 <= p < a.Length ==> a[p].id != IRQ_TOMBSTONE
  {
    var n := a.Length;
    var home := Home(e.id, n);
    var newIdx := home;
    ghost var t := a[..];
    FreeSlotExists(t, home);
    for i := 0 to n
      invariant i < n ==> newIdx == At(home, i, n)
      invariant a[..] == t
      invariant forall d :: 0 <= d < i ==> IsLive(t[At(home, d, n)])
    {
      if a[newIdx].id == IRQ_NULL {
        PutKeepsTable(t, m, i, e);
        a[newIdx] := e;
        assert a[..] == t[newIdx := e];
        return;
      }
      NextSlot(home, i, n);
      newIdx := (newIdx + 1) % n;
    }
    assert false;
  }

  // ----- runs ------------------------------------------------------------------------------

  datatype Op = Register(id: nat, fn: nat, userdata: nat) | Unregister(id: nat)

  /** What has been registered and not unregistered since. */
  ghost function Meaning(ops: seq<Op>): map<nat, Callback> {
    if ops == [] then map[]
    else
      var m := Meaning(ops[..|ops| - 1]);
      match ops[|ops| - 1]
      case Register(id, fn, userdata) => m[id := Callback(fn, userdata)]
      case Unregister(id) => m - {id}
  }

  /** Real ids and callbacks only, and no id registered twice at a time. */
  ghost predicate Allowed(ops: seq<Op>) {
    forall k {:trigger ops[k]} :: 0 <= k < |ops| ==>
      ops[k].id > IRQ_TOMBSTONE && (ops[k].Register? ==> ops[k].fn != NULL && ops[k].id !in Meaning(ops[..k]))
  }

  /** After any such sequence the table stands for its meaning. */
  method Run(ops: seq<Op>) returns (irqs: Irqs)
    requires Allowed(ops)
    ensures fresh(irqs) && irqs.Valid() && irqs.registered == Meaning(ops)
  {
    irqs := new Irqs();
    for k := 0 to |ops|
      invariant fresh(irqs) && fresh(irqs.entries) && irqs.Valid() && irqs.registered == Meaning(ops[..k])
    {
      assert ops[..k + 1][..k] == ops[..k];
      match ops[k]
      case Register(id, fn, userdata) =>
        var r := irqs.Register(id, fn, userdata);
      case Unregister(id) =>
        irqs.Unregister(id);
    }
    assert ops[..|ops|] == ops;
  }

  /** An id has a callback exactly when a registration of it was not followed by its removal,
      and the callback is the one given then. */
  lemma {:induction false} MeaningIsLastRegistration(ops: seq<Op>, id: nat)
    requires Allowed(ops)
    ensures id in Meaning(ops) <==> exists k: nat :: Stands(ops, k, id)
    ensures forall k: nat :: Stands(ops, k, id) ==> Meaning(ops)[id] == Callback(ops[k].fn, ops[k].userdata)
  {
    if ops != [] {
      var n := |ops| - 1;
      var before := ops[..n];
      assert Allowed(before) by {
        assert forall k :: 0 <= k < n ==> before[k] == ops[k] && before[..k] == ops[..k];
      }
      MeaningIsLastRegistration(before, id);
      assert before == ops[..n];
      forall k: nat | k < n
        ensures Stands(ops, k, id) <==> Stands(before, k, id) && ops[n] != Unregister(id)
      {
        StandsStep(ops, k, id);
      }
      if ops[n].id == id && ops[n].Register? {
        assert Stands(ops, n, id);
        assert id !in Meaning(before);
      } else if k: nat :| Stands(before, k, id) {
        assert Stands(ops, k, id) <==> ops[n] != Unregister(id);
      }
    }
  }

  lemma StandsStep(ops: seq<Op>, k: nat, id: nat)
    requires k + 1 < |ops|
    ensures Stands(ops, k, id) <==> Stands(ops[..|ops| - 1], k, id) && ops[|ops| - 1] != Unregister(id)
  {
    var before := ops[..|ops| - 1];
    assert before[k] == ops[k];
    assert forall j :: k < j < |before| ==> before[j] == ops[j];
  }

  /** The registration at k is of this id and has not been undone. */
  ghost predicate Stands(ops: seq<Op>, k: nat, id: nat) {
    k < |ops| && ops[k].Register? && ops[k].id == id && forall j :: k < j < |ops| ==> ops[j] != Unregister(id)
  }
}
