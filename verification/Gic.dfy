/**
 The interrupt loop of drivers/aarch64/gic_400.c: acknowledge, fire, end of interrupt, until
 the spurious id; GICv2 architecture specification (IHI 0048B), sections 4.4.4 and 4.4.5.
 */
module Gic {
  import opened IrqTable

  const SPURIOUS := 1023
  const IACT_PREEMPT := 1

  datatype Action =
    | Fire(callback: Callback)   // a registered callback runs
    | EndOfInterrupt(id: nat)    // a write to EOIR
    | Preempt                    // preempt_fire

  /** `irq & 0x2ff`, for the ten-bit ids of the acknowledge register. */
  function Mask(id: nat): nat { id / 512 % 2 * 512 + id % 256 }

  /** The callback registered for a GIC id, if it is mapped to one that has any. */
  function CallbackFor(registered: map<nat, Callback>, kirqs: seq<nat>, id: nat): seq<Callback> {
    if id < |kirqs| && kirqs[id] in registered then [registered[kirqs[id]]] else []
  }

  function FireActions(callbacks: seq<Callback>): seq<Action> {
    if callbacks == [] then [] else [Fire(callbacks[0])]
  }

  function WantsPreempt(run: (nat, nat) -> int, callbacks: seq<Callback>): bool {
    callbacks != [] && run(callbacks[0].fn, callbacks[0].userdata) == IACT_PREEMPT
  }

  /** Each id in order: its callback, then its end. */
  function Served(registered: map<nat, Callback>, kirqs: seq<nat>, ids: seq<nat>): seq<Action> {
    if ids == [] then []
    else
      var n := |ids| - 1;
      Served(registered, kirqs, ids[..n])
      + FireActions(CallbackFor(registered, kirqs, ids[n])) + [EndOfInterrupt(ids[n])]
  }

  function AnyWants(registered: map<nat, Callback>, kirqs: seq<nat>, run: (nat, nat) -> int, ids: seq<nat>): bool {
    exists k :: 0 <= k < |ids| && WantsPreempt(run, CallbackFor(registered, kirqs, ids[k]))
  }

  /** What handling these ids should do. */
  function Intended(registered: map<nat, Callback>, kirqs: seq<nat>, run: (nat, nat) -> int, ids: seq<nat>)
    : seq<Action>
  {
    Served(registered, kirqs, ids) + if AnyWants(registered, kirqs, run, ids) then [Preempt] else []
  }

  /** The ids as gic_400_handle takes them: the first read is masked, and not compared with the
      spurious id before it is handled. */
  function Taken(pending: seq<nat>): seq<nat> {
    [Mask(if pending == [] then SPURIOUS else pending[0])] + if pending == [] then [] else pending[1..]
  }

  /** The k-th read of the acknowledge register. */
  function ReadIar(pending: seq<nat>, k: nat): nat { if k < |pending| then pending[k] else SPURIOUS }

  /** The first k ids have been served. */
  predicate ServedSoFar(registered: map<nat, Callback>, kirqs: seq<nat>, run: (nat, nat) -> int, ids: seq<nat>, k: nat,
                        done: seq<Action>, preempt: bool)
  {
    k <= |ids| && done == Served(registered, kirqs, ids[..k]) && preempt == AnyWants(registered, kirqs, run, ids[..k])
  }

  /** After `count` reads the loop holds the id that is to be handled next, or has seen the end. */
  predicate Reading(pending: seq<nat>, count: nat, irq: nat, more: bool) {
    1 <= count <= |Taken(pending)| + 1
    && (more <==> count <= |Taken(pending)|)
    && (more ==> irq == Taken(pending)[count - 1])
  }

  lemma ReadNext(pending: seq<nat>, count: nat, irq: nat)
    requires forall i :: 0 <= i < |pending| ==> pending[i] < SPURIOUS
    requires Reading(pending, count, irq, true)
    ensures Reading(pending, count + 1, ReadIar(pending, count), ReadIar(pending, count) != SPURIOUS)
  {
  }

  lemma AllServed(registered: map<nat, Callback>, kirqs: seq<nat>, run: (nat, nat) -> int, ids: seq<nat>,
                  done: seq<Action>, preempt: bool)
    requires ServedSoFar(registered, kirqs, run, ids, |ids|, done, preempt)
    ensures done + (if preempt then [Preempt] else []) == Intended(registered, kirqs, run, ids)
  {
    assert ids[..|ids|] == ids;
  }

  /** gic_400_handle, as the actions it takes. */
  method Handle(irqs: Irqs, kirqs: seq<nat>, run: (nat, nat) -> int, pending: seq<nat>) returns (done: seq<Action>)
    requires irqs.Valid()
    requires forall i :: 0 <= i < |kirqs| ==> kirqs[i] != IRQ_TOMBSTONE
    requires forall i :: 0 <= i < |pending| ==> pending[i] < SPURIOUS
    ensures done == Intended(irqs.registered, kirqs, run, Taken(pending))
    ensures var ids := if pending == [] then [767] else [pending[0] - pending[0] / 256 % 2 * 256] + pending[1..];
            && Ends(done) == ids && FiredBeforeEnds(irqs.registered, kirqs, done)
            && (Preempt in done <==>
                  exists k :: 0 <= k < |ids| && ids[k] < |kirqs| && kirqs[ids[k]] in irqs.registered
                    && run(irqs.registered[kirqs[ids[k]]].fn, irqs.registered[kirqs[ids[k]]].userdata) == 1)
  {
    hide Ends, FiredBeforeEnds, Served, AnyWants, ServedSoFar, Taken, Mask, Intended, Irqs.Valid;
    ghost var registered := irqs.registered;
    ghost var taken := Taken(pending);
    var irq: nat := Mask(ReadIar(pending, 0));
    var count := 1;
    var preempt := false;
    NothingServed(registered, kirqs, run, pending);
    done := [];
    var more := true;
    while more
      invariant Reading(pending, count, irq, more)
      invariant ServedSoFar(registered, kirqs, run, taken, count - 1, done, preempt)
      decreases |taken| + 1 - count
    {
      ghost var before := done;
      OneServed(registered, kirqs, run, taken, count - 1, done, preempt);
      if irq < |kirqs| {
        irqs.ValidLength();
        var fired := irqs.Fire(kirqs[irq], run);
        match fired
        case Called(callback, iact) =>
          done := done + [Fire(callback)];
          if iact == IACT_PREEMPT {
            preempt := true;
          }
        case NotFound =>
        case Panicked =>
      }
      assert before + [] == before;
      done := done + [EndOfInterrupt(irq)];
      ReadNext(pending, count, irq);
      irq := ReadIar(pending, count);
      count := count + 1;
      more := irq != SPURIOUS;
    }
    AllServed(registered, kirqs, run, taken, done, preempt);
    TakenIs(pending);
    IntendedIs(registered, kirqs, run, taken);
    if preempt {
      done := done + [Preempt];
    }
  }

  lemma NothingServed(registered: map<nat, Callback>, kirqs: seq<nat>, run: (nat, nat) -> int, pending: seq<nat>)
    ensures ServedSoFar(registered, kirqs, run, Taken(pending), 0, [], false)
    ensures Reading(pending, 1, Mask(ReadIar(pending, 0)), true)
  {
  }

  lemma OneServed(registered: map<nat, Callback>, kirqs: seq<nat>, run: (nat, nat) -> int, ids: seq<nat>, k: nat,
                  done: seq<Action>, preempt: bool)
    requires k < |ids| && ServedSoFar(registered, kirqs, run, ids, k, done, preempt)
    ensures var callbacks := CallbackFor(registered, kirqs, ids[k]);
            ServedSoFar(registered, kirqs, run, ids, k + 1, done + FireActions(callbacks) + [EndOfInterrupt(ids[k])],
                        preempt || WantsPreempt(run, callbacks))
  {
    assert ids[..k + 1][..k] == ids[..k];
    if AnyWants(registered, kirqs, run, ids[..k]) {
      var j :| 0 <= j < k && WantsPreempt(run, CallbackFor(registered, kirqs, ids[..k][j]));
      assert ids[..k + 1][j] == ids[..k][j];
    }
    assert ids[..k + 1][k] == ids[k];
    if AnyWants(registered, kirqs, run, ids[..k + 1]) && !WantsPreempt(run, CallbackFor(registered, kirqs, ids[k])) {
      var j :| 0 <= j < k + 1 && WantsPreempt(run, CallbackFor(registered, kirqs, ids[..k + 1][j]));
      assert ids[..k][j] == ids[..k + 1][j];
    }
  }

  // ----- what the intended actions are -----------------------------------------------------

  function Ends(actions: seq<Action>): seq<nat> {
    if actions == [] then []
    else
      var n := |actions| - 1;
      Ends(actions[..n]) + if actions[n].EndOfInterrupt? then [actions[n].id] else []
  }

  function Fires(actions: seq<Action>): seq<Callback> {
    if actions == [] then []
    else
      var n := |actions| - 1;
      Fires(actions[..n]) + if actions[n].Fire? then [actions[n].callback] else []
  }

  function AllCallbacks(registered: map<nat, Callback>, kirqs: seq<nat>, ids: seq<nat>): seq<Callback> {
    if ids == [] then []
    else AllCallbacks(registered, kirqs, ids[..|ids| - 1]) + CallbackFor(registered, kirqs, ids[|ids| - 1])
  }

  lemma Appended(actions: seq<Action>, a: Action)
    ensures Ends(actions + [a]) == Ends(actions) + if a.EndOfInterrupt? then [a.id] else []
    ensures Fires(actions + [a]) == Fires(actions) + if a.Fire? then [a.callback] else []
  {
    assert (actions + [a])[..|actions|] == actions;
  }

  /** What serving one more id adds. */
  lemma OneMore(before: seq<Action>, callbacks: seq<Callback>, id: nat)
    requires |callbacks| <= 1
    ensures var after := before + FireActions(callbacks) + [EndOfInterrupt(id)];
            Ends(after) == Ends(before) + [id] && Fires(after) == Fires(before) + callbacks
            && (Preempt in after <==> Preempt in before)
  {
    hide Ends, Fires;
    var middle := before + FireActions(callbacks);
    if callbacks != [] {
      Appended(before, Fire(callbacks[0]));
    } else {
      assert middle == before;
    }
    Appended(middle, EndOfInterrupt(id));
  }

  lemma NoActions()
    ensures Ends([]) == [] && Fires([]) == []
  {
  }

  /** Every id is ended exactly once, in order, and exactly the registered callbacks of the ids
      run, in order. */
  lemma {:induction false} ServedEndsAndFires(registered: map<nat, Callback>, kirqs: seq<nat>, ids: seq<nat>)
    ensures Ends(Served(registered, kirqs, ids)) == ids
    ensures Fires(Served(registered, kirqs, ids)) == AllCallbacks(registered, kirqs, ids)
    ensures Preempt !in Served(registered, kirqs, ids)
  {
    hide Ends, Fires, FireActions;
    if ids == [] {
      NoActions();
    } else {
      var n := |ids| - 1;
      ServedEndsAndFires(registered, kirqs, ids[..n]);
      OneMore(Served(registered, kirqs, ids[..n]), CallbackFor(registered, kirqs, ids[n]), ids[n]);
      assert ids == ids[..n] + [ids[n]];
    }
  }

  /** A callback runs directly before the end of the id it is registered for, and an end of an id
      with a callback directly after it: with the ends in order, that is all the handler does. */
  ghost predicate FiredBeforeEnds(registered: map<nat, Callback>, kirqs: seq<nat>, actions: seq<Action>) {
    forall p :: 0 <= p < |actions| ==> IsPaired(registered, kirqs, actions, p)
  }

  predicate IsPaired(registered: map<nat, Callback>, kirqs: seq<nat>, actions: seq<Action>, p: nat)
    requires p < |actions|
  {
    match actions[p]
    case Fire(_) => p + 1 < |actions| && actions[p + 1].EndOfInterrupt?
    case EndOfInterrupt(id) =>
      if id < |kirqs| && kirqs[id] in registered then p > 0 && actions[p - 1] == Fire(registered[kirqs[id]])
      else p == 0 || !actions[p - 1].Fire?
    case Preempt => true
  }

  lemma StillPaired(registered: map<nat, Callback>, kirqs: seq<nat>, before: seq<Action>, more: seq<Action>, p: nat)
    requires p < |before| && IsPaired(registered, kirqs, before, p)
    ensures IsPaired(registered, kirqs, before + more, p)
  {
    var after := before + more;
    assert after[p] == before[p] && (p > 0 ==> after[p - 1] == before[p - 1]);
    assert p + 1 < |before| ==> after[p + 1] == before[p + 1];
  }

  /** One more action that is no callback. */
  lemma OneMoreAction(registered: map<nat, Callback>, kirqs: seq<nat>, before: seq<Action>, a: Action)
    requires FiredBeforeEnds(registered, kirqs, before) && !a.Fire?
    requires a.EndOfInterrupt? ==> !(a.id < |kirqs| && kirqs[a.id] in registered)
    ensures FiredBeforeEnds(registered, kirqs, before + [a])
  {
    assert before != [] ==> IsPaired(registered, kirqs, before, |before| - 1);
    forall p | 0 <= p < |before + [a]| ensures IsPaired(registered, kirqs, before + [a], p) {
      if p < |before| {
        StillPaired(registered, kirqs, before, [a], p);
      }
    }
  }

  /** A callback and the end of its id. */
  lemma OneMorePair(registered: map<nat, Callback>, kirqs: seq<nat>, before: seq<Action>, id: nat)
    requires FiredBeforeEnds(registered, kirqs, before) && id < |kirqs| && kirqs[id] in registered
    ensures FiredBeforeEnds(registered, kirqs, before + [Fire(registered[kirqs[id]]), EndOfInterrupt(id)])
  {
    var pair := [Fire(registered[kirqs[id]]), EndOfInterrupt(id)];
    forall p | 0 <= p < |before + pair| ensures IsPaired(registered, kirqs, before + pair, p) {
      if p < |before| {
        StillPaired(registered, kirqs, before, pair, p);
      }
    }
  }

  lemma {:induction false} FiresBeforeItsEnd(registered: map<nat, Callback>, kirqs: seq<nat>, ids: seq<nat>)
    ensures FiredBeforeEnds(registered, kirqs, Served(registered, kirqs, ids))
  {
    if ids != [] {
      var n := |ids| - 1;
      var before := Served(registered, kirqs, ids[..n]);
      FiresBeforeItsEnd(registered, kirqs, ids[..n]);
      if ids[n] < |kirqs| && kirqs[ids[n]] in registered {
        OneMorePair(registered, kirqs, before, ids[n]);
        var fire, end := Fire(registered[kirqs[ids[n]]]), EndOfInterrupt(ids[n]);
        assert before + [fire] + [end] == before + [fire, end];
      } else {
        OneMoreAction(registered, kirqs, before, EndOfInterrupt(ids[n]));
        assert before + [] == before;
      }
      hide FiredBeforeEnds;
    }
  }

  /** What handling these ids does. */
  lemma IntendedIs(registered: map<nat, Callback>, kirqs: seq<nat>, run: (nat, nat) -> int, ids: seq<nat>)
    ensures var actions := Intended(registered, kirqs, run, ids);
            && Ends(actions) == ids && FiredBeforeEnds(registered, kirqs, actions)
            && (Preempt in actions <==>
                  exists k :: 0 <= k < |ids| && ids[k] < |kirqs| && kirqs[ids[k]] in registered
                    && run(registered[kirqs[ids[k]]].fn, registered[kirqs[ids[k]]].userdata) == 1)
  {
    var served, actions := Served(registered, kirqs, ids), Intended(registered, kirqs, run, ids);
    EndsIntended(registered, kirqs, run, ids);
    PreemptIsLast(registered, kirqs, run, ids);
    FiresBeforeItsEnd(registered, kirqs, ids);
    OneMoreAction(registered, kirqs, served, Preempt);
    assert served + [] == served;
    hide Ends, Served, AnyWants, FiredBeforeEnds;
  }

  lemma WantsIff(registered: map<nat, Callback>, kirqs: seq<nat>, run: (nat, nat) -> int, ids: seq<nat>)
    ensures AnyWants(registered, kirqs, run, ids) <==>
            exists k :: 0 <= k < |ids| && ids[k] < |kirqs| && kirqs[ids[k]] in registered
              && run(registered[kirqs[ids[k]]].fn, registered[kirqs[ids[k]]].userdata) == 1
  {
    forall k | 0 <= k < |ids|
      ensures WantsPreempt(run, CallbackFor(registered, kirqs, ids[k])) <==>
              ids[k] < |kirqs| && kirqs[ids[k]] in registered
              && run(registered[kirqs[ids[k]]].fn, registered[kirqs[ids[k]]].userdata) == 1
    {
    }
    hide WantsPreempt, CallbackFor;
  }

  /** preempt_fire runs exactly when the callback registered for one of the ids returned
      IACT_PREEMPT, which is 1; once, and after everything else. */
  lemma PreemptIsLast(registered: map<nat, Callback>, kirqs: seq<nat>, run: (nat, nat) -> int, ids: seq<nat>)
    ensures var actions := Intended(registered, kirqs, run, ids);
            (Preempt in actions <==> AnyWants(registered, kirqs, run, ids))
            && (Preempt in actions <==>
                  exists k :: 0 <= k < |ids| && ids[k] < |kirqs| && kirqs[ids[k]] in registered
                    && run(registered[kirqs[ids[k]]].fn, registered[kirqs[ids[k]]].userdata) == 1)
            && forall k :: 0 <= k < |actions| && actions[k] == Preempt ==> k == |actions| - 1
  {
    WantsIff(registered, kirqs, run, ids);
    hide Ends, Fires, Served, AnyWants, AllCallbacks;
    ServedEndsAndFires(registered, kirqs, ids);
    var served := Served(registered, kirqs, ids);
    if AnyWants(registered, kirqs, run, ids) {
      assert Intended(registered, kirqs, run, ids)[|served|] == Preempt;
    }
  }

  /** The handler does what it should exactly when an interrupt is pending and the mask leaves
      the first id alone, that is, when bit 8 of that id is clear. */
  lemma HandlesAsIntendedIff(registered: map<nat, Callback>, kirqs: seq<nat>, run: (nat, nat) -> int, pending: seq<nat>)
    requires forall i :: 0 <= i < |pending| ==> pending[i] < SPURIOUS
    ensures Intended(registered, kirqs, run, Taken(pending)) == Intended(registered, kirqs, run, pending)
            <==> pending != [] && pending[0] / 256 % 2 == 0
  {
    hide Served, AnyWants;
    EndsIntended(registered, kirqs, run, pending);
    EndsIntended(registered, kirqs, run, Taken(pending));
    if pending != [] {
      MaskKeepsIff(pending[0]);
      assert pending == [pending[0]] + pending[1..];
      assert Taken(pending)[0] == Mask(pending[0]);
    }
  }

  /** Id 256, pending first, is taken for id 0: that one is ended. */
  lemma MaskExample(registered: map<nat, Callback>, kirqs: seq<nat>, run: (nat, nat) -> int)
    ensures Taken([256]) == [0]
    ensures Ends(Intended(registered, kirqs, run, Taken([256]))) == [0]
    ensures Ends(Intended(registered, kirqs, run, [256])) == [256]
  {
    hide Ends, Intended;
    EndsIntended(registered, kirqs, run, Taken([256]));
    EndsIntended(registered, kirqs, run, [256]);
  }

  lemma MaskKeepsIff(id: nat)
    requires id < 1024
    ensures Mask(id) == id <==> id / 256 % 2 == 0
  {
  }

  /** The mask clears bit 8 of a ten-bit id and keeps the other nine. */
  lemma MaskClearsBit8(id: nat)
    requires id < 1024
    ensures Mask(id) == id - id / 256 % 2 * 256
  {
  }

  /** The first pending id is taken without its bit 8 and the others as they are; with none pending,
      the spurious id is taken as 767. */
  lemma TakenIs(pending: seq<nat>)
    requires forall i :: 0 <= i < |pending| ==> pending[i] < 1023
    ensures Taken(pending) ==
            if pending == [] then [767] else [pending[0] - pending[0] / 256 % 2 * 256] + pending[1..]
  {
    MaskClearsBit8(if pending == [] then 1023 else pending[0]);
    hide Mask;
  }

  lemma EndsIntended(registered: map<nat, Callback>, kirqs: seq<nat>, run: (nat, nat) -> int, ids: seq<nat>)
    ensures Ends(Intended(registered, kirqs, run, ids)) == ids
  {
    ServedEndsAndFires(registered, kirqs, ids);
    var served := Served(registered, kirqs, ids);
    Appended(served, Preempt);
    assert served + [] == served;
  }
}
