/** The refund counter and the net cost of SSTORE. */
module EvmRefund {
  import opened Arithmetic
  import opened EvmTypes
  import opened EvmTable
  import opened EvmWorld
  import opened EvmGas

  /** Slots the transaction has cleared: committed non-zero, now zero. */
  ghost function Cleared(env: Env, w: World): set<Slot>
  {
    set s | s in w.storage && w.storage[s] == 0 && Committed(env, s) != 0
  }

  /** Every cleared slot is backed by its share of the refund counter. */
  ghost predicate RefundBacked(env: Env, w: World)
  {
    w.refund >= CLEAR_REFUND * |Cleared(env, w)|
  }

  lemma ClearedAfter(env: Env, w: World, s: Slot, v: Word)
    ensures s in Cleared(env, w) <==> State(env, w, s) == 0 && Committed(env, s) != 0
    ensures Cleared(env, SetState(w, s, v)) ==
            if v == 0 && Committed(env, s) != 0 then Cleared(env, w) + {s} else Cleared(env, w) - {s}
  {
  }

  /** Share of the refund counter a slot holds. */
  function Share(committed: Word, current: Word): nat
  {
    if committed != 0 && current == 0 then CLEAR_REFUND else 0
  }

  /** A write takes back at most the share its slot holds, and pays for the share it leaves. */
  lemma MeterShare(r: Rules, committed: Word, current: Word, value: Word)
    ensures var m := SstoreMeter(r, committed, current, value);
            && m.sub <= Share(committed, current)
            && Share(committed, value) <= Share(committed, current) - m.sub + m.add
  {
  }

  lemma ClearedCount(env: Env, w: World, s: Slot, v: Word)
    ensures CLEAR_REFUND * |Cleared(env, SetState(w, s, v))| ==
            CLEAR_REFUND * |Cleared(env, w)| - Share(Committed(env, s), State(env, w, s)) + Share(Committed(env, s), v)
    ensures Share(Committed(env, s), State(env, w, s)) <= CLEAR_REFUND * |Cleared(env, w)|
  {
    ClearedAfter(env, w, s, v);
    var c := Cleared(env, w);
    if s in c {
      assert c == (c - {s}) + {s};
    } else {
      assert c - {s} == c;
    }
  }

  /** A write under any metering finds the refund it takes back, and leaves every cleared slot backed. */
  lemma WriteKeepsBacked(env: Env, w: World, s: Slot, v: Word)
    requires RefundBacked(env, w)
    ensures var m := SstoreMeter(env.rules, Committed(env, s), State(env, w, s), v);
            && m.sub <= w.refund
            && RefundBacked(env, SetState(w.(refund := w.refund - m.sub + m.add), s, v))
  {
    var m := SstoreMeter(env.rules, Committed(env, s), State(env, w, s), v);
    MeterShare(env.rules, Committed(env, s), State(env, w, s), v);
    ClearedCount(env, w, s, v);
    assert Cleared(env, SetState(w.(refund := w.refund - m.sub + m.add), s, v)) == Cleared(env, SetState(w, s, v));
  }

  /** What a slot with the given committed value costs, above the base rate, when it holds `current`. */
  function Potential(noop: nat, committed: Word, current: Word): int
  {
    if current == committed then 0
    else if committed == 0 then 20000 - noop
    else if current == 0 then 5000 - noop - CLEAR_REFUND
    else 5000 - noop
  }

  /** The base rate in force when SSTORE is net metered. */
  ghost predicate NetMetered(r: Rules, noop: nat)
  {
    if TableOf(r).Since(Istanbul) then noop == 800 else r.constantinople && !r.petersburg && noop == 200
  }

  /** One write: charge minus net refund is the base rate plus the change of potential. */
  lemma MeterPotential(r: Rules, noop: nat, committed: Word, current: Word, value: Word)
    requires NetMetered(r, noop)
    ensures var m := SstoreMeter(r, committed, current, value);
            m.cost - m.add + m.sub == noop + Potential(noop, committed, value) - Potential(noop, committed, current)
  {
  }

  // ----- the writes of a transaction, to any slots in any order -----

  datatype SlotWrite = SlotWrite(slot: Slot, value: Word)

  function MeterOf(env: Env, w: World, x: SlotWrite): Meter
  {
    SstoreMeter(env.rules, Committed(env, x.slot), State(env, w, x.slot), x.value)
  }

  /** The state after a write: the refund counter moved and the slot set. */
  ghost function Written(env: Env, w: World, x: SlotWrite): (w': World)
    requires RefundBacked(env, w)
    ensures RefundBacked(env, w')
  {
    var m := MeterOf(env, w, x);
    WriteKeepsBacked(env, w, x.slot, x.value);
    SetState(w.(refund := w.refund - m.sub + m.add), x.slot, x.value)
  }

  ghost function AllWritten(env: Env, w: World, xs: seq<SlotWrite>): (w': World)
    requires RefundBacked(env, w)
    ensures RefundBacked(env, w')
    decreases |xs|
  {
    if xs == [] then w else AllWritten(env, Written(env, w, xs[0]), xs[1..])
  }

  /** What a write costs: its charge less what the refund counter gains by it. */
  ghost function NetOf(env: Env, w: World, x: SlotWrite): int
    requires RefundBacked(env, w)
  {
    MeterOf(env, w, x).cost - (Written(env, w, x).refund - w.refund)
  }

  /** What the writes to one slot cost, among the writes to all slots. */
  ghost function NetCost(env: Env, w: World, xs: seq<SlotWrite>, s: Slot): int
    requires RefundBacked(env, w)
    decreases |xs|
  {
    if xs == [] then 0
    else (if xs[0].slot == s then NetOf(env, w, xs[0]) else 0) + NetCost(env, Written(env, w, xs[0]), xs[1..], s)
  }

  /** The number of writes to a slot. */
  function Hits(xs: seq<SlotWrite>, s: Slot): nat
  {
    if xs == [] then 0 else (if xs[0].slot == s then 1 else 0) + Hits(xs[1..], s)
  }

  /** The last value written to a slot, or the one it had. */
  function Last(xs: seq<SlotWrite>, s: Slot, before: Word): Word
  {
    if xs == [] then before else Last(xs[1..], s, if xs[0].slot == s then xs[0].value else before)
  }

  /** One write, as a slot sees it. */
  lemma WriteSeen(env: Env, w: World, x: SlotWrite, s: Slot, noop: nat)
    requires RefundBacked(env, w) && NetMetered(env.rules, noop)
    ensures State(env, Written(env, w, x), s) == if x.slot == s then x.value else State(env, w, s)
    ensures NetOf(env, w, x) == noop + Potential(noop, Committed(env, x.slot), x.value)
                                     - Potential(noop, Committed(env, x.slot), State(env, w, x.slot))
  {
    hide RefundBacked, Potential, SstoreMeter;
    MeterPotential(env.rules, noop, Committed(env, x.slot), State(env, w, x.slot), x.value);
    WriteKeepsBacked(env, w, x.slot, x.value);
  }

  /**
   * Net metering is path independent, slot by slot: whatever is written to other slots in between, the writes to a slot
   * cost the base rate each and the difference of the potentials of its last and its first value.
   */
  lemma {:induction false} PathIndependence(env: Env, w: World, xs: seq<SlotWrite>, s: Slot, noop: nat)
    requires RefundBacked(env, w) && NetMetered(env.rules, noop)
    ensures var before := State(env, w, s);
            var after := Last(xs, s, before);
            && State(env, AllWritten(env, w, xs), s) == after
            && NetCost(env, w, xs, s) ==
               Times(Hits(xs, s), noop) + Potential(noop, Committed(env, s), after) - Potential(noop, Committed(env, s), before)
    decreases |xs|
  {
    hide State, Written, NetOf, RefundBacked, NetMetered, Potential, Committed;
    if xs != [] {
      WriteSeen(env, w, xs[0], s, noop);
      PathIndependence(env, Written(env, w, xs[0]), xs[1..], s, noop);
    }
  }

  /** Two transactions that write a slot equally often, between the same values, pay the same for it. */
  lemma SameEndsSameCost(env: Env, w: World, xs: seq<SlotWrite>, v: World, ys: seq<SlotWrite>, s: Slot, noop: nat)
    requires RefundBacked(env, w) && RefundBacked(env, v) && NetMetered(env.rules, noop)
    requires State(env, w, s) == State(env, v, s) && Hits(xs, s) == Hits(ys, s)
    requires State(env, AllWritten(env, w, xs), s) == State(env, AllWritten(env, v, ys), s)
    ensures NetCost(env, w, xs, s) == NetCost(env, v, ys, s)
  {
    hide *;
    PathIndependence(env, w, xs, s, noop);
    PathIndependence(env, v, ys, s, noop);
  }
}
