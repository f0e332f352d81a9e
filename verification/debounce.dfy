/**
 * The debounce gate of the interrupt handler. One `last_interrupt_time`
 * is shared by every pin: an edge is accepted only when at least 200 ms
 * (in unsigned 32-bit millisecond arithmetic) have passed since the last
 * accepted edge on any pin.
 */
module Debounce {
  import opened GpioTypes
  import opened Clock

  const DEBOUNCE_MS: int := 200

  /** The handler's test: it ignores the edge when `now - last < 200` in
      `unsigned int` arithmetic, and accepts it otherwise. Without
      wrap-around, that is: at least 200 ms after `last`. */
  predicate Accepts(now: u32, last: u32): (b: bool)
    ensures last <= now ==> (b <==> now as int - last as int >= DEBOUNCE_MS)
    ensures now == last ==> !b
  {
    !(Sub32(now, last) as int < DEBOUNCE_MS)
  }

  /** The gate's test written in exact arithmetic: the elapsed time, reduced
      modulo 2^32, is at least the window. */
  lemma AcceptsIffElapsedMod32(now: u32, last: u32)
    ensures Accepts(now, last) <==> (now as int - last as int) % U32_MODULUS >= DEBOUNCE_MS
  {
  }

  /** `acc` is obtained from `ts` by dropping some of its elements, keeping
      the rest in their order. */
  predicate Selection(acc: seq<u32>, ts: seq<u32>)
    decreases |ts|
  {
    acc == [] ||
    (ts != [] &&
     ((acc[0] == ts[0] && Selection(acc[1..], ts[1..])) || Selection(acc, ts[1..])))
  }

  /** The gate in front of a whole sequence of edges: which of them are
      accepted, in order, and the value `last_interrupt_time` holds after
      them. */
  function Filter(last: u32, ts: seq<u32>): (r: (seq<u32>, u32))
    ensures |r.0| <= |ts|
    ensures Selection(r.0, ts)
    ensures r.1 == if r.0 == [] then last else r.0[|r.0| - 1]
    decreases |ts|
  {
    if ts == [] then ([], last)
    else if Accepts(ts[0], last) then
      var rest := Filter(ts[0], ts[1..]);
      ([ts[0]] + rest.0, rest.1)
    else
      Filter(last, ts[1..])
  }

  /** Each edge of `acc` comes at least 200 ms (modulo 2^32) after the one
      before it, the first one after `last`. */
  predicate Spaced(last: u32, acc: seq<u32>)
  {
    (acc != [] ==> Accepts(acc[0], last)) &&
    forall k :: 0 < k < |acc| ==> Accepts(acc[k], acc[k - 1])
  }

  /** Every accepted edge comes at least 200 ms (modulo 2^32) after the
      previously accepted one, the first one after the initial `last`. */
  lemma {:induction false} FilterSpacing(last: u32, ts: seq<u32>)
    ensures Spaced(last, Filter(last, ts).0)
    decreases |ts|
  {
    if ts != [] {
      if Accepts(ts[0], last) {
        var rest := Filter(ts[0], ts[1..]).0;
        FilterSpacing(ts[0], ts[1..]);
        var acc := [ts[0]] + rest;
        assert Filter(last, ts).0 == acc;
        forall k | 1 < k < |acc|
          ensures Accepts(acc[k], acc[k - 1])
        {
          assert acc[k] == rest[k - 1] && acc[k - 1] == rest[k - 2];
        }
      } else {
        FilterSpacing(last, ts[1..]);
      }
    }
  }

  /** Feeding the edges to the handler one at a time: the edge after `ts`
      is accepted exactly when it passes the gate against the value
      `last_interrupt_time` holds after `ts`, and it is then appended to the
      accepted edges and becomes the new timestamp; otherwise nothing
      changes. */
  lemma {:induction false} FilterSnoc(last: u32, ts: seq<u32>, t: u32)
    ensures var f := Filter(last, ts);
      Filter(last, ts + [t]) == (if Accepts(t, f.1) then (f.0 + [t], t) else f)
    decreases |ts|
  {
    if ts == [] {
      assert ts + [t] == [t] && [t][1..] == [];
      assert Filter(t, []) == ([], t) && Filter(last, []) == ([], last);
      var e: seq<u32> := [];
      assert e + [t] == [t] && [t] + e == [t];
      assert Filter(last, [t]) == (if Accepts(t, last) then ([t], t) else ([], last));
    } else {
      var u := ts + [t];
      assert u[0] == ts[0] && u[1..] == ts[1..] + [t];
      if Accepts(ts[0], last) {
        FilterSnoc(ts[0], ts[1..], t);
        var rest := Filter(ts[0], ts[1..]);
        assert Filter(last, ts) == ([ts[0]] + rest.0, rest.1);
        assert [ts[0]] + (rest.0 + [t]) == ([ts[0]] + rest.0) + [t];
      } else {
        FilterSnoc(last, ts[1..], t);
      }
    }
  }

  /** An edge that arrives less than 200 ms after an accepted one is dropped;
      one that arrives 200 ms or more after it is delivered too. */
  lemma TwoEdges(last: u32, t: u32, gap: u32)
    requires Accepts(t, last)
    requires t as int + gap as int < U32_MODULUS
    ensures gap as int < DEBOUNCE_MS ==> Filter(last, [t, t + gap]).0 == [t]
    ensures DEBOUNCE_MS <= gap as int ==> Filter(last, [t, t + gap]).0 == [t, t + gap]
  {
    var ts := [t, t + gap];
    assert ts[1..] == [t + gap];
    assert Sub32(t + gap, t) == gap;
  }
}
