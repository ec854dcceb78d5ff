/**
 * One measurement round, `measure_once` of src/pingwatch/monitor.py: every
 * target is probed once, in list order, and each answer is recorded with
 * the target it belongs to.
 *
 * The outside world of a round is `world`: `world(i)` is what the network
 * and the operating system answer to the i-th probe of the round.
 */
module Round {
  import opened Wrappers
  import opened Probe

  /** The `(target, reachable, latency_ms)` triple of one probe. */
  datatype ProbeResult = ProbeResult(target: string, reachable: bool, latency: Option<real>)

  /** A result keeps the invariant every reading has: no latency when the
      target is unreachable. */
  predicate Consistent(r: ProbeResult) {
    Coherent(Reading(r.reachable, r.latency))
  }

  /** The result of probing `host` under `w`. */
  function Check(host: string, timeoutMs: int, windows: bool, w: World): (r: ProbeResult)
    ensures r.target == host && Consistent(r)
    ensures Reading(r.reachable, r.latency) == PingHost(host, timeoutMs, windows, w)
  {
    var reading := PingHost(host, timeoutMs, windows, w);
    ProbeResult(host, reading.reachable, reading.latency)
  }

  /** What a round over `targets` yields: the results of the probes in
      target order, the i-th probe answered by `world(i)`. */
  function ProbeAll(targets: seq<string>, timeoutMs: int, windows: bool,
                    world: nat -> World): (rs: seq<ProbeResult>)
    ensures |rs| == |targets|
  {
    if targets == [] then []
    else
      var n := |targets| - 1;
      ProbeAll(targets[..n], timeoutMs, windows, world)
      + [Check(targets[n], timeoutMs, windows, world(n))]
  }

  /** The i-th result is the probe of the i-th target, answered by the i-th
      answer of the world. */
  lemma {:induction false} ProbeAllAt(targets: seq<string>, timeoutMs: int, windows: bool,
                                      world: nat -> World, i: nat)
    requires i < |targets|
    ensures ProbeAll(targets, timeoutMs, windows, world)[i]
            == Check(targets[i], timeoutMs, windows, world(i))
  {
    var n := |targets| - 1;
    if i < n {
      ProbeAllAt(targets[..n], timeoutMs, windows, world, i);
    }
  }

  /** No probe aborts the round: there is one result per target, it names
      that target, duplicates included, and it keeps the reading invariant. */
  lemma ProbeAllTotal(targets: seq<string>, timeoutMs: int, windows: bool,
                      world: nat -> World)
    ensures var rs := ProbeAll(targets, timeoutMs, windows, world);
            |rs| == |targets|
            && (forall i :: 0 <= i < |rs| ==> rs[i].target == targets[i] && Consistent(rs[i]))
  {
    var rs := ProbeAll(targets, timeoutMs, windows, world);
    forall i | 0 <= i < |rs| ensures rs[i].target == targets[i] && Consistent(rs[i]) {
      ProbeAllAt(targets, timeoutMs, windows, world, i);
    }
  }

  /** A target's result depends only on its own probe: two worlds that agree
      at position i give the same i-th result, whatever the other targets
      answer. */
  lemma ProbeAllIsolated(targets: seq<string>, timeoutMs: int, windows: bool,
                          w1: nat -> World, w2: nat -> World, i: nat)
    requires i < |targets| && w1(i) == w2(i)
    ensures ProbeAll(targets, timeoutMs, windows, w1)[i] == ProbeAll(targets, timeoutMs, windows, w2)[i]
  {
    ProbeAllAt(targets, timeoutMs, windows, w1, i);
    ProbeAllAt(targets, timeoutMs, windows, w2, i);
  }

  /** `measure_once(targets, timeout)`: probe every target in order and
      collect the results. */
  method MeasureOnce(targets: seq<string>, timeoutMs: int, windows: bool,
                     world: nat -> World) returns (results: seq<ProbeResult>)
    ensures results == ProbeAll(targets, timeoutMs, windows, world)
  {
    results := [];
    var i := 0;
    while i < |targets|
      invariant 0 <= i <= |targets|
      invariant results == ProbeAll(targets[..i], timeoutMs, windows, world)
    {
      assert targets[..i + 1][..i] == targets[..i];
      results := results + [Check(targets[i], timeoutMs, windows, world(i))];
      i := i + 1;
    }
    assert targets[..i] == targets;
  }
}
