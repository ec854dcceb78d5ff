/**
 * The monitor loop of src/pingwatch/monitor.py: `append_csv`, which adds one
 * round to the CSV store, and `run_monitor`, which loads the targets and
 * runs `count` rounds, sleeping between them.
 *
 * A `Monitor` holds what the loop changes: the store (None while the CSV
 * file does not exist) and the trace of what the loop did with the clock,
 * the start of each round and each sleep. The clock is `clock(k)`, the
 * timestamp read at the start of round k; `world(k)(i)` answers the probe of
 * the i-th target in round k.
 */
module Monitor {
  import opened Wrappers
  import opened Targets
  import opened Probe
  import opened Round
  import opened Store

  /** What the loop does besides probing: start a round at an instant, or
      sleep for a number of seconds. */
  datatype Event = Measured(at: Instant) | Slept(seconds: real)

  /** How `run_monitor` ends: normally; with SystemExit because there is no
      target; or with the ValueError `time.sleep` raises for a negative
      interval, after the first round, when a second round is due. */
  datatype RunOutcome = Completed | NoTargets | SleepRejected

  /** `i in range(count)`. */
  predicate InRange(i: int, count: int) {
    0 <= i < count
  }

  /** The number of rounds `range(count)` yields: rounds 0 to n - 1 are
      exactly the indices `range(count)` produces. */
  function Rounds(count: int): (n: nat)
    ensures forall i: int :: InRange(i, n) <==> InRange(i, count)
  {
    if count < 0 then 0 else count
  }

  /** What a run is given besides the interval and the count: its targets,
      the probe timeout in milliseconds, whether the fallback uses the
      Windows flags, the clock (`clock(k)` is the timestamp read at the start
      of round k) and the world (`world(k)(i)` answers the probe of target i
      in round k). */
  datatype Setup = Setup(targets: seq<string>, timeoutMs: int, windows: bool,
                         clock: nat -> Instant, world: nat -> nat -> World)

  /** The results of round k. */
  function RoundResults(su: Setup, k: nat): (rs: seq<ProbeResult>)
    ensures |rs| == |su.targets|
  {
    ProbeAll(su.targets, su.timeoutMs, su.windows, su.world(k))
  }

  /** The rows round k appends: its results stamped with its timestamp. */
  function RoundRowsOf(su: Setup, k: nat): (rows: seq<Row>)
    ensures |rows| == |su.targets|
  {
    RoundRows(su.clock(k), RoundResults(su, k))
  }

  /** Blocks 0 to n - 1, one after the other. */
  function Flatten<T>(block: nat -> seq<T>, n: nat): seq<T>
  {
    if n == 0 then [] else Flatten(block, n - 1) + block(n - 1)
  }

  /** A file after blocks 0 to n - 1 have been appended to it one after the
      other, each as `append_csv` appends a round. */
  function Appended(file: Option<seq<Row>>, block: nat -> seq<Row>, n: nat): Option<seq<Row>>
  {
    if n == 0 then file else Some(Existing(Appended(file, block, n - 1)) + block(n - 1))
  }

  /** The rows of every round, round k being `RowsOf(su)(k)`. */
  function RowsOf(su: Setup): nat -> seq<Row>
  {
    (k: nat) => RoundRowsOf(su, k)
  }

  /** The data rows of the first n rounds, round after round. */
  function RunRows(su: Setup, n: nat): seq<Row>
  {
    Flatten(RowsOf(su), n)
  }

  /** The store once `done` rounds have been appended to `file`. */
  function StoreAfter(file: Option<seq<Row>>, su: Setup, done: nat): Option<seq<Row>>
  {
    Appended(file, RowsOf(su), done)
  }

  /** The trace of round k of a run of `total`: its start, then a sleep of
      the interval unless it is the last round. */
  function RoundEvents(clock: nat -> Instant, interval: real, k: nat, total: nat): seq<Event>
  {
    if k + 1 < total then [Measured(clock(k)), Slept(interval)] else [Measured(clock(k))]
  }

  /** The trace of the first `done` rounds of a run of `total`. */
  function Steps(clock: nat -> Instant, interval: real, done: nat, total: nat): seq<Event>
  {
    if done == 0 then []
    else Steps(clock, interval, done - 1, total) + RoundEvents(clock, interval, done - 1, total)
  }

  /** What running n rounds does to the store and the trace: all rounds,
      with a sleep between two rounds, unless the interval is negative and
      a second round is due; then `time.sleep` raises after the first round. */
  ghost predicate RanRounds(store0: Option<seq<Row>>, trace0: seq<Event>,
                            store: Option<seq<Row>>, trace: seq<Event>,
                            su: Setup, interval: real, n: nat, outcome: RunOutcome)
  {
    if interval < 0.0 && n >= 2 then
      outcome == SleepRejected
      && store == StoreAfter(store0, su, 1)
      && trace == trace0 + [Measured(su.clock(0))]
    else
      outcome == Completed
      && store == StoreAfter(store0, su, n)
      && trace == trace0 + Steps(su.clock, interval, n, n)
  }

  class Monitor {
    /** The CSV file: None while it does not exist, else its rows. */
    var store: Option<seq<Row>>
    /** What the loop has done with the clock so far. */
    var trace: seq<Event>

    constructor(file: Option<seq<Row>>)
      ensures store == file && trace == []
    {
      store := file;
      trace := [];
    }

    /** `append_csv(out_csv, ts, results)`: create the file with its header
        if it does not exist, then append one row per result in order. */
    method AppendCsv(ts: Instant, results: seq<ProbeResult>)
      modifies this
      ensures store == Some(Existing(old(store)) + RoundRows(ts, results))
      ensures trace == old(trace)
    {
      if store.None? {
        store := Some([Header]);
      }
      assert Existing(old(store)) + RoundRows(ts, results[..0]) == store.value;
      var i := 0;
      while i < |results|
        invariant 0 <= i <= |results|
        invariant store == Some(Existing(old(store)) + RoundRows(ts, results[..i]))
        invariant trace == old(trace)
      {
        RoundRowsStep(ts, results, i);
        assert store.value + [EncodeRow(ts, results[i])]
               == Existing(old(store)) + RoundRows(ts, results[..i + 1]);
        store := Some(store.value + [EncodeRow(ts, results[i])]);
        i := i + 1;
      }
      assert results[..i] == results;
    }

    /** `run_monitor(targets_file, out_csv, interval, count, timeout)` over
        the lines of the targets file: SystemExit before anything is written
        when no line names a target, else `count` rounds. */
    method Run(lines: seq<string>, interval: real, count: int, timeoutMs: int, windows: bool,
               clock: nat -> Instant, world: nat -> nat -> World) returns (outcome: RunOutcome)
      modifies this
      ensures LoadTargets(lines) == [] ==>
                outcome == NoTargets && store == old(store) && trace == old(trace)
      ensures LoadTargets(lines) != [] ==>
                RanRounds(old(store), old(trace), store, trace,
                          Setup(LoadTargets(lines), timeoutMs, windows, clock, world),
                          interval, Rounds(count), outcome)
    {
      var targets := LoadTargets(lines);
      if targets == [] {
        return NoTargets;
      }
      outcome := RunRounds(Setup(targets, timeoutMs, windows, clock, world), interval, Rounds(count));
    }

    /** The `for i in range(count)` loop of `run_monitor`. */
    method RunRounds(su: Setup, interval: real, n: nat) returns (outcome: RunOutcome)
      modifies this
      ensures RanRounds(old(store), old(trace), store, trace, su, interval, n, outcome)
    {
      ghost var store0, trace0 := store, trace;
      var i := 0;
      while i < n
        invariant 0 <= i <= n
        invariant store == StoreAfter(store0, su, i)
        invariant trace == trace0 + Steps(su.clock, interval, i, n)
        invariant interval < 0.0 && n >= 2 ==> i == 0
      {
        var rejected := RunRound(su, interval, i, n, store0, trace0);
        if rejected {
          assert trace0 + Steps(su.clock, interval, 0, n) == trace0;
          return SleepRejected;
        }
        i := i + 1;
      }
      return Completed;
    }

    /** One pass of the loop body: round i, then the sleep before round
        i + 1, which `time.sleep` rejects when the interval is negative. */
    method RunRound(su: Setup, interval: real, i: nat, n: nat,
                    ghost store0: Option<seq<Row>>, ghost trace0: seq<Event>) returns (rejected: bool)
      modifies this
      requires i < n
      requires store == StoreAfter(store0, su, i)
      requires trace == trace0 + Steps(su.clock, interval, i, n)
      ensures rejected <==> interval < 0.0 && i + 1 < n
      ensures store == StoreAfter(store0, su, i + 1)
      ensures !rejected ==> trace == trace0 + Steps(su.clock, interval, i + 1, n)
      ensures rejected ==> trace == trace0 + Steps(su.clock, interval, i, n) + [Measured(su.clock(i))]
    {
      StartRound(su, i);
      StoreAfterStep(store0, su, i);
      StepsStep(trace0, su.clock, interval, i, n);
      if i < n - 1 {
        if interval < 0.0 {
          return true;
        }
        trace := trace + [Slept(interval)];
      }
      return false;
    }

    /** The body of round k: read the clock, probe every target, append the
        results to the store. */
    method StartRound(su: Setup, k: nat)
      modifies this
      ensures store == Some(Existing(old(store)) + RoundRowsOf(su, k))
      ensures trace == old(trace) + [Measured(su.clock(k))]
    {
      var ts := su.clock(k);
      trace := trace + [Measured(ts)];
      var results := MeasureOnce(su.targets, su.timeoutMs, su.windows, su.world(k));
      AppendCsv(ts, results);
    }
  }

  /** Appending one more result to the rows of a round. */
  lemma RoundRowsStep(ts: Instant, results: seq<ProbeResult>, i: nat)
    requires i < |results|
    ensures RoundRows(ts, results[..i + 1]) == RoundRows(ts, results[..i]) + [EncodeRow(ts, results[i])]
  {
    assert results[..i + 1][..i] == results[..i];
  }

  /** One more round appended to the store. */
  lemma StoreAfterStep(file: Option<seq<Row>>, su: Setup, i: nat)
    ensures StoreAfter(file, su, i + 1) == Some(Existing(StoreAfter(file, su, i)) + RoundRowsOf(su, i))
  {
    assert RowsOf(su)(i) == RoundRowsOf(su, i);
  }

  /** After at least one block the file is as it was, or the header it was
      created with, followed by every block in order. */
  lemma {:induction false} AppendedFlatten(file: Option<seq<Row>>, block: nat -> seq<Row>, n: nat)
    requires n > 0
    ensures Appended(file, block, n) == Some(Existing(file) + Flatten(block, n))
  {
    var last := block(n - 1);
    if n == 1 {
      assert Flatten(block, 1) == [] + last;
      assert [] + last == last;
    } else {
      AppendedFlatten(file, block, n - 1);
      var earlier := Flatten(block, n - 1);
      assert Existing(Appended(file, block, n - 1)) == Existing(file) + earlier;
      assert Existing(file) + (earlier + last) == Existing(file) + earlier + last;
    }
  }

  /** Data blocks flatten to data rows. */
  lemma {:induction false} FlattenData(block: nat -> seq<Row>, n: nat)
    requires forall k: nat :: AllData(block(k))
    ensures AllData(Flatten(block, n))
  {
    if n > 0 {
      FlattenData(block, n - 1);
      AllDataAppend(Flatten(block, n - 1), block(n - 1));
    }
  }

  /** After at least one round the store is the file as it was, or the
      header it was created with, followed by the rows of every round. */
  lemma StoreAfterRows(file: Option<seq<Row>>, su: Setup, n: nat)
    requires n > 0
    ensures StoreAfter(file, su, n) == Some(Existing(file) + RunRows(su, n))
  {
    AppendedFlatten(file, RowsOf(su), n);
  }

  /** Every row a run appends is a data row. */
  lemma RunRowsData(su: Setup, n: nat)
    ensures AllData(RunRows(su, n))
  {
    forall k: nat ensures AllData(RowsOf(su)(k)) {
      RoundRowsData(su.clock(k), RoundResults(su, k));
    }
    FlattenData(RowsOf(su), n);
  }

  /** One more round of the trace: a sleep after it unless it is the last. */
  lemma StepsStep(before: seq<Event>, clock: nat -> Instant, interval: real, i: nat, n: nat)
    ensures i + 1 < n ==>
              before + Steps(clock, interval, i + 1, n)
              == before + Steps(clock, interval, i, n) + [Measured(clock(i))] + [Slept(interval)]
    ensures i + 1 >= n ==>
              before + Steps(clock, interval, i + 1, n)
              == before + Steps(clock, interval, i, n) + [Measured(clock(i))]
  {
    var earlier := Steps(clock, interval, i, n);
    var round := RoundEvents(clock, interval, i, n);
    assert before + (earlier + round) == before + earlier + round;
    if i + 1 < n {
      assert round == [Measured(clock(i))] + [Slept(interval)];
    }
  }

  /** Blocks of m items each make n * m items. */
  lemma {:induction false} FlattenLength<T>(block: nat -> seq<T>, n: nat, m: nat)
    requires forall j: nat :: |block(j)| == m
    ensures |Flatten(block, n)| == n * m
  {
    if n > 0 {
      FlattenLength(block, n - 1, m);
      MulPred(n, m);
    }
  }

  /** Later blocks only append: item x of the first j blocks stays item x. */
  lemma {:induction false} FlattenStable<T>(block: nat -> seq<T>, j: nat, n: nat, x: nat)
    requires j <= n && x < |Flatten(block, j)|
    ensures x < |Flatten(block, n)| && Flatten(block, n)[x] == Flatten(block, j)[x]
    decreases n - j
  {
    if j < n {
      assert Flatten(block, j + 1) == Flatten(block, j) + block(j);
      FlattenStable(block, j + 1, n, x);
    }
  }

  /** Item i of block k follows the items of the blocks before it. */
  lemma FlattenAt<T>(block: nat -> seq<T>, n: nat, k: nat, i: nat)
    requires k < n && i < |block(k)|
    ensures |Flatten(block, k)| + i < |Flatten(block, n)|
    ensures Flatten(block, n)[|Flatten(block, k)| + i] == block(k)[i]
  {
    assert Flatten(block, k + 1) == Flatten(block, k) + block(k);
    FlattenStable(block, k + 1, n, |Flatten(block, k)| + i);
  }

  lemma MulPred(n: nat, m: nat)
    requires n > 0
    ensures (n - 1) * m + m == n * m
  {
  }

  /** The store after a run holds `rounds * |targets|` data rows. */
  lemma RunRowsLength(su: Setup, n: nat)
    ensures |RunRows(su, n)| == n * |su.targets|
  {
    FlattenLength(RowsOf(su), n, |su.targets|);
  }

  /** Row i of round k is the probe of target i in that round. */
  lemma RoundRowAt(su: Setup, k: nat, i: nat)
    requires i < |su.targets|
    ensures RoundRowsOf(su, k)[i]
            == EncodeRow(su.clock(k), Check(su.targets[i], su.timeoutMs, su.windows, su.world(k)(i)))
  {
    RoundRowsAt(su.clock(k), RoundResults(su, k), i);
    ProbeAllAt(su.targets, su.timeoutMs, su.windows, su.world(k), i);
  }

  /** Row i of round k follows the rows of the rounds before it. */
  lemma RunRowsAt(su: Setup, n: nat, k: nat, i: nat)
    requires k < n && i < |su.targets|
    ensures |RunRows(su, k)| + i < |RunRows(su, n)|
    ensures RunRows(su, n)[|RunRows(su, k)| + i]
            == EncodeRow(su.clock(k), Check(su.targets[i], su.timeoutMs, su.windows, su.world(k)(i)))
  {
    assert RowsOf(su)(k) == RoundRowsOf(su, k);
    FlattenAt(RowsOf(su), n, k, i);
    RoundRowAt(su, k, i);
  }

  /** Rows are in round-major order: row k * |targets| + i is the result of
      probing target i in round k, stamped with that round's timestamp. */
  lemma RunRowsRoundMajor(su: Setup, n: nat, k: nat, i: nat, x: nat)
    requires k < n && i < |su.targets| && x == k * |su.targets| + i
    ensures x < |RunRows(su, n)|
    ensures RunRows(su, n)[x]
            == EncodeRow(su.clock(k), Check(su.targets[i], su.timeoutMs, su.windows, su.world(k)(i)))
  {
    var before := RunRows(su, k);
    RunRowsLength(su, k);
    assert x == |before| + i;
    RunRowsAt(su, n, k, i);
  }

  /** How many sleeps a trace holds. */
  function Sleeps(events: seq<Event>): (n: nat)
    ensures n <= |events|
  {
    if events == [] then 0
    else Sleeps(events[..|events| - 1]) + if events[|events| - 1].Slept? then 1 else 0
  }

  lemma {:induction false} SleepsAppend(a: seq<Event>, b: seq<Event>)
    ensures Sleeps(a + b) == Sleeps(a) + Sleeps(b)
    decreases |b|
  {
    if b == [] {
      assert a + b == a;
    } else {
      var last := |b| - 1;
      SleepsAppend(a, b[..last]);
      assert (a + b)[..|a + b| - 1] == a + b[..last];
    }
  }

  /** One round holds one sleep, unless it is the last of its run. */
  lemma RoundEventsShape(clock: nat -> Instant, interval: real, k: nat, total: nat)
    ensures var e := RoundEvents(clock, interval, k, total);
            |e| == (if k + 1 < total then 2 else 1)
            && Sleeps(e) == (if k + 1 < total then 1 else 0)
            && e[0] == Measured(clock(k))
            && (k + 1 < total ==> e[1] == Slept(interval))
  {
    var e := RoundEvents(clock, interval, k, total);
    assert e[..|e| - 1][..0] == [];
    if k + 1 < total {
      assert e[..1] == [Measured(clock(k))];
    }
  }

  /** The first `done` rounds of a run of `total` take two events each,
      but the last round of the run takes one. */
  lemma {:induction false} StepsLength(clock: nat -> Instant, interval: real, done: nat, total: nat)
    requires done <= total
    ensures |Steps(clock, interval, done, total)| == 2 * done - (if done == total && done > 0 then 1 else 0)
  {
    if done > 0 {
      StepsLength(clock, interval, done - 1, total);
      RoundEventsShape(clock, interval, done - 1, total);
    }
  }

  /** The first `done` rounds of a run of `total` sleep once per round, but
      not after the last round of the run. */
  lemma {:induction false} StepsSleeps(clock: nat -> Instant, interval: real, done: nat, total: nat)
    requires done <= total
    ensures Sleeps(Steps(clock, interval, done, total)) == (if done == total && done > 0 then done - 1 else done)
  {
    if done > 0 {
      StepsSleeps(clock, interval, done - 1, total);
      RoundEventsShape(clock, interval, done - 1, total);
      SleepsAppend(Steps(clock, interval, done - 1, total), RoundEvents(clock, interval, done - 1, total));
    }
  }

  /** A run of n rounds sleeps n - 1 times, never after its last round,
      and never when there is no round. */
  lemma RunSleeps(clock: nat -> Instant, interval: real, n: nat)
    ensures Sleeps(Steps(clock, interval, n, n)) == if n == 0 then 0 else n - 1
    ensures n > 0 ==> Steps(clock, interval, n, n)[|Steps(clock, interval, n, n)| - 1]
                      == Measured(clock(n - 1))
  {
    StepsSleeps(clock, interval, n, n);
    StepsLength(clock, interval, n, n);
    if n > 0 {
      StepsLength(clock, interval, n - 1, n);
      RoundEventsShape(clock, interval, n - 1, n);
    }
  }

  /** Round k of a run of `total` starts at position 2k of the trace, and is
      followed by a sleep of the interval unless it is the last round. */
  lemma {:induction false} StepsAt(clock: nat -> Instant, interval: real, done: nat, total: nat, k: nat)
    requires k < done <= total
    ensures 2 * k < |Steps(clock, interval, done, total)|
    ensures Steps(clock, interval, done, total)[2 * k] == Measured(clock(k))
    ensures k + 1 < total ==> (2 * k + 1 < |Steps(clock, interval, done, total)|
                               && Steps(clock, interval, done, total)[2 * k + 1] == Slept(interval))
  {
    var before := Steps(clock, interval, done - 1, total);
    StepsLength(clock, interval, done - 1, total);
    RoundEventsShape(clock, interval, done - 1, total);
    if k < done - 1 {
      StepsAt(clock, interval, done - 1, total, k);
    }
  }

  /** Appending rounds adds no header: the header count of the file after
      a run is that of the file before, or one when the run created it. */
  lemma RunHeaderCount(file: Option<seq<Row>>, su: Setup, n: nat)
    requires n > 0
    ensures HeaderCount(StoreAfter(file, su, n).value)
            == if file.None? then 1 else HeaderCount(file.value)
  {
    StoreAfterRows(file, su, n);
    RunRowsData(su, n);
    HeaderCountData(Existing(file), RunRows(su, n));
    if file.None? {
      assert [Header][..0] == [];
    }
  }

  /** A run keeps the file one the monitor wrote: a single header, then
      `|file| + rounds * |targets|` rows in all, each a data row. */
  lemma RunKeepsWellFormed(file: Option<seq<Row>>, su: Setup, n: nat)
    requires file.Some? ==> WellFormed(file.value)
    requires n > 0
    ensures WellFormed(StoreAfter(file, su, n).value)
    ensures HeaderCount(StoreAfter(file, su, n).value) == 1
    ensures |StoreAfter(file, su, n).value| == |Existing(file)| + n * |su.targets|
  {
    StoreAfterRows(file, su, n);
    RunRowsLength(su, n);
    RunRowsData(su, n);
    WellFormedAppend(file, RunRows(su, n));
    WellFormedOneHeader(Existing(file) + RunRows(su, n));
  }

  /** The row of a probe that got no answer. */
  function SilentRow(ts: Instant, host: string): Row {
    Row([Time(ts), Str(host), Int(0), Str("")])
  }

  /** Three rounds over one target that never answers, into a new file: the
      header, then one unreachable row per round stamped with that round's
      instant. */
  lemma SilentTargetExample(su: Setup)
    requires |su.targets| == 1
    requires forall k: nat :: su.world(k)(0).ping == NoReply
    ensures StoreAfter(None, su, 3)
            == Some([Header, SilentRow(su.clock(0), su.targets[0]),
                     SilentRow(su.clock(1), su.targets[0]), SilentRow(su.clock(2), su.targets[0])])
  {
    StoreAfterRows(None, su, 3);
    FlattenThree(RowsOf(su));
    SilentRound(su, 0);
    SilentRound(su, 1);
    SilentRound(su, 2);
    var t := su.targets[0];
    assert Existing(None) + ([SilentRow(su.clock(0), t)] + [SilentRow(su.clock(1), t)] + [SilentRow(su.clock(2), t)])
           == [Header, SilentRow(su.clock(0), t), SilentRow(su.clock(1), t), SilentRow(su.clock(2), t)];
  }

  lemma FlattenThree<T>(block: nat -> seq<T>)
    ensures Flatten(block, 3) == block(0) + block(1) + block(2)
  {
    assert Flatten(block, 1) == block(0);
  }

  /** Three rounds measure three times with a sleep between two rounds. */
  lemma ThreeRoundTrace(clock: nat -> Instant, interval: real)
    ensures Steps(clock, interval, 3, 3)
            == [Measured(clock(0)), Slept(interval), Measured(clock(1)), Slept(interval), Measured(clock(2))]
  {
    assert Steps(clock, interval, 1, 3) == [Measured(clock(0)), Slept(interval)];
    assert Steps(clock, interval, 2, 3)
           == [Measured(clock(0)), Slept(interval), Measured(clock(1)), Slept(interval)];
  }

  /** A round of one silent target appends one unreachable row. */
  lemma SilentRound(su: Setup, k: nat)
    requires |su.targets| == 1
    requires su.world(k)(0).ping == NoReply
    ensures RowsOf(su)(k) == [SilentRow(su.clock(k), su.targets[0])]
  {
    RoundRowAt(su, k, 0);
    assert Check(su.targets[0], su.timeoutMs, su.windows, su.world(k)(0)) == ProbeResult(su.targets[0], false, None);
  }
}
