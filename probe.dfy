/**
 * The prober of src/pingwatch/monitor.py: `_ping_host`, which tries the
 * privileged ICMP probe of the ping3 library first, and
 * `_ping_via_subprocess`, the fallback that runs the operating system's
 * `ping` utility and reads its exit code and output.
 *
 * Nothing here touches the network. What the outside world answers is a
 * `World`: the outcome of the ping3 call, and the outcome the subprocess
 * call would have for each command line it might be given.
 */
module Probe {
  import opened Wrappers
  import opened Text
  import opened PingOutput

  /** What the ping3 call ends in. `Rtt` is a round-trip time it returned;
      `NoReply` is its None; `PermissionDenied` is a raised PermissionError;
      `OtherError` is any other exception, including failing to import ping3. */
  datatype PrimaryOutcome = Rtt(ms: real) | NoReply | PermissionDenied | OtherError

  /** What `subprocess.run` ends in: an exception (the timeout of one second
      beyond the probe timeout, a missing `ping` executable, an undecodable
      output), or an exit code with the captured stdout and stderr. */
  datatype ExecOutcome = Raised | Exited(code: int, stdout: string, stderr: string)

  /** The outside world as one probe sees it. */
  datatype World = World(ping: PrimaryOutcome, run: seq<string> -> ExecOutcome)

  /** The `(reachable, latency_ms)` pair a probe returns. */
  datatype Reading = Reading(reachable: bool, latency: Option<real>)

  /** An unreachable target never carries a latency. */
  predicate Coherent(r: Reading) {
    !r.reachable ==> r.latency.None?
  }

  const Unreachable := Reading(false, None)

  /** The command line of the fallback: one echo request and a timeout,
      with the Windows flags or the POSIX ones, the host always last. */
  function FallbackCommand(host: string, timeoutMs: int, windows: bool): (cmd: seq<string>)
    ensures |cmd| == 6 && cmd[0] == "ping" && cmd[2] == "1" && cmd[5] == host
    ensures windows ==> cmd[1] == "-n" && cmd[3] == "-w"
    ensures !windows ==> cmd[1] == "-c" && cmd[3] == "-W"
  {
    if windows then ["ping", "-n", "1", "-w", IntToString(timeoutMs), host]
    else ["ping", "-c", "1", "-W", IntToString(TruncDiv(timeoutMs, 1000)), host]
  }

  /** The timeout argument is written in decimal: in milliseconds on
      Windows, in whole seconds truncated toward zero elsewhere. */
  lemma FallbackTimeout(host: string, timeoutMs: int, windows: bool)
    ensures windows ==> Denotes(FallbackCommand(host, timeoutMs, windows)[4], timeoutMs)
    ensures !windows ==> Denotes(FallbackCommand(host, timeoutMs, windows)[4], TruncDiv(timeoutMs, 1000))
  {
  }

  /** A capture turned into a reading: `float()` of it, or the caught
      exception when it is not a number. */
  function ReadingOf(group: string): (r: Reading)
    requires AllNumeric(group)
    ensures Coherent(r)
    ensures r.reachable <==> ParseDecimal(group).Some?
    ensures r.latency == ParseDecimal(group)
  {
    match ParseDecimal(group)
    case Some(v) => Reading(true, Some(v))
    case None => Unreachable
  }

  /** The reading drawn from the text of a zero-exit `ping`: the first "time"
      capture if there is one, else the first "Average" capture, else
      reachable with no latency. */
  function ParseOutput(out: string): (r: Reading)
    ensures Coherent(r)
    ensures r.latency.Some? ==> r.latency.value >= 0.0
    ensures !r.reachable ==> FirstGroup(TimePattern, out).Some?
  {
    match FirstGroup(TimePattern, out)
    case Some(g) =>
      assert AllNumeric(g) by {
        forall x | 0 <= x < |g| ensures IsNumeric(g[x]) { assert InClass(g[x], DigitOrDot); }
      }
      ReadingOf(g)
    case None =>
      match FirstGroup(AveragePattern, out)
      case Some(g) =>
        assert AllNumeric(g) by {
          forall x | 0 <= x < |g| ensures IsNumeric(g[x]) { assert InClass(g[x], Digit); }
        }
        assert AllDigits(g) by {
          forall x | 0 <= x < |g| ensures IsDigit(g[x]) { assert InClass(g[x], Digit); }
        }
        IntegerValue(g);
        ReadingOf(g)
      case None => Reading(true, None)
  }

  /** `_ping_via_subprocess` once the command has run: a raised exception or
      a non-zero exit is unreachable; a zero exit is read from stdout and
      stderr joined by a newline. */
  function Interpret(o: ExecOutcome): (r: Reading)
    ensures Coherent(r)
    ensures o.Raised? || o.code != 0 ==> r == Unreachable
    ensures o.Exited? && o.code == 0 ==> r == ParseOutput(o.stdout + "\n" + o.stderr)
  {
    match o
    case Raised => Unreachable
    case Exited(code, stdout, stderr) =>
      if code != 0 then Unreachable else ParseOutput(stdout + "\n" + stderr)
  }

  /** `_ping_via_subprocess(host, timeout)`: run the fallback command and
      interpret what it ends in. */
  function PingViaSubprocess(host: string, timeoutMs: int, windows: bool,
                             run: seq<string> -> ExecOutcome): (r: Reading)
    ensures Coherent(r)
  {
    Interpret(run(FallbackCommand(host, timeoutMs, windows)))
  }

  /** `_ping_host(host, timeout)`: a round-trip time is reachable with that
      latency; no reply or any error other than a permission failure is
      unreachable; a permission failure falls back to the subprocess. */
  function PingHost(host: string, timeoutMs: int, windows: bool, w: World): (r: Reading)
    ensures Coherent(r)
    ensures w.ping.PermissionDenied? ==> r == PingViaSubprocess(host, timeoutMs, windows, w.run)
    ensures !w.ping.PermissionDenied? ==> (r.reachable <==> w.ping.Rtt?)
    ensures w.ping.Rtt? ==> r.latency == Some(w.ping.ms)
  {
    match w.ping
    case Rtt(ms) => Reading(true, Some(ms))
    case NoReply => Unreachable
    case PermissionDenied => PingViaSubprocess(host, timeoutMs, windows, w.run)
    case OtherError => Unreachable
  }

  /** Only a permission failure runs the fallback: for every other outcome of
      ping3 the result does not depend on what the subprocess would do. */
  lemma FallbackOnlyOnPermission(host: string, timeoutMs: int, windows: bool, w1: World, w2: World)
    requires w1.ping == w2.ping && !w1.ping.PermissionDenied?
    ensures PingHost(host, timeoutMs, windows, w1) == PingHost(host, timeoutMs, windows, w2)
  {
  }

  /** A zero exit is reported unreachable only when the first "time" capture
      is not a number (such as "1.2.3" or "."): a host that answered is
      otherwise reachable, with or without a latency. */
  lemma ZeroExitReachable(stdout: string, stderr: string)
    ensures var out := stdout + "\n" + stderr;
            var r := Interpret(Exited(0, stdout, stderr));
            !r.reachable <==> (FirstGroup(TimePattern, out).Some?
                               && ParseDecimal(FirstGroup(TimePattern, out).value).None?)
  {
    var out := stdout + "\n" + stderr;
    var t := FirstGroup(TimePattern, out);
    if t.Some? {
      assert AllNumeric(t.value) by {
        forall x | 0 <= x < |t.value| ensures IsNumeric(t.value[x]) {
          assert InClass(t.value[x], DigitOrDot);
        }
      }
    }
  }

  /** The leftmost "time" match decides, whatever "Average" matches follow. */
  lemma TimeTakesPrecedence(out: string, p: nat, a: nat, i: nat, j: nat, k: nat)
    requires Form(TimePattern, out, p, a, i, j, k)
    requires forall q: nat, a': nat, i': nat, j': nat, k': nat ::
               q < p ==> !Form(TimePattern, out, q, a', i', j', k')
    ensures AllNumeric(out[i..j])
    ensures ParseOutput(out) == ReadingOf(out[i..j])
  {
    FirstGroupAt(TimePattern, out, p, a, i, j, k);
    assert AllNumeric(out[i..j]) by {
      forall x | 0 <= x < j - i ensures IsNumeric(out[i..j][x]) {
        assert InClass(out[i..j][x], DigitOrDot);
      }
    }
  }

  /** Without any "time" match, the leftmost "Average" match gives the
      latency, its digits read as an integer number of milliseconds. */
  lemma AverageWhenNoTime(out: string, p: nat, a: nat, i: nat, j: nat, k: nat)
    requires forall q: nat, a': nat, i': nat, j': nat, k': nat ::
               !Form(TimePattern, out, q, a', i', j', k')
    requires Form(AveragePattern, out, p, a, i, j, k)
    requires forall q: nat, a': nat, i': nat, j': nat, k': nat ::
               q < p ==> !Form(AveragePattern, out, q, a', i', j', k')
    ensures AllDigits(out[i..j])
    ensures ParseOutput(out) == Reading(true, Some(DigitsValue(out[i..j]) as real))
  {
    FirstGroupNone(TimePattern, out);
    FirstGroupAt(AveragePattern, out, p, a, i, j, k);
    assert AllDigits(out[i..j]) by {
      forall x | 0 <= x < j - i ensures IsDigit(out[i..j][x]) {
        assert InClass(out[i..j][x], Digit);
      }
    }
    IntegerValue(out[i..j]);
  }

  /** Neither pattern anywhere: reachable, latency unknown. */
  lemma NoLatencyText(out: string)
    requires forall q: nat, a: nat, i: nat, j: nat, k: nat :: !Form(TimePattern, out, q, a, i, j, k)
    requires forall q: nat, a: nat, i: nat, j: nat, k: nat :: !Form(AveragePattern, out, q, a, i, j, k)
    ensures ParseOutput(out) == Reading(true, None)
  {
    FirstGroupNone(TimePattern, out);
    FirstGroupNone(AveragePattern, out);
  }

  /** Linux-style output with a "time=" field gives its latency. */
  lemma ParseTimeExample()
    ensures Interpret(Exited(0, "time=12.5 ms", "")) == Reading(true, Some(12.5))
  {
    var out := "time=12.5 ms" + "\n" + "";
    assert out[5..9] == "12.5";
    assert out[9..10] == " " && out[5..5] == [];
    assert Form(TimePattern, out, 0, 4, 5, 9, 10);
    TwelveAndAHalf();
    TimeTakesPrecedence(out, 0, 4, 5, 9, 10);
  }

  lemma TwelveAndAHalf()
    ensures AllNumeric("12.5") && ParseDecimal("12.5") == Some(12.5)
  {
    DecimalValue("12", "5");
    assert "12" + "." + "5" == "12.5";
    assert "12" + "5" == "125";
    assert DigitsValue("125") == 125;
  }

  /** A "time" capture that is no number makes `float()` raise: unreachable. */
  lemma MalformedTimeExample()
    ensures Interpret(Exited(0, "time=1.2.3 ms", "")) == Unreachable
  {
    var out := "time=1.2.3 ms" + "\n" + "";
    assert out[5..10] == "1.2.3";
    assert out[10..11] == " " && out[5..5] == [];
    assert Form(TimePattern, out, 0, 4, 5, 10, 11);
    TwoDots();
    TimeTakesPrecedence(out, 0, 4, 5, 10, 11);
  }

  lemma TwoDots()
    ensures AllNumeric("1.2.3") && ParseDecimal("1.2.3").None?
  {
    var g := "1.2.3";
    assert g[1] == '.' && g[3] == '.';
  }

  /** Empty output after a zero exit: reachable, latency unknown. */
  lemma EmptyOutputExample()
    ensures Interpret(Exited(0, "", "")) == Reading(true, None)
  {
    NoLatencyText("" + "\n" + "");
  }
}
