/** The status loop of `execute_attack`: for every line hashcat prints, poll the process,
    decode the line, and at most every 30 minutes send a summary of the run. Launching
    the process, reading its output, JSON decoding and the notification transport are
    not modelled: each loop iteration receives the poll result, the decoded line and the
    clock as a `Tick`. */
module Supervisor {
  import opened Wrappers

  /** `timedelta(minutes=30)`, in seconds. */
  const THROTTLE: int := 30 * 60

  /** One entry of the status object's `devices`; `speed` is `None` when the key is
      missing. */
  datatype Device = Device(id: int, speed: Option<int>)

  /** A status line that decoded as a JSON object; a field is `None` when its key is
      missing. */
  datatype Status = Status(
    devices: Option<seq<Device>>,
    estimatedStop: Option<int>,
    recoveredHashes: Option<seq<string>>)

  /** The figures of one summary message: seconds since the start, the aggregate speed,
      seconds until the estimated stop, and how many hashes were recovered. */
  datatype Summary = Summary(elapsed: int, speed: int, timeLeft: int, recovered: nat)

  /** What one iteration of the loop does. */
  datatype Outcome =
    | Exited              // the poll saw return code 0: `break`
    | Failed(code: int)   // the poll saw another code: SubprocessError, caught and logged
    | Skipped             // the line is not JSON: `continue`
    | Quiet               // decoded, but less than 30 minutes since the last summary
    | Notified(summary: Summary)
    | Raised(key: string) // KeyError while building the summary; it leaves the function

  /** The inputs of one iteration: the decoded line (`None` when `json.loads` raised),
      the result of `p.poll()` and the current time in whole seconds. */
  datatype Tick = Tick(line: Option<Status>, poll: Option<int>, now: int)

  // ---------------------------------------------------------------------------
  // Aggregate speed

  /** The sum of every device's speed; `None` when some device has no `speed`. */
  function SpeedSum(devices: seq<Device>): (r: Option<int>)
    ensures r.Some? ==> forall i :: 0 <= i < |devices| ==> devices[i].speed.Some?
  {
    if devices == [] then Some(0)
    else match (devices[0].speed, SpeedSum(devices[1..]))
      case (Some(v), Some(t)) => Some(v + t)
      case _ => None
  }

  /** Appending a device adds exactly its speed. */
  lemma {:induction false} SpeedSumAppend(devices: seq<Device>, d: Device)
    ensures SpeedSum(devices + [d]) ==
      if SpeedSum(devices).Some? && d.speed.Some?
      then Some(SpeedSum(devices).value + d.speed.value) else None
  {
    if devices == [] {
      assert [d][1..] == [];
    } else {
      assert (devices + [d])[1..] == devices[1..] + [d];
      SpeedSumAppend(devices[1..], d);
    }
  }

  /** The sum exists exactly when every device reports a speed. */
  lemma {:induction false} SpeedSumDefined(devices: seq<Device>)
    ensures SpeedSum(devices).Some? <==> forall i :: 0 <= i < |devices| ==> devices[i].speed.Some?
  {
    if devices != [] {
      SpeedSumDefined(devices[1..]);
      assert forall i :: 1 <= i < |devices| ==> devices[i] == devices[1..][i - 1];
    }
  }

  /** With non-negative speeds the total bounds each device's speed. */
  lemma {:induction false} SpeedSumBounds(devices: seq<Device>, k: nat)
    requires k < |devices| && SpeedSum(devices).Some?
    requires forall i :: 0 <= i < |devices| ==> devices[i].speed.Some? && devices[i].speed.value >= 0
    ensures 0 <= devices[k].speed.value <= SpeedSum(devices).value
  {
    if k > 0 {
      assert devices[1..][k - 1] == devices[k];
      SpeedSumBounds(devices[1..], k - 1);
    } else {
      SpeedSumNonNegative(devices[1..]);
    }
  }

  lemma {:induction false} SpeedSumNonNegative(devices: seq<Device>)
    requires SpeedSum(devices).Some?
    requires forall i :: 0 <= i < |devices| ==> devices[i].speed.Some? && devices[i].speed.value >= 0
    ensures SpeedSum(devices).value >= 0
  {
    if devices != [] {
      assert forall i :: 0 <= i < |devices[1..]| ==> devices[1..][i] == devices[i + 1];
      SpeedSumNonNegative(devices[1..]);
    }
  }

  /** The `for dev in status_dict['devices']` loop accumulating `total_speed`; it stops
      with a KeyError (`None`) at the first device without a speed. */
  method AggregateSpeed(devices: seq<Device>) returns (total: Option<int>)
    ensures total == SpeedSum(devices)
  {
    var sum := 0;
    for i := 0 to |devices|
      invariant SpeedSum(devices[..i]) == Some(sum)
    {
      assert devices[..i + 1] == devices[..i] + [devices[i]];
      SpeedSumAppend(devices[..i], devices[i]);
      match devices[i].speed {
        case None =>
          SpeedSumPrefixNone(devices, i + 1);
          return None;
        case Some(v) =>
          sum := sum + v;
      }
    }
    assert devices[..|devices|] == devices;
    return Some(sum);
  }

  /** A device without a speed makes every longer prefix's sum undefined. */
  lemma {:induction false} SpeedSumPrefixNone(devices: seq<Device>, n: nat)
    requires n <= |devices| && SpeedSum(devices[..n]).None?
    ensures SpeedSum(devices).None?
    decreases |devices| - n
  {
    if n < |devices| {
      assert devices[..n + 1] == devices[..n] + [devices[n]];
      SpeedSumAppend(devices[..n], devices[n]);
      SpeedSumPrefixNone(devices, n + 1);
    } else {
      assert devices[..n] == devices;
    }
  }

  // ---------------------------------------------------------------------------
  // One iteration

  /** The summary lines 118-126 compute from a decoded status at time `now`, or the key
      whose lookup raises KeyError first (in the order the source reads them). */
  function Summarize(s: Status, start: int, now: int): (r: Result<Summary, string>)
    ensures r.Success? <==>
      s.devices.Some? && SpeedSum(s.devices.value).Some? &&
      s.estimatedStop.Some? && s.recoveredHashes.Some?
    ensures r.Failure? ==> r.error in {"devices", "speed", "estimated_stop", "recovered_hashes"}
    ensures r == Failure("devices") <==> s.devices.None?
    ensures r == Failure("speed") <==> s.devices.Some? && SpeedSum(s.devices.value).None?
    ensures r == Failure("estimated_stop") <==>
      s.devices.Some? && SpeedSum(s.devices.value).Some? && s.estimatedStop.None?
    ensures r == Failure("recovered_hashes") <==>
      s.devices.Some? && SpeedSum(s.devices.value).Some? && s.estimatedStop.Some? &&
      s.recoveredHashes.None?
    ensures r.Success? ==>
      r.value.speed == SpeedSum(s.devices.value).value &&
      r.value.timeLeft == s.estimatedStop.value - now &&
      r.value.recovered == |s.recoveredHashes.value| &&
      r.value.elapsed == now - start
  {
    if s.devices.None? then Failure("devices")
    else
      var speed := SpeedSum(s.devices.value);
      if speed.None? then Failure("speed")
      else if s.estimatedStop.None? then Failure("estimated_stop")
      else if s.recoveredHashes.None? then Failure("recovered_hashes")
      else Success(Summary(now - start, speed.value, s.estimatedStop.value - now,
                           |s.recoveredHashes.value|))
  }

  /** What one iteration does, given the time of the run's start and of the last
      summary. */
  function Decide(t: Tick, start: int, last: int): (r: Outcome)
    ensures t.poll == Some(0) <==> r.Exited?
    ensures r.Failed? <==> t.poll.Some? && t.poll.value != 0
    ensures r.Failed? ==> r.code == t.poll.value
    ensures r.Skipped? <==> t.poll.None? && t.line.None?
    ensures r.Notified? || r.Raised? <==>
      t.poll.None? && t.line.Some? && t.now - last > THROTTLE
    ensures r.Notified? ==> Summarize(t.line.value, start, t.now) == Success(r.summary)
    ensures r.Raised? ==> Summarize(t.line.value, start, t.now) == Failure(r.key)
  {
    if t.poll == Some(0) then Exited
    else if t.poll.Some? then Failed(t.poll.value)
    else if t.line.None? then Skipped
    else if t.now - last > THROTTLE then
      match Summarize(t.line.value, start, t.now)
      case Success(s) => Notified(s)
      case Failure(k) => Raised(k)
    else Quiet
  }

  /** The time of the last summary after an iteration: `last_time = time_now` runs before
      the summary is computed, so a KeyError still moves it. */
  function NextLast(o: Outcome, last: int, now: int): (r: int)
    ensures o.Notified? || o.Raised? ==> r == now
    ensures !(o.Notified? || o.Raised?) ==> r == last
  {
    if o.Notified? || o.Raised? then now else last
  }

  /** How the loop ends: `execute_attack` returns the code, or the KeyError propagates,
      or the loop is still running when the ticks run out. */
  datatype Halt = Returned(code: int) | Crashed(key: string) | Running

  /** The loop's halt, its final `last_time` and the summaries it sent. */
  datatype Trace = Trace(halt: Halt, last: int, sent: seq<Summary>)

  /** The loop over a sequence of ticks, starting with the given `last_time`: at most one
      summary per tick. */
  function Run(ticks: seq<Tick>, start: int, last: int): (r: Trace)
    ensures |r.sent| <= |ticks|
    decreases |ticks|
  {
    if ticks == [] then Trace(Running, last, [])
    else
      var t := ticks[0];
      match Decide(t, start, last)
      case Exited => Trace(Returned(0), last, [])
      case Failed(c) => Trace(Returned(c), last, [])
      case Raised(k) => Trace(Crashed(k), t.now, [])
      case Skipped => Run(ticks[1..], start, last)
      case Quiet => Run(ticks[1..], start, last)
      case Notified(s) =>
        var rest := Run(ticks[1..], start, t.now);
        Trace(rest.halt, rest.last, [s] + rest.sent)
  }

  // ---------------------------------------------------------------------------
  // Properties of the loop

  /** `last_time` never decreases, and it moves only when a summary is due. */
  lemma {:induction false} RunLastMonotone(ticks: seq<Tick>, start: int, last: int)
    ensures Run(ticks, start, last).last >= last
    ensures Run(ticks, start, last).sent == [] && !Run(ticks, start, last).halt.Crashed? ==>
      Run(ticks, start, last).last == last
  {
    if ticks != [] {
      var t := ticks[0];
      match Decide(t, start, last)
      case Exited =>
      case Failed(_) =>
      case Raised(_) =>
      case Skipped => RunLastMonotone(ticks[1..], start, last);
      case Quiet => RunLastMonotone(ticks[1..], start, last);
      case Notified(_) => RunLastMonotone(ticks[1..], start, t.now);
    }
  }

  /** The throttle: the first summary comes more than 30 minutes after the initial
      `last_time`, and each further one more than 30 minutes after the previous one. */
  lemma {:induction false} RunSummariesSpaced(ticks: seq<Tick>, start: int, last: int)
    ensures var sent := Run(ticks, start, last).sent;
      (|sent| > 0 ==> start + sent[0].elapsed - last > THROTTLE) &&
      forall k :: 0 < k < |sent| ==> sent[k].elapsed - sent[k - 1].elapsed > THROTTLE
  {
    if ticks != [] {
      var t := ticks[0];
      match Decide(t, start, last)
      case Exited =>
      case Failed(_) =>
      case Raised(_) =>
      case Skipped => RunSummariesSpaced(ticks[1..], start, last);
      case Quiet => RunSummariesSpaced(ticks[1..], start, last);
      case Notified(s) =>
        RunSummariesSpaced(ticks[1..], start, t.now);
        var rest := Run(ticks[1..], start, t.now).sent;
        assert Run(ticks, start, last).sent == [s] + rest;
        assert s.elapsed == t.now - start;
    }
  }

  /** A returned code is the poll result of some tick, and every tick before it polled
      `None`; a loop still running has polled `None` throughout. */
  ghost predicate HaltMatchesPolls(ticks: seq<Tick>, h: Halt) {
    (h.Returned? ==>
      exists i :: 0 <= i < |ticks| && ticks[i].poll == Some(h.code) &&
        (forall j :: 0 <= j < i ==> ticks[j].poll.None?)) &&
    (h.Running? ==> forall j :: 0 <= j < |ticks| ==> ticks[j].poll.None?)
  }

  /** `execute_attack` returns the poll result that ended the loop unchanged: the first
      tick whose poll saw the process exit. */
  lemma {:induction false} RunReturnsPolledCode(ticks: seq<Tick>, start: int, last: int)
    ensures HaltMatchesPolls(ticks, Run(ticks, start, last).halt)
  {
    if ticks != [] {
      var t := ticks[0];
      var h := Run(ticks, start, last).halt;
      match Decide(t, start, last)
      case Exited =>
        assert ticks[0].poll == Some(h.code);
      case Failed(c) =>
        assert ticks[0].poll == Some(h.code);
      case Raised(_) =>
      case Skipped =>
        RunReturnsPolledCode(ticks[1..], start, last);
        HaltMatchesPollsShift(ticks, h);
      case Quiet =>
        RunReturnsPolledCode(ticks[1..], start, last);
        HaltMatchesPollsShift(ticks, h);
      case Notified(_) =>
        RunReturnsPolledCode(ticks[1..], start, t.now);
        HaltMatchesPollsShift(ticks, h);
    }
  }

  /** Prepending a tick that polled `None` keeps the match. */
  lemma HaltMatchesPollsShift(ticks: seq<Tick>, h: Halt)
    requires ticks != [] && ticks[0].poll.None? && HaltMatchesPolls(ticks[1..], h)
    ensures HaltMatchesPolls(ticks, h)
  {
    if h.Returned? {
      var i :| 0 <= i < |ticks[1..]| && ticks[1..][i].poll == Some(h.code) &&
         forall j :: 0 <= j < i ==> ticks[1..][j].poll.None?;
      assert ticks[i + 1].poll == Some(h.code);
      forall j | 0 <= j < i + 1 ensures ticks[j].poll.None? {
        if j > 0 { assert ticks[j] == ticks[1..][j - 1]; }
      }
    }
    if h.Running? {
      forall j | 0 <= j < |ticks| ensures ticks[j].poll.None? {
        if j > 0 { assert ticks[j] == ticks[1..][j - 1]; }
      }
    }
  }

  /** A line that fails to decode changes nothing: inserting one anywhere leaves the
      halt, the final `last_time` and the summaries as they were. */
  lemma {:induction false} RunIgnoresMalformedLine(ticks: seq<Tick>, k: nat, start: int, last: int, now: int)
    requires k <= |ticks|
    ensures Run(ticks[..k] + [Tick(None, None, now)] + ticks[k..], start, last) == Run(ticks, start, last)
  {
    var ticks' := ticks[..k] + [Tick(None, None, now)] + ticks[k..];
    if k == 0 {
      assert ticks'[0] == Tick(None, None, now);
      assert ticks'[1..] == ticks;
    } else {
      var t := ticks[0];
      assert ticks'[0] == t;
      assert ticks'[1..] == ticks[1..][..k - 1] + [Tick(None, None, now)] + ticks[1..][k - 1..];
      match Decide(t, start, last)
      case Exited =>
      case Failed(_) =>
      case Raised(_) =>
      case Skipped => RunIgnoresMalformedLine(ticks[1..], k - 1, start, last, now);
      case Quiet => RunIgnoresMalformedLine(ticks[1..], k - 1, start, last, now);
      case Notified(_) => RunIgnoresMalformedLine(ticks[1..], k - 1, start, t.now, now);
    }
  }

  /** The status line of the end-to-end scenario: two devices at 1000 and 1500, one
      recovered hash, and an estimated stop 60 seconds after `now`. */
  function ScenarioStatus(now: int): Status {
    Status(Some([Device(0, Some(1000)), Device(1, Some(1500))]), Some(now + 60), Some(["a"]))
  }

  /** The throttle is strict: exactly 30 minutes after the last summary nothing is sent;
      one second later the summary reports speed 2500, 60 seconds left and 1 hash. */
  lemma ThrottleBoundary(start: int, last: int)
    ensures Decide(Tick(Some(ScenarioStatus(last + THROTTLE)), None, last + THROTTLE), start, last) == Quiet
    ensures Decide(Tick(Some(ScenarioStatus(last + THROTTLE + 1)), None, last + THROTTLE + 1), start, last) ==
      Notified(Summary(last + THROTTLE + 1 - start, 2500, 60, 1))
  {
    var devices := [Device(0, Some(1000)), Device(1, Some(1500))];
    assert devices[1..] == [Device(1, Some(1500))];
    assert devices[1..][1..] == [];
    assert SpeedSum(devices) == Some(2500);
  }

  /** The time left is not clamped: an estimated stop in the past is reported as a
      negative number of seconds. */
  lemma TimeLeftMayBeNegative(start: int, last: int, now: int)
    requires now - last > THROTTLE
    ensures Decide(Tick(Some(Status(Some([]), Some(now - 5), Some([]))), None, now), start, last) ==
      Notified(Summary(now - start, 0, -5, 0))
  {
  }

  // ---------------------------------------------------------------------------
  // The loop's state

  /** The state `execute_attack` keeps across iterations: `start_time` and `last_time`,
      and the summaries it has sent so far. */
  class AttackLoop {
    const startTime: int
    var lastTime: int
    var sent: seq<Summary>

    /** `start_time = last_time = datetime.now()` right after the launch. */
    constructor (now: int)
      ensures startTime == now && lastTime == now && sent == []
    {
      startTime := now;
      lastTime := now;
      sent := [];
    }

    /** One iteration of the `for line in ...` loop body. */
    method Step(t: Tick) returns (o: Outcome)
      modifies this
      ensures o == Decide(t, startTime, old(lastTime))
      ensures lastTime == NextLast(o, old(lastTime), t.now)
      ensures sent == old(sent) + (if o.Notified? then [o.summary] else [])
    {
      if t.poll == Some(0) {
        return Exited;
      } else if t.poll.Some? {
        return Failed(t.poll.value);
      }
      if t.line.None? {
        return Skipped;
      }
      var status := t.line.value;
      if t.now - lastTime > THROTTLE {
        lastTime := t.now;
        if status.devices.None? {
          return Raised("devices");
        }
        var speed := AggregateSpeed(status.devices.value);
        if speed.None? {
          return Raised("speed");
        }
        if status.estimatedStop.None? {
          return Raised("estimated_stop");
        }
        var timeLeft := status.estimatedStop.value - t.now;
        if status.recoveredHashes.None? {
          return Raised("recovered_hashes");
        }
        var summary := Summary(t.now - startTime, speed.value, timeLeft, |status.recoveredHashes.value|);
        sent := sent + [summary];
        return Notified(summary);
      }
      return Quiet;
    }

    /** The loop over the ticks it is given, until the process exits or a KeyError
        leaves it. */
    method Supervise(ticks: seq<Tick>) returns (h: Halt)
      modifies this
      ensures h == Run(ticks, startTime, old(lastTime)).halt
      ensures lastTime == Run(ticks, startTime, old(lastTime)).last
      ensures sent == old(sent) + Run(ticks, startTime, old(lastTime)).sent
    {
      ghost var all := Run(ticks, startTime, lastTime);
      ghost var sent0 := sent;
      var i := 0;
      while i < |ticks|
        invariant 0 <= i <= |ticks|
        invariant Run(ticks[i..], startTime, lastTime).halt == all.halt
        invariant Run(ticks[i..], startTime, lastTime).last == all.last
        invariant sent0 + all.sent == sent + Run(ticks[i..], startTime, lastTime).sent
      {
        ghost var rest := ticks[i..];
        assert rest[0] == ticks[i] && rest[1..] == ticks[i + 1..];
        var o := Step(ticks[i]);
        match o {
          case Exited => return Returned(0);
          case Failed(c) => return Returned(c);
          case Raised(k) => return Crashed(k);
          case Skipped =>
          case Quiet =>
          case Notified(_) =>
        }
        i := i + 1;
      }
      return Running;
    }
  }
}
