/** The policy engine: the decision taken in each iteration of the controller's
    loop. The controller keeps a policy (what it wants the battery to do) and on
    every tick reads the battery, compares the charge with the upper limit U and
    the lower limit L, and either switches policy, re-asserts the current one,
    or does nothing. Switching is non-strict at the bounds (charge <= L, charge >= U)
    and staying is strict, so the battery cycles between L and U. */
module PolicyEngine {
  import opened Wrappers
  import opened StatusParser
  import opened ControlPort
  import opened ChargeMode

  /** CHARGE_UPPER_LIMIT and DISCHARGE_LOWER_LIMIT as configured in the script. */
  const DefaultUpper: int := 80
  const DefaultLower: int := 20

  /** What the controller currently wants the battery to be doing. */
  datatype Policy = Initial | Charging | Discharging

  /** The arguments of one call of the charge-mode setter. */
  datatype Mode = Mode(enableCharging: bool, limit: int)

  /** The outcome of one tick: the new policy and the setter call made, if any. */
  datatype Decision = Decision(next: Policy, action: Option<Mode>)

  /** The setter call that puts policy p into effect: charge up to U, or cut the
      adapter with the limit lifted to 100 so that the tool's own limiter stays out of the way. */
  function Intent(p: Policy, upper: int): Mode
    requires p != Initial
  {
    if p == Policy.Charging then Mode(true, upper) else Mode(false, 100)
  }

  /** Does the observed battery state already agree with policy p? */
  predicate Complies(p: Policy, state: BatteryState) {
    (state == BatteryState.Charging) <==> (p == Policy.Charging)
  }

  /** The decision logic of `main` for a complete reading (charge, state). */
  function Decide(policy: Policy, charge: int, state: BatteryState, upper: int, lower: int): (d: Decision)
    requires lower < upper
    // the first decision leaves the initial policy for good
    ensures d.next != Initial
    // every setter call asserts the new policy: enable goes with U, disable with 100
    ensures d.action.Some? ==> d.action.value == Intent(d.next, upper)
    // no call exactly when the policy is kept and the battery already complies with it
    ensures d.action.None? <==> policy != Initial && d.next == policy && Complies(policy, state)
    // hysteresis: at or below L the controller charges, at or above U it discharges
    ensures charge <= lower ==> d.next == Policy.Charging
    ensures charge >= upper ==> d.next == Policy.Discharging
    // strictly inside the band an established policy is kept ...
    ensures lower < charge < upper && policy != Initial ==> d.next == policy
    // ... and the first decision follows what the battery is doing
    ensures lower < charge < upper && policy == Initial ==>
              (d.next == Policy.Charging <==> state == BatteryState.Charging)
  {
    match policy
    case Initial =>
      if charge <= lower then Decision(Policy.Charging, Some(Mode(true, upper)))
      else if charge >= upper then Decision(Policy.Discharging, Some(Mode(false, 100)))
      else if state == BatteryState.Charging then Decision(Policy.Charging, Some(Mode(true, upper)))
      else Decision(Policy.Discharging, Some(Mode(false, 100)))
    case Charging =>
      if charge >= upper then Decision(Policy.Discharging, Some(Mode(false, 100)))
      else if state != BatteryState.Charging then Decision(Policy.Charging, Some(Mode(true, upper)))
      else Decision(Policy.Charging, None)
    case Discharging =>
      if charge <= lower then Decision(Policy.Charging, Some(Mode(true, upper)))
      else if state == BatteryState.Charging then Decision(Policy.Discharging, Some(Mode(false, 100)))
      else Decision(Policy.Discharging, None)
  }

  /** Is the reading missing a field (a failed status command or unparsable text)? */
  predicate Incomplete(reading: Reading) {
    reading.percentage.None? || reading.state.None?
  }

  /** One tick on a reading: an incomplete reading changes nothing and calls nothing. */
  function Step(policy: Policy, reading: Reading, upper: int, lower: int): (d: Decision)
    requires lower < upper
    ensures Incomplete(reading) ==> d.next == policy && d.action.None?
    ensures !Incomplete(reading) ==> d.next != Initial
    ensures d.action.Some? ==> !Incomplete(reading) && d.action.value == Intent(d.next, upper)
  {
    if Incomplete(reading) then Decision(policy, None)
    else Decide(policy, reading.percentage.value, reading.state.value, upper, lower)
  }

  /** The commands a setter call (if any) issues. */
  function Issued(action: Option<Mode>): seq<Command> {
    match action
    case None => []
    case Some(m) => SetterCommands(m.enableCharging, m.limit)
  }

  /** Deciding twice on the same reading: the policy is already settled, and the second
      tick is silent exactly when the battery complies with it. */
  lemma DecideIdempotent(policy: Policy, charge: int, state: BatteryState, upper: int, lower: int)
    requires lower < upper
    ensures var d := Decide(policy, charge, state, upper, lower);
            var d2 := Decide(d.next, charge, state, upper, lower);
            d2.next == d.next && (d2.action.None? <==> Complies(d.next, state))
  {
  }

  /** The engine enables charging only with the limit U; it asks for limit 100 with
      charging enabled only when U itself is 100. */
  lemma EnableOnlyWithUpper(policy: Policy, charge: int, state: BatteryState, upper: int, lower: int)
    requires lower < upper
    ensures var d := Decide(policy, charge, state, upper, lower);
            d.action.Some? && d.action.value.enableCharging ==> d.action.value.limit == upper
  {
  }

  /** The scenarios of the shipped configuration (U = 80, L = 20). */
  lemma DefaultScenarios()
    ensures DefaultLower < DefaultUpper
    ensures Decide(Initial, 50, BatteryState.Discharging, DefaultUpper, DefaultLower)
            == Decision(Policy.Discharging, Some(Mode(false, 100)))
    ensures Decide(Policy.Discharging, 20, NotCharging, DefaultUpper, DefaultLower)
            == Decision(Policy.Charging, Some(Mode(true, 80)))
    ensures Decide(Policy.Charging, 80, BatteryState.Charging, DefaultUpper, DefaultLower).next
            == Policy.Discharging
    ensures Decide(Policy.Discharging, 79, BatteryState.Discharging, DefaultUpper, DefaultLower)
            == Decision(Policy.Discharging, None)
    ensures Decide(Policy.Charging, 50, NotCharging, DefaultUpper, DefaultLower)
            == Decision(Policy.Charging, Some(Mode(true, 80)))
  {
  }

  // ---------------------------------------------------------------------------
  // Successive ticks of the loop

  /** Where a run of ticks ends, and the setter calls made on the way. */
  datatype RunResult = RunResult(final: Policy, calls: seq<Mode>)

  /** The loop of `main` over a sequence of readings. */
  function RunTicks(policy: Policy, readings: seq<Reading>, upper: int, lower: int): (r: RunResult)
    requires lower < upper
    ensures |r.calls| <= |readings|
    ensures forall k :: 0 <= k < |r.calls| ==>
              r.calls[k] == Mode(true, upper) || r.calls[k] == Mode(false, 100)
    decreases |readings|
  {
    if readings == [] then RunResult(policy, [])
    else
      var d := Step(policy, readings[0], upper, lower);
      var rest := RunTicks(d.next, readings[1..], upper, lower);
      RunResult(rest.final, (if d.action.Some? then [d.action.value] else []) + rest.calls)
  }

  /** The commands a run of ticks issues: one status command per tick, each followed by
      the commands of that tick's setter call. */
  function Transcript(policy: Policy, readings: seq<Reading>, upper: int, lower: int): seq<Command>
    requires lower < upper
    decreases |readings|
  {
    if readings == [] then []
    else
      var d := Step(policy, readings[0], upper, lower);
      TickCommands(d) + Transcript(d.next, readings[1..], upper, lower)
  }

  /** The commands of one tick: the status command, then those of its setter call. */
  function TickCommands(d: Decision): seq<Command> {
    [Status] + Issued(d.action)
  }

  /** One more tick at the end of a run starts from the run's final policy, and its setter
      call comes after those of the run. */
  lemma {:induction false} RunTicksSnoc(policy: Policy, readings: seq<Reading>, reading: Reading, upper: int, lower: int)
    requires lower < upper
    ensures var r := RunTicks(policy, readings, upper, lower);
            var d := Step(r.final, reading, upper, lower);
            RunTicks(policy, readings + [reading], upper, lower)
              == RunResult(d.next, r.calls + (if d.action.Some? then [d.action.value] else []))
    decreases |readings|
  {
    if readings == [] {
      assert [reading][1..] == [];
    } else {
      var d0 := Step(policy, readings[0], upper, lower);
      assert (readings + [reading])[1..] == readings[1..] + [reading];
      RunTicksSnoc(d0.next, readings[1..], reading, upper, lower);
    }
  }

  /** The commands of one more tick come after those of the run. */
  lemma {:induction false} TranscriptSnoc(policy: Policy, readings: seq<Reading>, reading: Reading, upper: int, lower: int)
    requires lower < upper
    ensures var d := Step(RunTicks(policy, readings, upper, lower).final, reading, upper, lower);
            Transcript(policy, readings + [reading], upper, lower)
              == Transcript(policy, readings, upper, lower) + TickCommands(d)
    decreases |readings|
  {
    if readings == [] {
      assert [reading][1..] == [];
    } else {
      var rs := readings + [reading];
      var d0 := Step(policy, readings[0], upper, lower);
      assert rs[0] == readings[0] && rs[1..] == readings[1..] + [reading];
      TranscriptSnoc(d0.next, readings[1..], reading, upper, lower);
    }
  }

  /** One iteration of the loop keeps the loop's account: after one more tick the policy
      and the commands since the start are those of the fold over one more reading. */
  lemma LoopStep(p0: Policy, readings: seq<Reading>, reading: Reading, p: Policy, p': Policy,
                 start: seq<Invocation>, before: seq<Invocation>, after: seq<Invocation>, upper: int, lower: int)
    requires lower < upper
    requires p == RunTicks(p0, readings, upper, lower).final
    requires |start| <= |before| && before[..|start|] == start
    requires Commands(before[|start|..]) == Transcript(p0, readings, upper, lower)
    requires |before| <= |after| && after[..|before|] == before
    requires p' == Step(p, reading, upper, lower).next
    requires Commands(after[|before|..]) == TickCommands(Step(p, reading, upper, lower))
    ensures p' == RunTicks(p0, readings + [reading], upper, lower).final
    ensures |start| <= |after| && after[..|start|] == start
    ensures Commands(after[|start|..]) == Transcript(p0, readings + [reading], upper, lower)
  {
    RunTicksSnoc(p0, readings, reading, upper, lower);
    TranscriptSnoc(p0, readings, reading, upper, lower);
    LogGrowth(start, before, after);
  }

  /** The readings were observed: the k-th reading is what the status command of the k-th tick,
      logged from position start on right after the commands of the k ticks before it,
      parses to. */
  predicate Observed(log: seq<Invocation>, start: nat, p0: Policy, readings: seq<Reading>, upper: int, lower: int)
    requires lower < upper
  {
    forall k {:trigger StatusIndex(start, p0, readings, k, upper, lower)} :: 0 <= k < |readings| ==>
      ObservedAt(log, StatusIndex(start, p0, readings, k, upper, lower), readings[k])
  }

  /** Where the k-th tick's status invocation lies: after the commands of the k ticks before it. */
  function StatusIndex(start: nat, p0: Policy, readings: seq<Reading>, k: nat, upper: int, lower: int): nat
    requires lower < upper && k <= |readings|
  {
    start + |Transcript(p0, readings[..k], upper, lower)|
  }

  /** The k-th tick's status invocation is at position j of log and parses to reading. */
  predicate ObservedAt(log: seq<Invocation>, j: nat, reading: Reading) {
    j < |log| && log[j].cmd == Status && reading == BattInfo(log[j].output, log[j].succeeded)
  }

  /** One more tick whose status invocation comes right after the run's commands keeps
      every reading observed. */
  lemma ObservedStep(start: seq<Invocation>, before: seq<Invocation>, after: seq<Invocation>,
                     p0: Policy, readings: seq<Reading>, reading: Reading, upper: int, lower: int)
    requires lower < upper
    requires |start| <= |before| && Commands(before[|start|..]) == Transcript(p0, readings, upper, lower)
    requires Observed(before, |start|, p0, readings, upper, lower)
    requires |before| < |after| && after[..|before|] == before
    requires ObservedAt(after, |before|, reading)
    ensures Observed(after, |start|, p0, readings + [reading], upper, lower)
  {
    var rs := readings + [reading];
    forall k | 0 <= k < |rs|
      ensures ObservedAt(after, StatusIndex(|start|, p0, rs, k, upper, lower), rs[k])
    {
      assert rs[..k] == if k < |readings| then readings[..k] else readings;
      if k < |readings| {
        assert rs[k] == readings[k];
        assert StatusIndex(|start|, p0, rs, k, upper, lower) == StatusIndex(|start|, p0, readings, k, upper, lower);
        ObservedAtGrown(before, after, StatusIndex(|start|, p0, readings, k, upper, lower), readings[k]);
      } else {
        assert |Commands(before[|start|..])| == |before| - |start|;
      }
    }
  }

  /** A status invocation observed in a log is still there once the log has grown. */
  lemma ObservedAtGrown(before: seq<Invocation>, after: seq<Invocation>, j: nat, reading: Reading)
    requires |before| <= |after| && after[..|before|] == before
    requires ObservedAt(before, j, reading)
    ensures ObservedAt(after, j, reading)
  {
    assert after[j] == after[..|before|][j];
  }

  /** Ticks whose readings all failed change no policy and call the setter never. */
  lemma {:induction false} FailedReadingsAreNoOps(policy: Policy, readings: seq<Reading>, upper: int, lower: int)
    requires lower < upper
    requires forall k :: 0 <= k < |readings| ==> Incomplete(readings[k])
    ensures RunTicks(policy, readings, upper, lower) == RunResult(policy, [])
    decreases |readings|
  {
    if readings != [] {
      FailedReadingsAreNoOps(policy, readings[1..], upper, lower);
    }
  }

  /** Once one complete reading has been seen, the policy is never initial again. */
  lemma {:induction false} NeverInitialAgain(policy: Policy, readings: seq<Reading>, upper: int, lower: int)
    requires lower < upper
    requires policy != Initial || exists k :: 0 <= k < |readings| && !Incomplete(readings[k])
    ensures RunTicks(policy, readings, upper, lower).final != Initial
    decreases |readings|
  {
    if readings != [] {
      var d := Step(policy, readings[0], upper, lower);
      if d.next == Initial {
        var k :| 0 <= k < |readings| && !Incomplete(readings[k]);
        assert k != 0;
        assert !Incomplete(readings[1..][k - 1]);
      }
      NeverInitialAgain(d.next, readings[1..], upper, lower);
    }
  }

  /** A reading that leaves an established policy entirely alone: failed, or strictly inside
      the band with the battery already doing what the policy wants. */
  predicate Settled(p: Policy, reading: Reading, upper: int, lower: int) {
    Incomplete(reading)
    || (lower < reading.percentage.value < upper && Complies(p, reading.state.value))
  }

  /** Self-consistency of the loop: while readings stay settled for the current policy,
      the policy stays and no command is issued, however many ticks pass. */
  lemma {:induction false} SettledTicksAreSilent(policy: Policy, readings: seq<Reading>, upper: int, lower: int)
    requires lower < upper && policy != Initial
    requires forall k :: 0 <= k < |readings| ==> Settled(policy, readings[k], upper, lower)
    ensures RunTicks(policy, readings, upper, lower) == RunResult(policy, [])
    decreases |readings|
  {
    if readings != [] {
      SettledTicksAreSilent(policy, readings[1..], upper, lower);
    }
  }

  /** Inside the band an established policy is kept over any number of ticks, whatever the
      battery reports; only the re-assertions vary. */
  lemma {:induction false} BandKeepsPolicy(policy: Policy, readings: seq<Reading>, upper: int, lower: int)
    requires lower < upper && policy != Initial
    requires forall k :: 0 <= k < |readings| ==>
               Incomplete(readings[k]) || lower < readings[k].percentage.value < upper
    ensures RunTicks(policy, readings, upper, lower).final == policy
    decreases |readings|
  {
    if readings != [] {
      BandKeepsPolicy(policy, readings[1..], upper, lower);
    }
  }

  // ---------------------------------------------------------------------------
  // The controller

  /** The controller process: its policy, reset to initial at every start, and the limits. */
  class Controller {
    var policy: Policy
    const upper: int
    const lower: int

    constructor (upper: int, lower: int)
      requires lower < upper
      ensures this.upper == upper && this.lower == lower && policy == Initial
    {
      this.upper := upper;
      this.lower := lower;
      policy := Initial;
    }

    /** One iteration of the loop: read the battery through the port, then decide.
        The setter's result is ignored: the policy changes even when its commands fail. */
    method Tick(port: Port) returns (reading: Reading)
      requires lower < upper
      modifies this, port
      ensures |old(port.log)| < |port.log| && port.log[..|old(port.log)|] == old(port.log)
      ensures var status := port.log[|old(port.log)|];
              status.cmd == Status && reading == BattInfo(status.output, status.succeeded)
      ensures var d := Step(old(policy), reading, upper, lower);
              policy == d.next && Commands(port.log[|old(port.log)|..]) == [Status] + Issued(d.action)
      ensures Incomplete(reading) ==> policy == old(policy) && |port.log| == |old(port.log)| + 1
    {
      ghost var statusCall;
      reading, statusCall := GetCurrentBattInfo(port);
      if reading.percentage == None || reading.state == None {
        assert port.log[|old(port.log)|..] == [statusCall];
        return;
      }
      ghost var calls := Act(port, reading.percentage.value, reading.state.value);

      AppendedPart(old(port.log), [statusCall], calls);
      CommandsAppend([statusCall], calls);
      assert Commands([statusCall]) == [Status];
    }

    /** The decision logic of `main` on a complete reading, with its setter calls. The
        initial branch ends its iteration with `continue`, so the three branches are exclusive. */
    method Act(port: Port, charge: nat, state: BatteryState) returns (ghost calls: seq<Invocation>)
      requires lower < upper
      modifies this, port
      ensures port.log == old(port.log) + calls
      ensures var d := Decide(old(policy), charge, state, upper, lower);
              policy == d.next && Commands(calls) == Issued(d.action)
    {
      var ignored: bool;
      calls := [];
      if policy == Initial {
        if charge <= lower {
          ignored, calls := SetChargingMode(port, true, upper);
          policy := Policy.Charging;
        } else if charge >= upper {
          ignored, calls := SetChargingMode(port, false, 100);
          policy := Policy.Discharging;
        } else if state == BatteryState.Charging {
          ignored, calls := SetChargingMode(port, true, upper);
          policy := Policy.Charging;
        } else {
          ignored, calls := SetChargingMode(port, false, 100);
          policy := Policy.Discharging;
        }
      } else if policy == Policy.Charging {
        if charge >= upper {
          ignored, calls := SetChargingMode(port, false, 100);
          policy := Policy.Discharging;
        } else if state != BatteryState.Charging {
          ignored, calls := SetChargingMode(port, true, upper);
        }
      } else if policy == Policy.Discharging {
        if charge <= lower {
          ignored, calls := SetChargingMode(port, true, upper);
          policy := Policy.Charging;
        } else if state == BatteryState.Charging {
          ignored, calls := SetChargingMode(port, false, 100);
        }
      }
    }
    /** The loop of `main`, run for n iterations: the policy and the commands issued are
        those of the fold of the same readings. */
    method Loop(port: Port, n: nat) returns (readings: seq<Reading>)
      requires lower < upper
      modifies this, port
      ensures |readings| == n
      ensures |old(port.log)| <= |port.log| && port.log[..|old(port.log)|] == old(port.log)
      ensures policy == RunTicks(old(policy), readings, upper, lower).final
      ensures Commands(port.log[|old(port.log)|..]) == Transcript(old(policy), readings, upper, lower)
      ensures Observed(port.log, |old(port.log)|, old(policy), readings, upper, lower)
    {
      readings := [];
      ghost var start := port.log;
      assert port.log[|start|..] == [];
      for i := 0 to n
        invariant |readings| == i
        invariant |start| <= |port.log| && port.log[..|start|] == start
        invariant policy == RunTicks(old(policy), readings, upper, lower).final
        invariant Commands(port.log[|start|..]) == Transcript(old(policy), readings, upper, lower)
        invariant Observed(port.log, |start|, old(policy), readings, upper, lower)
      {
        ghost var before := port.log;
        ghost var p := policy;
        var reading := Tick(port);
        ObservedStep(start, before, port.log, old(policy), readings, reading, upper, lower);
        LoopStep(old(policy), readings, reading, p, policy, start, before, port.log, upper, lower);
        readings := readings + [reading];
      }
    }
  }

  /** Start-up: the configuration check of `main`. An upper limit that is not above the
      lower limit is fatal and no controller runs. */
  method Launch(upper: int, lower: int) returns (c: Option<Controller>)
    ensures c.None? <==> upper <= lower
    ensures c.Some? ==> fresh(c.value) && c.value.policy == Initial
                        && c.value.upper == upper && c.value.lower == lower
  {
    if upper <= lower {
      return None;
    }
    var controller := new Controller(upper, lower);
    c := Some(controller);
  }
}
