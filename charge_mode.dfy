/** The charge-mode setter, `set_batt_charging_mode(enable_charging, limit_percentage)`:
    first the charge limit, then the power adapter, each through the control port,
    tracking the success of each step. */
module ChargeMode {
  import opened ControlPort

  /** The limits for which the setter issues a `limit` command. */
  predicate ValidLimit(limit: int) {
    0 < limit <= 100
  }

  /** The commands one call issues, in order: exactly one adapter command, the last one,
      and before it a limit command carrying the limit exactly when the limit is valid. */
  function SetterCommands(enableCharging: bool, limit: int): (cs: seq<Command>)
    ensures |cs| == (if ValidLimit(limit) then 2 else 1)
    ensures cs[|cs| - 1] == Adapter(enableCharging)
    ensures forall k :: 0 <= k < |cs| - 1 ==> cs[k] == Limit(limit)
    ensures forall k :: 0 <= k < |cs| ==> (cs[k].Adapter? <==> k == |cs| - 1)
  {
    (if ValidLimit(limit) then [Limit(limit)] else []) + [Adapter(enableCharging)]
  }

  /** Issues the limit command and then the adapter command; the result is true exactly
      when the limit was valid and both commands succeeded. An invalid limit is reported
      as failure, but the adapter command is issued all the same. */
  method SetChargingMode(port: Port, enableCharging: bool, limit: int) returns (ok: bool, ghost calls: seq<Invocation>)
    modifies port
    ensures port.log == old(port.log) + calls
    ensures Commands(calls) == SetterCommands(enableCharging, limit)
    ensures ok <==> ValidLimit(limit) && AllSucceeded(calls)
  {
    var limitOk := true;
    var adapterOk := true;
    var output;
    calls := [];

    if limit == 100 {
      output, limitOk := port.Run(Limit(100));
      calls := [Invocation(Limit(100), output, limitOk)];
    } else if limit > 0 && limit < 100 {
      output, limitOk := port.Run(Limit(limit));
      calls := [Invocation(Limit(limit), output, limitOk)];
    } else {
      limitOk := false;
    }

    if enableCharging {
      output, adapterOk := port.Run(Adapter(true));
    } else {
      output, adapterOk := port.Run(Adapter(false));
    }
    ghost var adapterCall := Invocation(Adapter(enableCharging), output, adapterOk);
    CommandsAppend(calls, [adapterCall]);
    calls := calls + [adapterCall];

    ok := limitOk && adapterOk;
  }
}
