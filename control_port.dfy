/** The external `batt` tool, as the controller sees it through
    `run_batt_command`: each invocation of a command either succeeds, with some
    output, or fails, with none. Which of the two happens, and what the output
    says, is not under the controller's control, so it is left open here; every
    invocation is recorded, with its outcome, in a ghost log. */
module ControlPort {
  import opened Wrappers

  /** The commands the controller sends: `status`, `limit <n>`, `adapter enable|disable`. */
  datatype Command = Status | Limit(percent: int) | Adapter(enable: bool)

  /** One invocation: the command and what `run_batt_command` returned for it. */
  datatype Invocation = Invocation(cmd: Command, output: Option<string>, succeeded: bool)

  /** The commands of a log, in the order they were issued. */
  function Commands(log: seq<Invocation>): (cs: seq<Command>)
    ensures |cs| == |log|
    ensures forall k :: 0 <= k < |log| ==> cs[k] == log[k].cmd
    decreases |log|
  {
    if log == [] then [] else Commands(log[..|log| - 1]) + [log[|log| - 1].cmd]
  }

  /** Did every invocation of the log succeed? */
  predicate AllSucceeded(log: seq<Invocation>) {
    forall k :: 0 <= k < |log| ==> log[k].succeeded
  }

  /** Issuing commands one after another: the commands of a log are those of its parts. */
  lemma CommandsAppend(a: seq<Invocation>, b: seq<Invocation>)
    ensures Commands(a + b) == Commands(a) + Commands(b)
  {
    assert forall k :: 0 <= k < |a| + |b| ==> Commands(a + b)[k] == (Commands(a) + Commands(b))[k];
  }

  /** The invocations made after a log a are what was appended to it. */
  lemma AppendedPart(a: seq<Invocation>, b: seq<Invocation>, c: seq<Invocation>)
    ensures (a + b) + c == a + (b + c)
    ensures (a + (b + c))[|a|..] == b + c
    ensures (a + (b + c))[..|a|] == a
  {
  }

  /** A log that grew from a through b to c: the commands since a are those up to b and
      then those since b. */
  lemma LogGrowth(a: seq<Invocation>, b: seq<Invocation>, c: seq<Invocation>)
    requires |a| <= |b| && b[..|a|] == a
    requires |b| <= |c| && c[..|b|] == b
    ensures c[..|a|] == a
    ensures Commands(c[|a|..]) == Commands(b[|a|..]) + Commands(c[|b|..])
  {
    assert c[|a|..] == b[|a|..] + c[|b|..];
    CommandsAppend(b[|a|..], c[|b|..]);
  }

  class Port {
    /** Every invocation so far, in order. */
    ghost var log: seq<Invocation>

    constructor ()
      ensures log == []
    {
      log := [];
    }

    /** `run_batt_command`: issues cmd; on failure there is no output. */
    method Run(cmd: Command) returns (output: Option<string>, succeeded: bool)
      modifies this
      ensures log == old(log) + [Invocation(cmd, output, succeeded)]
      ensures !succeeded ==> output == None
    {
      succeeded := *;
      output := None;
      if succeeded {
        output := *;
      }
      log := log + [Invocation(cmd, output, succeeded)];
    }
  }
}
