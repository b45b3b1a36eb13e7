# Battery charge-cycling controller, modelled in Dafny

`auto_batt_cycle.py` keeps a laptop battery cycling between a lower bound L
(`DISCHARGE_LOWER_LIMIT`, 20) and an upper bound U (`CHARGE_UPPER_LIMIT`, 80)
by driving the external `batt` tool. Every interval it runs `batt status`,
parses the charge percentage and the battery state from the text, and then,
depending on its policy (`initial`, `charging` or `discharging`), it switches
policy, re-asserts the current one, or does nothing. Asserting a policy means
calling `set_batt_charging_mode`. That setter issues `batt limit <n>` and then
`batt adapter enable|disable`.

The project has five modules, one per component:

- `Wrappers` (`wrappers.dfy`): the `Option` type, for reading fields that may be absent.
- `ControlPort` (`control_port.dfy`): the `batt` tool as an oracle. `Port.Run`
  issues a command and returns an outcome the controller does not choose.
  A ghost log records every invocation and its outcome, in order.
- `StatusParser` (`status_parser.dfy`): the two regular expressions of
  `get_current_batt_info`, written as scans over `seq<char>`. It also holds a
  serialiser for status text and the round-trip lemmas that connect the two.
- `ChargeMode` (`charge_mode.dfy`): `set_batt_charging_mode` as a method over the port.
- `PolicyEngine` (`policy_engine.dfy`): the transition table as the function
  `Decide`. The class `Controller` holds the policy field, and its `Tick`
  method runs one loop iteration, and its `Loop` method runs several. `RunTicks`
  folds `Step` over a sequence of readings, so lemmas can speak about many
  iterations of the loop; `Loop` is proved to follow that fold.

In these details the model follows what the code does, not what one might expect of such a controller:

- The code matches its patterns case-sensitively (auto_batt_cycle.py:14, 16).
  The `.lower()` at line 67 changes nothing, because the captured words are already lower case.
- The charge label is exactly `Current charge:`, and the state label exactly `State:`.
- For a limit outside 1..100, the setter returns false, but it still issues the
  adapter command (lines 87-97). It does not fail before issuing any command.
- `set_batt_charging_mode(True, 100)` can come from the engine when U is 100.
  Apart from that case, enabling is always paired with U and disabling with 100 (`EnableOnlyWithUpper`).
- The engine ignores the setter's result. The policy changes even when both commands fail (lines 130-131 and others).

## Model

| member | source | states |
|---|---|---|
| `StatusParser.IsSpaceWhitespace` | auto_batt_cycle.py:14-16 | `\s` on text accepts exactly the 29 characters of Python's `str.isspace`, listed in `Whitespace` |
| `StatusParser.SkipSpaces` | auto_batt_cycle.py:14 | the greedy `\s*` stops at the first non-space: every skipped character is whitespace and the next one is not |
| `StatusParser.DigitsEnd` | auto_batt_cycle.py:14 | the greedy `\d+` run: every consumed character is a digit and the next one is not |
| `StatusParser.DecimalValue` | auto_batt_cycle.py:63 | `int()` of a k-digit string is below 10^k, and at least 10^(k-1) when its first digit is not '0' |
| `StatusParser.LeadingZero` | auto_batt_cycle.py:63 | `int()` ignores leading zeros: "0" + ds denotes the same number as ds |
| `StatusParser.DecimalDigits` | auto_batt_cycle.py:63 | the decimal numeral of n is a non-empty digit string without a leading zero, and `int()` (DecimalValue) reads it back as n |
| `StatusParser.ChargeMatchUnique` | auto_batt_cycle.py:14 | a match of the charge pattern has only one shape: its `\s*` ends where the greedy scan stops, and its `\d+` too, so backtracking cannot change the capture |
| `StatusParser.ChargeAtMatch` | auto_batt_cycle.py:14 | `ChargeAt`, the charge pattern at one position, matches iff the label, whitespace, one or more digits and '%' follow one another there, and then it captures the value of those digits |
| `StatusParser.StateMatchUnique` | auto_batt_cycle.py:16 | a match of the state pattern has only one shape: its `\s*` ends where the greedy scan stops |
| `StatusParser.StateAtMatch` | auto_batt_cycle.py:16 | `StateAt`, the state pattern at one position, matches iff the label, whitespace and one of the three state words follow one another there, and then it captures that word's state |
| `StatusParser.StateWordAtMatch` | auto_batt_cycle.py:16 | `StateWordAt`, the ordered alternation, yields the state word present, and nothing when none is present, because the three words begin with different letters |
| `StatusParser.Search` | auto_batt_cycle.py:61-66 | `re.search`: the result is a position where the pattern matches, and it matches at no earlier position; no result means it matches nowhere |
| `StatusParser.ParseCharge` | auto_batt_cycle.py:61-63 | the percentage is absent iff the charge pattern matches nowhere; otherwise it is the capture of the leftmost match |
| `StatusParser.ParseState` | auto_batt_cycle.py:65-67 | the state is absent iff the state pattern matches nowhere; otherwise it is the capture of the leftmost match |
| `StatusParser.BattInfo` | auto_batt_cycle.py:54-56 | a failed status command, a missing output or an empty output gives a reading with both fields absent |
| `StatusParser.GetCurrentBattInfo` | auto_batt_cycle.py:47-69 | issues exactly one `status` command, and the reading is what that command's outcome parses to |
| `StatusParser.ChargeRoundTrip` | auto_batt_cycle.py:14 | "Current charge:" + whitespace + digits + "%" inside any surrounding text is read back as the digits' value, provided the preceding text holds no earlier match |
| `StatusParser.StateRoundTrip` | auto_batt_cycle.py:16 | "State:" + whitespace + one of the three state words inside any surrounding text is read back as that state, provided the preceding text holds no earlier match |
| `StatusParser.StatusRoundTrip` | auto_batt_cycle.py:58-69 | a status text that contains a formatted charge n and a formatted state t, each first of its kind, yields the reading (n, t) |
| `ControlPort.Port.Run` | auto_batt_cycle.py:22-45 | one invocation is appended to the log with its outcome; a failed invocation has no output |
| `ControlPort.CommandsAppend` | auto_batt_cycle.py:83-97 | the commands of consecutive invocations are the concatenation of each part's commands |
| `ChargeMode.SetChargingMode` | auto_batt_cycle.py:71-99 | issues the limit command (only for 0 < limit <= 100, carrying that limit) and then exactly one adapter command; it returns true iff the limit is valid and both commands succeed |
| `ChargeMode.SetterCommands` | auto_batt_cycle.py:80-97 | a call issues one or two commands; the last command is the adapter command and is the only adapter command; any command before it is `limit` with the requested value |
| `PolicyEngine.Decide` | auto_batt_cycle.py:126-173 | the transition table: the new policy is never initial; at or below L it is charging and at or above U discharging; inside the band an established policy is kept; the first decision inside the band is charging iff the battery is charging; a setter call always asserts the new policy (enable with U, disable with 100); no call is made iff the policy is kept and the battery already complies with it |
| `PolicyEngine.Step` | auto_batt_cycle.py:115-173 | one tick on a reading: an incomplete reading keeps the policy and makes no setter call (the `continue` of lines 117-120); a complete one leaves the initial policy; any setter call comes from a complete reading and asserts the new policy |
| `PolicyEngine.DecideIdempotent` | auto_batt_cycle.py:149-173 | a second tick on the same reading keeps the policy, and it is silent iff the battery complies with that policy |
| `PolicyEngine.EnableOnlyWithUpper` | auto_batt_cycle.py:127-173 | every setter call that enables charging carries the limit U |
| `PolicyEngine.DefaultScenarios` | auto_batt_cycle.py:126-173 | with U = 80 and L = 20: (50, discharging) from initial disables with limit 100; (20, not charging) while discharging enables with limit 80; 80 while charging switches to discharging; 79 while discharging stays silent; (50, not charging) while charging re-asserts charging |
| `PolicyEngine.RunTicks` | auto_batt_cycle.py:114-175 | over any sequence of ticks, there are no more setter calls than ticks, and every call is (enable, U) or (disable, 100) |
| `PolicyEngine.RunTicksSnoc` | auto_batt_cycle.py:114-175 | one more tick at the end of a run starts from the run's final policy, and its setter call follows those of the run |
| `PolicyEngine.TranscriptSnoc` | auto_batt_cycle.py:114-175 | the commands of one more tick (status, then the setter's) follow those of the run |
| `PolicyEngine.LoopStep` | auto_batt_cycle.py:114-175 | after one more tick, the policy and the commands logged since the start are those of the fold over one more reading |
| `PolicyEngine.FailedReadingsAreNoOps` | auto_batt_cycle.py:115-120 | ticks whose readings all lack a field keep the policy and make no setter call |
| `PolicyEngine.NeverInitialAgain` | auto_batt_cycle.py:127-147 | after any run that contains one complete reading, the policy is no longer initial |
| `PolicyEngine.SettledTicksAreSilent` | auto_batt_cycle.py:155-173 | while every reading is failed, or strictly inside the band with the battery complying, an established policy stays and no command is issued |
| `PolicyEngine.BandKeepsPolicy` | auto_batt_cycle.py:150-173 | while every reading is failed or strictly inside the band, an established policy never changes |
| `PolicyEngine.Controller.constructor` | auto_batt_cycle.py:18-20 | a new controller starts in the initial policy with the configured limits |
| `PolicyEngine.Controller.Tick` | auto_batt_cycle.py:114-175 | one iteration: issues the status command first; an incomplete reading changes no policy and issues nothing more; otherwise the new policy is `Decide`'s, and the commands issued are exactly those of `Decide`'s setter call, whatever the setter returned |
| `PolicyEngine.Controller.Act` | auto_batt_cycle.py:124-173 | the decision branches of `main` on a complete reading reach `Decide`'s policy and issue exactly the commands of `Decide`'s setter call |
| `PolicyEngine.Controller.Loop` | auto_batt_cycle.py:114-175 | n iterations of the loop: each returned reading is what the status command of its own tick returned, parsed (`Observed`: the k-th reading is `BattInfo` of the status invocation logged right after the commands of the k ticks before it); the policy reached is that of `RunTicks` over those readings; and the commands issued are exactly `Transcript` of those readings, one status command per tick followed by that tick's setter commands |
| `PolicyEngine.ObservedStep` | auto_batt_cycle.py:114-115 | one more tick whose status invocation follows the run's commands keeps every earlier reading tied to its own status invocation, and ties the new reading to the new one |
| `PolicyEngine.Launch` | auto_batt_cycle.py:110-112 | the start-up check: no controller runs iff the upper limit is not above the lower one; otherwise a fresh controller starts in the initial policy |

## Left out

- `run_batt_command` (auto_batt_cycle.py:22-45): the subprocess call, the choice between stderr and stdout, and the exception handling are replaced by the oracle `Port.Run`. Its success and its output are left open.
- `time.sleep`, the start-up banner (lines 104-108), and the `print`/`time.ctime` logging are not modelled. The endless `while True` is modelled by `Controller.Loop` for any finite number of iterations. Its non-termination is not modelled.
- `KeyboardInterrupt` handling and the `sys.exit` codes (lines 112, 177-185) are not modelled. The fatal configuration error is modelled as `Launch` returning no controller.
- `CHECK_INTERVAL_SECONDS` and `BATT_COMMAND` are not modelled: they only affect scheduling and process invocation.
- StatusParser.IsDigit: Python's `\d` also matches non-ASCII decimal digits, and `int()` accepts them. The model recognises only '0'-'9'.
- StatusParser.DecimalValue: Python's `int()` refuses digit strings longer than 4300 characters by default and raises `ValueError`, which ends the script. The model converts digit strings of any length.
- The limits are unbounded integers. The source does no arithmetic that could overflow.
- GUIBase.py (a PyQt5 dialog) and CmdLineCtrl.py (a `subprocess.Popen` wrapper) are I/O with no decision logic, so they are not part of this model.
