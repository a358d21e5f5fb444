# coolgpus fan control, modelled in Dafny

coolgpus is a daemon that keeps NVIDIA GPU fans in a safe band. It starts a
throwaway X server per GPU (the driver's fan API needs a display), then polls
each GPU's temperature every few seconds and sets the fan speed from a
clamped quadratic curve with hysteresis.

This project models the parts of `fans.py` that are logic rather than glue:

- `FanCurve.dfy` — the fan curve: `min_speed`, `max_speed` and
  `target_speed`. The constants are T_MIN = 50, T_MAX = 80, S_MIN = 30 and
  S_MAX = 99. SCALE is the exact rational 69/900, and `int(...)` is `.Floor`.
  Every truncated value is at least S_MIN, so floor and truncation agree.
- `Numerals.dfy` — `str(n)` for natural numbers and `int('0x' + p, 16)` for
  hexadecimal digit strings.
- `BusId.dfy` — `decimalize`. It drops the 9-character PCI domain, splits the
  rest at `:` or `.`, and re-renders each hexadecimal field in decimal.
- `Displays.dfy` — the `displays` mapping that `xservers` builds: bus at
  position d gets display `":d"`.
- `FanControl.dfy` — the speed table of `manage_fans` as a class
  `FanManager`, with a map from bus to the last speed set. `Step` is one poll
  of one bus. `Sweep` is one pass of the inner `for` loop over all buses.
  Temperatures are inputs, and a set-speed command is a returned `Command`
  value. Each method is specified by a pure function (`StepOutcome`,
  `SweepOutcome`), and the lemmas are proved about those functions.

The comment at the top of `fans.py` says the curve starts "below 55C". The
code uses T_MIN = 50 (fans.py:11), and the model follows the code.

## Model

| member | source | states |
|---|---|---|
| FanCurve.MinSpeed | fans.py:111-114 | the lower bound lies in [30, 99]; it is 30 at or below 50 degrees and 99 at or above 80 degrees |
| FanCurve.MaxSpeed | fans.py:116-119 | the upper bound lies in [30, 99]; it is 99 at or above 80 degrees and 30 at or below 50 degrees |
| FanCurve.TargetSpeed | fans.py:121-123 | returns the band (min_speed, max_speed) and a speed inside it; a speed already in the band is kept (hysteresis); otherwise the nearer end is taken |
| FanCurve.BandNonEmpty | fans.py:111-123 | for every temperature the lower bound is at most the upper bound, so the band is never empty |
| FanCurve.CurvesOrdered | fans.py:111-123 | between 50 and 80 degrees the unclamped rising curve lies at or below the unclamped falling curve |
| FanCurve.MinSpeedMonotone | fans.py:111-114 | the lower bound never decreases as the temperature rises |
| FanCurve.MaxSpeedMonotone | fans.py:116-119 | the upper bound never decreases as the temperature rises |
| FanCurve.MinSpeedInRange | fans.py:111-114 | between 50 and 80 degrees the lower bound equals the integer formula 30 + 69(t-50)^2 div 900 |
| FanCurve.MaxSpeedInRange | fans.py:116-119 | between 50 and 80 degrees the upper bound equals 99 minus the ceiling of 69(80-t)^2 / 900 |
| FanCurve.TargetSpeedIdempotent | fans.py:121-123 | clamping the clamped speed again at the same temperature gives the same result |
| FanCurve.TargetSpeedNearest | fans.py:121-123 | the new speed is no farther from the old speed than any other speed in the band |
| Numerals.DecimalString | fans.py:68 | str(n) is a non-empty digit string without a leading zero |
| Numerals.DecimalRoundTrip | fans.py:68 | reading the decimal rendering of n back gives n |
| Numerals.DecimalStringOfValue | fans.py:68 | every digit string without a leading zero is the rendering of its own value |
| Numerals.DecimalStringInjective | fans.py:102 | different numbers have different decimal renderings |
| Numerals.HexValue | fans.py:68 | `int('0x' + p, 16)` on a string of hexadecimal digits: a field of k digits is worth less than 16^k |
| Numerals.HexValueConcat | fans.py:68 | the positional meaning of a hexadecimal field: the digits of p followed by q are worth HexValue(p) * 16^|q| + HexValue(q), so leading zeros do not change the value |
| BusId.DropDomain | fans.py:68 | `bus[9:]`: the 9-character domain followed by the result is the whole ID; an ID of at most 9 characters leaves the empty string |
| BusId.Split | fans.py:68 | splitting at the separator class gives one field more than there are separators, and no field contains a separator (what the fields are is fixed by BusId.JoinSplitClass) |
| BusId.Join | fans.py:68 | `':'.join`: joining fields that hold no separator puts exactly one separator between consecutive fields, so the result holds one fewer separator than there are fields |
| BusId.JoinSplitClass | fans.py:68 | the fields of a split at a character class are exactly the pieces between separators: joining them with c gives the string back with every separator replaced by c |
| BusId.SplitJoin | fans.py:68 | splitting at sep undoes joining with sep when no field contains sep |
| BusId.JoinSplit | fans.py:68 | joining with sep undoes splitting at sep |
| BusId.DecimalFields | fans.py:68 | the list comprehension: one canonical decimal string per hexadecimal field, worth what the field is worth |
| BusId.Decimalize | fans.py:65-68 | the converted bus ID consists only of decimal digits and ':' |
| BusId.DecimalizeFields | fans.py:65-68 | the input fields are the pieces of `bus[9:]` between ':' and '.' (joined with ':' they give `bus[9:]` with every '.' turned into ':'); the output has as many ':'-separated fields as the input has ':'/'.'-separated fields after the domain, and field k is the decimal rendering of hexadecimal field k |
| BusId.ShortBusIllFormed | fans.py:68 | an ID no longer than the 9-character domain leaves one empty field, which does not parse as hexadecimal |
| BusId.FieldsExample | fans.py:68 | the fields of "00000000:0A:00.0" after the domain are "0A", "00" and "0" |
| BusId.DecimalizeExample | fans.py:65-68 | "00000000:0A:00.0" is well formed and converts to "10:0:0" |
| Displays.DisplayName | fans.py:102 | a display name is ':' followed by at least one more character |
| Displays.DisplayNameInjective | fans.py:102 | different list positions get different display names |
| Displays.LastIndex | fans.py:101-102 | the position whose assignment survives is an occurrence of the bus with no later occurrence |
| Displays.AssignDisplays | fans.py:99-104 | every listed bus gets an entry, holding the display of its last position; different buses get different displays; without repeats, the bus at position d gets ":d" |
| FanControl.InitialTable | fans.py:140 | every bus of the displays mapping starts at speed 0, and the table is valid |
| FanControl.StepOutcome | fans.py:143-150 | the polled bus's entry becomes the clamped target and no other entry changes; a command is issued if and only if the entry changed; none while the recorded speed lies in the band; always one for a bus still at 0 |
| FanControl.SweepOutcome | fans.py:142-150 | a pass keeps the set of buses and issues at most one command per poll |
| FanControl.SweepKeepsValid | fans.py:142-150 | a pass keeps every entry at 0 or in [30, 99], and every command sets a speed in [30, 99] on one of the GPUs' displays |
| FanControl.SweepLeavesOthers | fans.py:142-150 | a bus that is not polled keeps its entry |
| FanControl.SweepSetsTargets | fans.py:142-150 | when each bus is polled once, each ends at the target for its own reading |
| FanControl.FirstSweepSetsAll | fans.py:140-150 | from the initial table, the first pass issues one command per bus, in order, each with that bus's target speed |
| FanControl.SettledSweepIsSilent | fans.py:142-150 | when every recorded speed already lies in its band, a pass changes nothing and issues no command |
| FanControl.FanManager.constructor | fans.py:140 | the table holds 0 for every bus of the displays mapping |
| FanControl.FanManager.Step | fans.py:143-150 | one poll updates the table and returns the command exactly as StepOutcome says, and returns the band that `manage_fans` prints |
| FanControl.FanManager.Sweep | fans.py:142-150 | one pass of the loop updates the table and returns the commands, in order, exactly as SweepOutcome says |

## Left out

- Subprocesses: `gpu_buses` and `temperature` (nvidia-smi), `xserver` (Xorg) and `assign`/`set_speed` (nvidia-settings) are external commands. Temperatures are inputs to `Step` and `Sweep`. A set-speed command, which is two nvidia-settings assignments, is the returned `Command` value.
- `config`, `EDID` and `XORG_CONF`: temporary files and constant configuration text. Their only logic, `decimalize`, is modelled.
- The `servers` dictionary and the `Popen` calls in `xservers`: process spawning. Only the `displays` mapping is modelled.
- The endless `while True` loop, `time.sleep(5)` and the printing: runtime behaviour. `Sweep` models one pass of the loop body.
- The `finally` clauses: terminating the X servers and releasing fan control (fans.py:106-109, 152-155) are process management.
- Exceptions raised by `set_speed` before the table is written: the model assumes every command succeeds.
- Dictionary iteration order: `Sweep` takes the order of the buses as a parameter.
- Floating point: SCALE is the exact rational 69/900. Inside [50, 80] the exact value before truncation has a fractional part that is a multiple of 1/900, far larger than the float rounding error, so truncation can only come out differently where that value is a whole number: at 50 and 80. At 80 the float product of SCALE and 900 is within half a unit in the last place of 69 and rounds to 69.0, so `min_speed(80)` is 99 in both. At 50 the clamp makes `max_speed(50)` 30 either way.
- FanCurve.MinSpeed: does not model Python's OverflowError. For t - 50 above about 1.3e154, converting the squared difference to a float raises OverflowError; the model returns 99 there.
- FanCurve.MaxSpeed: does not model Python's OverflowError. For 80 - t above about 1.3e154, converting the squared difference to a float raises OverflowError; the model returns 30 there.
- BusId.Decimalize: requires every field to be a non-empty string of ASCII hexadecimal digits. Python's `int(..., 16)` also accepts an underscore right after the prefix or between digits, trailing whitespace (Unicode whitespace included) and non-ASCII Unicode decimal digits such as the fullwidth '３', which it reads as their ASCII value. Fields of those forms, and the ValueError raised for fields `int` rejects, are not modelled.
