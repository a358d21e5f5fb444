/**
 * The fan manager's speed table. It maps each GPU's bus to the speed last
 * set on it, starting at 0 for every bus. Each poll of a bus reads its
 * temperature, clamps the recorded speed into the curve's band for that
 * temperature, and issues a set-speed command, then records the new speed,
 * only when the target differs from what is recorded.
 *
 * The temperature readings are inputs, and the set-speed command (two
 * nvidia-settings assignments on the GPU's display) is a returned value.
 */
module FanControl {
  import opened FanCurve
  import opened Displays

  datatype Option<T> = None | Some(value: T)

  /** Take manual control of the GPU's fan on a display and set its target speed. */
  datatype Command = SetSpeed(display: Display, speed: int)

  /** A table entry is 0 before the first command for its bus, and a speed of the curve afterwards. */
  predicate ValidSpeed(s: int)
  {
    s == 0 || SMin <= s <= SMax
  }

  /** A speed table for the GPUs of a displays mapping. */
  predicate ValidTable(speeds: map<Bus, int>, displays: map<Bus, Display>)
  {
    && speeds.Keys == displays.Keys
    && forall b :: b in speeds ==> ValidSpeed(speeds[b])
  }

  /** The table every bus starts with. */
  function InitialTable(displays: map<Bus, Display>): (speeds: map<Bus, int>)
    ensures ValidTable(speeds, displays)
    ensures forall b :: b in speeds ==> speeds[b] == 0
  {
    map b | b in displays :: 0
  }

  /**
   * One poll of bus at temperature temp: the new table and the command
   * issued, if any. The bus's entry becomes the clamped target and no other
   * entry changes; a command goes out exactly when the entry changed; no
   * command goes out while the recorded speed lies in the band; and a bus
   * still at its initial 0 always gets one.
   */
  function StepOutcome(speeds: map<Bus, int>, displays: map<Bus, Display>, bus: Bus, temp: int)
    : (r: (map<Bus, int>, Option<Command>))
    requires bus in speeds && bus in displays
    ensures r.0.Keys == speeds.Keys
    ensures r.0[bus] == TargetSpeed(speeds[bus], temp).speed
    ensures forall b :: b in speeds && b != bus ==> r.0[b] == speeds[b]
    ensures r.1.Some? <==> r.0[bus] != speeds[bus]
    ensures r.1.Some? ==> r.1.value == SetSpeed(displays[bus], r.0[bus])
    ensures MinSpeed(temp) <= speeds[bus] <= MaxSpeed(temp) ==> r == (speeds, None)
    ensures speeds[bus] == 0 ==> r.1.Some?
  {
    var s := TargetSpeed(speeds[bus], temp).speed;
    if s != speeds[bus] then (speeds[bus := s], Some(SetSpeed(displays[bus], s)))
    else (speeds, None)
  }

  /** Every bus of order is polled. */
  predicate Polls(order: seq<Bus>, temps: seq<int>, speeds: map<Bus, int>, displays: map<Bus, Display>)
  {
    && |order| == |temps|
    && forall i :: 0 <= i < |order| ==> order[i] in speeds && order[i] in displays
  }

  /**
   * One pass of the polling loop: bus order[i] is polled at temperature
   * temps[i], in that order. The result is the final table and the commands
   * issued, in the order issued.
   */
  function SweepOutcome(speeds: map<Bus, int>, displays: map<Bus, Display>, order: seq<Bus>, temps: seq<int>)
    : (r: (map<Bus, int>, seq<Command>))
    requires Polls(order, temps, speeds, displays)
    ensures r.0.Keys == speeds.Keys
    ensures |r.1| <= |order|
    decreases |order|
  {
    if order == [] then (speeds, [])
    else
      var n := |order| - 1;
      var prev := SweepOutcome(speeds, displays, order[..n], temps[..n]);
      var step := StepOutcome(prev.0, displays, order[n], temps[n]);
      (step.0, if step.1.Some? then prev.1 + [step.1.value] else prev.1)
  }

  /** A pass keeps the table valid, and every command sets a curve speed on a known display. */
  lemma {:induction false} SweepKeepsValid(speeds: map<Bus, int>, displays: map<Bus, Display>, order: seq<Bus>, temps: seq<int>)
    requires ValidTable(speeds, displays)
    requires Polls(order, temps, speeds, displays)
    ensures var r := SweepOutcome(speeds, displays, order, temps);
      && ValidTable(r.0, displays)
      && forall k :: 0 <= k < |r.1| ==> r.1[k].display in displays.Values && SMin <= r.1[k].speed <= SMax
  {
    if order != [] {
      var n := |order| - 1;
      SweepKeepsValid(speeds, displays, order[..n], temps[..n]);
    }
  }

  /** A bus that is not polled keeps its entry. */
  lemma {:induction false} SweepLeavesOthers(speeds: map<Bus, int>, displays: map<Bus, Display>, order: seq<Bus>, temps: seq<int>, b: Bus)
    requires Polls(order, temps, speeds, displays)
    requires b in speeds && b !in order
    ensures SweepOutcome(speeds, displays, order, temps).0[b] == speeds[b]
  {
    if order != [] {
      var n := |order| - 1;
      assert b !in order[..n];
      SweepLeavesOthers(speeds, displays, order[..n], temps[..n], b);
    }
  }

  /** When every bus is polled once, each ends at the target for its own reading. */
  lemma {:induction false} SweepSetsTargets(speeds: map<Bus, int>, displays: map<Bus, Display>, order: seq<Bus>, temps: seq<int>)
    requires Polls(order, temps, speeds, displays)
    requires Distinct(order)
    ensures forall i :: 0 <= i < |order| ==>
      SweepOutcome(speeds, displays, order, temps).0[order[i]] == TargetSpeed(speeds[order[i]], temps[i]).speed
  {
    if order != [] {
      var n := |order| - 1;
      var prev := SweepOutcome(speeds, displays, order[..n], temps[..n]);
      SweepSetsTargets(speeds, displays, order[..n], temps[..n]);
      SweepLeavesOthers(speeds, displays, order[..n], temps[..n], order[n]);
      forall i | 0 <= i < n
        ensures SweepOutcome(speeds, displays, order, temps).0[order[i]] == TargetSpeed(speeds[order[i]], temps[i]).speed
      {
        assert order[..n][i] == order[i];
      }
    }
  }

  /**
   * From the initial table, a pass over distinct buses issues one command
   * per bus, in order, each setting that bus's target speed.
   */
  lemma {:induction false} FirstSweepSetsAll(speeds: map<Bus, int>, displays: map<Bus, Display>, order: seq<Bus>, temps: seq<int>)
    requires Polls(order, temps, speeds, displays)
    requires Distinct(order)
    requires forall i :: 0 <= i < |order| ==> speeds[order[i]] == 0
    ensures var cmds := SweepOutcome(speeds, displays, order, temps).1;
      && |cmds| == |order|
      && forall i :: 0 <= i < |order| ==> cmds[i] == SetSpeed(displays[order[i]], TargetSpeed(0, temps[i]).speed)
  {
    if order != [] {
      var n := |order| - 1;
      FirstSweepSetsAll(speeds, displays, order[..n], temps[..n]);
      SweepLeavesOthers(speeds, displays, order[..n], temps[..n], order[n]);
      var prev := SweepOutcome(speeds, displays, order[..n], temps[..n]);
      var cmds := SweepOutcome(speeds, displays, order, temps).1;
      forall i | 0 <= i < |order|
        ensures cmds[i] == SetSpeed(displays[order[i]], TargetSpeed(0, temps[i]).speed)
      {
        if i < n {
          assert order[..n][i] == order[i] && temps[..n][i] == temps[i];
          assert cmds[i] == prev.1[i];
        }
      }
    }
  }

  /**
   * Hysteresis over a whole pass: when every polled bus's recorded speed
   * already lies in the band of its reading, nothing changes and no command
   * is issued.
   */
  lemma {:induction false} SettledSweepIsSilent(speeds: map<Bus, int>, displays: map<Bus, Display>, order: seq<Bus>, temps: seq<int>)
    requires Polls(order, temps, speeds, displays)
    requires forall i :: 0 <= i < |order| ==> MinSpeed(temps[i]) <= speeds[order[i]] <= MaxSpeed(temps[i])
    ensures SweepOutcome(speeds, displays, order, temps) == (speeds, [])
  {
    if order != [] {
      var n := |order| - 1;
      SettledSweepIsSilent(speeds, displays, order[..n], temps[..n]);
    }
  }

  /** The fan manager: the displays of the GPUs and the speed last set on each. */
  class FanManager {
    const displays: map<Bus, Display>
    var speeds: map<Bus, int>

    ghost predicate Valid()
      reads this
    {
      ValidTable(speeds, displays)
    }

    /** Every bus of the displays mapping starts at speed 0. */
    constructor (displays: map<Bus, Display>)
      ensures Valid()
      ensures this.displays == displays
      ensures speeds == InitialTable(displays)
    {
      this.displays := displays;
      speeds := map b | b in displays :: 0;
    }

    /**
     * Poll one bus at the temperature just read: returns the command issued,
     * if any, and the target with its band (which `manage_fans` prints).
     */
    method Step(bus: Bus, temp: int) returns (cmd: Option<Command>, target: Target)
      requires Valid()
      requires bus in displays
      modifies this
      ensures Valid()
      ensures target == TargetSpeed(old(speeds)[bus], temp)
      ensures (speeds, cmd) == StepOutcome(old(speeds), displays, bus, temp)
    {
      target := TargetSpeed(speeds[bus], temp);
      if target.speed != speeds[bus] {
        cmd := Some(SetSpeed(displays[bus], target.speed));
        speeds := speeds[bus := target.speed];
      } else {
        cmd := None;
      }
    }

    /** One pass of the polling loop over the buses in order, with their readings. */
    method Sweep(order: seq<Bus>, temps: seq<int>) returns (cmds: seq<Command>)
      requires Valid()
      requires Polls(order, temps, speeds, displays)
      modifies this
      ensures Valid()
      ensures (speeds, cmds) == SweepOutcome(old(speeds), displays, order, temps)
    {
      cmds := [];
      for i := 0 to |order|
        invariant Valid()
        invariant (speeds, cmds) == SweepOutcome(old(speeds), displays, order[..i], temps[..i])
      {
        assert order[..i + 1][..i] == order[..i] && temps[..i + 1][..i] == temps[..i];
        var cmd, target := Step(order[i], temps[i]);
        if cmd.Some? {
          cmds := cmds + [cmd.value];
        }
      }
      assert order[..|order|] == order && temps[..|temps|] == temps;
    }
  }
}
