/**
 * The display each GPU's throwaway X server is started under: the bus at
 * position d of the bus list gets display ":d". The list is walked in order
 * and a later occurrence of a bus overwrites an earlier one, as a dictionary
 * assignment does.
 */
module Displays {
  import opened Numerals

  /** A PCI bus ID as nvidia-smi prints it. */
  type Bus = string

  /** An X display name such as ":0". */
  type Display = string

  /** The display for list position d: ":" followed by d in decimal. */
  function DisplayName(d: nat): (r: Display)
    ensures |r| >= 2 && r[0] == ':'
  {
    ":" + DecimalString(d)
  }

  /** Different positions get different display names. */
  lemma DisplayNameInjective(m: nat, n: nat)
    requires m != n
    ensures DisplayName(m) != DisplayName(n)
  {
    DecimalStringInjective(m, n);
    assert DisplayName(m)[1..] == DecimalString(m);
    assert DisplayName(n)[1..] == DecimalString(n);
  }

  /** The position of the last occurrence of b, whose assignment is the one that survives. */
  function LastIndex(buses: seq<Bus>, b: Bus): (d: nat)
    requires b in buses
    ensures d < |buses| && buses[d] == b
    ensures forall e :: d < e < |buses| ==> buses[e] != b
  {
    if buses[|buses| - 1] == b then |buses| - 1
    else LastIndex(buses[..|buses| - 1], b)
  }

  predicate Distinct(buses: seq<Bus>)
  {
    forall i, j :: 0 <= i < j < |buses| ==> buses[i] != buses[j]
  }

  /**
   * The displays mapping built while the X servers are started: every listed
   * bus gets an entry, the entry is the display of the bus's last position,
   * different buses get different displays, and for a list without repeats
   * the bus at position d gets ":d".
   */
  method AssignDisplays(buses: seq<Bus>) returns (displays: map<Bus, Display>)
    ensures displays.Keys == set b | b in buses
    ensures forall b :: b in displays ==> displays[b] == DisplayName(LastIndex(buses, b))
    ensures forall d :: 0 <= d < |buses| && Distinct(buses) ==> displays[buses[d]] == DisplayName(d)
    ensures forall b1, b2 :: b1 in displays && b2 in displays && b1 != b2 ==> displays[b1] != displays[b2]
  {
    displays := map[];
    for d := 0 to |buses|
      invariant displays.Keys == set b | b in buses[..d]
      invariant forall b :: b in displays ==> b in buses[..d] && displays[b] == DisplayName(LastIndex(buses[..d], b))
    {
      assert buses[..d + 1][..d] == buses[..d];
      assert buses[..d + 1] == buses[..d] + [buses[d]];
      displays := displays[buses[d] := DisplayName(d)];
    }
    assert buses[..|buses|] == buses;
    forall d | 0 <= d < |buses| && Distinct(buses) ensures displays[buses[d]] == DisplayName(d) {
      assert buses[d] in buses;
      var e := LastIndex(buses, buses[d]);
      assert e == d;
    }
    forall b1, b2 | b1 in displays && b2 in displays && b1 != b2 ensures displays[b1] != displays[b2] {
      DisplayNameInjective(LastIndex(buses, b1), LastIndex(buses, b2));
    }
  }
}
