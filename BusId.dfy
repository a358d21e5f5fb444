/**
 * Conversion of a PCI bus ID as nvidia-smi prints it ("00000000:0A:00.0")
 * into the form an X server configuration takes after "PCI:" ("10:0:0"):
 * drop the 9-character domain prefix, split the rest at every ':' or '.',
 * read each field as hexadecimal and join the decimal values with ':'.
 */
module BusId {
  import opened Numerals

  /** Length of the PCI domain prefix ("00000000:") that is dropped. */
  const DomainLength: nat := 9

  /** The characters the remainder is split at. */
  const Separators: set<char> := {':', '.'}

  /**
   * The bus ID with its domain dropped: what follows the first 9 characters,
   * and, like a Python slice, empty when the ID is no longer than that.
   */
  function DropDomain(bus: string): (r: string)
    ensures |bus| <= DomainLength ==> r == []
    ensures |bus| >= DomainLength ==> bus[..DomainLength] + r == bus
  {
    if |bus| <= DomainLength then [] else bus[DomainLength..]
  }

  predicate NoneIn(s: string, seps: set<char>)
  {
    forall i :: 0 <= i < |s| ==> s[i] !in seps
  }

  predicate AllSatisfy(s: string, p: char -> bool)
  {
    forall i :: 0 <= i < |s| ==> p(s[i])
  }

  /** Number of positions of s holding a separator. */
  function CountIn(s: string, seps: set<char>): nat
  {
    if s == [] then 0
    else (if s[0] in seps then 1 else 0) + CountIn(s[1..], seps)
  }

  /**
   * The fields of s between separators, as a regular-expression split on a
   * character class gives them: adjacent, leading or trailing separators
   * give empty fields, and the empty string is one empty field.
   */
  function Split(s: string, seps: set<char>): (r: seq<string>)
    ensures |r| == CountIn(s, seps) + 1
    ensures forall k :: 0 <= k < |r| ==> NoneIn(r[k], seps)
  {
    if s == [] then [[]]
    else
      var rest := Split(s[1..], seps);
      if s[0] in seps then [[]] + rest
      else [[s[0]] + rest[0]] + rest[1..]
  }

  /**
   * The fields joined with sep between consecutive ones; when no field holds
   * sep, the result holds exactly one sep fewer than there are fields.
   */
  function Join(fs: seq<string>, sep: char): (r: string)
    ensures |fs| >= 1 && (forall k :: 0 <= k < |fs| ==> NoneIn(fs[k], {sep})) ==> CountIn(r, {sep}) == |fs| - 1
  {
    if |fs| == 0 then []
    else if |fs| == 1 then (CountNoneIn(fs[0], {sep}); fs[0])
    else
      var rest := Join(fs[1..], sep);
      assert (forall k :: 0 <= k < |fs| ==> NoneIn(fs[k], {sep})) ==>
        (forall k :: 0 <= k < |fs[1..]| ==> NoneIn(fs[1..][k], {sep})) by {
        if forall k :: 0 <= k < |fs| ==> NoneIn(fs[k], {sep}) {
          forall k | 0 <= k < |fs[1..]| ensures NoneIn(fs[1..][k], {sep}) {
            assert fs[1..][k] == fs[k + 1];
          }
        }
      }
      CountNoneIn(fs[0], {sep});
      CountInConcat(fs[0], [sep], {sep});
      CountInConcat(fs[0] + [sep], rest, {sep});
      assert CountIn([sep], {sep}) == 1 by {
        assert [sep][1..] == [];
      }
      fs[0] + [sep] + rest
  }

  /** A string free of separators counts none. */
  lemma {:induction false} CountNoneIn(s: string, seps: set<char>)
    ensures NoneIn(s, seps) ==> CountIn(s, seps) == 0
  {
    if s != [] {
      CountNoneIn(s[1..], seps);
    }
  }

  /** Separators are counted piecewise over a concatenation. */
  lemma {:induction false} CountInConcat(a: string, b: string, seps: set<char>)
    ensures CountIn(a + b, seps) == CountIn(a, seps) + CountIn(b, seps)
  {
    if a == [] {
      assert a + b == b;
    } else {
      assert (a + b)[1..] == a[1..] + b;
      CountInConcat(a[1..], b, seps);
    }
  }

  /** s with every character of seps replaced by c. */
  function Canon(s: string, seps: set<char>, c: char): (r: string)
    ensures |r| == |s|
    ensures forall i :: 0 <= i < |s| ==> r[i] == if s[i] in seps then c else s[i]
  {
    if s == [] then []
    else [if s[0] in seps then c else s[0]] + Canon(s[1..], seps, c)
  }

  /** Splitting what starts with a separator-free prefix extends the first field. */
  lemma {:induction false} SplitPrefix(a: string, t: string, seps: set<char>)
    requires NoneIn(a, seps)
    ensures Split(a + t, seps) == [a + Split(t, seps)[0]] + Split(t, seps)[1..]
  {
    if a != [] {
      assert (a + t)[1..] == a[1..] + t;
      SplitPrefix(a[1..], t, seps);
      assert [a[0]] + (a[1..] + Split(t, seps)[0]) == a + Split(t, seps)[0];
    } else {
      var r := Split(t, seps);
      assert a + t == t;
      assert a + r[0] == r[0];
      assert r == [r[0]] + r[1..];
    }
  }

  /** Splitting at sep undoes joining with sep, when no field contains sep. */
  lemma {:induction false} SplitJoin(fs: seq<string>, sep: char)
    requires |fs| >= 1
    requires forall k :: 0 <= k < |fs| ==> NoneIn(fs[k], {sep})
    ensures Split(Join(fs, sep), {sep}) == fs
  {
    if |fs| == 1 {
      SplitPrefix(fs[0], [], {sep});
      assert fs[0] + [] == fs[0];
    } else {
      var tail := [sep] + Join(fs[1..], sep);
      assert Join(fs, sep) == fs[0] + tail;
      SplitPrefix(fs[0], tail, {sep});
      assert tail[1..] == Join(fs[1..], sep);
      SplitJoin(fs[1..], sep);
      assert Split(tail, {sep}) == [[]] + fs[1..];
      assert fs[0] + [] == fs[0];
    }
  }

  /**
   * Joining the fields of a split with c gives the string back with every
   * separator replaced by c: the fields are exactly the pieces between
   * separators.
   */
  lemma {:induction false} JoinSplitClass(s: string, seps: set<char>, c: char)
    ensures Join(Split(s, seps), c) == Canon(s, seps, c)
  {
    if s != [] {
      var rest := Split(s[1..], seps);
      JoinSplitClass(s[1..], seps, c);
      if s[0] in seps {
        assert Split(s, seps) == [[]] + rest;
        JoinEmptyFirst(rest, c);
        assert Canon(s, seps, c) == [c] + Canon(s[1..], seps, c);
      } else {
        assert Split(s, seps) == [[s[0]] + rest[0]] + rest[1..];
        JoinExtendFirst(s[0], rest, c);
        assert Canon(s, seps, c) == [s[0]] + Canon(s[1..], seps, c);
      }
    }
  }

  /** Joining with sep undoes splitting at sep alone. */
  lemma JoinSplit(s: string, sep: char)
    ensures Join(Split(s, {sep}), sep) == s
  {
    JoinSplitClass(s, {sep}, sep);
    assert Canon(s, {sep}, sep) == s;
  }

  /** Joining after an empty first field puts one sep in front. */
  lemma JoinEmptyFirst(fs: seq<string>, sep: char)
    requires |fs| >= 1
    ensures Join([[]] + fs, sep) == [sep] + Join(fs, sep)
  {
    assert ([[]] + fs)[1..] == fs;
  }

  /** Joining after a character is put in front of the first field puts it in front of the join. */
  lemma JoinExtendFirst(c: char, fs: seq<string>, sep: char)
    requires |fs| >= 1
    ensures Join([[c] + fs[0]] + fs[1..], sep) == [c] + Join(fs, sep)
  {
    var gs := [[c] + fs[0]] + fs[1..];
    assert gs[0] == [c] + fs[0] && gs[1..] == fs[1..];
  }

  /** A join keeps to any character class that its fields and its separator keep to. */
  lemma {:induction false} JoinSatisfies(fs: seq<string>, sep: char, p: char -> bool)
    requires p(sep)
    requires forall k :: 0 <= k < |fs| ==> AllSatisfy(fs[k], p)
    ensures AllSatisfy(Join(fs, sep), p)
  {
    if |fs| > 1 {
      JoinSatisfies(fs[1..], sep, p);
      var j := fs[0] + [sep] + Join(fs[1..], sep);
      forall i | 0 <= i < |j| ensures p(j[i]) {
        if i < |fs[0]| {
          assert j[i] == fs[0][i];
        } else if i > |fs[0]| {
          assert j[i] == Join(fs[1..], sep)[i - |fs[0]| - 1];
        }
      }
    }
  }

  /** The hexadecimal fields of a bus ID, after the domain. */
  function Fields(bus: string): seq<string>
  {
    Split(DropDomain(bus), Separators)
  }

  /** Every field is a non-empty string of hexadecimal digits, so every parse succeeds. */
  predicate WellFormedBus(bus: string)
  {
    var fs := Fields(bus);
    forall k :: 0 <= k < |fs| ==> IsHexString(fs[k])
  }

  predicate IsDecimalOrColon(c: char)
  {
    c == ':' || IsDecimalDigit(c)
  }

  /**
   * Each hexadecimal field rendered in decimal: one canonical decimal string
   * per field, worth what the field is worth.
   */
  function DecimalFields(fs: seq<string>): (r: seq<string>)
    requires forall k :: 0 <= k < |fs| ==> IsHexString(fs[k])
    ensures |r| == |fs|
    ensures forall k :: 0 <= k < |r| ==>
      && IsHexString(fs[k]) && IsDecimalString(r[k]) && (|r[k]| > 1 ==> r[k][0] != '0')
      && DecimalValue(r[k]) == HexValue(fs[k])
  {
    var r := seq(|fs|, k requires 0 <= k < |fs| => assert IsHexString(fs[k]); DecimalString(HexValue(fs[k])));
    assert forall k :: 0 <= k < |r| ==> IsHexString(fs[k]) && DecimalValue(r[k]) == HexValue(fs[k]) by {
      forall k | 0 <= k < |r| ensures IsHexString(fs[k]) && DecimalValue(r[k]) == HexValue(fs[k]) {
        assert IsHexString(fs[k]);
        DecimalRoundTrip(HexValue(fs[k]));
      }
    }
    r
  }

  /** coolgpus's `decimalize`: the bus ID in the X server's decimal form. */
  function Decimalize(bus: string): (r: string)
    requires WellFormedBus(bus)
    ensures AllSatisfy(r, IsDecimalOrColon)
  {
    var ds := DecimalFields(Fields(bus));
    assert forall k :: 0 <= k < |ds| ==> AllSatisfy(ds[k], IsDecimalOrColon) by {
      forall k | 0 <= k < |ds| ensures AllSatisfy(ds[k], IsDecimalOrColon) {
        assert IsDecimalString(ds[k]);
      }
    }
    JoinSatisfies(ds, ':', IsDecimalOrColon);
    Join(ds, ':')
  }

  /**
   * The output has one ':'-separated field per hexadecimal field of the input,
   * and field k is the decimal rendering of the value of input field k.
   */
  lemma DecimalizeFields(bus: string)
    requires WellFormedBus(bus)
    ensures Join(Fields(bus), ':') == Canon(DropDomain(bus), Separators, ':')
    ensures var out := Split(Decimalize(bus), {':'});
      && |out| == |Fields(bus)|
      && forall k :: 0 <= k < |out| ==>
           out[k] == DecimalString(HexValue(Fields(bus)[k])) && DecimalValue(out[k]) == HexValue(Fields(bus)[k])
  {
    JoinSplitClass(DropDomain(bus), Separators, ':');
    var fs := Fields(bus);
    var ds := DecimalFields(fs);
    forall k | 0 <= k < |ds|
      ensures NoneIn(ds[k], {':'}) && ds[k] == DecimalString(HexValue(fs[k]))
    {
      DecimalStringOfValue(ds[k]);
    }
    SplitJoin(ds, ':');
  }

  /** An ID no longer than its domain prefix leaves one empty field, which does not parse. */
  lemma ShortBusIllFormed(bus: string)
    requires |bus| <= DomainLength
    ensures !WellFormedBus(bus)
  {
    assert Fields(bus) == [[]];
    assert !IsHexString(Fields(bus)[0]);
  }

  /** The fields of "00000000:0A:00.0" after its domain are "0A", "00" and "0". */
  lemma FieldsExample()
    ensures Fields("00000000:0A:00.0") == ["0A", "00", "0"]
  {
    assert DropDomain("00000000:0A:00.0") == "0A:00.0";
    SplitTailExample();
    assert ":00.0"[1..] == "00.0";
    assert Split(":00.0", Separators) == ["", "00", "0"];
    assert "A:00.0"[1..] == ":00.0" && 'A' !in Separators && ['A'] + "" == "A";
    assert Split("A:00.0", Separators) == ["A", "00", "0"];
    assert "0A:00.0"[1..] == "A:00.0" && ['0'] + "A" == "0A";
  }

  lemma SplitTailExample()
    ensures Split("00.0", Separators) == ["00", "0"]
  {
    assert "0"[1..] == "" && '0' !in Separators && ['0'] + "" == "0";
    assert Split("0", Separators) == ["0"];
    assert ".0"[1..] == "0";
    assert Split(".0", Separators) == ["", "0"];
    assert "0.0"[1..] == ".0";
    assert Split("0.0", Separators) == ["0", "0"];
    assert "00.0"[1..] == "0.0" && ['0'] + "0" == "00";
  }

  /** The domain is dropped and each field converted: "00000000:0A:00.0" becomes "10:0:0". */
  lemma DecimalizeExample()
    ensures WellFormedBus("00000000:0A:00.0") && Decimalize("00000000:0A:00.0") == "10:0:0"
  {
    ExampleWellFormed();
    FieldsExample();
    DecimalFieldsExample();
    JoinExample();
  }

  lemma ExampleWellFormed()
    ensures WellFormedBus("00000000:0A:00.0")
  {
    FieldsExample();
    DecimalFieldsExample();
    var fs := Fields("00000000:0A:00.0");
    forall k | 0 <= k < |fs| ensures IsHexString(fs[k]) {
      assert k == 0 || k == 1 || k == 2;
    }
  }

  lemma DecimalFieldsExample()
    ensures IsHexString("0A") && IsHexString("00") && IsHexString("0")
    ensures DecimalFields(["0A", "00", "0"]) == ["10", "0", "0"]
  {
    var fs := ["0A", "00", "0"];
    assert IsHexString(fs[0]) && IsHexString(fs[1]) && IsHexString(fs[2]);
    assert HexValue(fs[0]) == 10 by {
      assert fs[0][..1] == "0";
    }
    assert HexValue(fs[1]) == 0 by {
      assert fs[1][..1] == "0";
    }
    assert HexValue(fs[2]) == 0;
    var ds := DecimalFields(fs);
    assert ds[0] == DecimalString(10) == "10";
    assert ds[1] == "0" && ds[2] == "0";
  }

  lemma JoinExample()
    ensures Join(["10", "0", "0"], ':') == "10:0:0"
  {
    var ds := ["10", "0", "0"];
    assert Join(ds[2..], ':') == "0";
    assert Join(ds[1..], ':') == "0:0";
  }
}
