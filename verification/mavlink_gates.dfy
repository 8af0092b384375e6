/** Which inbound MAVLink messages count: src/modules/mavlink_interface.cpp. */
module MavlinkGates {
  import opened Common

  datatype Source = Source(sysid: nat, compid: nat)

  const AUTOPILOT: Source := Source(1, 1)
  const BLUEOS: Source := Source(1, 191)

  /** The fixed ten-byte name of NAMED_VALUE_FLOAT. */
  type Name = f: seq<char> | |f| == 10 witness seq(10, _ => '\0')

  /** `namedValueIs`: a prefix comparison, then a terminator unless the name fills the field. */
  predicate NamedValueIs(field: Name, expected: string) {
    && |expected| <= 10
    && field[..|expected|] == expected
    && (|expected| == 10 || field[|expected|] == '\0')
  }

  /** What a reader that stops at the first NUL takes the field to say. */
  function CString(field: seq<char>): string {
    if field == [] || field[0] == '\0' then [] else [field[0]] + CString(field[1..])
  }

  lemma {:induction false} CStringPrefix(field: seq<char>, expected: string)
    requires '\0' !in expected
    ensures CString(field) == expected <==>
              && |expected| <= |field| && field[..|expected|] == expected
              && (|expected| == |field| || field[|expected|] == '\0')
    decreases |expected|
  {
    if field != [] && field[0] != '\0' && expected != [] {
      var f, e := field[1..], expected[1..];
      CStringPrefix(f, e);
      assert forall c | c in e :: c in expected;
      if CString(field) == expected {
        assert CString(f) == e;
        assert field[..|expected|] == [field[0]] + f[..|e|];
      }
      if |expected| <= |field| && field[..|expected|] == expected {
        assert f[..|e|] == field[..|expected|][1..] == e;
        assert expected[0] == field[..|expected|][0];
        assert expected == [expected[0]] + e;
      }
    } else if expected != [] {
      assert expected[0] in expected;
    }
  }

  /** The gate accepts a field exactly when it spells the expected name. */
  lemma NamedValueIsExact(field: Name, expected: string)
    requires '\0' !in expected
    ensures NamedValueIs(field, expected) <==> CString(field) == expected
  {
    CStringPrefix(field, expected);
  }

  /** `roundf`: halves go away from zero. */
  function Round(v: real): int {
    if v >= 0.0 then (v + 0.5).Floor else -((-v + 0.5).Floor)
  }

  /** The mission state a STATE value stands for, if any. */
  function DecodeState(v: real): Option<int> {
    var rounded := Round(v);
    if Abs(v - rounded as real) <= 0.1 && -1 <= rounded <= 4 then Some(rounded) else None
  }

  /** A value is taken for mission state `n` exactly when it lies within a tenth of it. */
  lemma DecodeStateExact(v: real, n: int)
    ensures DecodeState(v) == Some(n) <==> -1 <= n <= 4 && Abs(v - n as real) <= 0.1
  {
  }

  /** What an accepted NAMED_VALUE_FLOAT means to the firmware. */
  datatype Meaning = StateReport(state: int) | MinTemperature(t: real) | PowerAck | Ignored

  function Classify(from: Source, name: Name, value: Float): Meaning {
    match value
    case NonFinite => Ignored
    case Finite(v) =>
      if from == AUTOPILOT && NamedValueIs(name, "STATE") then
        match DecodeState(v) { case Some(n) => StateReport(n) case None => Ignored }
      else if from == AUTOPILOT && NamedValueIs(name, "PREARM") then Ignored
      else if from == AUTOPILOT && NamedValueIs(name, "MIN_TEMP") then MinTemperature(v)
      else if from == BLUEOS && NamedValueIs(name, "PWR_ACK") && 0.9 <= v <= 1.1 then PowerAck
      else Ignored
  }

  /** The gates in full: who may report a mission state or a temperature or acknowledge the shutdown,
      and how; a value that is not finite counts for nothing. */
  lemma ClassifyExact(from: Source, name: Name, v: real, n: int)
    ensures Classify(from, name, Finite(v)) == StateReport(n) <==>
              from == AUTOPILOT && CString(name) == "STATE" && -1 <= n <= 4 && Abs(v - n as real) <= 0.1
    ensures Classify(from, name, Finite(v)).PowerAck? <==>
              from == BLUEOS && CString(name) == "PWR_ACK" && 0.9 <= v <= 1.1
    ensures Classify(from, name, Finite(v)) == MinTemperature(v) <==>
              from == AUTOPILOT && CString(name) == "MIN_TEMP"
    ensures Classify(from, name, Finite(v)).MinTemperature? ==> Classify(from, name, Finite(v)).t == v
    ensures Classify(from, name, NonFinite).Ignored?
  {
    NamedValueIsExact(name, "STATE");
    NamedValueIsExact(name, "PREARM");
    NamedValueIsExact(name, "MIN_TEMP");
    NamedValueIsExact(name, "PWR_ACK");
    DecodeStateExact(v, n);
  }
}
