/** The fixed-width position report: src/modules/iridium_message.cpp. */
module P1Message {
  import opened Common

  const P1_PAYLOAD_SIZE: nat := 45
  const COORDINATE_SCALE: nat := 100000
  const COMMA: byte := 44
  const DOT: byte := 46
  const PLUS: byte := 43
  const MINUS: byte := 45
  const ZERO: byte := 48
  const PREFIX: seq<byte> := [80, COMMA, 49, COMMA]   // "P,1,"

  datatype Fields = Fields(
    gpsValid: bool, latitude: Float, longitude: Float, speed: Float, course: Float,
    maxDepth: Float, voltage: Float)

  // ---------------------------------------------------------------- numbers

  function Clamp(v: real, lo: real, hi: real): real {
    if v < lo then lo else if v > hi then hi else v
  }

  /** `floor(v + 0.5)` of a value that is not negative. */
  function Rounded(v: real): nat
    requires v >= 0.0
  {
    (v + 0.5).Floor
  }

  function Pow10(k: nat): (p: nat)
    ensures p > 0
  {
    if k == 0 then 1 else 10 * Pow10(k - 1)
  }

  function DigitAt(value: nat, divisor: nat): byte
    requires divisor > 0
  {
    ZERO + value / divisor % 10
  }

  /** The last `width` decimal digits of a value, most significant first. */
  function Digits(value: nat, width: nat): (s: seq<byte>)
    ensures |s| == width
  {
    if width == 0 then []
    else [DigitAt(value, Pow10(width - 1))] + Digits(value, width - 1)
  }

  /** `fmod(x, 360)`: the remainder takes the sign of `x`. */
  function Fmod360(x: real): real {
    if x >= 0.0 then x - 360.0 * (x / 360.0).Floor as real
    else x + 360.0 * (-x / 360.0).Floor as real
  }

  lemma Fmod360Range(x: real)
    ensures x >= 0.0 ==> 0.0 <= Fmod360(x) < 360.0
    ensures x < 0.0 ==> -360.0 < Fmod360(x) <= 0.0
  {
  }

  /** The remainder brought into [0, 360). */
  function Turned(x: real): (r: real)
    ensures 0.0 <= r <= 360.0
  {
    Fmod360Range(x);
    var r := Fmod360(x);
    if r < 0.0 then r + 360.0 else r
  }

  function NormalizedCourse(course: Float): nat {
    match course
    case NonFinite => 0
    case Finite(x) =>
      var rounded := Rounded(Turned(x));
      if rounded == 360 then 0 else rounded
  }

  // ---------------------------------------------------------------- the report

  predicate CoordinatesValid(f: Fields) {
    f.gpsValid && f.latitude.Finite? && f.longitude.Finite?
  }

  function Latitude(f: Fields): real {
    if CoordinatesValid(f) then Clamp(f.latitude.value, -90.0, 90.0) else 0.0
  }

  function Longitude(f: Fields): real {
    if CoordinatesValid(f) then Clamp(f.longitude.value, -180.0, 180.0) else 0.0
  }

  /** Speed in tenths of a metre per second. */
  function SpeedTenths(f: Fields): real {
    Clamp(if CoordinatesValid(f) && f.speed.Finite? then f.speed.value * 10.0 else 0.0, 0.0, 99.0)
  }

  function DepthMetres(f: Fields): real {
    Clamp(if f.maxDepth.Finite? then f.maxDepth.value else 0.0, 0.0, 9999.0)
  }

  function Volts(f: Fields): real {
    Clamp(if f.voltage.Finite? then f.voltage.value else 0.0, 0.0, 99.9)
  }

  function Capped(v: nat, cap: nat): nat {
    if v > cap then cap else v
  }

  function Coordinate(degrees: real, maxScaled: nat): (s: seq<byte>)
    ensures |s| == 10
  {
    var scaled := Capped(Rounded(Abs(degrees) * 100000.0), maxScaled);
    [if degrees < 0.0 then MINUS else PLUS]
    + Digits(scaled / COORDINATE_SCALE, 3) + [DOT] + Digits(scaled % COORDINATE_SCALE, 5)
  }

  function Battery(volts: real): (s: seq<byte>)
    requires volts >= 0.0
    ensures |s| == 4
  {
    var tenths := Capped(Rounded(volts * 10.0), 999);
    Digits(tenths / 10, 2) + [DOT] + Digits(tenths % 10, 1)
  }

  function Position(f: Fields): (s: seq<byte>)
    ensures |s| == 26
  {
    PREFIX + Coordinate(Latitude(f), 9000000) + [COMMA] + Coordinate(Longitude(f), 18000000) + [COMMA]
  }

  /** Without a usable position the course is printed as zero. */
  function PrintedCourse(f: Fields): nat {
    if CoordinatesValid(f) then NormalizedCourse(f.course) else 0
  }

  function Motion(f: Fields): (s: seq<byte>)
    ensures |s| == 7
  {
    Digits(Capped(Rounded(SpeedTenths(f)), 99), 2) + [COMMA]
    + Digits(PrintedCourse(f), 3) + [COMMA]
  }

  function Status(f: Fields): (s: seq<byte>)
    ensures |s| == 12
  {
    Digits(Rounded(DepthMetres(f)), 4) + [COMMA] + Battery(Volts(f)) + [COMMA, 0, 0]
  }

  function Layout(f: Fields): (s: seq<byte>)
    ensures |s| == P1_PAYLOAD_SIZE
  {
    Position(f) + Motion(f) + Status(f)
  }

  // ---------------------------------------------------------------- the writer

  /** What has been written so far, and whether it all fitted. */
  datatype Written = Written(out: seq<byte>, valid: bool)

  /** Appending stops for good at the first byte that does not fit. */
  function Append(w: Written, capacity: nat, bs: seq<byte>): Written
    requires |w.out| <= capacity
  {
    if !w.valid then w
    else if |w.out| + |bs| <= capacity then Written(w.out + bs, true)
    else Written(w.out + bs[..capacity - |w.out|], false)
  }

  lemma AppendTwice(w: Written, capacity: nat, a: seq<byte>, b: seq<byte>)
    requires |w.out| <= capacity
    ensures Append(Append(w, capacity, a), capacity, b) == Append(w, capacity, a + b)
  {
  }

  lemma NextDigit(value: nat, left: nat, done: seq<byte>)
    requires left > 0
    ensures done + Digits(value, left) == done + [DigitAt(value, Pow10(left - 1))] + Digits(value, left - 1)
    ensures Pow10(left - 1) / 10 == if left == 1 then 0 else Pow10(left - 2)
  {
  }

  class BufferWriter {
    const destination: array<byte>
    const capacity: nat
    var length: nat
    var valid: bool

    predicate Valid()
      reads this
    {
      length <= capacity <= destination.Length
    }

    function View(): Written
      reads this, destination
      requires Valid()
    {
      Written(destination[..length], valid)
    }

    /** Nothing past what has been written differs from `before`. */
    ghost predicate Untouched(before: seq<byte>)
      reads this, destination
    {
      |before| == destination.Length &&
      forall i | length <= i < destination.Length :: destination[i] == before[i]
    }

    constructor (destination: array<byte>, capacity: nat)
      requires capacity <= destination.Length
      ensures Valid() && this.destination == destination && this.capacity == capacity
      ensures View() == Written([], true)
    {
      this.destination := destination;
      this.capacity := capacity;
      length := 0;
      valid := true;
    }

    method AppendByte(b: byte)
      requires Valid()
      modifies this, destination
      ensures Valid() && View() == Append(old(View()), capacity, [b])
      ensures old(length) <= length && Untouched(old(destination[..]))
    {
      if !valid || length >= capacity {
        valid := false;
        assert old(View()).valid ==> destination[..length] + [b][..0] == destination[..length];
        return;
      }
      destination[length] := b;
      length := length + 1;
      assert destination[..length] == old(destination[..length]) + [b];
    }

    method AppendBytes(bs: seq<byte>)
      requires Valid()
      modifies this, destination
      ensures Valid() && View() == Append(old(View()), capacity, bs)
      ensures old(length) <= length && Untouched(old(destination[..]))
    {
      ghost var w := View();
      assert bs[..0] == [];
      assert w.out + [] == w.out;
      for i := 0 to |bs|
        invariant Valid() && View() == Append(w, capacity, bs[..i])
        invariant old(length) <= length && Untouched(old(destination[..]))
      {
        AppendByte(bs[i]);
        AppendTwice(w, capacity, bs[..i], [bs[i]]);
        assert bs[..i] + [bs[i]] == bs[..i + 1];
      }
      assert bs[..|bs|] == bs;
    }

    method AppendPaddedUnsigned(value: nat, width: nat)
      requires Valid() && width >= 1
      modifies this, destination
      ensures Valid() && View() == Append(old(View()), capacity, Digits(value, width))
      ensures old(length) <= length && Untouched(old(destination[..]))
    {
      ghost var w := View();
      var divisor := 1;
      for index := 1 to width
        invariant divisor == Pow10(index - 1)
      {
        divisor := divisor * 10;
      }
      ghost var left: nat := width;
      ghost var done: seq<byte> := [];
      assert w.out + [] == w.out;
      while divisor > 0
        invariant left <= width && divisor == if left == 0 then 0 else Pow10(left - 1)
        invariant done + Digits(value, left) == Digits(value, width)
        invariant Valid() && View() == Append(w, capacity, done)
        invariant old(length) <= length && Untouched(old(destination[..]))
        decreases left
      {
        var digit := DigitAt(value, divisor);
        AppendByte(digit);
        AppendTwice(w, capacity, done, [digit]);
        NextDigit(value, left, done);
        done := done + [digit];
        left := left - 1;
        divisor := divisor / 10;
      }
      assert done + Digits(value, 0) == done;
    }

    method AppendCoordinate(degrees: real, maxScaled: nat)
      requires Valid()
      modifies this, destination
      ensures Valid() && View() == Append(old(View()), capacity, Coordinate(degrees, maxScaled))
      ensures old(length) <= length && Untouched(old(destination[..]))
    {
      ghost var w := View();
      var scaled := Rounded(Abs(degrees) * 100000.0);
      if scaled > maxScaled { scaled := maxScaled; }
      var sign := if degrees < 0.0 then MINUS else PLUS;
      var whole, rest := scaled / COORDINATE_SCALE, scaled % COORDINATE_SCALE;
      AppendByte(sign);
      AppendPaddedUnsigned(whole, 3);
      AppendByte(DOT);
      AppendPaddedUnsigned(rest, 5);
      AppendTwice(w, capacity, [sign], Digits(whole, 3));
      AppendTwice(w, capacity, [sign] + Digits(whole, 3), [DOT]);
      AppendTwice(w, capacity, [sign] + Digits(whole, 3) + [DOT], Digits(rest, 5));
    }

    method AppendBatteryVoltage(volts: real)
      requires Valid() && volts >= 0.0
      modifies this, destination
      ensures Valid() && View() == Append(old(View()), capacity, Battery(volts))
      ensures old(length) <= length && Untouched(old(destination[..]))
    {
      ghost var w := View();
      var tenths := Rounded(volts * 10.0);
      if tenths > 999 { tenths := 999; }
      AppendPaddedUnsigned(tenths / 10, 2);
      AppendByte(DOT);
      AppendPaddedUnsigned(tenths % 10, 1);
      AppendTwice(w, capacity, Digits(tenths / 10, 2), [DOT]);
      AppendTwice(w, capacity, Digits(tenths / 10, 2) + [DOT], Digits(tenths % 10, 1));
    }

    method AppendPosition(f: Fields)
      requires Valid()
      modifies this, destination
      ensures Valid() && View() == Append(old(View()), capacity, Position(f))
      ensures old(length) <= length && Untouched(old(destination[..]))
    {
      ghost var w := View();
      AppendBytes(PREFIX);
      AppendCoordinate(Latitude(f), 9000000);
      AppendByte(COMMA);
      AppendCoordinate(Longitude(f), 18000000);
      AppendByte(COMMA);
      ghost var a, b := PREFIX, Coordinate(Latitude(f), 9000000);
      ghost var c := Coordinate(Longitude(f), 18000000);
      AppendTwice(w, capacity, a, b);
      AppendTwice(w, capacity, a + b, [COMMA]);
      AppendTwice(w, capacity, a + b + [COMMA], c);
      AppendTwice(w, capacity, a + b + [COMMA] + c, [COMMA]);
    }

    method AppendMotion(f: Fields)
      requires Valid()
      modifies this, destination
      ensures Valid() && View() == Append(old(View()), capacity, Motion(f))
      ensures old(length) <= length && Untouched(old(destination[..]))
    {
      ghost var w := View();
      var speed := Rounded(SpeedTenths(f));
      speed := if speed > 99 then 99 else speed;
      var course := if CoordinatesValid(f) then NormalizedCourse(f.course) else 0;
      AppendPaddedUnsigned(speed, 2);
      AppendByte(COMMA);
      AppendPaddedUnsigned(course, 3);
      AppendByte(COMMA);
      AppendTwice(w, capacity, Digits(speed, 2), [COMMA]);
      AppendTwice(w, capacity, Digits(speed, 2) + [COMMA], Digits(course, 3));
      AppendTwice(w, capacity, Digits(speed, 2) + [COMMA] + Digits(course, 3), [COMMA]);
    }

    method AppendStatus(f: Fields)
      requires Valid()
      modifies this, destination
      ensures Valid() && View() == Append(old(View()), capacity, Status(f))
      ensures old(length) <= length && Untouched(old(destination[..]))
    {
      ghost var w := View();
      var depth := Rounded(DepthMetres(f));
      AppendPaddedUnsigned(depth, 4);
      AppendByte(COMMA);
      AppendBatteryVoltage(Volts(f));
      AppendBytes([COMMA, 0, 0]);
      AppendTwice(w, capacity, Digits(depth, 4), [COMMA]);
      AppendTwice(w, capacity, Digits(depth, 4) + [COMMA], Battery(Volts(f)));
      AppendTwice(w, capacity, Digits(depth, 4) + [COMMA] + Battery(Volts(f)), [COMMA, 0, 0]);
    }
  }

  /** Formatting is total: a missing or short buffer is left alone, and any other receives
      exactly the 45 bytes of the layout, whatever the fields hold. */
  method FormatP1(destination: array?<byte>, size: nat, f: Fields) returns (n: nat)
    requires destination != null ==> size <= destination.Length
    modifies destination
    ensures n == if destination != null && size >= P1_PAYLOAD_SIZE then P1_PAYLOAD_SIZE else 0
    ensures destination != null && n == 0 ==> destination[..] == old(destination[..])
    ensures n == P1_PAYLOAD_SIZE ==>
              destination[..] == Layout(f) + old(destination[..])[P1_PAYLOAD_SIZE..]
  {
    if destination == null || size < P1_PAYLOAD_SIZE { return 0; }
    var writer := new BufferWriter(destination, size);
    AppendTwice(Written([], true), size, Position(f), Motion(f));
    AppendTwice(Written([], true), size, Position(f) + Motion(f), Status(f));
    writer.AppendPosition(f);
    writer.AppendMotion(f);
    writer.AppendStatus(f);
    assert writer.View() == Written(Layout(f), true);
    assert destination[P1_PAYLOAD_SIZE..] == old(destination[..])[P1_PAYLOAD_SIZE..];
    assert destination[..] == destination[..P1_PAYLOAD_SIZE] + destination[P1_PAYLOAD_SIZE..];
    n := 0;
    if writer.valid && writer.length == P1_PAYLOAD_SIZE { n := writer.length; }
  }

  // ---------------------------------------------------------------- reading a report

  /** The number a string of decimal digits stands for. */
  function Parse(s: seq<byte>): int {
    if s == [] then 0 else Parse(s[..|s| - 1]) * 10 + (s[|s| - 1] as int - 48)
  }

  predicate AllDigits(s: seq<byte>) {
    forall i | 0 <= i < |s| :: 48 <= s[i] <= 57
  }

  lemma DivDiv(v: nat, p: nat)
    requires p > 0
    ensures v / 10 / p == v / (10 * p)
  {
    var q, r := v / (10 * p), v % (10 * p);
    var x := q * p;
    assert v == q * (10 * p) + r == 10 * x + r;
    assert v / 10 == x + r / 10;
    assert 0 <= r / 10 < p;
    QuotientIs(v / 10, p, q, r / 10);
  }

  lemma QuotientIs(v: nat, p: nat, q: nat, r: nat)
    requires p > 0 && r < p && v == q * p + r
    ensures v / p == q
  {
    assert v == v / p * p + v % p;
    var d := v / p - q;
    assert d * p == r - v % p;
    ProductBound(d, p);
  }

  lemma ProductBound(d: int, p: nat)
    ensures d >= 1 ==> d * p >= p
    ensures d <= -1 ==> d * p + p <= 0
  {
  }

  lemma {:induction false} DigitsEndInUnits(v: nat, width: nat)
    requires width > 0
    ensures Digits(v, width) == Digits(v / 10, width - 1) + [DigitAt(v, 1)]
    decreases width
  {
    if width > 1 {
      DigitsEndInUnits(v, width - 1);
      DivDiv(v, Pow10(width - 2));
    }
  }

  /** Printing digits and reading them are inverse up to what the width can hold. */
  lemma {:induction false} ParseDigits(v: nat, width: nat)
    ensures AllDigits(Digits(v, width))
    ensures v < Pow10(width) ==> Parse(Digits(v, width)) == v
    decreases width
  {
    if width > 0 {
      DigitsEndInUnits(v, width);
      ParseDigits(v / 10, width - 1);
      ParseDigits(v, width - 1);
      var s := Digits(v, width);
      assert s[..|s| - 1] == Digits(v / 10, width - 1);
    }
  }

  /** What a reader takes from a report, in degrees, tenths of m/s, degrees, metres and volts. */
  datatype Report = Report(
    latitude: real, longitude: real, speedTenths: int, course: int, depth: int, voltage: real)

  function ReadCoordinate(s: seq<byte>): real
    requires |s| == 10
  {
    var magnitude := Parse(s[1..4]) as real + Parse(s[5..10]) as real / 100000.0;
    if s[0] == MINUS then -magnitude else magnitude
  }

  function ReadReport(b: seq<byte>): Report
    requires |b| == P1_PAYLOAD_SIZE
  {
    Report(ReadCoordinate(b[4..14]), ReadCoordinate(b[15..25]), Parse(b[26..28]), Parse(b[29..32]),
           Parse(b[33..37]), Parse(b[38..40]) as real + Parse(b[41..42]) as real / 10.0)
  }

  /** The fixed layout a reader relies on. */
  predicate FixedLayout(b: seq<byte>) {
    && |b| == P1_PAYLOAD_SIZE && b[..4] == PREFIX && b[43..] == [0, 0]
    && CoordinateLayout(b[4..14]) && b[14] == COMMA && CoordinateLayout(b[15..25]) && b[25] == COMMA
    && AllDigits(b[26..28]) && b[28] == COMMA && AllDigits(b[29..32]) && b[32] == COMMA
    && AllDigits(b[33..37]) && b[37] == COMMA
    && AllDigits(b[38..40]) && b[40] == DOT && AllDigits(b[41..42]) && b[42] == COMMA
  }

  predicate CoordinateLayout(s: seq<byte>) {
    && |s| == 10 && (s[0] == PLUS || s[0] == MINUS)
    && AllDigits(s[1..4]) && s[4] == DOT && AllDigits(s[5..10])
  }

  /** A printed value `p` is `v` brought into the range and rounded to a unit of twice `half`, with
      ties away from zero. */
  predicate Rounds(p: real, v: real, lo: real, hi: real, half: real) {
    && (v <= lo ==> p == lo)
    && (v >= hi ==> p == hi)
    && (lo < v < hi ==> if v >= 0.0 then p - half <= v < p + half else p - half < v <= p + half)
  }

  /** So is a field's value when it is usable and finite; otherwise the report says zero. */
  predicate Prints(p: real, usable: bool, v: Float, lo: real, hi: real, half: real) {
    if usable && v.Finite? then Rounds(p, v.value, lo, hi, half) else p == 0.0
  }

  lemma RoundedWithinHalf(v: real)
    requires v >= 0.0
    ensures Rounded(v) as real - 0.5 <= v < Rounded(v) as real + 0.5
  {
  }

  lemma Pow10Table()
    ensures Pow10(1) == 10 && Pow10(2) == 100 && Pow10(3) == 1000 && Pow10(4) == 10000 && Pow10(5) == 100000
  {
  }

  /** A printed coordinate reads back to its last digit. */
  lemma CoordinateReadsBack(degrees: real, limit: nat)
    requires limit <= 180 && Abs(degrees) <= limit as real
    ensures CoordinateLayout(Coordinate(degrees, limit * COORDINATE_SCALE))
    ensures Rounds(ReadCoordinate(Coordinate(degrees, limit * COORDINATE_SCALE)), degrees,
                   -(limit as real), limit as real, 0.000005)
  {
    var scaled := Rounded(Abs(degrees) * 100000.0);
    RoundedWithinHalf(Abs(degrees) * 100000.0);
    assert scaled <= limit * COORDINATE_SCALE;
    CoordinateDigits(degrees, limit * COORDINATE_SCALE, scaled);
    ScaledRounds(degrees, limit, scaled);
  }

  lemma CoordinateDigits(degrees: real, maxScaled: nat, scaled: nat)
    requires scaled == Rounded(Abs(degrees) * 100000.0) <= maxScaled <= 180 * COORDINATE_SCALE
    ensures CoordinateLayout(Coordinate(degrees, maxScaled))
    ensures ReadCoordinate(Coordinate(degrees, maxScaled)) == Signed(degrees, scaled)
  {
    var s := Coordinate(degrees, maxScaled);
    var whole, rest := scaled / COORDINATE_SCALE, scaled % COORDINATE_SCALE;
    Pow10Table();
    ParseDigits(whole, 3);
    ParseDigits(rest, 5);
    assert s[1..4] == Digits(whole, 3) && s[5..10] == Digits(rest, 5);
    assert scaled as real == whole as real * 100000.0 + rest as real;
  }

  function Signed(degrees: real, scaled: nat): real {
    if degrees < 0.0 then -(scaled as real / 100000.0) else scaled as real / 100000.0
  }

  lemma ScaledRounds(degrees: real, limit: nat, scaled: nat)
    requires Abs(degrees) <= limit as real && scaled <= limit * COORDINATE_SCALE
    requires scaled as real - 0.5 <= Abs(degrees) * 100000.0 < scaled as real + 0.5
    ensures Rounds(Signed(degrees, scaled), degrees, -(limit as real), limit as real, 0.000005)
  {
  }

  lemma BatteryReadsBack(volts: real)
    requires 0.0 <= volts <= 99.9
    ensures var s := Battery(volts);
      && AllDigits(s[..2]) && s[2] == DOT && AllDigits(s[3..4])
      && Rounds(Parse(s[..2]) as real + Parse(s[3..4]) as real / 10.0, volts, 0.0, 99.9, 0.05)
  {
    var s := Battery(volts);
    var tenths := Rounded(volts * 10.0);
    RoundedWithinHalf(volts * 10.0);
    assert tenths <= 999;
    Pow10Table();
    ParseDigits(tenths / 10, 2);
    ParseDigits(tenths % 10, 1);
    assert s[..2] == Digits(tenths / 10, 2) && s[3..4] == Digits(tenths % 10, 1);
    assert tenths as real == (tenths / 10) as real * 10.0 + (tenths % 10) as real;
  }

  /** A printed course and a heading differ by `k` full turns, to half a degree. */
  predicate SameHeading(course: int, x: real, k: int) {
    Abs(course as real + 360.0 * k as real - x) <= 0.5
  }

  /** A course is printed as the nearest whole degree on the circle. */
  lemma CourseOnCircle(x: real)
    ensures NormalizedCourse(Finite(x)) <= 359
    ensures exists k :: SameHeading(NormalizedCourse(Finite(x)), x, k)
  {
    var t, c := Turned(x), NormalizedCourse(Finite(x));
    var turns := TurnsOf(x);
    RoundedWithinHalf(t);
    var k := turns + if Rounded(t) == 360 then 1 else 0;
    assert c as real + 360.0 * k as real == Rounded(t) as real + 360.0 * turns as real;
    assert SameHeading(c, x, k);
  }

  lemma TurnsOf(x: real) returns (turns: int)
    ensures x == Turned(x) + 360.0 * turns as real
  {
    Fmod360Range(x);
    turns := (if x >= 0.0 then (x / 360.0).Floor else -((-x / 360.0).Floor))
             - if Fmod360(x) < 0.0 then 1 else 0;
  }

  lemma SubSlice(b: seq<byte>, lo: nat, hi: nat, i: nat, j: nat)
    requires lo <= hi <= |b| && i <= j <= hi - lo
    ensures b[lo..hi][i..j] == b[lo + i..lo + j]
    ensures i < j ==> b[lo..hi][i] == b[lo + i]
  {
    var s, t := b[lo..hi][i..j], b[lo + i..lo + j];
    assert |s| == |t| == j - i;
    forall k | 0 <= k < j - i ensures s[k] == t[k] {
      assert s[k] == b[lo..hi][i + k] == b[lo + (i + k)];
    }
  }

  /** Where the three parts of a report lie. */
  lemma Parts(f: Fields)
    ensures var b := Layout(f); b[0..26] == Position(f) && b[26..33] == Motion(f) && b[33..45] == Status(f)
  {
  }

  lemma PositionParts(f: Fields)
    ensures var s := Position(f);
      && s[..4] == PREFIX && s[4..14] == Coordinate(Latitude(f), 9000000) && s[14] == COMMA
      && s[15..25] == Coordinate(Longitude(f), 18000000) && s[25] == COMMA
  {
  }

  lemma PositionReadsBack(f: Fields)
    ensures var b := Layout(f);
      && b[..4] == PREFIX && b[14] == COMMA && b[25] == COMMA
      && CoordinateLayout(b[4..14]) && Rounds(ReadCoordinate(b[4..14]), Latitude(f), -90.0, 90.0, 0.000005)
      && CoordinateLayout(b[15..25]) && Rounds(ReadCoordinate(b[15..25]), Longitude(f), -180.0, 180.0, 0.000005)
  {
    PositionSlices(f);
    CoordinateReadsBack(Latitude(f), 90);
    CoordinateReadsBack(Longitude(f), 180);
  }

  lemma PositionSlices(f: Fields)
    ensures var b := Layout(f);
      && b[..4] == PREFIX && b[14] == COMMA && b[25] == COMMA
      && b[4..14] == Coordinate(Latitude(f), 9000000) && b[15..25] == Coordinate(Longitude(f), 18000000)
  {
    var b := Layout(f);
    Parts(f);
    PositionParts(f);
    SubSlice(b, 0, 26, 0, 4);
    SubSlice(b, 0, 26, 4, 14);
    SubSlice(b, 0, 26, 14, 15);
    SubSlice(b, 0, 26, 15, 25);
    SubSlice(b, 0, 26, 25, 26);
  }

  lemma MotionReadsBack(f: Fields)
    ensures var b := Layout(f);
      && AllDigits(b[26..28]) && b[28] == COMMA && AllDigits(b[29..32]) && b[32] == COMMA
      && Parse(b[26..28]) == Rounded(SpeedTenths(f)) && Parse(b[29..32]) == PrintedCourse(f)
  {
    MotionSlices(f);
    Pow10Table();
    RoundedWithinHalf(SpeedTenths(f));
    if CoordinatesValid(f) && f.course.Finite? { CourseOnCircle(f.course.value); }
    ParseDigits(Rounded(SpeedTenths(f)), 2);
    ParseDigits(PrintedCourse(f), 3);
  }

  lemma MotionSlices(f: Fields)
    ensures var b := Layout(f);
      && b[26..28] == Digits(Capped(Rounded(SpeedTenths(f)), 99), 2) && b[28] == COMMA
      && b[29..32] == Digits(PrintedCourse(f), 3) && b[32] == COMMA
  {
  }

  lemma StatusReadsBack(f: Fields)
    ensures var b := Layout(f);
      && AllDigits(b[33..37]) && b[37] == COMMA
      && Rounds(Parse(b[33..37]) as real, DepthMetres(f), 0.0, 9999.0, 0.5)
      && AllDigits(b[38..40]) && b[40] == DOT && AllDigits(b[41..42]) && b[42] == COMMA && b[43..] == [0, 0]
      && Rounds(Parse(b[38..40]) as real + Parse(b[41..42]) as real / 10.0, Volts(f), 0.0, 99.9, 0.05)
  {
    StatusSlices(f);
    DepthReadsBack(DepthMetres(f));
    BatteryReadsBack(Volts(f));
  }

  lemma DepthReadsBack(metres: real)
    requires 0.0 <= metres <= 9999.0
    ensures var s := Digits(Rounded(metres), 4);
      AllDigits(s) && Rounds(Parse(s) as real, metres, 0.0, 9999.0, 0.5)
  {
    RoundedWithinHalf(metres);
    Pow10Table();
    ParseDigits(Rounded(metres), 4);
  }

  lemma StatusSlices(f: Fields)
    ensures var b, v := Layout(f), Battery(Volts(f));
      && b[33..37] == Digits(Rounded(DepthMetres(f)), 4) && b[37] == COMMA
      && b[38..40] == v[..2] && b[40] == v[2] && b[41..42] == v[3..4]
      && b[42] == COMMA && b[43..] == [0, 0]
  {
  }

  /** A report that is read shows the fields: each brought into its range and rounded to its last
      digit, the course to the nearest degree on the circle; what is not finite or needs a missing
      position is zero. */
  ghost predicate Shows(r: Report, f: Fields) {
    ShowsPosition(r, f) && ShowsMotion(r, f) && ShowsStatus(r, f)
  }

  predicate ShowsPosition(r: Report, f: Fields) {
    var located := f.gpsValid && f.latitude.Finite? && f.longitude.Finite?;
    && Prints(r.latitude, located, f.latitude, -90.0, 90.0, 0.000005)
    && Prints(r.longitude, located, f.longitude, -180.0, 180.0, 0.000005)
  }

  ghost predicate ShowsMotion(r: Report, f: Fields) {
    var located := f.gpsValid && f.latitude.Finite? && f.longitude.Finite?;
    && Prints(r.speedTenths as real / 10.0, located, f.speed, 0.0, 9.9, 0.05)
    && 0 <= r.course <= 359
    && if located && f.course.Finite? then exists k :: SameHeading(r.course, f.course.value, k) else r.course == 0
  }

  predicate ShowsStatus(r: Report, f: Fields) {
    && Prints(r.depth as real, true, f.maxDepth, 0.0, 9999.0, 0.5)
    && Prints(r.voltage, true, f.voltage, 0.0, 99.9, 0.05)
  }

  lemma PositionShows(f: Fields)
    ensures ShowsPosition(ReadReport(Layout(f)), f)
  {
    PositionReadsBack(f);
    if !CoordinatesValid(f) {
      PositionSlices(f);
      ZeroReadsBack(9000000);
      ZeroReadsBack(18000000);
    }
  }

  lemma MotionShows(f: Fields)
    ensures ShowsMotion(ReadReport(Layout(f)), f)
  {
    MotionReadsBack(f);
    SpeedRounds(f);
    if CoordinatesValid(f) && f.course.Finite? { CourseOnCircle(f.course.value); }
  }

  lemma SpeedRounds(f: Fields)
    ensures Prints(Rounded(SpeedTenths(f)) as real / 10.0, CoordinatesValid(f), f.speed, 0.0, 9.9, 0.05)
  {
    RoundedWithinHalf(SpeedTenths(f));
  }

  lemma StatusShows(f: Fields)
    ensures ShowsStatus(ReadReport(Layout(f)), f)
  {
    StatusReadsBack(f);
  }

  /** Every report has the fixed layout and shows its fields. */
  lemma ReportReadsBack(f: Fields)
    ensures FixedLayout(Layout(f))
    ensures Shows(ReadReport(Layout(f)), f)
  {
    PositionReadsBack(f);
    MotionReadsBack(f);
    StatusReadsBack(f);
    PositionShows(f);
    MotionShows(f);
    StatusShows(f);
  }

  /** Without a usable position the report says zero exactly. */
  lemma ZeroReadsBack(maxScaled: nat)
    ensures ReadCoordinate(Coordinate(0.0, maxScaled)) == 0.0
  {
    var zero := Coordinate(0.0, maxScaled);
    assert Rounded(Abs(0.0) * 100000.0) == 0;
    Pow10Table();
    ParseDigits(0, 3);
    ParseDigits(0, 5);
    assert zero[1..4] == Digits(0, 3) && zero[5..10] == Digits(0, 5);
  }
}
