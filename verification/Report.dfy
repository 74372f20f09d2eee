/** The controller state in its three shapes: the bridge's packet, the eight bytes on the
    serial line, and the standard report that goes to the console.
 */
module Report {
  import opened Bytes

  /** USB_StandardReport_t. */
  datatype StandardReport = StandardReport(
    connectionInfo: nat, batteryLevel: nat,
    y: bool, x: bool, b: bool, a: bool, rightSr: bool, rightSl: bool, r: bool, zr: bool,
    minus: bool, plus: bool, thumbR: bool, thumbL: bool, home: bool, capture: bool,
    dummy: bool, chargingGrip: bool,
    down: bool, up: bool, right: bool, left: bool, leftSr: bool, leftSl: bool, l: bool, zl: bool,
    analog: seq<byte>, vibrator: byte)

  // (v & 2^k) == 2^k, for the mask 2^k.
  predicate BitSet(v: nat, mask: nat)
    requires mask > 0
  {
    v / mask % 2 == 1
  }

  // The 16-bit value of two bytes.
  function Word(high: nat, low: nat): nat {
    high * 256 + low
  }

  // A stick byte as a 12-bit coordinate: (value << 4) | 0x08.
  function Coordinate(value: nat): nat {
    value * 16 + 8
  }

  // Two 12-bit stick coordinates in three bytes.
  function PackStick(x: nat, y: nat): (s: seq<byte>)
    requires x < 4096 && y < 4096
    ensures |s| == 3
  {
    [x % 256, y % 16 * 16 + x / 256, y / 16]
  }

  /** populate_report_from_serial: the report that eight serial bytes stand for. */
  function Populate(input: seq<byte>): (report: StandardReport)
    requires |input| == 8
    ensures |report.analog| == 6
  {
    var button := Word(input[0], input[1]);
    var dpad := input[2];
    StandardReport(
      1, 9,
      BitSet(button, 0x01), BitSet(button, 0x08), BitSet(button, 0x02), BitSet(button, 0x04),
      false, false, BitSet(button, 0x20), BitSet(button, 0x80),
      BitSet(button, 0x100), BitSet(button, 0x200), BitSet(button, 0x800), BitSet(button, 0x400),
      BitSet(button, 0x1000), BitSet(button, 0x2000), false, true,
      3 <= dpad <= 5, dpad == 0 || dpad == 1 || dpad == 7, 1 <= dpad <= 3, 5 <= dpad <= 7,
      false, false, BitSet(button, 0x10), BitSet(button, 0x40),
      PackStick(Coordinate(input[3]), Coordinate(input[4]))
      + PackStick(Coordinate(input[5]), Coordinate(input[6])),
      0)
  }

  /** initialize_idle_report, with the one field that the watchdog toggles. */
  function IdleReport(home: bool): (report: StandardReport)
    ensures |report.analog| == 6
  {
    StandardReport(
      1, 9,
      false, false, false, false, false, false, false, false,
      false, false, false, false, home, false, false, true,
      false, false, false, false, false, false, false, false,
      PackStick(0x800, 0x800) + PackStick(0x800, 0x800),
      0x0c)
  }

  // The number with these binary digits, the least significant first.
  function Bits(digits: seq<bool>): nat {
    if digits == [] then 0 else (if digits[0] then 1 else 0) + 2 * Bits(digits[1..])
  }

  function BitByte(b0: bool, b1: bool, b2: bool, b3: bool, b4: bool, b5: bool, b6: bool, b7: bool): byte {
    var digits := [b0, b1, b2, b3, b4, b5, b6, b7];
    BitsBound(digits);
    Bits(digits)
  }

  lemma {:induction false} BitsBound(digits: seq<bool>)
    requires |digits| <= 8
    ensures Bits(digits) < Power(|digits|) <= Power(8) == 256
  {
    if digits != [] {
      BitsBound(digits[1..]);
    }
    PowersGrow(|digits|, 8);
  }

  lemma {:induction false} PowersGrow(m: nat, n: nat)
    requires m <= n
    ensures Power(m) <= Power(n) && Power(8) == 256
  {
    if m < n {
      PowersGrow(m, n - 1);
    }
  }

  // The memory image of the structure, first bit-field in the least significant bit.
  function Encode(report: StandardReport): (bytes: seq<byte>)
    ensures |bytes| == 5 + |report.analog|
  {
    hide BitByte;
    var s := report;
    [s.connectionInfo % 16 + s.batteryLevel % 16 * 16,
     BitByte(s.y, s.x, s.b, s.a, s.rightSr, s.rightSl, s.r, s.zr),
     BitByte(s.minus, s.plus, s.thumbR, s.thumbL, s.home, s.capture, s.dummy, s.chargingGrip),
     BitByte(s.down, s.up, s.right, s.left, s.leftSr, s.leftSl, s.l, s.zl)]
    + s.analog + [s.vibrator]
  }

  // Binary digit k of a number.
  predicate Bit(v: nat, k: nat) {
    if k == 0 then v % 2 == 1 else Bit(v / 2, k - 1)
  }

  // The eight digits of a byte.
  function Digits(v: byte): (digits: seq<bool>)
    ensures |digits| == 8
  {
    seq(8, k requires 0 <= k < 8 => Bit(v, k))
  }

  // The report that a memory image stands for.
  function Decode(m: seq<byte>): StandardReport
    requires |m| == 11
  {
    var r, s, l := Digits(m[1]), Digits(m[2]), Digits(m[3]);
    StandardReport(
      m[0] % 16, m[0] / 16,
      r[0], r[1], r[2], r[3], r[4], r[5], r[6], r[7],
      s[0], s[1], s[2], s[3], s[4], s[5], s[6], s[7],
      l[0], l[1], l[2], l[3], l[4], l[5], l[6], l[7],
      m[4..10], m[10])
  }

  lemma {:induction false} BitOfBits(digits: seq<bool>, k: nat)
    requires k < |digits|
    ensures Bit(Bits(digits), k) == digits[k]
  {
    var rest := Bits(digits[1..]);
    var v := (if digits[0] then 1 else 0) + 2 * rest;
    assert Bits(digits) == v && v / 2 == rest && (v % 2 == 1 <==> digits[0]);
    if k > 0 {
      BitOfBits(digits[1..], k - 1);
    }
  }

  predicate HasDigits(v: byte, b0: bool, b1: bool, b2: bool, b3: bool, b4: bool, b5: bool, b6: bool, b7: bool) {
    var d := Digits(v);
    && d[0] == b0 && d[1] == b1 && d[2] == b2 && d[3] == b3 && d[4] == b4 && d[5] == b5 && d[6] == b6 && d[7] == b7
  }

  lemma DigitsOfByte(b0: bool, b1: bool, b2: bool, b3: bool, b4: bool, b5: bool, b6: bool, b7: bool)
    ensures HasDigits(BitByte(b0, b1, b2, b3, b4, b5, b6, b7), b0, b1, b2, b3, b4, b5, b6, b7)
  {
    hide Bit, Bits;
    var digits := [b0, b1, b2, b3, b4, b5, b6, b7];
    forall k | 0 <= k < 8
      ensures Bit(Bits(digits), k) == digits[k]
    {
      BitOfBits(digits, k);
    }
  }

  lemma EncodedFields(s: StandardReport)
    requires s.connectionInfo < 16 && s.batteryLevel < 16 && |s.analog| == 6
    ensures var m := Encode(s);
            && m[0] % 16 == s.connectionInfo && m[0] / 16 == s.batteryLevel
            && HasDigits(m[1], s.y, s.x, s.b, s.a, s.rightSr, s.rightSl, s.r, s.zr)
            && HasDigits(m[2], s.minus, s.plus, s.thumbR, s.thumbL, s.home, s.capture, s.dummy, s.chargingGrip)
            && HasDigits(m[3], s.down, s.up, s.right, s.left, s.leftSr, s.leftSl, s.l, s.zl)
            && m[4..10] == s.analog && m[10] == s.vibrator
  {
    hide BitByte, HasDigits;
    DigitsOfByte(s.y, s.x, s.b, s.a, s.rightSr, s.rightSl, s.r, s.zr);
    DigitsOfByte(s.minus, s.plus, s.thumbR, s.thumbL, s.home, s.capture, s.dummy, s.chargingGrip);
    DigitsOfByte(s.down, s.up, s.right, s.left, s.leftSr, s.leftSl, s.l, s.zl);
  }

  /** No field of the report is lost or moved in its memory image. */
  lemma DecodeEncode(s: StandardReport)
    requires s.connectionInfo < 16 && s.batteryLevel < 16 && |s.analog| == 6
    ensures Decode(Encode(s)) == s
  {
    hide Encode, HasDigits, Decode;
    EncodedFields(s);
    DecodedFields(Encode(s), s);
  }

  lemma DecodedFields(m: seq<byte>, s: StandardReport)
    requires |m| == 11 && m[0] % 16 == s.connectionInfo && m[0] / 16 == s.batteryLevel
    requires HasDigits(m[1], s.y, s.x, s.b, s.a, s.rightSr, s.rightSl, s.r, s.zr)
    requires HasDigits(m[2], s.minus, s.plus, s.thumbR, s.thumbL, s.home, s.capture, s.dummy, s.chargingGrip)
    requires HasDigits(m[3], s.down, s.up, s.right, s.left, s.leftSr, s.leftSl, s.l, s.zl)
    requires m[4..10] == s.analog && m[10] == s.vibrator
    ensures Decode(m) == s
  {
    hide Digits;
  }

  // ---- The bridge's packet ----

  datatype Packet = Packet(buttons: nat, hat: nat, lx: real, ly: real, rx: real, ry: real)

  // Python's int(): truncation toward zero.
  function Trunc(v: real): int {
    if v >= 0.0 then v.Floor else -((-v).Floor)
  }

  function Norm(v: real): byte {
    Trunc((v + 1.0) / 2.0 * 255.0) % 256
  }

  // The stick byte that is sent: the dead zone around the centre snaps to it.
  function WireAxis(v: real): byte {
    if -10 < Norm(v) - 0x80 < 10 then 0x80 else Norm(v)
  }

  /** Packet.pack. */
  function Pack(p: Packet): (bytes: seq<byte>)
    ensures |bytes| == 8
  {
    [p.buttons / 256 % 256, p.buttons % 256, p.hat % 256,
     WireAxis(p.lx), WireAxis(p.ly), WireAxis(p.rx), WireAxis(p.ry), 0]
  }

  const NEUTRAL := Packet(0, 8, 0.0, 0.0, 0.0, 0.0)

  // ---- What the console sees ----

  function Weight(pressed: bool, mask: nat): nat {
    if pressed then mask else 0
  }

  // The 14 buttons of a report, read back as a word.
  function ButtonsOf(s: StandardReport): nat {
    Weight(s.y, 0x01) + Weight(s.b, 0x02) + Weight(s.a, 0x04) + Weight(s.x, 0x08)
    + Weight(s.l, 0x10) + Weight(s.r, 0x20) + Weight(s.zl, 0x40) + Weight(s.zr, 0x80)
    + Weight(s.minus, 0x100) + Weight(s.plus, 0x200) + Weight(s.thumbL, 0x400) + Weight(s.thumbR, 0x800)
    + Weight(s.home, 0x1000) + Weight(s.capture, 0x2000)
  }

  // The direction a report's d-pad points to.
  function DirectionOf(s: StandardReport): (int, int) {
    ((if s.right then 1 else 0) - (if s.left then 1 else 0), (if s.up then 1 else 0) - (if s.down then 1 else 0))
  }

  // The 12-bit coordinates in three packed bytes.
  function StickX(s: seq<byte>): nat
    requires |s| == 3
  {
    Word(s[1] % 16, s[0])
  }

  function StickY(s: seq<byte>): nat
    requires |s| == 3
  {
    s[1] / 16 + 16 * (s[2] as int)
  }

  /** HAT_MAP. */
  function HatMap(x: int, y: int): nat
    requires -1 <= x <= 1 && -1 <= y <= 1
  {
    if y == 1 then (if x == 0 then 0 else if x == 1 then 1 else 7)
    else if y == 0 then (if x == 0 then 8 else if x == 1 then 2 else 6)
    else (if x == 0 then 4 else if x == 1 then 3 else 5)
  }

  // Bit k of v is what v modulo 2^(k+1) has beyond v modulo 2^k.
  lemma BitStep(v: nat, mask: nat)
    requires mask > 0
    ensures v % (2 * mask) == v % mask + Weight(BitSet(v, mask), mask)
  {
    var q, r := v / mask, v % mask;
    var s, t := q / 2, q % 2;
    assert v == (2 * mask) * s + (mask * t + r);
    assert 0 <= mask * t + r < 2 * mask;
    UniqueRemainder(2 * mask, s, mask * t + r, v / (2 * mask), v % (2 * mask));
  }

  // The low 14 bits of a word, bit by bit.
  function LowBits(v: nat): nat {
    Weight(BitSet(v, 0x01), 0x01) + Weight(BitSet(v, 0x02), 0x02) + Weight(BitSet(v, 0x04), 0x04)
    + Weight(BitSet(v, 0x08), 0x08) + Weight(BitSet(v, 0x10), 0x10) + Weight(BitSet(v, 0x20), 0x20)
    + Weight(BitSet(v, 0x40), 0x40) + Weight(BitSet(v, 0x80), 0x80) + Weight(BitSet(v, 0x100), 0x100)
    + Weight(BitSet(v, 0x200), 0x200) + Weight(BitSet(v, 0x400), 0x400) + Weight(BitSet(v, 0x800), 0x800)
    + Weight(BitSet(v, 0x1000), 0x1000) + Weight(BitSet(v, 0x2000), 0x2000)
  }

  lemma BinaryExpansion(v: nat)
    ensures LowBits(v) == v % 16384
  {
    hide BitSet, Weight;
    BitStep(v, 0x01);
    BitStep(v, 0x02);
    BitStep(v, 0x04);
    BitStep(v, 0x08);
    BitStep(v, 0x10);
    BitStep(v, 0x20);
    BitStep(v, 0x40);
    BitStep(v, 0x80);
    BitStep(v, 0x100);
    BitStep(v, 0x200);
    BitStep(v, 0x400);
    BitStep(v, 0x800);
    BitStep(v, 0x1000);
    BitStep(v, 0x2000);
  }

  /** Every button survives packing and decoding. */
  lemma ButtonsSurvive(p: Packet)
    requires p.buttons < 16384
    ensures ButtonsOf(Populate(Pack(p))) == p.buttons
  {
    hide BitSet, Weight, WireAxis, PackStick;
    var v := p.buttons;
    assert Word(v / 256 % 256, v % 256) == v;
    BinaryExpansion(v);
  }

  /** Every direction survives packing and decoding. */
  lemma DirectionSurvives(p: Packet, x: int, y: int)
    requires -1 <= x <= 1 && -1 <= y <= 1 && p.hat == HatMap(x, y)
    ensures DirectionOf(Populate(Pack(p))) == (x, y)
    ensures var s := Populate(Pack(p));
            (s.right <==> x == 1) && (s.left <==> x == -1) && (s.up <==> y == 1) && (s.down <==> y == -1)
  {
    hide BitSet, WireAxis, PackStick;
    assert Pack(p)[2] == HatMap(x, y);
  }

  /** What every accepted frame shows besides buttons, direction and sticks: a wired Pro Controller with a
      full battery on a charging grip, no side buttons, no rumble; and no direction for a hat byte that
      names none. */
  lemma PopulatedRest(data: seq<byte>)
    requires |data| == 8
    ensures var s := Populate(data);
            && s.connectionInfo == 1 && s.batteryLevel == 9 && s.chargingGrip && s.vibrator == 0 && !s.dummy
            && !s.rightSr && !s.rightSl && !s.leftSr && !s.leftSl
            && (data[2] > 7 ==> !s.up && !s.down && !s.left && !s.right)
  {
    hide BitSet, PackStick;
  }

  lemma StickRoundTrip(x: nat, y: nat)
    requires x < 4096 && y < 4096
    ensures StickX(PackStick(x, y)) == x && StickY(PackStick(x, y)) == y
  {
  }

  /** Both sticks come out of the packed report as 16 * byte + 8. */
  lemma SticksSurvive(p: Packet)
    ensures var analog := Populate(Pack(p)).analog;
            && |analog| == 6
            && StickX(analog[..3]) == Coordinate(WireAxis(p.lx))
            && StickY(analog[..3]) == Coordinate(WireAxis(p.ly))
            && StickX(analog[3..]) == Coordinate(WireAxis(p.rx))
            && StickY(analog[3..]) == Coordinate(WireAxis(p.ry))
  {
    hide WireAxis, PackStick, StickX, StickY;
    var lx, ly, rx, ry := WireAxis(p.lx), WireAxis(p.ly), WireAxis(p.rx), WireAxis(p.ry);
    StickRoundTrip(Coordinate(lx), Coordinate(ly));
    StickRoundTrip(Coordinate(rx), Coordinate(ry));
    var analog := Populate(Pack(p)).analog;
    assert analog[..3] == PackStick(Coordinate(lx), Coordinate(ly));
    assert analog[3..] == PackStick(Coordinate(rx), Coordinate(ry));
  }

  /** The mask in `norm` changes nothing exactly for values between -1 - 2/255 and 1 + 2/255. */
  lemma NormWrapsIff(v: real)
    ensures Trunc((v + 1.0) / 2.0 * 255.0) == Norm(v) <==> -257.0 < 255.0 * v < 257.0
  {
  }

  /** The byte that an axis from -1 to 1 is sent as: the whole number below its place on a scale from 0
      to 255, except that everything less than ten from 128 is sent as 128. */
  ghost predicate AxisByte(v: real, b: int) {
    var place := (v + 1.0) * 127.5;
    if 119.0 <= place < 138.0 then b == 128 else b as real <= place < b as real + 1.0
  }

  lemma AxisSent(v: real)
    requires -1.0 <= v <= 1.0
    ensures AxisByte(v, WireAxis(v))
  {
    var t := (v + 1.0) * 127.5;
    var f := t.Floor;
    assert (v + 1.0) / 2.0 * 255.0 == t && 0 <= f <= 255;
    assert f as real <= t < f as real + 1.0;
  }

  /** The four stick bytes of a packet, and where they put the sticks on the console. */
  lemma SticksSent(p: Packet)
    requires -1.0 <= p.lx <= 1.0 && -1.0 <= p.ly <= 1.0 && -1.0 <= p.rx <= 1.0 && -1.0 <= p.ry <= 1.0
    ensures var bytes := Pack(p);
            && AxisByte(p.lx, bytes[3]) && AxisByte(p.ly, bytes[4])
            && AxisByte(p.rx, bytes[5]) && AxisByte(p.ry, bytes[6])
            && bytes[7] == 0
    ensures var s := Populate(Pack(p));
            && ShowsAxis(p.lx, StickX(s.analog[..3])) && ShowsAxis(p.ly, StickY(s.analog[..3]))
            && ShowsAxis(p.rx, StickX(s.analog[3..])) && ShowsAxis(p.ry, StickY(s.analog[3..]))
  {
    hide AxisByte, WireAxis, StickX, StickY, Populate;
    AxisSent(p.lx);
    AxisSent(p.ly);
    AxisSent(p.rx);
    AxisSent(p.ry);
    SticksSurvive(p);
  }

  // A 12-bit coordinate that shows an axis: the middle of the sixteen values of its byte.
  ghost predicate ShowsAxis(v: real, coordinate: int) {
    coordinate % 16 == 8 && AxisByte(v, coordinate / 16)
  }

  /** The ends and the centre of a stick. */
  lemma AxisEnds()
    ensures WireAxis(-1.0) == 0 && WireAxis(0.0) == 128 && WireAxis(1.0) == 255
  {
    AxisSent(-1.0);
    AxisSent(0.0);
    AxisSent(1.0);
  }

  /** The idle report shows a centred pad with nothing pressed, or with HOME alone. */
  lemma IdleMeaning(home: bool)
    ensures var s := IdleReport(home);
            && ButtonsOf(s) == Weight(home, 0x1000) && !s.up && !s.down && !s.left && !s.right
            && s.connectionInfo == 1 && s.batteryLevel == 9 && s.chargingGrip && s.vibrator == 0x0C && !s.dummy
            && !s.rightSr && !s.rightSl && !s.leftSr && !s.leftSl
            && StickX(s.analog[..3]) == StickY(s.analog[..3]) == 0x800
            && StickX(s.analog[3..]) == StickY(s.analog[3..]) == 0x800
  {
    hide PackStick, StickX, StickY;
    StickRoundTrip(0x800, 0x800);
    var analog, centre := IdleReport(home).analog, PackStick(0x800, 0x800);
    assert analog[..3] == centre && analog[3..] == centre;
  }

  // The value that the XInput backend reports for a raw stick position.
  function XInputAxis(raw: int): real {
    raw as real / 32767.0
  }

  /** Every raw position is in that range, and a greater position is never sent as a smaller one. */
  lemma AxisMonotone(low: int, high: int)
    requires -32768 <= low <= high <= 32767
    ensures Trunc((XInputAxis(low) + 1.0) / 2.0 * 255.0) == Norm(XInputAxis(low))
    ensures WireAxis(XInputAxis(low)) <= WireAxis(XInputAxis(high))
  {
    NormWrapsIff(XInputAxis(low));
    NormWrapsIff(XInputAxis(high));
  }
}
