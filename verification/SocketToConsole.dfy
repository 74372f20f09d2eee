/** The whole way of a socket event: from the table of timed inputs to the console. */
module SocketToConsole {
  import opened Bytes
  import opened Report
  import opened Device
  import opened Response
  import opened Staleness
  import EndToEnd
  import opened SocketEvents
  import S = Socket

  // ---- Binary digits and masks ----

  lemma DivideTwice(v: nat, m: nat)
    requires m > 0
    ensures v / 2 / m == v / (2 * m)
  {
    var q, r := v / 2 / m, v / 2 % m;
    assert v == (2 * m) * q + (2 * r + v % 2);
    UniqueRemainder(2 * m, q, 2 * r + v % 2, v / (2 * m), v % (2 * m));
  }

  lemma {:induction false} BitIsSet(v: nat, k: nat)
    ensures Power(k) > 0
    ensures Bit(v, k) <==> BitSet(v, Power(k))
    decreases k
  {
    if k > 0 {
      BitIsSet(v / 2, k - 1);
      DivideTwice(v, Power(k - 1));
    }
  }

  // The button bits of a packet, as the firmware shows them.
  lemma ShownButtons(p: Packet)
    requires p.buttons < 16384
    ensures var s, v := Populate(Pack(p)), p.buttons;
            && s.y == BitSet(v, 0x01) && s.b == BitSet(v, 0x02) && s.a == BitSet(v, 0x04) && s.x == BitSet(v, 0x08)
            && s.l == BitSet(v, 0x10) && s.r == BitSet(v, 0x20) && s.zl == BitSet(v, 0x40) && s.zr == BitSet(v, 0x80)
            && s.minus == BitSet(v, 0x100) && s.plus == BitSet(v, 0x200)
            && s.thumbL == BitSet(v, 0x400) && s.thumbR == BitSet(v, 0x800)
            && s.home == BitSet(v, 0x1000) && s.capture == BitSet(v, 0x2000)
  {
    hide BitSet, WireAxis, PackStick;
    var v := p.buttons;
    assert Word(v / 256 % 256, v % 256) == v;
  }

  // Entry j of the button map decides its own bit.
  lemma MappedEntry(log: seq<S.Write>, times: seq<real>, j: nat)
    requires |times| == 2 * S.QUESTIONS && j < |S.BTN_MAP|
    ensures S.BTN_MAP[j].1 > 0
    ensures BitSet(S.LogPacket(log, times).buttons, S.BTN_MAP[j].1) == S.Pressed(log, times, j)
  {
    hide Bit, BitSet, S.LogPacket, S.Pressed, S.Live, S.AnswerTime, Power;
    var k := S.BTN_BIT[j];
    S.MapIsPower(j);
    BitIsSet(S.LogPacket(log, times).buttons, k);
    S.PacketBit(log, times, k);
    assert forall i :: 0 <= i < |S.BTN_BIT| && S.BTN_BIT[i] == k ==> i == j;
  }

  // So do the extra buttons, and no entry presses ZL or ZR.
  lemma OtherBits(log: seq<S.Write>, times: seq<real>)
    requires |times| == 2 * S.QUESTIONS
    ensures var v, now := S.LogPacket(log, times).buttons, S.AnswerTime(times, S.EXTRAS);
            && BitSet(v, 0x1000) == S.Live(log, S.ExtraKey(S.HOME), now).Some?
            && BitSet(v, 0x2000) == S.Live(log, S.ExtraKey(S.CAPTURE), now).Some?
            && !BitSet(v, 0x40) && !BitSet(v, 0x80)
  {
    assert Power(6) == 64 && Power(7) == 128;
    hide Bit, BitSet, S.LogPacket, S.Pressed, S.Live, S.AnswerTime, Power;
    S.Powers();
    var v := S.LogPacket(log, times).buttons;
    BitIsSet(v, 6);
    BitIsSet(v, 7);
    BitIsSet(v, 12);
    BitIsSet(v, 13);
    S.PacketBit(log, times, 6);
    S.PacketBit(log, times, 7);
    S.PacketBit(log, times, 12);
    S.PacketBit(log, times, 13);
    assert forall i :: 0 <= i < |S.BTN_BIT| ==> S.BTN_BIT[i] !in {6, 7, 12, 13};
  }

  // What the report of a socket packet shows.
  ghost predicate Shows(seen: StandardReport, log: seq<S.Write>, times: seq<real>)
    requires |times| == 2 * S.QUESTIONS
  {
    var now := S.AnswerTime(times, S.EXTRAS);
    && seen.b == S.Pressed(log, times, 0) && seen.a == S.Pressed(log, times, 1)
    && seen.y == S.Pressed(log, times, 2) && seen.x == S.Pressed(log, times, 3)
    && seen.l == S.Pressed(log, times, 4) && seen.r == S.Pressed(log, times, 5)
    && seen.minus == S.Pressed(log, times, 6) && seen.plus == S.Pressed(log, times, 7)
    && seen.thumbL == S.Pressed(log, times, 8) && seen.thumbR == S.Pressed(log, times, 9)
    && seen.home == S.Live(log, S.ExtraKey(S.HOME), now).Some?
    && seen.capture == S.Live(log, S.ExtraKey(S.CAPTURE), now).Some?
    && !seen.zl && !seen.zr
  }

  lemma PacketShows(log: seq<S.Write>, times: seq<real>)
    requires |times| == 2 * S.QUESTIONS
    ensures Shows(Populate(Pack(S.LogPacket(log, times))), log, times)
  {
    hide BitSet, Populate, Pack, S.LogPacket, S.Pressed, S.Live, S.AnswerTime;
    S.PacketFits(log, times);
    ShownButtons(S.LogPacket(log, times));
    OtherBits(log, times);
    MappedEntry(log, times, 0);
    MappedEntry(log, times, 1);
    MappedEntry(log, times, 2);
    MappedEntry(log, times, 3);
    MappedEntry(log, times, 4);
    MappedEntry(log, times, 5);
    MappedEntry(log, times, 6);
    MappedEntry(log, times, 7);
    MappedEntry(log, times, 8);
    MappedEntry(log, times, 9);
  }

  /** For every history of socket events: the packet built from it, sent to a synchronised device with
      no reply waiting, makes the console see exactly the buttons and the direction that are live when
      they are asked for, and the sticks where the live values put them. */
  lemma SocketReachesConsole(x: System, log: seq<S.Write>, times: seq<real>)
    requires Device.Valid(x.device) && x.device.sync.Synced? && x.device.buffer == [] && !x.slot.ready
    requires |times| == 2 * S.QUESTIONS
    ensures var d := Run(x.device, Frame(Pack(S.LogPacket(log, times)))).state;
            var packet := Sent(x.slot, Image(BeforeSend(d)));
            && |packet| == EPSIZE && packet[0] == 0x30
            && var seen := Decode(packet[2..13]);
               && Shows(seen, log, times) && DirectionOf(seen) == S.LogHat(log, S.AnswerTime(times, S.HAT))
               && |seen.analog| == 6
               && StickX(seen.analog[..3]) == Coordinate(WireAxis(S.LogAxis(log, 0, S.AnswerTime(times, S.AXES))))
               && StickY(seen.analog[..3]) == Coordinate(WireAxis(S.LogAxis(log, 1, S.AnswerTime(times, S.AXES + 1))))
               && StickX(seen.analog[3..]) == Coordinate(WireAxis(S.LogAxis(log, 3, S.AnswerTime(times, S.AXES + 2))))
               && StickY(seen.analog[3..]) == Coordinate(WireAxis(S.LogAxis(log, 4, S.AnswerTime(times, S.AXES + 3))))
  {
    hide Populate, Pack, Decode, ButtonsOf, DirectionOf, StickX, StickY, Run, Frame, WireAxis, Image, Sent, Shows,
         S.MappedButtons, S.LogExtras, S.LogAxis, S.LogHat, S.AnswerTime, HatMap, Or;
    var p, hat := S.LogPacket(log, times), S.LogHat(log, S.AnswerTime(times, S.HAT));
    S.PacketFits(log, times);
    PacketShows(log, times);
    EndToEnd.PressReachesConsole(x, p, hat.0, hat.1);
  }

  /** After every run of socket events the sticks on the console stand where the live values say. */
  lemma SticksReachConsole(x: System, ops: seq<S.Op>, times: seq<real>)
    requires Device.Valid(x.device) && x.device.sync.Synced? && x.device.buffer == [] && !x.slot.ready
    requires |times| == 2 * S.QUESTIONS
    ensures var log := S.LogAfter(ops);
            var d := Run(x.device, Frame(Pack(S.LogPacket(log, times)))).state;
            var packet := Sent(x.slot, Image(BeforeSend(d)));
            && |packet| == EPSIZE
            && var seen := Decode(packet[2..13]);
               && |seen.analog| == 6
               && ShowsAxis(S.LogAxis(log, 0, S.AnswerTime(times, S.AXES)), StickX(seen.analog[..3]))
               && ShowsAxis(S.LogAxis(log, 1, S.AnswerTime(times, S.AXES + 1)), StickY(seen.analog[..3]))
               && ShowsAxis(S.LogAxis(log, 3, S.AnswerTime(times, S.AXES + 2)), StickX(seen.analog[3..]))
               && ShowsAxis(S.LogAxis(log, 4, S.AnswerTime(times, S.AXES + 3)), StickY(seen.analog[3..]))
  {
    hide Populate, Pack, Decode, ButtonsOf, DirectionOf, StickX, StickY, Run, Frame, WireAxis, Image, Sent, Shows,
         S.MappedButtons, S.LogExtras, S.LogAxis, S.LogHat, S.AnswerTime, HatMap, Or, ShowsAxis, S.LogAfter;
    var log := S.LogAfter(ops);
    var p, hat := S.LogPacket(log, times), S.LogHat(log, S.AnswerTime(times, S.HAT));
    S.PacketFits(log, times);
    EndToEnd.PressReachesConsole(x, p, hat.0, hat.1);
    AxisInRange(ops, 0, S.AnswerTime(times, S.AXES));
    AxisInRange(ops, 1, S.AnswerTime(times, S.AXES + 1));
    AxisInRange(ops, 3, S.AnswerTime(times, S.AXES + 2));
    AxisInRange(ops, 4, S.AnswerTime(times, S.AXES + 3));
  }
}
