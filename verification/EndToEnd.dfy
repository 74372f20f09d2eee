/** A packet of the bridge on its way to the console. */
module EndToEnd {
  import opened Bytes
  import opened Report
  import opened Device
  import opened Response
  import opened Staleness

  /** With the device synchronised and no reply waiting, the next packet to the console is a standard
      report that shows exactly the buttons, the direction and the stick positions the bridge sent, on
      a wired controller with a full battery. */
  lemma PressReachesConsole(x: System, p: Packet, hx: int, hy: int)
    requires Device.Valid(x.device) && x.device.sync.Synced? && x.device.buffer == [] && !x.slot.ready
    requires p.buttons < 16384 && -1 <= hx <= 1 && -1 <= hy <= 1 && p.hat == HatMap(hx, hy)
    ensures var d := Run(x.device, Frame(Pack(p))).state;
            var packet := Sent(x.slot, Image(BeforeSend(d)));
            && |packet| == EPSIZE && packet[0] == 0x30
            && var seen := Decode(packet[2..13]);
               && seen == Populate(Pack(p))
               && ButtonsOf(seen) == p.buttons && DirectionOf(seen) == (hx, hy) && |seen.analog| == 6
               && seen.connectionInfo == 1 && seen.batteryLevel == 9 && seen.chargingGrip && seen.vibrator == 0
               && StickX(seen.analog[..3]) == Coordinate(WireAxis(p.lx))
               && StickY(seen.analog[..3]) == Coordinate(WireAxis(p.ly))
               && StickX(seen.analog[3..]) == Coordinate(WireAxis(p.rx))
               && StickY(seen.analog[3..]) == Coordinate(WireAxis(p.ry))
               && (-1.0 <= p.lx <= 1.0 ==> ShowsAxis(p.lx, StickX(seen.analog[..3])))
               && (-1.0 <= p.ly <= 1.0 ==> ShowsAxis(p.ly, StickY(seen.analog[..3])))
               && (-1.0 <= p.rx <= 1.0 ==> ShowsAxis(p.rx, StickX(seen.analog[3..])))
               && (-1.0 <= p.ry <= 1.0 ==> ShowsAxis(p.ry, StickY(seen.analog[3..])))
  {
    hide Populate, Pack, Encode, Decode, ButtonsOf, DirectionOf, StickX, StickY, Run, Frame, WireAxis, Render, Image,
         ShowsAxis;
    var report := Populate(Pack(p));
    OneFrame(x.device, Pack(p));
    FreshImage(x.device, Pack(p));
    PopulatedRest(Pack(p));
    DecodeEncode(report);
    ButtonsSurvive(p);
    DirectionSurvives(p, hx, hy);
    SticksSurvive(p);
    CoordinateShows(p.lx);
    CoordinateShows(p.ly);
    CoordinateShows(p.rx);
    CoordinateShows(p.ry);
    StandardPacket(Encode(report), (x.slot.counter + COUNTER_INCREMENT) % 256);
  }

  lemma CoordinateShows(v: real)
    ensures -1.0 <= v <= 1.0 ==> ShowsAxis(v, Coordinate(WireAxis(v)))
  {
    hide AxisByte, WireAxis;
    if -1.0 <= v <= 1.0 {
      AxisSent(v);
    }
  }

  // The report that is sent right after a frame has been accepted.
  lemma FreshImage(s: State, data: seq<byte>)
    requires Device.Valid(s) && s.sync.Synced? && |data| == 8
    ensures Device.Valid(Accepted(s, data)) && Image(BeforeSend(Accepted(s, data))) == Encode(Populate(data))
  {
    hide Populate, Encode;
  }

  lemma StandardPacket(report: seq<byte>, counter: byte)
    requires |report| == REPORT_SIZE
    ensures var packet := Render(Standard(report), counter);
            |packet| == EPSIZE && packet[0] == 0x30 && packet[2..13] == report
  {
  }
}
