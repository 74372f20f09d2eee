/** The firmware's serial side as a state machine: one step per received byte, one step per
    report that the console asks for.
 */
module Device {
  import opened Bytes
  import opened Crc
  import opened CrcBurst
  import opened Report

  const COMMAND_SYNC_START: byte := 0xFF
  const COMMAND_SYNC_1: byte := 0x33
  const COMMAND_SYNC_2: byte := 0xCC

  const RESP_UPDATE_ACK: byte := 0x91
  const RESP_UPDATE_NACK: byte := 0x92
  const RESP_SYNC_START: byte := 0xFF
  const RESP_SYNC_1: byte := 0xCC
  const RESP_SYNC_OK: byte := 0x33

  const MILLIS_UNTIL_PAUSE := 120
  const MILLIS_UNTIL_HOME := 800
  const MILLIS_HOME_PRESSED := 200

  datatype SyncState = Synced | SyncStart | Sync1 | OutOfSync

  // Which of the two reports `selectedReport` points to.
  datatype Source = Controller | Idle

  /** The running CRC and the byte count are not here: they are functions of `buffer`. */
  datatype State = State(
    sync: SyncState, buffer: seq<byte>, millis: nat,
    controller: StandardReport, home: bool, selected: Source)

  ghost predicate Valid(s: State) {
    && |s.buffer| <= 8
    && (!s.sync.Synced? ==> s.buffer == [])
    && s.millis % 8 == 0 && s.millis <= MILLIS_UNTIL_HOME + MILLIS_HOME_PRESSED
    && |s.controller.analog| == 6
  }

  // The state after a step or a run, and the bytes sent back to the host during it.
  datatype Outcome = Outcome(state: State, sent: seq<byte>)

  function Initial(): State {
    State(OutOfSync, [], 0, IdleReport(false), false, Idle)
  }

  function SelectedReport(s: State): StandardReport {
    if s.selected.Controller? then s.controller else IdleReport(s.home)
  }

  // A byte that completes a frame whose CRC matches.
  predicate Accepts(s: State, b: byte) {
    s.sync.Synced? && |s.buffer| == 8 && Crc8(s.buffer) == b
  }

  // ---- One received byte ----

  // A byte that the synchronisation handshake does not want: it may restart it.
  function Restart(s: State, b: byte): Outcome {
    if b == COMMAND_SYNC_START then Outcome(s.(sync := SyncStart), [RESP_SYNC_START])
    else Outcome(s.(sync := OutOfSync), [])
  }

  function Receive(s: State, b: byte): (r: Outcome)
    requires Valid(s)
    ensures Valid(r.state)
  {
    hide Crc8, Populate;
    match s.sync
    case Synced =>
      if |s.buffer| < 8 then Outcome(s.(buffer := s.buffer + [b]), [])
      else if Crc8(s.buffer) == b then
        Outcome(Accepted(s.(buffer := []), s.buffer), [RESP_UPDATE_ACK])
      else if b == COMMAND_SYNC_START then
        Outcome(s.(sync := SyncStart, buffer := []), [RESP_SYNC_START])
      else
        Outcome(s.(buffer := []), [RESP_UPDATE_NACK])
    case SyncStart =>
      if b == COMMAND_SYNC_1 then Outcome(s.(sync := Sync1), [RESP_SYNC_1]) else Restart(s, b)
    case Sync1 =>
      if b == COMMAND_SYNC_2 then Outcome(s.(sync := Synced), [RESP_SYNC_OK]) else Restart(s, b)
    case OutOfSync => Restart(s, b)
  }

  // The state once the eight bytes of a frame have been accepted.
  function Accepted(s: State, data: seq<byte>): State
    requires |data| == 8
  {
    s.(controller := Populate(data), selected := Controller, millis := 0)
  }

  // ---- One report for the console ----

  function BeforeSend(s: State): (r: State)
    ensures Valid(s) ==> Valid(r)
  {
    if !s.sync.Synced? then s.(home := false, selected := Idle)
    else if s.millis < MILLIS_UNTIL_PAUSE then s.(selected := Controller, millis := s.millis + 8)
    else
      s.(selected := Idle,
         home := MILLIS_UNTIL_HOME <= s.millis < MILLIS_UNTIL_HOME + MILLIS_HOME_PRESSED,
         millis := if s.millis < MILLIS_UNTIL_HOME + MILLIS_HOME_PRESSED then s.millis + 8 else s.millis)
  }

  // ---- Runs ----

  function Run(s: State, bytes: seq<byte>): (r: Outcome)
    requires Valid(s)
    ensures Valid(r.state)
  {
    hide Receive;
    if bytes == [] then Outcome(s, [])
    else
      var last := |bytes| - 1;
      var before := Run(s, bytes[..last]);
      var step := Receive(before.state, bytes[last]);
      Outcome(step.state, before.sent + step.sent)
  }

  lemma {:induction false} RunAppend(s: State, p: seq<byte>, q: seq<byte>)
    requires Valid(s)
    ensures var first := Run(s, p);
            var second := Run(first.state, q);
            Run(s, p + q) == Outcome(second.state, first.sent + second.sent)
  {
    hide Receive;
    if q == [] {
      assert p + q == p;
    } else {
      var last := |q| - 1;
      RunAppend(s, p, q[..last]);
      assert (p + q)[..|p + q| - 1] == p + q[..last];
    }
  }

  lemma RunOne(s: State, b: byte)
    requires Valid(s)
    ensures Run(s, [b]) == Receive(s, b)
  {
    hide Receive;
    assert [b][..0] == [];
  }

  // Filling the buffer changes nothing else and is silent.
  lemma {:induction false} Fill(s: State, data: seq<byte>)
    requires Valid(s) && s.sync.Synced? && |s.buffer| + |data| <= 8
    ensures Run(s, data) == Outcome(s.(buffer := s.buffer + data), [])
  {
    hide Crc8, Populate;
    if data == [] {
      assert s.buffer + data == s.buffer;
    } else {
      var last := |data| - 1;
      Fill(s, data[..last]);
      assert s.buffer + data[..last] + [data[last]] == s.buffer + data;
    }
  }

  // ---- Delivery ----

  // What the host writes for one packet.
  function Frame(data: seq<byte>): seq<byte> {
    data + [Crc8(data)]
  }

  function Stream(packets: seq<seq<byte>>): seq<byte> {
    if packets == [] then [] else Stream(packets[..|packets| - 1]) + Frame(packets[|packets| - 1])
  }

  lemma OneFrame(s: State, data: seq<byte>)
    requires Valid(s) && s.sync.Synced? && s.buffer == [] && |data| == 8
    ensures Run(s, Frame(data)) == Outcome(Accepted(s, data), [RESP_UPDATE_ACK])
  {
    hide Crc8, Populate;
    Fill(s, data);
    assert s.buffer + data == data;
    RunOne(s.(buffer := data), Crc8(data));
    RunAppend(s, data, [Crc8(data)]);
  }

  /** Exact delivery: n packets give n acknowledgements, nothing else, and the report of the
      last packet. No data byte and no CRC value can break the framing. */
  lemma {:induction false} Delivery(s: State, packets: seq<seq<byte>>)
    requires Valid(s) && s.sync.Synced? && s.buffer == []
    requires forall i :: 0 <= i < |packets| ==> |packets[i]| == 8
    ensures Run(s, Stream(packets)) ==
            Outcome(if packets == [] then s else Accepted(s, packets[|packets| - 1]),
                    Repeat(0x91, |packets|))
    ensures packets != [] ==>
              SelectedReport(Run(s, Stream(packets)).state) == Populate(packets[|packets| - 1])
              && Run(s, Stream(packets)).state.millis == 0
  {
    hide Frame, Populate, Receive;
    if packets != [] {
      var last := |packets| - 1;
      Delivery(s, packets[..last]);
      var mid := Run(s, Stream(packets[..last]));
      OneFrame(mid.state, packets[last]);
      RunAppend(s, Stream(packets[..last]), Frame(packets[last]));
      assert Repeat(RESP_UPDATE_ACK, last) + [RESP_UPDATE_ACK] == Repeat(RESP_UPDATE_ACK, |packets|);
    }
  }

  // ---- Damaged frames ----

  /** Nine received bytes are accepted exactly when they form a codeword; otherwise report,
      selection and timer stay, and the next frame starts with an empty buffer. */
  lemma NineBytes(s: State, frame: seq<byte>)
    requires Valid(s) && s.sync.Synced? && s.buffer == [] && |frame| == 9
    ensures Run(s, frame) ==
            if Codeword(frame) then Outcome(Accepted(s, frame[..8]), [0x91])
            else if frame[8] == 0xFF then Outcome(s.(sync := SyncStart), [0xFF])
            else Outcome(s, [0x92])
  {
    hide Crc8, Populate;
    Fill(s, frame[..8]);
    assert s.buffer + frame[..8] == frame[..8];
    RunOne(s.(buffer := frame[..8]), frame[8]);
    RunAppend(s, frame[..8], [frame[8]]);
    assert frame[..8] + [frame[8]] == frame;
  }

  // Nothing of the frame got through.
  ghost predicate Rejected(s: State, frame: seq<byte>)
    requires Valid(s)
  {
    var r := Run(s, frame);
    && (r == Outcome(s, [0x92]) || r == Outcome(s.(sync := SyncStart), [0xFF]))
  }

  /** A frame damaged by an odd number of bit flips, by two flips, by any change inside one byte or
      by any burst of at most eight bits is rejected; and an arbitrary error pattern slips through
      exactly when it is itself a codeword. */
  lemma DamageRejected(s: State, data: seq<byte>)
    requires Valid(s) && s.sync.Synced? && s.buffer == [] && |data| == 8
    ensures forall flips: seq<nat> ::
              |flips| % 2 == 1 && (forall k :: 0 <= k < |flips| ==> flips[k] < 72)
              ==> Rejected(s, FlipBits(Frame(data), flips))
    ensures forall i: nat, j: nat :: i < j < 72 ==> Rejected(s, FlipBit(FlipBit(Frame(data), i), j))
    ensures forall k: nat, mask: byte :: k < 9 && mask != 0 ==> Rejected(s, ChangeByte(Frame(data), k, mask))
    ensures forall flips: seq<nat> ::
              InFrame(Frame(data), flips) && Burst(flips) ==> Rejected(s, FlipBits(Frame(data), flips))
    ensures forall error: seq<byte> ::
              |error| == 9 ==> (Rejected(s, XorAll(Frame(data), error)) <==> !Codeword(error))
  {
    hide Crc8, Populate, Receive, Run, Mask, Xor;
    var frame := Frame(data);
    assert frame[..8] == data;
    assert Codeword(frame);
    forall flips: seq<nat> | |flips| % 2 == 1 && (forall k :: 0 <= k < |flips| ==> flips[k] < 72)
      ensures Rejected(s, FlipBits(frame, flips))
    {
      OddFlipsDetected(frame, flips);
      NineBytes(s, FlipBits(frame, flips));
    }
    forall i: nat, j: nat | i < j < 72
      ensures Rejected(s, FlipBit(FlipBit(frame, i), j))
    {
      TwoFlipsDetected(frame, i, j);
      NineBytes(s, FlipBit(FlipBit(frame, i), j));
    }
    forall k: nat, mask: byte | k < 9 && mask != 0
      ensures Rejected(s, ChangeByte(frame, k, mask))
    {
      OneByteDetected(frame, k, mask);
      NineBytes(s, ChangeByte(frame, k, mask));
    }
    forall flips: seq<nat> | InFrame(frame, flips) && Burst(flips)
      ensures Rejected(s, FlipBits(frame, flips))
    {
      BurstDetected(frame, flips);
      NineBytes(s, FlipBits(frame, flips));
    }
    forall error: seq<byte> | |error| == 9
      ensures Rejected(s, XorAll(frame, error)) <==> !Codeword(error)
    {
      UndetectedIffCodeword(frame, error);
      NineBytes(s, XorAll(frame, error));
    }
  }

  /** Four flips can get through: those of the generator, at every place of every frame. */
  lemma FourFlipsAccepted(s: State, data: seq<byte>, p: nat)
    requires Valid(s) && s.sync.Synced? && s.buffer == [] && |data| == 8 && p < 64
    ensures InFrame(Frame(data), GeneratorAt(p))
    ensures var damaged := FlipBits(Frame(data), GeneratorAt(p));
            Run(s, damaged) == Outcome(Accepted(s, damaged[..8]), [0x91])
  {
    hide Crc8, Populate, Run, FlipBits;
    assert Frame(data)[..8] == data;
    FourFlipsMissed(Frame(data), p);
    NineBytes(s, FlipBits(Frame(data), GeneratorAt(p)));
  }
}
