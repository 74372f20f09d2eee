/** The host's resynchronisation handshake over a lossless, otherwise quiet line. */
module Sync {
  import opened Bytes
  import opened Crc
  import opened Device
  import opened Report

  const CMD_ST: byte := 0xFF
  const CMD1: byte := 0x33
  const CMD2: byte := 0xCC
  const RSP_ST: byte := 0xFF
  const RSP1: byte := 0xCC
  const RSP_OK: byte := 0x33

  // What is left of the received bytes after reading up to the expected one; nothing if it never comes.
  function AfterExpected(inbox: seq<byte>, expected: byte): (r: seq<byte>)
    ensures |r| <= |inbox|
  {
    if inbox == [] then []
    else if inbox[0] == expected then inbox[1..]
    else AfterExpected(inbox[1..], expected)
  }

  /** Waiting for a byte skips everything before its first occurrence, and everything if it never comes. */
  lemma {:induction false} WaitingSkips(before: seq<byte>, expected: byte, after: seq<byte>)
    requires expected !in before
    ensures AfterExpected(before + [expected] + after, expected) == after && AfterExpected(before, expected) == []
    decreases |before|
  {
    var inbox := before + [expected] + after;
    if before == [] {
      assert inbox[0] == expected && inbox[1..] == after;
    } else {
      assert before == [before[0]] + before[1..];
      assert inbox[1..] == before[1..] + [expected] + after;
      WaitingSkips(before[1..], expected, after);
    }
  }

  datatype Attempt = Attempt(device: State, ok: bool)

  /** One call of `sync`: the device's state afterwards and the value returned. */
  function SyncAttempt(s: State): Attempt
    requires Valid(s)
  {
    var start := Run(s, Repeat(CMD_ST, 9));
    if RSP_ST !in start.sent then Attempt(start.state, false)
    else
      var first := Run(start.state, [CMD1]);
      if RSP1 !in first.sent then Attempt(first.state, false)
      else
        var second := Run(first.state, [CMD2]);
        Attempt(second.state, RSP_OK in AfterExpected(first.sent, RSP1) + second.sent)
  }

  // The partial frame in the buffer, padded by the start commands.
  function Padded(s: State): seq<byte>
    requires |s.buffer| <= 8
  {
    s.buffer + Repeat(CMD_ST, 8 - |s.buffer|)
  }

  // The start commands happen to complete a frame with a matching CRC.
  ghost predicate Mistaken(s: State)
    requires |s.buffer| <= 8
  {
    s.sync.Synced? && Crc8(Padded(s)) == CMD_ST
  }

  lemma {:induction false} StartOutsideFrames(s: State, n: nat)
    requires Valid(s) && !s.sync.Synced?
    ensures Run(s, Repeat(CMD_ST, n)) ==
            Outcome(if n == 0 then s else s.(sync := SyncStart), Repeat(RSP_ST, n))
  {
    hide Crc8, Accepted;
    if n > 0 {
      StartOutsideFrames(s, n - 1);
      assert Repeat(CMD_ST, n)[..n - 1] == Repeat(CMD_ST, n - 1);
    }
  }

  // The nine start commands, cut where the frame in progress ends.
  lemma NineStarts(s: State)
    requires Valid(s) && s.sync.Synced?
    ensures var k := |s.buffer|;
            var ended := Receive(s.(buffer := Padded(s)), CMD_ST);
            var rest := Run(ended.state, Repeat(CMD_ST, k));
            Run(s, Repeat(CMD_ST, 9)) == Outcome(rest.state, ended.sent + rest.sent)
  {
    hide Receive, Run, Repeat;
    var k := |s.buffer|;
    Fill(s, Repeat(CMD_ST, 8 - k));
    RunAround(s, s.(buffer := Padded(s)), Repeat(CMD_ST, 8 - k), CMD_ST, Repeat(CMD_ST, k));
    StartsSplit(k);
  }

  lemma StartsSplit(k: nat)
    requires k <= 8
    ensures Repeat(CMD_ST, 8 - k) + [CMD_ST] + Repeat(CMD_ST, k) == Repeat(CMD_ST, 9)
  {
  }

  // A run with a silent first part.
  lemma RunAround(s: State, t: State, p: seq<byte>, b: byte, q: seq<byte>)
    requires Valid(s) && Valid(t) && Run(s, p) == Outcome(t, [])
    ensures var ended := Receive(t, b);
            var rest := Run(ended.state, q);
            Run(s, p + [b] + q) == Outcome(rest.state, ended.sent + rest.sent)
  {
    hide Receive, Run, Valid;
    RunOne(t, b);
    RunAppend(s, p, [b]);
    RunAppend(s, p + [b], q);
  }

  // Once the device is in SyncStart the rest of the handshake succeeds.
  lemma Handshake(s: State)
    requires Valid(s) && s.sync.SyncStart?
    ensures Run(s, [CMD1]) == Outcome(s.(sync := Sync1), [RSP1])
    ensures Run(s.(sync := Sync1), [CMD2]) == Outcome(s.(sync := Synced), [RSP_OK])
  {
    hide Run, Crc8;
    RunOne(s, CMD1);
    RunOne(s.(sync := Sync1), CMD2);
  }

  lemma StartFails(s: State)
    requires Valid(s) && Mistaken(s)
    ensures Run(s, Repeat(CMD_ST, 9)) ==
            Outcome(Accepted(s, Padded(s)).(buffer := Repeat(CMD_ST, |s.buffer|)), [RESP_UPDATE_ACK])
  {
    hide Crc8, Run, Populate;
    NineStarts(s);
    Fill(Receive(s.(buffer := Padded(s)), CMD_ST).state, Repeat(CMD_ST, |s.buffer|));
  }

  lemma StartSucceeds(s: State)
    requires Valid(s) && !Mistaken(s)
    ensures var start := Run(s, Repeat(CMD_ST, 9));
            start.state == s.(sync := SyncStart, buffer := []) && RSP_ST in start.sent
  {
    hide Crc8, Run, Accepted;
    if s.sync.Synced? {
      NineStarts(s);
      StartOutsideFrames(s.(sync := SyncStart, buffer := []), |s.buffer|);
    } else {
      StartOutsideFrames(s, 9);
      assert Repeat(RSP_ST, 9)[0] == RSP_ST;
    }
  }

  lemma StartCrc(n: nat, before: bv8, after: bv8)
    requires Register(Repeat(CMD_ST, n)) == before && Shifts(8, Plus(before, 0xFF)) == after
    ensures Register(Repeat(CMD_ST, n + 1)) == after
  {
    assert Repeat(CMD_ST, n + 1)[..n] == Repeat(CMD_ST, n);
  }

  lemma EightStartsCrc()
    ensures Crc8(Repeat(CMD_ST, 8)) != CMD_ST
  {
    StartCrc(0, 0x00, 0xF3);
    StartCrc(1, 0xF3, 0x24);
    StartCrc(2, 0x24, 0x0F);
    StartCrc(3, 0x0F, 0xDE);
    StartCrc(4, 0xDE, 0xE7);
    StartCrc(5, 0xE7, 0x48);
    StartCrc(6, 0x48, 0x0C);
    StartCrc(7, 0x0C, 0xD7);
  }

  /** One attempt fails exactly when the start commands complete a frame by accident. When it
      succeeds, the device is ready for a frame and nothing else about it has changed. */
  lemma SyncAttemptOutcome(s: State)
    requires Valid(s)
    ensures SyncAttempt(s) ==
            if Mistaken(s) then
              Attempt(Accepted(s, Padded(s)).(buffer := Repeat(CMD_ST, |s.buffer|)), false)
            else
              Attempt(s.(sync := Synced, buffer := []), true)
  {
    hide Crc8, Run, Accepted;
    if Mistaken(s) {
      StartFails(s);
    } else {
      StartSucceeds(s);
      Handshake(s.(sync := SyncStart, buffer := []));
    }
  }

  /** Convergence: from every state a second attempt succeeds if the first one did not. */
  lemma SyncConverges(s: State)
    requires Valid(s)
    ensures var first := SyncAttempt(s);
            && Valid(first.device)
            && (first.ok || SyncAttempt(first.device).ok)
            && var ready := if first.ok then first.device else SyncAttempt(first.device).device;
               ready.sync.Synced? && ready.buffer == []
  {
    hide Crc8, SyncAttempt;
    SyncAttemptOutcome(s);
    if Mistaken(s) {
      var next := SyncAttempt(s).device;
      EightStartsCrc();
      assert Padded(next) == Repeat(CMD_ST, 8);
      SyncAttemptOutcome(next);
    }
  }

  lemma {:induction false} ZerosRegister(n: nat)
    ensures Register(Repeat(0, n)) == 0
  {
    hide Shifts, Plus;
    if n > 0 {
      ZerosRegister(n - 1);
      assert Repeat(0, n)[..n - 1] == Repeat(0, n - 1);
      PlusZero(0, 0);
      ShiftsZero(8);
    }
  }

  /** A first attempt that fails: seven zero bytes and 0x48 have been received of a frame. */
  lemma FirstAttemptCanFail(s: State)
    requires Valid(s) && s.sync.Synced?
    ensures !SyncAttempt(s.(buffer := Repeat(0, 7) + [0x48])).ok
  {
    hide SyncAttempt;
    var buffer: seq<byte> := Repeat(0, 7) + [0x48];
    var t := s.(buffer := buffer);
    ZerosRegister(7);
    assert buffer[..7] == Repeat(0, 7);
    assert Shifts(8, Plus(0, 0x48)) == 0xFF;
    assert Padded(t) == buffer;
    SyncAttemptOutcome(t);
  }
}
