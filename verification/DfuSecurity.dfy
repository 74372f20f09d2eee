/** Secure mode: what the host can learn about the application before it has been erased. */
module DfuSecurity {
  import opened Bytes
  import opened Flash
  import opened Dfu
  import opened DfuErase
  import E = DfuEeprom
  import R = DfuRoundTrip

  // ---- Non-interference ----

  // Nothing is known about the application yet, and no transfer is open.
  ghost predicate Locked(d: Device) {
    d.isSecure && !d.waitForExit && (d.state.Idle? || d.state.Error?)
  }

  // What every reachable device keeps: a secure device has never opened a transfer.
  ghost predicate SecureInvariant(d: Device) {
    d.isSecure ==> Locked(d)
  }

  // Same variables, same EEPROM, same boot loader section, same history of flash operations.
  ghost predicate SameButApplication(c: Config, x: Device, y: Device) {
    && x.(flash := y.flash) == y && x.flash.log == y.flash.log
    && |x.flash.mem| == |y.flash.mem|
    && forall i :: c.bootStart <= i < |x.flash.mem| ==> x.flash.mem[i] == y.flash.mem[i]
  }

  // Equal, or locked and equal up to the application.
  ghost predicate Indistinguishable(c: Config, x: Device, y: Device) {
    x == y || (Locked(x) && SameButApplication(c, x, y))
  }

  lemma EraseMakesEqual(c: Config, x: Device, y: Device)
    requires Dfu.Valid(c, x) && Dfu.Valid(c, y) && SameButApplication(c, x, y)
    ensures EraseFrom(c, x.flash, 0) == EraseFrom(c, y.flash, 0)
  {
    hide EraseFrom;
    EraseAll(c, x.flash);
    EraseAll(c, y.flash);
    EraseFromLog(c, x.flash, y.flash, 0);
  }

  // One command on a locked device: refused, an identification read, or the chip erase.
  lemma LockedCommand(c: Config, x: Device, y: Device, dataSize: nat)
    requires Dfu.Valid(c, x) && Dfu.Valid(c, y) && Locked(x) && SameButApplication(c, x, y)
    ensures var x', y' := ProcessCommand(c, x, dataSize), ProcessCommand(c, y, dataSize);
            if x'.isSecure then Locked(x') && SameButApplication(c, x', y')
            else x' == y' && !x'.state.DnloadIdle? && x'.flash.mem == BlankApplication(c, x.flash.mem)
  {
    hide EraseFrom, ProcessCommand, Read, BlankApplication, ValidFlash;
    LockedCases(c, x, dataSize);
    LockedCases(c, y, dataSize);
    EraseMakesEqual(c, x, y);
    EraseAll(c, x.flash);
    LockedRead(c, x, y);
  }

  // The only commands that are let through.
  lemma LockedCases(c: Config, d: Device, dataSize: nat)
    requires Dfu.Valid(c, d) && Locked(d)
    ensures ProcessCommand(c, d, dataSize) ==
            if !Allowed(d) then d.(state := Error, status := ERR_WRITE)
            else if d.command == COMMAND_READ then Read(c, d)
            else d.(flash := EraseFrom(c, d.flash, 0), isSecure := false)
  {
    hide EraseFrom, Read, MemProg, MemRead, ValidFlash;
  }

  // The identification bytes do not depend on the application.
  lemma LockedRead(c: Config, x: Device, y: Device)
    requires Dfu.Valid(c, x) && Dfu.Valid(c, y) && Locked(x) && SameButApplication(c, x, y)
    ensures Locked(Read(c, x)) && SameButApplication(c, Read(c, x), Read(c, y))
  {
    hide ValidFlash, Identify;
    assert x.data == y.data && x.signature == y.signature;
  }

  lemma LockedStep(c: Config, x: Device, y: Device, q: Request)
    requires Dfu.Valid(c, x) && Dfu.Valid(c, y) && Locked(x) && SameButApplication(c, x, y)
    ensures var x', y' := Step(c, x, q), Step(c, y, q);
            if x'.isSecure then Locked(x') && SameButApplication(c, x', y')
            else x' == y' && x'.flash.mem == BlankApplication(c, x.flash.mem)
    ensures Answer(c, x, q) == Answer(c, y, q)
  {
    hide ProcessCommand, BlankApplication;
    if q.Dnload? && q.payload != [] {
      LockedCommand(c, LoadCommand(x, q.payload), LoadCommand(y, q.payload), AfterCommand(q.payload));
    }
  }

  /** Non-interference: two locked devices that differ only in the application give the host the
      same answers to every sequence of requests. */
  lemma {:induction false} SecureModeKeepsSecret(c: Config, x: Device, y: Device, qs: seq<Request>)
    requires Dfu.Valid(c, x) && Dfu.Valid(c, y) && Indistinguishable(c, x, y)
    ensures Answers(c, x, qs) == Answers(c, y, qs)
    decreases |qs|
  {
    hide Step, Answer, Locked, SameButApplication, Dfu.Valid;
    if qs != [] && x != y {
      LockedStep(c, x, y, qs[0]);
      SecureModeKeepsSecret(c, Step(c, x, qs[0]), Step(c, y, qs[0]), qs[1..]);
    }
  }

  // ---- The EEPROM is not covered ----

  // A chip erase, and then the EEPROM from `start` on.
  function EraseThenRead(start: nat, data: seq<byte>): seq<Request>
    requires start < 0x1_0000
  {
    [EraseRequest([]), Dnload(R.RangeCommand(COMMAND_DISP_DATA, R.EEPROM_READ, start, R.End(start, data))), Upload]
  }

  // The chip erase keeps the EEPROM and leaves a device that takes commands.
  lemma EraseKeepsEeprom(c: Config, d: Device)
    requires Dfu.Valid(c, d) && Locked(d)
    ensures var r := Step(c, d, EraseRequest([]));
            R.Ready(c, r) && r.eeprom == d.eeprom && Answer(c, d, EraseRequest([])) == Reply([], false)
  {
    hide EraseFrom, ProcessCommand, ValidFlash;
    var payload: seq<byte> := [COMMAND_WRITE, 0, 0xFF] + [];
    var l := LoadCommand(d, payload);
    assert l.data[0] == 0 && l.data[1] == 0xFF && l.command == COMMAND_WRITE;
    LockedCases(c, l, AfterCommand(payload));
  }

  /** The chip erase opens the device and keeps the EEPROM, so behind it every range can be uploaded. */
  lemma EepromIsRead(c: Config, d: Device, start: nat, data: seq<byte>)
    requires Dfu.Valid(c, d) && Locked(d) && start < 0x1_0000 && E.InEeprom(d, start, data)
    ensures Answers(c, d, EraseThenRead(start, data)) ==
            [Reply([], false), Reply([], false), Reply(d.eeprom[start..start + |data|], false)]
  {
    hide Step, Answer, ValidFlash, R.RangeCommand, EraseRequest;
    var erase := EraseRequest([]);
    EraseKeepsEeprom(c, d);
    var r := Step(c, d, erase);
    E.EepromUpload(c, r, start, data);
    R.ThreeAnswers(c, d, erase, EraseThenRead(start, data)[1], Upload);
  }

  // Same variables, same boot loader section, same history, EEPROMs of one size.
  ghost predicate SameButMemories(c: Config, x: Device, y: Device) {
    SameButApplication(c, x.(eeprom := y.eeprom), y) && |x.eeprom| == |y.eeprom| <= 0x1_0000
  }

  /** The exact condition of secrecy: two locked devices that differ in the application and the EEPROM
      answer every sequence of requests alike if and only if their EEPROMs are equal. */
  lemma SecretIffSameEeprom(c: Config, x: Device, y: Device)
    requires Dfu.Valid(c, x) && Dfu.Valid(c, y) && Locked(x) && SameButMemories(c, x, y)
    ensures (forall qs: seq<Request> :: Answers(c, x, qs) == Answers(c, y, qs)) <==> x.eeprom == y.eeprom
  {
    hide Answers, ValidFlash;
    if x.eeprom == y.eeprom {
      assert x.(eeprom := y.eeprom) == x;
      forall qs: seq<Request>
        ensures Answers(c, x, qs) == Answers(c, y, qs)
      {
        SecureModeKeepsSecret(c, x, y, qs);
      }
    } else {
      var i :| 0 <= i < |x.eeprom| && x.eeprom[i] != y.eeprom[i];
      OneByteTells(c, x, y, i);
    }
  }

  lemma OneByteTells(c: Config, x: Device, y: Device, i: nat)
    requires Dfu.Valid(c, x) && Dfu.Valid(c, y) && Locked(x) && Locked(y)
    requires |x.eeprom| == |y.eeprom| <= 0x1_0000 && i < |x.eeprom| && x.eeprom[i] != y.eeprom[i]
    ensures Answers(c, x, EraseThenRead(i, [0])) != Answers(c, y, EraseThenRead(i, [0]))
  {
    hide Answers, ValidFlash, EraseThenRead;
    EepromIsRead(c, x, i, [0]);
    EepromIsRead(c, y, i, [0]);
    assert x.eeprom[i..i + 1][0] != y.eeprom[i..i + 1][0];
    assert Answers(c, x, EraseThenRead(i, [0]))[2].bytes != Answers(c, y, EraseThenRead(i, [0]))[2].bytes;
  }

  // ---- The end of secure mode ----

  /** The invariant is kept by every request, and the request that ends secure mode leaves the whole
      application section blank. */
  lemma SecureModeEndsErased(c: Config, d: Device, q: Request)
    requires Dfu.Valid(c, d) && SecureInvariant(d)
    ensures SecureInvariant(Step(c, d, q))
    ensures d.isSecure && !Step(c, d, q).isSecure
            ==> forall i :: 0 <= i < c.bootStart ==> Step(c, d, q).flash.mem[i] == 0xFF
  {
    hide Step;
    if d.isSecure {
      LockedStep(c, d, d, q);
    } else {
      NeverSecureAgain(c, d, q);
    }
  }

  // ---- What is refused ----

  /** Which requests stall: on an open device none, and on a locked one exactly those with a command that
      is neither an identification read nor the chip erase, which then leave an error with status 3. */
  lemma RefusedIff(c: Config, d: Device, payload: seq<byte>)
    requires Dfu.Valid(c, d) && SecureInvariant(d)
    ensures var q := Dnload(payload);
            var stalled := Answer(c, d, q).stalled;
            && (!d.isSecure ==> !stalled)
            && (d.isSecure && payload == [] ==> !stalled)
            && (d.isSecure && payload != [] ==>
                  var data := LoadCommand(d, payload).data;
                  (stalled <==> payload[0] != 5 && !(payload[0] == 4 && data[0] == 0 && data[1] == 0xFF)))
            && (stalled ==> Step(c, d, q) == LoadCommand(d, payload).(state := Error, status := 3))
  {
    hide ProcessCommand, ValidFlash, RangeLength;
    if !d.isSecure {
      NoStall(c, d, payload);
    } else if payload != [] {
      LockedCases(c, LoadCommand(d, payload), AfterCommand(payload));
    }
  }

  /** A pending command that is forbidden stalls the request that wakes it, too. */
  lemma PendingRefused(c: Config, d: Device, payload: seq<byte>)
    requires Dfu.Valid(c, d) && d.isSecure && d.waitForExit
    requires d.command != 5 && !(d.command == 4 && d.data[0] == 0 && d.data[1] == 0xFF)
    ensures Answer(c, d, Dnload(payload)).stalled
  {
    hide Woken, ValidFlash;
  }
}
