/** What the host reads about the device itself: identification bytes, states and numbers. */
module DfuIdentity {
  import opened Bytes
  import opened Flash
  import opened Dfu
  import opened DfuErase

  // The byte that an identification read finds, or nothing for a bad address.
  ghost predicate Finds(d: Device, kind: byte, index: byte, value: Option<byte>)
    requires |d.signature| == 3
  {
    && (kind == 0 && index == 0 ==> value == Some(0x20))
    && (kind == 0 && index == 1 ==> value == Some(0xDC))
    && (kind == 0 && index == 2 ==> value == Some(0xFB))
    && (kind == 0 && index > 2 ==> value == None)
    && (kind == 1 && index == 0x30 ==> value == Some(0x58))
    && (kind == 1 && index == 0x31 ==> value == Some(d.signature[0]))
    && (kind == 1 && index == 0x60 ==> value == Some(d.signature[1]))
    && (kind == 1 && index == 0x61 ==> value == Some(d.signature[2]))
    && (kind == 1 && index !in {0x30, 0x31, 0x60, 0x61} ==> value == None)
  }

  // The request for identification byte `index` of table `kind`.
  function ReadRequest(kind: byte, index: byte, rest: seq<byte>): seq<byte> {
    [0x05, kind, index] + rest
  }

  lemma ReadCommand(c: Config, d: Device, kind: byte, index: byte, dataSize: nat)
    requires Dfu.Valid(c, d) && d.command == 0x05 && d.data[0] == kind && d.data[1] == index && kind <= 1
    ensures exists value ::
              && Finds(d, kind, index, value)
              && ProcessCommand(c, d, dataSize) ==
                 match value
                 case Some(v) => d.(response := v)
                 case None => d.(state := Error, status := ERR_ADDRESS)
  {
    hide ValidFlash;
    var value := match Identify(d.data, d.signature) case Known(v) => Some(v) case _ => None;
    assert Finds(d, kind, index, value);
  }

  /** Identification, on open and secure devices alike: the read command and an upload return the byte
      of the table, and a bad address is an error that the status request reports. */
  lemma Identification(c: Config, d: Device, kind: byte, index: byte, rest: seq<byte>)
    requires Dfu.Valid(c, d) && !d.waitForExit && (d.state.Idle? || d.state.DnloadIdle?) && kind <= 1 && |rest| <= 3
    ensures var q := Dnload(ReadRequest(kind, index, rest));
            exists value ::
              && Finds(d, kind, index, value)
              && (value.Some? ==> Answers(c, d, [q, Upload]) == [Reply([], false), Reply([value.value], false)])
              && (value.None? ==>
                    Answers(c, d, [q, GetStatus]) == [Reply([], false), Reply([8, 0, 0, 0, 10, 0], false)])
  {
    hide ProcessCommand, ValidFlash;
    var payload := ReadRequest(kind, index, rest);
    var q, l := Dnload(payload), LoadCommand(d, payload);
    assert l.data[0] == kind && l.data[1] == index && l.command == 0x05;
    ReadCommand(c, l, kind, index, AfterCommand(payload));
    var value :| Finds(l, kind, index, value)
              && ProcessCommand(c, l, AfterCommand(payload)) ==
                 match value
                 case Some(v) => l.(response := v)
                 case None => l.(state := Error, status := ERR_ADDRESS);
    assert Finds(d, kind, index, value);
    var r := Step(c, d, q);
    assert Answer(c, d, q) == Reply([], false);
    TwoAnswers(c, d, q, Upload);
    TwoAnswers(c, d, q, GetStatus);
  }

  lemma TwoAnswers(c: Config, d: Device, p: Request, q: Request)
    requires Dfu.Valid(c, d)
    ensures Answers(c, d, [p, q]) == [Answer(c, d, p), Answer(c, Step(c, d, p), q)]
  {
    hide Step, Answer, Dfu.Valid;
    var d1 := Step(c, d, p);
    assert [p, q][1..] == [q] && [q][1..] == [];
    assert Answers(c, d1, [q]) == [Answer(c, d1, q)];
  }

  /** The numbers of the states, as the class specification gives them, in both requests that report
      them; the poll time and the string index are zero. */
  lemma StateNumbers(c: Config, d: Device)
    requires Dfu.Valid(c, d)
    ensures var n: byte := if d.state.Idle? then 2 else if d.state.DnloadIdle? then 5 else if d.state.UploadIdle? then 9
                           else 10;
            && Answer(c, d, GetState) == Reply([n], false)
            && Answer(c, d, GetStatus) == Reply([d.status, 0, 0, 0, n, 0], false)
            && Step(c, d, GetState) == Step(c, d, GetStatus) == d
  {
    hide ValidFlash;
  }

  /** The three ways to fail and their numbers: a command that secure mode forbids, a blank check that
      finds a byte, and a bad address. */
  lemma StatusNumbers(c: Config, d: Device, dataSize: nat)
    requires Dfu.Valid(c, d) && !d.state.Error?
    ensures var r := ProcessCommand(c, d, dataSize);
            && (r.state.Error? ==> r.status == if !Allowed(d) then 3 else if d.command == 0x03 then 5 else 8)
            && (!r.state.Error? ==> r.status == d.status)
  {
    hide EraseFrom, ErasePage, FirstNonBlank, FlashByte, ValidFlash;
  }
}
