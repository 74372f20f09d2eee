/** How the DFU loader is left, and how an error is. */
module DfuExit {
  import opened Bytes
  import opened Flash
  import opened Dfu
  import opened DfuErase

  // ---- Leaving the loader ----

  // The command is a start by a jump without data, and the reset vector is blank.
  predicate JumpsToBlank(c: Config, d: Device, dataSize: nat)
    requires |d.data| == 5
  {
    && Allowed(d) && d.command == COMMAND_WRITE && d.data[0] == 3 && d.data[1] != 0 && dataSize == 0
    && FlashByte(c, d.flash, 0) == 0xFF && FlashByte(c, d.flash, 1) == 0xFF
  }

  lemma CommandExitsIff(c: Config, d: Device, dataSize: nat)
    requires Dfu.Valid(c, d)
    ensures ProcessCommand(c, d, dataSize).running <==> d.running && !JumpsToBlank(c, d, dataSize)
  {
    hide EraseFrom, ErasePage, FirstNonBlank, FlashByte, ValidFlash;
  }

  /** The exit flag drops in exactly those requests in which a start by jump is processed, pending or
      own, while the reset vector is blank: an application that could run is never started so. */
  lemma ExitsIff(c: Config, d: Device, q: Request)
    requires Dfu.Valid(c, d) && d.running
    ensures !Step(c, d, q).running <==>
            && q.Dnload?
            && (|| (d.waitForExit && JumpsToBlank(c, d, |q.payload|))
                || (q.payload != [] &&
                    JumpsToBlank(c, LoadCommand(Woken(c, d, q.payload), q.payload), AfterCommand(q.payload))))
  {
    hide ProcessCommand, Download, JumpsToBlank, ValidFlash, RangeLength;
    if q.Dnload? {
      CommandExitsIff(c, d, |q.payload|);
      if q.payload != [] {
        CommandExitsIff(c, LoadCommand(Woken(c, d, q.payload), q.payload), AfterCommand(q.payload));
      }
      DownloadKeepsMode(c, Commands(c, d, q.payload), Skip(FirstPacket(q.payload), 6));
    }
  }

  /** A start by jump that does nothing: an application is there, and the loader goes on running. */
  lemma ApplicationNotStarted(c: Config, d: Device)
    requires Dfu.Valid(c, d) && d.running && !d.isSecure && !d.waitForExit
    ensures |d.flash.mem| >= 2
    ensures !Step(c, d, Dnload([COMMAND_WRITE, 3, 1])).running <==> d.flash.mem[0] == d.flash.mem[1] == 0xFF
  {
    assert FlashByte(c, d.flash, 0) == d.flash.mem[0] && FlashByte(c, d.flash, 1) == d.flash.mem[1];
    hide Step, FlashByte, ValidFlash;
    var payload: seq<byte> := [COMMAND_WRITE, 3, 1];
    ExitsIff(c, d, Dnload(payload));
    assert Woken(c, d, payload) == d;
    assert LoadCommand(d, payload).data[..2] == [3, 1];
  }

  // ---- Raising and leaving an error ----

  // The command opens a transfer.
  predicate Opens(d: Device)
    requires |d.data| == 5
  {
    && Allowed(d)
    && (|| (d.command == COMMAND_PROG_START && d.data[0] <= 1)
        || (d.command == COMMAND_DISP_DATA && (d.data[0] == 0 || d.data[0] == 2)))
  }

  // The command fails: refused in secure mode, a blank check that finds a byte, or a bad address.
  predicate Fails(c: Config, d: Device)
    requires Dfu.Valid(c, d)
  {
    || !Allowed(d)
    || (d.command == COMMAND_DISP_DATA && d.data[0] == 1 && FirstNonBlank(c, d.flash, 0) < c.bootStart)
    || (d.command == COMMAND_READ && Identify(d.data, d.signature).BadAddress?)
  }

  datatype Effect = Raised | Left | Kept

  function CommandEffect(c: Config, d: Device): Effect
    requires Dfu.Valid(c, d)
  {
    hide FirstNonBlank, Identify;
    if Fails(c, d) then Raised else if Opens(d) then Left else Kept
  }

  /** What a request does to the error state: of a download request the last command that decides it,
      pending or own, and an abort always leaves it. */
  function EffectOf(c: Config, d: Device, q: Request): Effect
    requires Dfu.Valid(c, d)
  {
    hide CommandEffect, Woken;
    match q
    case Dnload(payload) =>
      var own := if payload == [] then Kept else CommandEffect(c, LoadCommand(Woken(c, d, payload), payload));
      if own.Kept? && d.waitForExit then CommandEffect(c, d) else own
    case Abort => Left
    case _ => Kept
  }

  // The error state after an effect.
  predicate Then(e: Effect, error: bool) {
    e.Raised? || (e.Kept? && error)
  }

  lemma CommandErrorIff(c: Config, d: Device, dataSize: nat)
    requires Dfu.Valid(c, d)
    ensures ProcessCommand(c, d, dataSize).state.Error? <==> Then(CommandEffect(c, d), d.state.Error?)
  {
    hide EraseFrom, ErasePage, FirstNonBlank, Identify, FlashByte, ValidFlash;
  }

  lemma CommandsErrorIff(c: Config, d: Device, payload: seq<byte>)
    requires Dfu.Valid(c, d)
    ensures Commands(c, d, payload).state.Error? <==> Then(EffectOf(c, d, Dnload(payload)), d.state.Error?)
  {
    hide ProcessCommand, CommandEffect, ValidFlash;
    CommandErrorIff(c, d, |payload|);
    if payload != [] {
      CommandErrorIff(c, LoadCommand(Woken(c, d, payload), payload), AfterCommand(payload));
    }
  }

  lemma DownloadKeepsState(c: Config, d: Device, ep: Endpoint)
    requires Dfu.Valid(c, d)
    ensures Download(c, d, ep).state == d.state
  {
    hide Discard, ProgramWords, ProgramEeprom, ValidFlash, RangeLength;
    EepromKeeps(d, Discard(Discard(ep, FILLER), d.start % PACKET), RangeLength(d.start, d.end));
  }

  /** One request: the device is in the error state behind it exactly as its effect says. */
  lemma ErrorIff(c: Config, d: Device, q: Request)
    requires Dfu.Valid(c, d)
    ensures Step(c, d, q).state.Error? <==> Then(EffectOf(c, d, q), d.state.Error?)
  {
    hide Commands, Download, CommandEffect, Woken, ValidFlash, RangeLength;
    if q.Dnload? {
      CommandsErrorIff(c, d, q.payload);
      DownloadKeepsState(c, Commands(c, d, q.payload), Skip(FirstPacket(q.payload), 6));
    }
  }

  // The effect of request i of a run.
  function EffectAt(c: Config, d: Device, qs: seq<Request>, i: nat): Effect
    requires Dfu.Valid(c, d) && i < |qs|
  {
    hide After, EffectOf;
    EffectOf(c, After(c, d, qs[..i]), qs[i])
  }

  // Request i raises an error and none behind it leaves or raises one.
  ghost predicate LastRaised(c: Config, d: Device, qs: seq<Request>, i: nat)
    requires Dfu.Valid(c, d) && i < |qs|
  {
    EffectAt(c, d, qs, i).Raised? && forall j :: i < j < |qs| ==> EffectAt(c, d, qs, j).Kept?
  }

  lemma {:induction false} AfterLast(c: Config, d: Device, qs: seq<Request>)
    requires Dfu.Valid(c, d) && qs != []
    ensures After(c, d, qs) == Step(c, After(c, d, qs[..|qs| - 1]), qs[|qs| - 1])
    decreases |qs|
  {
    hide Step, Dfu.Valid;
    var last := |qs| - 1;
    if last > 0 {
      AfterLast(c, Step(c, d, qs[0]), qs[1..]);
      assert qs[1..][..last - 1] == qs[..last][1..] && qs[1..][last - 1] == qs[last];
    } else {
      assert qs[1..] == [] && qs[..0] == [];
    }
  }

  // Effects do not depend on what comes later.
  lemma EffectPrefix(c: Config, d: Device, qs: seq<Request>, n: nat, i: nat)
    requires Dfu.Valid(c, d) && i < n <= |qs|
    ensures EffectAt(c, d, qs[..n], i) == EffectAt(c, d, qs, i)
  {
    hide After, EffectOf;
    assert qs[..n][..i] == qs[..i];
  }

  /** Over every sequence of requests: the device ends in the error state if and only if the last
      request that decides it raised an error, or none did and it began in one. */
  lemma {:induction false} ErrorOverRuns(c: Config, d: Device, qs: seq<Request>)
    requires Dfu.Valid(c, d)
    ensures After(c, d, qs).state.Error? <==>
            || (exists i :: 0 <= i < |qs| && LastRaised(c, d, qs, i))
            || (d.state.Error? && forall j :: 0 <= j < |qs| ==> EffectAt(c, d, qs, j).Kept?)
    decreases |qs|
  {
    hide After, EffectAt, Dfu.Valid, Step;
    if qs == [] {
      NothingAsked(c, d);
    } else {
      var n := |qs| - 1;
      var init := qs[..n];
      ErrorOverRuns(c, d, init);
      forall j | 0 <= j < n
        ensures EffectAt(c, d, init, j) == EffectAt(c, d, qs, j)
      {
        EffectPrefix(c, d, qs, n, j);
      }
      LastEffect(c, d, qs);
      match EffectAt(c, d, qs, n)
      case Raised => assert LastRaised(c, d, qs, n);
      case Left =>
      case Kept => KeptAtEnd(c, d, qs, init);
    }
  }

  lemma NothingAsked(c: Config, d: Device)
    requires Dfu.Valid(c, d)
    ensures After(c, d, []) == d
  {
  }

  lemma LastEffect(c: Config, d: Device, qs: seq<Request>)
    requires Dfu.Valid(c, d) && qs != []
    ensures After(c, d, qs).state.Error? <==>
            Then(EffectAt(c, d, qs, |qs| - 1), After(c, d, qs[..|qs| - 1]).state.Error?)
  {
    hide After, Step, EffectOf, ValidFlash;
    AfterLast(c, d, qs);
    ErrorIff(c, After(c, d, qs[..|qs| - 1]), qs[|qs| - 1]);
  }

  // A last request that decides nothing leaves the decision to the others.
  lemma KeptAtEnd(c: Config, d: Device, qs: seq<Request>, init: seq<Request>)
    requires Dfu.Valid(c, d) && qs != [] && init == qs[..|qs| - 1] && EffectAt(c, d, qs, |qs| - 1).Kept?
    requires forall j :: 0 <= j < |init| ==> EffectAt(c, d, init, j) == EffectAt(c, d, qs, j)
    ensures (exists i :: 0 <= i < |qs| && LastRaised(c, d, qs, i)) <==>
            exists i :: 0 <= i < |init| && LastRaised(c, d, init, i)
  {
    hide EffectAt, Dfu.Valid;
    forall i | 0 <= i < |init|
      ensures LastRaised(c, d, qs, i) <==> LastRaised(c, d, init, i)
    {
      if LastRaised(c, d, qs, i) {
        assert forall j :: i < j < |init| ==> EffectAt(c, d, init, j).Kept?;
      }
    }
  }

  ghost predicate NoDownload(qs: seq<Request>) {
    forall i :: 0 <= i < |qs| ==> !qs[i].Dnload?
  }

  /** In particular, among requests that are no downloads only an abort leaves an error: clearing the
      status does not clear the state, however often it is asked for. */
  lemma {:induction false} OnlyAbortLeavesError(c: Config, d: Device, qs: seq<Request>)
    requires Dfu.Valid(c, d)
    ensures NoDownload(qs) ==> (After(c, d, qs).state.Error? <==> d.state.Error? && Abort !in qs)
    decreases |qs|
  {
    hide Step, EffectOf, Dfu.Valid, Then;
    if qs != [] && NoDownload(qs) {
      OnlyAbortLeavesError(c, Step(c, d, qs[0]), qs[1..]);
      WithoutDownload(c, d, qs[0]);
      assert qs == [qs[0]] + qs[1..];
    }
  }

  lemma WithoutDownload(c: Config, d: Device, q: Request)
    requires Dfu.Valid(c, d) && !q.Dnload?
    ensures Step(c, d, q).state.Error? <==> d.state.Error? && q != Abort
  {
    hide Step, ValidFlash;
    ErrorIff(c, d, q);
  }

  /** The host sees it: after an error and a CLRSTATUS, the status is good and the state still says error. */
  lemma ClearedButInError(c: Config, d: Device)
    requires Dfu.Valid(c, d) && d.state.Error?
    ensures Answers(c, d, [ClrStatus, GetStatus]) ==
            [Reply([], false), Reply([OK, 0, 0, 0, State.Error.Code(), 0], false)]
  {
    hide ValidFlash;
    var next := Step(c, d, ClrStatus);
    assert [ClrStatus, GetStatus][1..] == [GetStatus] && [GetStatus][1..] == [];
    assert Answers(c, next, [GetStatus]) == [Answer(c, next, GetStatus)];
  }
}
