/** Serial side, watchdog and reply engine together: how long the console can still be told about
    the last accepted packet, whatever the interleaving of bytes, requests and packets.
 */
module Staleness {
  import opened Bytes
  import opened Crc
  import opened Report
  import opened Device
  import opened Response

  datatype System = System(device: State, slot: Slot)

  datatype Event = Rx(b: byte) | Out(data: seq<byte>, size: nat, lowMemory: byte) | In

  ghost predicate ValidEvent(e: Event) {
    e.Out? ==> |e.data| == EPSIZE && FitsPacket(e.data, e.size)
  }

  ghost predicate ValidRun(es: seq<Event>) {
    forall i :: 0 <= i < |es| ==> ValidEvent(es[i])
  }

  // The memory image of the selected report.
  function Image(s: State): (r: seq<byte>)
    requires Valid(s)
    ensures |r| == REPORT_SIZE
  {
    hide Populate;
    Encode(SelectedReport(s))
  }

  function Asked(s: State, e: Event): (r: Option<Reply>)
    requires Valid(s) && ValidEvent(e) && e.Out?
    ensures r.Some? ==> WellFormed(r.value)
  {
    hide WellFormed, ReplyTo, Image;
    ReplyWellFormed(e.data, e.size, Image(s), e.lowMemory);
    ReplyTo(e.data, e.size, Image(s), e.lowMemory)
  }

  function Step(x: System, e: Event): (r: System)
    requires Valid(x.device) && ValidEvent(e)
    ensures Valid(r.device)
  {
    hide Receive, Asked, Image, Prepare, ValidEvent;
    match e
    case Rx(b) => x.(device := Receive(x.device, b).state)
    case Out(_, _, _) =>
      var r := Asked(x.device, e);
      if r.Some? then x.(slot := Prepare(x.slot, r.value)) else x
    case In =>
      var d := BeforeSend(x.device);
      System(d, AfterSend(x.slot, Image(d)))
  }

  function After(x: System, es: seq<Event>): (r: System)
    requires Valid(x.device) && ValidRun(es)
    ensures Valid(r.device)
  {
    hide Step, ValidEvent;
    if es == [] then x else Step(After(x, es[..|es| - 1]), es[|es| - 1])
  }

  // The packet that the console receives at event i.
  function PacketAt(x: System, es: seq<Event>, i: nat): seq<byte>
    requires Valid(x.device) && ValidRun(es) && i < |es| && es[i].In?
  {
    var before := After(x, es[..i]);
    Sent(before.slot, Image(BeforeSend(before.device)))
  }

  ghost predicate NoAccept(x: System, es: seq<Event>)
    requires Valid(x.device) && ValidRun(es)
  {
    forall i :: 0 <= i < |es| && es[i].Rx? ==> !Accepts(After(x, es[..i]).device, es[i].b)
  }

  // How many packets are sent while synchronised, before position i.
  function SyncedSends(x: System, es: seq<Event>, i: nat): nat
    requires Valid(x.device) && ValidRun(es) && i <= |es|
  {
    if i == 0 then 0
    else SyncedSends(x, es, i - 1) + (if es[i - 1].In? && After(x, es[..i - 1]).device.sync.Synced? then 1 else 0)
  }

  // ---- Systems that differ only in what the last accepted packet said ----

  ghost predicate Twins(x: System, y: System) {
    && x.device.(controller := y.device.controller) == y.device
    && x.slot.ready == y.slot.ready && x.slot.counter == y.slot.counter
  }

  // Nothing of that packet is selected or waiting any more.
  ghost predicate Forgotten(x: System, y: System) {
    && Twins(x, y)
    && x.device.millis >= MILLIS_UNTIL_PAUSE && x.device.selected.Idle?
    && (x.slot.ready ==> x.slot.buffer == y.slot.buffer)
  }

  lemma ReceiveTwins(s: State, t: State, b: byte)
    requires Valid(s) && Valid(t) && s.(controller := t.controller) == t && !Accepts(s, b)
    ensures var s', t' := Receive(s, b).state, Receive(t, b).state;
            s'.(controller := t'.controller) == t' && s'.millis == s.millis && s'.selected == s.selected
  {
    hide Crc8, Accepted;
    match s.sync
    case Synced => SyncedTwins(s, t, b);
    case SyncStart =>
    case Sync1 =>
    case OutOfSync =>
  }

  lemma SyncedTwins(s: State, t: State, b: byte)
    requires Valid(s) && Valid(t) && s.(controller := t.controller) == t && !Accepts(s, b) && s.sync.Synced?
    ensures var s', t' := Receive(s, b).state, Receive(t, b).state;
            s'.(controller := t'.controller) == t' && s'.millis == s.millis && s'.selected == s.selected
  {
    hide Crc8, Accepted;
    assert s.buffer == t.buffer && t.sync.Synced?;
  }

  lemma SendTwins(s: State, t: State)
    requires Valid(s) && Valid(t) && s.(controller := t.controller) == t
    ensures var s', t' := BeforeSend(s), BeforeSend(t);
            && s'.(controller := t'.controller) == t'
            && (s.millis >= MILLIS_UNTIL_PAUSE ==> s'.selected.Idle? && Image(s') == Image(t'))
            && s'.millis >= s.millis
  {
    hide IdleReport, Encode;
  }

  // The shape of a reply does not depend on the report.
  lemma AskedTwins(s: State, t: State, e: Event)
    requires Valid(s) && Valid(t) && s.(controller := t.controller) == t && ValidEvent(e) && e.Out?
    ensures var r, q := Asked(s, e), Asked(t, e);
            && (r.Some? <==> q.Some?)
            && (r.Some? ==> (Counted(r.value) <==> Counted(q.value)))
            && (s.selected.Idle? ==> r == q)
  {
    hide Image, SpiData, DeviceInfo;
    if s.selected.Idle? {
      assert Image(s) == Image(t) by { IdleImage(s, t); }
    }
  }

  lemma IdleImage(s: State, t: State)
    requires Valid(s) && Valid(t) && s.(controller := t.controller) == t && s.selected.Idle?
    ensures Image(s) == Image(t)
  {
    hide Encode;
  }

  lemma StepTwins(x: System, y: System, e: Event)
    requires Valid(x.device) && Valid(y.device) && ValidEvent(e) && Twins(x, y)
    requires e.Rx? ==> !Accepts(x.device, e.b)
    ensures Twins(Step(x, e), Step(y, e))
    ensures Step(x, e).device.millis >= x.device.millis
    ensures e.In? && x.device.millis >= MILLIS_UNTIL_PAUSE ==> Forgotten(Step(x, e), Step(y, e))
  {
    hide Receive, BeforeSend, Image, Render, Asked, Accepts, ValidEvent, WellFormed;
    match e
    case Rx(b) => ReceiveTwins(x.device, y.device, b);
    case Out(_, _, _) => AskedTwins(x.device, y.device, e);
    case In => SendTwins(x.device, y.device);
  }

  lemma StepForgotten(x: System, y: System, e: Event)
    requires Valid(x.device) && Valid(y.device) && ValidEvent(e) && Forgotten(x, y)
    requires e.Rx? ==> !Accepts(x.device, e.b)
    ensures Forgotten(Step(x, e), Step(y, e))
  {
    hide Receive, BeforeSend, Image, Render, Asked, Accepts, ValidEvent, WellFormed;
    match e
    case Rx(b) => ReceiveTwins(x.device, y.device, b);
    case Out(_, _, _) => AskedTwins(x.device, y.device, e);
    case In => SendTwins(x.device, y.device);
  }

  // A synchronised packet advances the timer.
  lemma SendAdvances(x: System, n: nat)
    requires Valid(x.device) && x.device.sync.Synced? && x.device.millis >= TimerFloor(n)
    ensures Step(x, In).device.millis >= TimerFloor(n + 1)
  {
    hide AfterSend, Image;
  }

  // The least timer value after n synchronised packets.
  function TimerFloor(n: nat): nat {
    if n < 15 then 8 * n else MILLIS_UNTIL_PAUSE
  }

  lemma {:induction false} TwinRuns(x: System, y: System, es: seq<Event>, i: nat)
    requires Valid(x.device) && Valid(y.device) && ValidRun(es) && i <= |es|
    requires Twins(x, y) && NoAccept(x, es)
    ensures var a, b, n := After(x, es[..i]), After(y, es[..i]), SyncedSends(x, es, i);
            && Twins(a, b) && a.device.millis >= TimerFloor(n)
            && (n >= 16 ==> Forgotten(a, b))
  {
    hide Step, ValidEvent, Accepts, Valid, Twins, Forgotten;
    if i == 0 {
      assert es[..0] == [];
    } else {
      TwinRuns(x, y, es, i - 1);
      assert es[..i][..i - 1] == es[..i - 1];
      var a, b, e, n := After(x, es[..i - 1]), After(y, es[..i - 1]), es[i - 1], SyncedSends(x, es, i - 1);
      StepTwins(a, b, e);
      if n >= 16 {
        StepForgotten(a, b, e);
      }
      if e.In? && a.device.sync.Synced? {
        SendAdvances(a, n);
      }
    }
  }

  /** Bounded staleness: in every run without another accepted frame, once 16 packets have been
      sent while synchronised, no later packet depends on what the last accepted frame said, even
      though replies to earlier requests were waiting with a copy of it. */
  lemma StaleForSixteenPackets(x: System, y: System, es: seq<Event>, i: nat)
    requires Valid(x.device) && Valid(y.device) && ValidRun(es) && i < |es| && es[i].In?
    requires Twins(x, y) && NoAccept(x, es) && SyncedSends(x, es, i) >= 16
    ensures PacketAt(x, es, i) == PacketAt(y, es, i)
  {
    hide Step, Image, BeforeSend, Render, After, SyncedSends, NoAccept, ValidEvent;
    TwinRuns(x, y, es, i);
    SendTwins(After(x, es[..i]).device, After(y, es[..i]).device);
  }

  // ---- The bound is exact ----

  function Ins(n: nat): (es: seq<Event>)
    ensures |es| == n && forall i :: 0 <= i < n ==> es[i] == In
  {
    seq(n, _ => In)
  }

  // The console asks for the standard report.
  function Question(lowMemory: byte): Event {
    Out([0x80, 0x04] + Repeat(0, EPSIZE - 2), EPSIZE, lowMemory)
  }

  // A device that has just accepted a frame, with no reply waiting.
  ghost predicate Fresh(x: System) {
    && Valid(x.device) && x.device.sync.Synced? && x.device.millis == 0 && x.device.selected.Controller?
    && !x.slot.ready
  }

  // n packets after an accepted frame.
  lemma {:induction false} AfterIns(x: System, es: seq<Event>, n: nat)
    requires Fresh(x) && n <= 15 && ValidRun(es) && n <= |es| && es[..n] == Ins(n)
    ensures var a := After(x, es[..n]);
            a.device == x.device.(millis := 8 * n) && !a.slot.ready && SyncedSends(x, es, n) == n
  {
    hide ValidEvent, ValidRun, Step, After, SyncedSends, Valid;
    if n == 0 {
      NoEvents(x, es);
    } else {
      assert es[..n - 1] == Ins(n - 1) && es[n - 1] == In;
      AfterIns(x, es, n - 1);
      Unfold(x, es, n - 1);
      InAdvances(x, After(x, es[..n - 1]), n - 1);
    }
  }

  lemma InAdvances(x: System, a: System, n: nat)
    requires Fresh(x) && n < 15 && a.device == x.device.(millis := 8 * n) && Valid(a.device)
    ensures var b := Step(a, In); b.device == x.device.(millis := 8 * (n + 1)) && !b.slot.ready
  {
    hide Image, Prepare;
  }

  lemma NoEvents(x: System, es: seq<Event>)
    requires Valid(x.device) && ValidRun(es)
    ensures ValidRun(es[..0]) && After(x, es[..0]) == x && SyncedSends(x, es, 0) == 0
  {
    hide ValidEvent;
    assert es[..0] == [];
  }

  // One more event of a run.
  lemma Unfold(x: System, es: seq<Event>, i: nat)
    requires Valid(x.device) && ValidRun(es) && i < |es|
    ensures ValidEvent(es[i]) && ValidRun(es[..i]) && ValidRun(es[..i + 1])
    ensures var a := After(x, es[..i]);
            && After(x, es[..i + 1]) == Step(a, es[i])
            && SyncedSends(x, es, i + 1) ==
               SyncedSends(x, es, i) + if es[i].In? && a.device.sync.Synced? then 1 else 0
  {
    hide Step, ValidEvent;
    assert es[..i + 1][..i] == es[..i];
  }

  lemma QuestionAsks(s: State, lowMemory: byte)
    requires Valid(s)
    ensures ValidEvent(Question(lowMemory)) && Asked(s, Question(lowMemory)) == Some(Standard(Image(s)))
  {
    hide Image;
  }

  lemma RendersReport(r: seq<byte>, counter: byte)
    requires |r| == REPORT_SIZE
    ensures Render(Standard(r), counter)[2..13] == r
  {
  }

  /** Sixteen is the least such bound: fifteen packets after a frame was accepted, a reply asked for
      then still tells it from any frame with another report. */
  lemma FifteenPacketsAreNotEnough(x: System, y: System, lowMemory: byte)
    requires Fresh(x) && Valid(y.device) && Twins(x, y) && Image(x.device) != Image(y.device)
    ensures var es := Ins(15) + [Question(lowMemory), In];
            && ValidRun(es) && NoAccept(x, es) && SyncedSends(x, es, 16) == 15
            && PacketAt(x, es, 16) != PacketAt(y, es, 16)
  {
    hide Image, Asked, Render, ValidEvent, BeforeSend, After, SyncedSends, PacketAt, Question;
    var es := Ins(15) + [Question(lowMemory), In];
    QuestionAsks(x.device, lowMemory);
    assert ValidEvent(In) by { InValid(); }
    QuestionIsOut(lowMemory);
    assert ValidRun(es);
    LateReply(x, es, lowMemory);
    LateReply(y, es, lowMemory);
  }

  lemma InValid()
    ensures ValidEvent(In)
  {
  }

  // The sixteenth packet is a reply that was prepared from the frame.
  lemma LateReply(x: System, es: seq<Event>, lowMemory: byte)
    requires Fresh(x) && es == Ins(15) + [Question(lowMemory), In] && ValidRun(es)
    ensures SyncedSends(x, es, 16) == 15
    ensures var p := PacketAt(x, es, 16); |p| == EPSIZE && p[2..13] == Image(x.device)
  {
    hide Image, Asked, Render, ValidEvent, BeforeSend, ValidRun, Question, After, SyncedSends;
    assert es[..15] == Ins(15) && es[15] == Question(lowMemory);
    AfterIns(x, es, 15);
    Unfold(x, es, 15);
    var a := After(x, es[..15]);
    QuestionAsks(a.device, lowMemory);
    TimerUnseen(x.device, a.device);
    RendersReport(Image(x.device), (a.slot.counter + COUNTER_INCREMENT) % 256);
    QuestionIsOut(lowMemory);
  }

  lemma QuestionIsOut(lowMemory: byte)
    ensures Question(lowMemory).Out?
  {
  }

  lemma TimerUnseen(s: State, t: State)
    requires Valid(s) && Valid(t) && t == s.(millis := t.millis)
    ensures Image(s) == Image(t)
  {
    hide Encode, IdleReport;
  }
}
