/** The reply engine over every interleaving of requests and packets, against a reference that
    has no slot and no running counter: only the history of events.
 */
module ReplyRuns {
  import opened Bytes
  import opened Response

  /** An OUT report from the console, or an IN request for a packet. `report` is the memory image
      of the report selected at that moment. */
  datatype Event =
    | Out(data: seq<byte>, size: nat, report: seq<byte>, lowMemory: byte)
    | In(report: seq<byte>)

  ghost predicate ValidEvent(e: Event) {
    && |e.report| == REPORT_SIZE
    && (e.Out? ==> |e.data| == EPSIZE && FitsPacket(e.data, e.size))
  }

  ghost predicate ValidRun(es: seq<Event>) {
    forall i :: 0 <= i < |es| ==> ValidEvent(es[i])
  }

  // ---- The engine ----

  // The reply that an event asks for.
  function Asked(e: Event): (r: Option<Reply>)
    requires ValidEvent(e)
    ensures r.Some? ==> WellFormed(r.value)
  {
    hide WellFormed, ReplyTo;
    match e
    case Out(data, size, report, lowMemory) =>
      ReplyWellFormed(data, size, report, lowMemory);
      ReplyTo(data, size, report, lowMemory)
    case In(_) => None
  }

  function Step(slot: Slot, e: Event): Slot
    requires ValidEvent(e)
  {
    match e
    case Out(_, _, _, _) => if Asked(e).Some? then Prepare(slot, Asked(e).value) else slot
    case In(report) => AfterSend(slot, report)
  }

  function After(es: seq<Event>): Slot
    requires ValidRun(es)
  {
    hide Step, ValidEvent;
    if es == [] then Setup() else Step(After(es[..|es| - 1]), es[|es| - 1])
  }

  // The packet transmitted at event i.
  function PacketAt(es: seq<Event>, i: nat): seq<byte>
    requires ValidRun(es) && i < |es| && es[i].In?
  {
    Sent(After(es[..i]), es[i].report)
  }

  // ---- The reference ----

  // The position just after the last IN before position i, or 0.
  function WindowStart(es: seq<Event>, i: nat): (w: nat)
    requires i <= |es|
    ensures w <= i && (w > 0 ==> es[w - 1].In?) && forall k :: w <= k < i ==> !es[k].In?
  {
    if i == 0 || es[i - 1].In? then i else WindowStart(es, i - 1)
  }

  // The first event of es[lo..hi] that asks for a reply.
  function FirstAsked(es: seq<Event>, lo: nat, hi: nat): (r: Option<Reply>)
    requires ValidRun(es) && lo <= hi <= |es|
    ensures r.Some? ==> WellFormed(r.value)
    decreases hi - lo
  {
    hide ValidEvent, Asked, WellFormed;
    if lo == hi then None
    else if Asked(es[lo]).Some? then Asked(es[lo])
    else FirstAsked(es, lo + 1, hi)
  }

  /** It is the reply that some event asks for and no earlier event of the window asks for any. */
  lemma {:induction false} FirstAskedIsFirst(es: seq<Event>, lo: nat, hi: nat)
    requires ValidRun(es) && lo <= hi <= |es|
    ensures FirstAsked(es, lo, hi).None? ==> forall k :: lo <= k < hi ==> Asked(es[k]).None?
    ensures FirstAsked(es, lo, hi).Some? ==>
              exists k :: lo <= k < hi && Asked(es[k]) == FirstAsked(es, lo, hi)
                          && forall j :: lo <= j < k ==> Asked(es[j]).None?
    decreases hi - lo
  {
    hide ValidEvent, Asked, WellFormed;
    if lo < hi && Asked(es[lo]).None? {
      FirstAskedIsFirst(es, lo + 1, hi);
    }
  }

  // The reply waiting at position i: before the first IN that is the identity reply of the set-up.
  function Waiting(es: seq<Event>, i: nat): (r: Option<Reply>)
    requires ValidRun(es) && i <= |es|
    ensures r.Some? ==> WellFormed(r.value)
  {
    if WindowStart(es, i) == 0 then Some(IdentityReply())
    else FirstAsked(es, WindowStart(es, i), i)
  }

  // The reply that the IN at position i has to carry.
  function Due(es: seq<Event>, i: nat): (r: Reply)
    requires ValidRun(es) && i < |es| && es[i].In?
    ensures WellFormed(r)
  {
    var w := Waiting(es, i);
    if w.Some? then w.value else Standard(es[i].report)
  }

  function One(b: bool): nat {
    if b then 1 else 0
  }

  // How many counter-bearing replies are due before position i.
  function CountedBefore(es: seq<Event>, i: nat): nat
    requires ValidRun(es) && i <= |es|
  {
    if i == 0 then 0
    else CountedBefore(es, i - 1) + One(es[i - 1].In? && Counted(Due(es, i - 1)))
  }

  // ---- The engine refines the reference ----

  // Extending a window by one event keeps its first request or makes the new event the first.
  lemma {:induction false} FirstAskedExtend(es: seq<Event>, lo: nat, hi: nat)
    requires ValidRun(es) && lo <= hi < |es|
    ensures FirstAsked(es, lo, hi + 1) ==
            (if FirstAsked(es, lo, hi).Some? then FirstAsked(es, lo, hi) else Asked(es[hi]))
    decreases hi - lo
  {
    hide Asked, ValidEvent;
    if lo == hi {
      assert FirstAsked(es, hi + 1, hi + 1).None?;
    } else if Asked(es[lo]).None? {
      FirstAskedExtend(es, lo + 1, hi);
    }
  }

  // The slot holds the waiting reply, and the counter has been advanced for it and for all before it.
  ghost predicate SlotHolds(slot: Slot, waiting: Option<Reply>, counted: nat)
    requires waiting.Some? ==> WellFormed(waiting.value)
  {
    && slot.ready == waiting.Some?
    && (waiting.Some? ==> slot.buffer == Render(waiting.value, slot.counter))
    && slot.counter == 3 * (counted + One(waiting.Some? && Counted(waiting.value))) % 256
  }

  lemma PrepareHolds(slot: Slot, waiting: Option<Reply>, counted: nat, r: Reply)
    requires WellFormed(r) && (waiting.Some? ==> WellFormed(waiting.value))
    requires SlotHolds(slot, waiting, counted)
    ensures SlotHolds(Prepare(slot, r), if waiting.Some? then waiting else Some(r), counted)
  {
    hide Render, WellFormed, Counted;
    CounterStep(counted);
  }

  lemma CounterStep(counted: nat)
    ensures (3 * counted % 256 + COUNTER_INCREMENT) % 256 == 3 * (counted + 1) % 256
  {
    ModAdd(256, COUNTER_INCREMENT, 3 * counted);
  }

  lemma SendHolds(slot: Slot, waiting: Option<Reply>, counted: nat, report: seq<byte>)
    requires |report| == REPORT_SIZE && (waiting.Some? ==> WellFormed(waiting.value))
    requires SlotHolds(slot, waiting, counted)
    ensures var due := if waiting.Some? then waiting.value else Standard(report);
            var now := counted + One(Counted(due));
            && Sent(slot, report) == Render(due, 3 * now % 256)
            && SlotHolds(AfterSend(slot, report), None, now)
  {
    hide Render, Prepare;
    PrepareHolds(slot, waiting, counted, Standard(report));
  }

  // How an event changes the waiting reply.
  function NextWaiting(waiting: Option<Reply>, e: Event): Option<Reply>
    requires ValidEvent(e)
  {
    if e.In? then None else if waiting.Some? then waiting else Asked(e)
  }

  lemma WaitingStep(es: seq<Event>, i: nat)
    requires ValidRun(es) && i < |es|
    ensures Waiting(es, i + 1) == NextWaiting(Waiting(es, i), es[i])
  {
    hide Asked, ValidEvent;
    if es[i].In? {
      assert FirstAsked(es, i + 1, i + 1).None?;
    } else {
      FirstAskedExtend(es, WindowStart(es, i), i);
    }
  }

  lemma StepHolds(slot: Slot, waiting: Option<Reply>, counted: nat, e: Event)
    requires ValidEvent(e) && (waiting.Some? ==> WellFormed(waiting.value))
    requires SlotHolds(slot, waiting, counted)
    ensures var due := if waiting.Some? then waiting.value else Standard(e.report);
            SlotHolds(Step(slot, e), NextWaiting(waiting, e), counted + One(e.In? && Counted(due)))
  {
    hide Render, Prepare, SlotHolds, Asked, WellFormed;
    if e.In? {
      SendHolds(slot, waiting, counted, e.report);
    } else if Asked(e).Some? {
      PrepareHolds(slot, waiting, counted, Asked(e).value);
    }
  }

  lemma SetupHolds()
    ensures SlotHolds(Setup(), Some(IdentityReply()), 0)
  {
  }

  lemma {:induction false} SlotInvariant(es: seq<Event>, i: nat)
    requires ValidRun(es) && i <= |es|
    ensures SlotHolds(After(es[..i]), Waiting(es, i), CountedBefore(es, i))
  {
    hide Render, WellFormed, ValidEvent, Asked, SlotHolds, Step, FirstAsked, Counted, Waiting, NextWaiting;
    if i == 0 {
      SetupHolds();
      assert es[..0] == [];
      assert Waiting(es, 0) == Some(IdentityReply()) by { WaitingFirst(es); }
    } else {
      SlotInvariant(es, i - 1);
      assert es[..i][..i - 1] == es[..i - 1];
      StepHolds(After(es[..i - 1]), Waiting(es, i - 1), CountedBefore(es, i - 1), es[i - 1]);
      WaitingStep(es, i - 1);
    }
  }

  lemma WaitingFirst(es: seq<Event>)
    requires ValidRun(es)
    ensures Waiting(es, 0) == Some(IdentityReply())
  {
  }

  /** Refinement: every packet is the reply to the first request since the previous packet, sent
      once and unmodified, or else a fresh standard report; and its counter is determined by how
      many counter-bearing packets went before. */
  lemma SlotRefines(es: seq<Event>, i: nat)
    requires ValidRun(es) && i < |es| && es[i].In?
    ensures PacketAt(es, i) == Render(Due(es, i), 3 * CountedBefore(es, i + 1) % 256)
  {
    hide Render, WellFormed, After, Waiting, Sent;
    SlotInvariant(es, i);
    SendHolds(After(es[..i]), Waiting(es, i), CountedBefore(es, i), es[i].report);
  }

  // ---- The counter ----

  predicate HasCounter(packet: seq<byte>) {
    |packet| > 1 && (packet[0] == 0x21 || packet[0] == 0x30)
  }

  // How many packets with ID 0x21 or 0x30 are transmitted before position i.
  function CountersBefore(es: seq<Event>, i: nat): nat
    requires ValidRun(es) && i <= |es|
  {
    if i == 0 then 0
    else CountersBefore(es, i - 1) + One(es[i - 1].In? && HasCounter(PacketAt(es, i - 1)))
  }

  lemma {:induction false} CountersAgree(es: seq<Event>, i: nat)
    requires ValidRun(es) && i <= |es|
    ensures CountersBefore(es, i) == CountedBefore(es, i)
  {
    hide Render, WellFormed, Due, PacketAt, Counted;
    if i > 0 {
      CountersAgree(es, i - 1);
      if es[i - 1].In? {
        SlotRefines(es, i - 1);
        assert Counted(Due(es, i - 1)) <==> HasCounter(PacketAt(es, i - 1));
      }
    }
  }

  /** The k-th transmitted packet with ID 0x21 or 0x30 carries 3k modulo 256. */
  lemma CounterLaw(es: seq<Event>, i: nat)
    requires ValidRun(es) && i < |es| && es[i].In? && HasCounter(PacketAt(es, i))
    ensures PacketAt(es, i)[1] == 3 * (CountersBefore(es, i) + 1) % 256
  {
    hide Render, WellFormed, Due, PacketAt;
    SlotRefines(es, i);
    CountersAgree(es, i + 1);
  }

  /** Among any 256 consecutive such packets no two share a counter value. */
  lemma CountersDistinct(es: seq<Event>, i: nat, j: nat)
    requires ValidRun(es) && i < j < |es| && es[i].In? && es[j].In?
    requires HasCounter(PacketAt(es, i)) && HasCounter(PacketAt(es, j))
    requires CountersBefore(es, j) - CountersBefore(es, i) < 256
    ensures PacketAt(es, i)[1] != PacketAt(es, j)[1]
  {
    hide PacketAt, CountersBefore;
    CounterLaw(es, i);
    CounterLaw(es, j);
    CountersGrow(es, i, j);
  }

  lemma {:induction false} CountersGrow(es: seq<Event>, i: nat, j: nat)
    requires ValidRun(es) && i < j <= |es| && es[i].In? && HasCounter(PacketAt(es, i))
    ensures CountersBefore(es, i) < CountersBefore(es, j)
  {
    hide PacketAt;
    if i + 1 < j {
      CountersGrow(es, i, j - 1);
    }
  }

  /** The first packet of every run is the 81 01 reply. */
  lemma FirstPacket(es: seq<Event>, i: nat)
    requires ValidRun(es) && i < |es| && es[i].In? && forall k :: 0 <= k < i ==> es[k].Out?
    ensures PacketAt(es, i) == Pad([0x81, 0x01, 0x00, 0x03] + MAC_ADDRESS)
  {
    hide Pad, FirstAsked, PacketAt;
    SlotRefines(es, i);
    assert WindowStart(es, i) == 0;
    assert [0x81, 0x01] + ([0x00, 0x03] + MAC_ADDRESS) == [0x81, 0x01, 0x00, 0x03] + MAC_ADDRESS;
  }
}
