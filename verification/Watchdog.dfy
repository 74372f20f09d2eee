/** The "connection lost" timer over every interleaving of received bytes and reports sent. */
module Watchdog {
  import opened Bytes
  import opened Crc
  import opened Report
  import opened Device

  datatype Event = Rx(b: byte) | Send

  function Step(s: State, e: Event): (r: State)
    requires Valid(s)
    ensures Valid(r)
  {
    hide Receive;
    match e
    case Rx(b) => Receive(s, b).state
    case Send => BeforeSend(s)
  }

  function After(s: State, events: seq<Event>): (r: State)
    requires Valid(s)
    ensures Valid(r)
  {
    hide Step;
    if events == [] then s else Step(After(s, events[..|events| - 1]), events[|events| - 1])
  }

  // What a report selects: the last packet, an empty packet, or the HOME button.
  datatype Selection = LastPacket | Pause | Home

  function SelectionOf(s: State): Selection {
    if s.selected.Controller? then LastPacket else if s.home then Home else Pause
  }

  // The selections made by the reports that are sent while synchronised, in order.
  function Selections(s: State, events: seq<Event>): seq<Selection>
    requires Valid(s)
  {
    hide Step;
    if events == [] then []
    else
      var last := |events| - 1;
      var before := After(s, events[..last]);
      Selections(s, events[..last])
      + (if events[last].Send? && before.sync.Synced? then [SelectionOf(BeforeSend(before))] else [])
  }

  ghost predicate NoAccept(s: State, events: seq<Event>)
    requires Valid(s)
  {
    forall i :: 0 <= i < |events| && events[i].Rx? ==> !Accepts(After(s, events[..i]), events[i].b)
  }

  // 120 ms of the last packet, a pause until 800 ms, 200 ms of HOME, then a pause again.
  function Schedule(n: nat): Selection {
    if n < 15 then LastPacket
    else if n < 100 then Pause
    else if n < 125 then Home
    else Pause
  }

  function TimerAfter(n: nat): nat {
    if 8 * n < 1000 then 8 * n else 1000
  }

  lemma SendSelects(s: State, n: nat)
    requires Valid(s) && s.sync.Synced? && s.millis == TimerAfter(n)
    ensures SelectionOf(BeforeSend(s)) == Schedule(n)
    ensures BeforeSend(s).millis == TimerAfter(n + 1)
  {
  }

  lemma OtherStepsKeepTimer(s: State, e: Event)
    requires Valid(s)
    requires e.Rx? ==> !Accepts(s, e.b)
    requires e.Send? ==> !s.sync.Synced?
    ensures Step(s, e).millis == s.millis
  {
    hide Crc8, Accepted;
  }

  lemma NoAcceptPrefix(s: State, events: seq<Event>, n: nat)
    requires Valid(s) && NoAccept(s, events) && n <= |events|
    ensures NoAccept(s, events[..n])
  {
    hide After, Accepts;
    forall i | 0 <= i < n && events[..n][i].Rx?
      ensures !Accepts(After(s, events[..n][..i]), events[..n][i].b)
    {
      assert events[..n][..i] == events[..i];
    }
  }

  /** After an accepted frame, for every run without another one and under any mix of rejected
      frames, desynchronisations and resynchronisations: the n-th synchronised report selects
      what the schedule says, and the timer counts exactly those reports up to its limit. */
  lemma {:induction false} ScheduleKept(s: State, events: seq<Event>)
    requires Valid(s) && s.millis == 0 && NoAccept(s, events)
    ensures var chosen := Selections(s, events);
            && (forall n :: 0 <= n < |chosen| ==> chosen[n] == Schedule(n))
            && After(s, events).millis == TimerAfter(|chosen|)
  {
    hide Step, Accepts, NoAccept, BeforeSend;
    if events != [] {
      var last := |events| - 1;
      NoAcceptPrefix(s, events, last);
      ScheduleKept(s, events[..last]);
      var before, e := After(s, events[..last]), events[last];
      if e.Send? && before.sync.Synced? {
        SendSelects(before, |Selections(s, events[..last])|);
        assert Step(before, e) == BeforeSend(before) by { StepSend(before); }
      } else {
        if e.Rx? {
          NoAcceptAt(s, events, last);
        }
        OtherStepsKeepTimer(before, e);
      }
    }
  }

  lemma StepSend(s: State)
    requires Valid(s)
    ensures Step(s, Send) == BeforeSend(s)
  {
  }

  lemma NoAcceptAt(s: State, events: seq<Event>, i: nat)
    requires Valid(s) && NoAccept(s, events) && i < |events| && events[i].Rx?
    ensures !Accepts(After(s, events[..i]), events[i].b)
  {
  }

  function Count(chosen: seq<Selection>, c: Selection): nat {
    if chosen == [] then 0
    else Count(chosen[..|chosen| - 1], c) + (if chosen[|chosen| - 1] == c then 1 else 0)
  }

  lemma {:induction false} ScheduleCounts(chosen: seq<Selection>)
    requires forall n :: 0 <= n < |chosen| ==> chosen[n] == Schedule(n)
    ensures Count(chosen, LastPacket) == if |chosen| < 15 then |chosen| else 15
    ensures Count(chosen, Home) == if |chosen| < 100 then 0 else if |chosen| < 125 then |chosen| - 100 else 25
  {
    if chosen != [] {
      ScheduleCounts(chosen[..|chosen| - 1]);
    }
  }

  /** So one accepted frame is replayed at most 15 times and HOME is pressed for at most 25 reports. */
  lemma AtMostFifteenAndTwentyFive(s: State, events: seq<Event>)
    requires Valid(s) && s.millis == 0 && NoAccept(s, events)
    ensures Count(Selections(s, events), LastPacket) <= 15
    ensures Count(Selections(s, events), Home) <= 25
  {
    hide Selections, After, NoAccept;
    ScheduleKept(s, events);
    ScheduleCounts(Selections(s, events));
  }

  // ---- Whole runs, with any number of accepted frames ----

  // How many reports were sent while synchronised since the last accepted frame, or since the start.
  function SinceAccept(s: State, events: seq<Event>): nat
    requires Valid(s)
  {
    hide Step, Accepts;
    if events == [] then 0
    else
      var last := |events| - 1;
      var before, sent := After(s, events[..last]), SinceAccept(s, events[..last]);
      match events[last]
      case Rx(b) => if Accepts(before, b) then 0 else sent
      case Send => if before.sync.Synced? then sent + 1 else sent
  }

  lemma AcceptResets(s: State, b: byte)
    requires Valid(s) && Accepts(s, b)
    ensures Step(s, Rx(b)).millis == 0
  {
    hide Crc8, Populate;
  }

  lemma {:induction false} TimerCounts(s: State, events: seq<Event>)
    requires Valid(s) && s.millis == 0
    ensures After(s, events).millis == TimerAfter(SinceAccept(s, events))
  {
    hide Step, Accepts, BeforeSend;
    if events != [] {
      var last := |events| - 1;
      var before, e := After(s, events[..last]), events[last];
      TimerCounts(s, events[..last]);
      if e.Send? && before.sync.Synced? {
        SendSelects(before, SinceAccept(s, events[..last]));
        StepSend(before);
      } else if e.Rx? && Accepts(before, e.b) {
        AcceptResets(before, e.b);
      } else {
        OtherStepsKeepTimer(before, e);
      }
    }
  }

  lemma UnsyncedSelects(s: State)
    requires !s.sync.Synced?
    ensures SelectionOf(BeforeSend(s)) == Pause
  {
  }

  /** Every report of every run from a fresh device: while synchronised it selects what the schedule
      says for the number of reports since the last accepted frame, and otherwise nothing. */
  lemma EverySend(s: State, events: seq<Event>, i: nat)
    requires Valid(s) && s.millis == 0 && i < |events| && events[i].Send?
    ensures var before := After(s, events[..i]);
            SelectionOf(After(s, events[..i + 1])) ==
            if before.sync.Synced? then Schedule(SinceAccept(s, events[..i])) else Pause
  {
    hide Step, BeforeSend, SinceAccept, SelectionOf;
    var before := After(s, events[..i]);
    assert events[..i + 1][..i] == events[..i];
    StepSend(before);
    TimerCounts(s, events[..i]);
    if before.sync.Synced? {
      SendSelects(before, SinceAccept(s, events[..i]));
    } else {
      UnsyncedSelects(before);
    }
  }
}
