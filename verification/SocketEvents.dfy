/** What one socket event means for the questions that are asked after it. */
module SocketEvents {
  import opened Bytes
  import opened Socket

  // The seconds that an event holds: as long as it says, but at least 0.01 and at most 5.
  ghost predicate Holds(e: Event, seconds: real) {
    && (0.01 <= e.duration <= 5.0 ==> seconds == e.duration)
    && (e.duration < 0.01 ==> seconds == 0.01)
    && (e.duration > 5.0 ==> seconds == 5.0)
  }

  lemma UntilHolds(e: Event, at: real)
    ensures Holds(e, Until(e, at) - at)
  {
  }

  // ---- The last write for a key ----

  lemma {:induction false} LastOfLonger(log: seq<Write>, more: seq<Write>, key: Key)
    ensures LastWrite(log + more, key) ==
            if LastWrite(more, key).Some? then LastWrite(more, key) else LastWrite(log, key)
    decreases |more|
  {
    if more == [] {
      assert log + more == log;
    } else {
      var n := |more| - 1;
      assert (log + more)[..|log| + n] == log + more[..n];
      LastOfLonger(log, more[..n], key);
    }
  }

  lemma {:induction false} NoWrite(log: seq<Write>, key: Key)
    requires forall i :: 0 <= i < |log| ==> KeyOf(log[i]) != key
    ensures LastWrite(log, key).None?
  {
    if log != [] {
      NoWrite(log[..|log| - 1], key);
    }
  }

  // The last write for a key is the one behind which there is no other.
  lemma {:induction false} LastIs(log: seq<Write>, key: Key, i: nat)
    requires i < |log| && KeyOf(log[i]) == key && forall j :: i < j < |log| ==> KeyOf(log[j]) != key
    ensures LastWrite(log, key) == Some(log[i])
    decreases |log|
  {
    if i < |log| - 1 {
      LastIs(log[..|log| - 1], key, i);
    }
  }

  lemma {:induction false} SomeWrite(log: seq<Write>, key: Key, i: nat)
    requires i < |log| && KeyOf(log[i]) == key
    ensures LastWrite(log, key).Some?
    decreases |log|
  {
    if KeyOf(log[|log| - 1]) != key {
      SomeWrite(log[..|log| - 1], key, i);
    }
  }

  // ---- What an event writes ----

  // The commands come first.
  lemma CommandAt(e: Event, at: real, i: nat)
    requires i < |e.commands|
    ensures i < |Writes(e, at)| && Writes(e, at)[i] == CommandWrite(e.commands[i], Until(e, at))
  {
  }

  // Behind them there are only stick axes.
  lemma BehindCommands(e: Event, at: real, i: nat)
    requires |e.commands| <= i < |Writes(e, at)|
    ensures Writes(e, at)[i].SetAxis?
    ensures e.left.None? ==> Writes(e, at)[i].axis == 3 || Writes(e, at)[i].axis == 4
    ensures e.right.None? ==> Writes(e, at)[i].axis == 0 || Writes(e, at)[i].axis == 1
  {
  }

  // Whether a question for a key that the event writes still finds it.
  lemma WrittenKey(log: seq<Write>, e: Event, at: real, now: real, key: Key)
    requires LastWrite(Writes(e, at), key).Some?
    ensures Live(log + Writes(e, at), key, now) ==
            if now < Until(e, at) then LastWrite(Writes(e, at), key) else None
  {
    hide LastWrite, Writes;
    LastOfLonger(log, Writes(e, at), key);
    var w := LastWrite(Writes(e, at), key).value;
    var i :| 0 <= i < |Writes(e, at)| && Writes(e, at)[i] == w;
    assert w.until == Until(e, at);
  }

  lemma OtherKey(log: seq<Write>, e: Event, at: real, now: real, key: Key)
    requires LastWrite(Writes(e, at), key).None?
    ensures Live(log + Writes(e, at), key, now) == Live(log, key, now)
  {
    hide LastWrite, Writes;
    LastOfLonger(log, Writes(e, at), key);
  }

  // A key of a command is written exactly when the command is there.
  lemma ButtonWritten(e: Event, at: real, index: int)
    ensures LastWrite(Writes(e, at), ButtonKey(index)).Some? <==> Button(index) in e.commands
  {
    hide LastWrite, Writes;
    var ws, key := Writes(e, at), ButtonKey(index);
    if Button(index) in e.commands {
      var i :| 0 <= i < |e.commands| && e.commands[i] == Button(index);
      CommandAt(e, at, i);
      SomeWrite(ws, key, i);
    } else {
      forall i | 0 <= i < |ws|
        ensures KeyOf(ws[i]) != key
      {
        if i < |e.commands| {
          CommandAt(e, at, i);
          assert e.commands[i] in e.commands;
        } else {
          BehindCommands(e, at, i);
        }
      }
      NoWrite(ws, key);
    }
  }

  lemma ExtraWritten(e: Event, at: real, bit: ExtraBit)
    ensures LastWrite(Writes(e, at), ExtraKey(bit)).Some? <==> Extra(bit) in e.commands
  {
    hide LastWrite, Writes;
    var ws, key := Writes(e, at), ExtraKey(bit);
    if Extra(bit) in e.commands {
      var i :| 0 <= i < |e.commands| && e.commands[i] == Extra(bit);
      CommandAt(e, at, i);
      SomeWrite(ws, key, i);
    } else {
      forall i | 0 <= i < |ws|
        ensures KeyOf(ws[i]) != key
      {
        if i < |e.commands| {
          CommandAt(e, at, i);
          assert e.commands[i] in e.commands;
        } else {
          BehindCommands(e, at, i);
        }
      }
      NoWrite(ws, key);
    }
  }

  /** Buttons: a button that the event names is pressed exactly until the event ends, whatever was
      pressed before; every other button is as before. */
  lemma EventButtons(log: seq<Write>, e: Event, at: real, now: real, index: int)
    ensures LogButton(log + Writes(e, at), index, now) ==
            if Button(index) in e.commands then now < Until(e, at) else LogButton(log, index, now)
  {
    hide LastWrite, Writes, Live, Until;
    ButtonWritten(e, at, index);
    if Button(index) in e.commands {
      WrittenKey(log, e, at, now, ButtonKey(index));
    } else {
      OtherKey(log, e, at, now, ButtonKey(index));
    }
  }

  /** HOME and CAPTURE likewise. */
  lemma EventExtras(log: seq<Write>, e: Event, at: real, now: real, bit: ExtraBit)
    ensures Live(log + Writes(e, at), ExtraKey(bit), now).Some? ==
            if Extra(bit) in e.commands then now < Until(e, at) else Live(log, ExtraKey(bit), now).Some?
  {
    hide LastWrite, Writes, Live, Until;
    ExtraWritten(e, at, bit);
    if Extra(bit) in e.commands {
      WrittenKey(log, e, at, now, ExtraKey(bit));
    } else {
      OtherKey(log, e, at, now, ExtraKey(bit));
    }
  }

  /** The direction: the last one that the event names holds until the event ends. */
  lemma EventDirection(log: seq<Write>, e: Event, at: real, now: real, i: nat)
    requires i < |e.commands| && e.commands[i].Dpad? && forall j :: i < j < |e.commands| ==> !e.commands[j].Dpad?
    ensures LogHat(log + Writes(e, at), now) ==
            if now < Until(e, at) then (e.commands[i].x, e.commands[i].y) else (0, 0)
  {
    hide LastWrite, Writes, Live, Until;
    var ws := Writes(e, at);
    CommandAt(e, at, i);
    forall j | i < j < |ws|
      ensures KeyOf(ws[j]) != HatKey
    {
      if j < |e.commands| {
        CommandAt(e, at, j);
      } else {
        BehindCommands(e, at, j);
      }
    }
    LastIs(ws, HatKey, i);
    WrittenKey(log, e, at, now, HatKey);
  }

  lemma EventWithoutDirection(log: seq<Write>, e: Event, at: real, now: real)
    requires forall j :: 0 <= j < |e.commands| ==> !e.commands[j].Dpad?
    ensures LogHat(log + Writes(e, at), now) == LogHat(log, now)
  {
    hide LastWrite, Writes, Live, Until;
    var ws := Writes(e, at);
    forall j | 0 <= j < |ws|
      ensures KeyOf(ws[j]) != HatKey
    {
      if j < |e.commands| {
        CommandAt(e, at, j);
      } else {
        BehindCommands(e, at, j);
      }
    }
    NoWrite(ws, HatKey);
    OtherKey(log, e, at, now, HatKey);
  }

  // ---- Sticks ----

  // A coordinate of a stick, kept within -1 and 1.
  ghost predicate Limited(v: real, r: real) {
    && (-1.0 <= v <= 1.0 ==> r == v)
    && (v < -1.0 ==> r == -1.0)
    && (v > 1.0 ==> r == 1.0)
  }

  // The axes of a stick that the event moves: the value until the event ends, then the centre.
  ghost predicate StickHolds(log: seq<Write>, axis: int, v: real, until: real, now: real) {
    if now < until then Limited(v, LogAxis(log, axis, now)) else LogAxis(log, axis, now) == 0.0
  }

  lemma RightWritten(e: Event, at: real)
    requires e.right.Some?
    ensures var ws, n := Writes(e, at), |Writes(e, at)|;
            && n >= 2 && ws[n - 2].SetAxis? && ws[n - 1].SetAxis? && ws[n - 2].axis == 3 && ws[n - 1].axis == 4
            && Limited(e.right.value.0, ws[n - 2].value) && Limited(e.right.value.1, ws[n - 1].value)
  {
  }

  lemma LeftWritten(e: Event, at: real)
    requires e.left.Some?
    ensures var ws, n := Writes(e, at), |e.commands|;
            && |ws| >= n + 2 && ws[n].SetAxis? && ws[n + 1].SetAxis? && ws[n].axis == 0 && ws[n + 1].axis == 1
            && Limited(e.left.value.0, ws[n].value) && Limited(e.left.value.1, ws[n + 1].value)
            && forall j :: n + 2 <= j < |ws| ==> ws[j].SetAxis? && (ws[j].axis == 3 || ws[j].axis == 4)
  {
  }

  /** The sticks: axes 0 and 1 are the left one and axes 3 and 4 the right one, from the event until
      it ends; after that they are centred. */
  lemma EventSticks(log: seq<Write>, e: Event, at: real, now: real)
    ensures var after, until := log + Writes(e, at), Until(e, at);
            && (e.left.Some? ==> StickHolds(after, 0, e.left.value.0, until, now)
                                 && StickHolds(after, 1, e.left.value.1, until, now))
            && (e.right.Some? ==> StickHolds(after, 3, e.right.value.0, until, now)
                                  && StickHolds(after, 4, e.right.value.1, until, now))
  {
    hide LastWrite, Writes, Live, Until, Limited;
    var ws, n := Writes(e, at), |e.commands|;
    if e.left.Some? {
      LeftWritten(e, at);
      LastIs(ws, AxisKey(0), n);
      LastIs(ws, AxisKey(1), n + 1);
      WrittenKey(log, e, at, now, AxisKey(0));
      WrittenKey(log, e, at, now, AxisKey(1));
    }
    if e.right.Some? {
      RightWritten(e, at);
      LastIs(ws, AxisKey(3), |ws| - 2);
      LastIs(ws, AxisKey(4), |ws| - 1);
      WrittenKey(log, e, at, now, AxisKey(3));
      WrittenKey(log, e, at, now, AxisKey(4));
    }
  }

  // The event writes nothing to an axis that neither its commands nor its sticks name.
  ghost predicate Untouched(e: Event, axis: int) {
    && Trigger(axis) !in e.commands
    && (e.left.Some? ==> axis != 0 && axis != 1) && (e.right.Some? ==> axis != 3 && axis != 4)
  }

  /** Every other axis is as before, and a trigger is fully pressed until the event ends. */
  lemma EventOtherAxes(log: seq<Write>, e: Event, at: real, now: real, axis: int)
    ensures Untouched(e, axis) ==> LogAxis(log + Writes(e, at), axis, now) == LogAxis(log, axis, now)
    ensures Trigger(axis) in e.commands && axis !in {0, 1, 3, 4} ==>
              LogAxis(log + Writes(e, at), axis, now) == if now < Until(e, at) then 1.0 else 0.0
  {
    hide LastWrite, Writes, Live, Until;
    var ws, key := Writes(e, at), AxisKey(axis);
    if Untouched(e, axis) {
      forall i | 0 <= i < |ws|
        ensures KeyOf(ws[i]) != key
      {
        if ws[i].SetAxis? {
          AxisWrites(e, at, i);
        }
      }
      NoWrite(ws, key);
      OtherKey(log, e, at, now, key);
    }
    if Trigger(axis) in e.commands && axis !in {0, 1, 3, 4} {
      var i :| 0 <= i < |e.commands| && e.commands[i] == Trigger(axis);
      CommandAt(e, at, i);
      SomeWrite(ws, key, i);
      WrittenKey(log, e, at, now, key);
      var w := LastWrite(ws, key).value;
      var k :| 0 <= k < |ws| && ws[k] == w;
      AxisWrites(e, at, k);
    }
  }

  // What a write to an axis can be.
  lemma AxisWrites(e: Event, at: real, i: nat)
    requires i < |Writes(e, at)| && Writes(e, at)[i].SetAxis?
    ensures var w := Writes(e, at)[i];
            || (Trigger(w.axis) in e.commands && w.value == 1.0)
            || (e.left.Some? && (w.axis == 0 || w.axis == 1) && -1.0 <= w.value <= 1.0)
            || (e.right.Some? && (w.axis == 3 || w.axis == 4) && -1.0 <= w.value <= 1.0)
  {
    if i < |e.commands| {
      CommandAt(e, at, i);
      assert e.commands[i] in e.commands;
    } else {
      BehindCommands(e, at, i);
    }
  }

  // ---- Runs ----

  lemma {:induction false} WritesInRange(ops: seq<Op>, i: nat)
    requires i < |LogAfter(ops)| && LogAfter(ops)[i].SetAxis?
    ensures -1.0 <= LogAfter(ops)[i].value <= 1.0
  {
    hide Writes;
    var last := |ops| - 1;
    var before := LogAfter(ops[..last]);
    if i < |before| {
      WritesInRange(ops[..last], i);
    } else {
      AxisWrites(ops[last].e, ops[last].at, i - |before|);
    }
  }

  /** After every run of events an axis reads between -1 and 1. */
  lemma AxisInRange(ops: seq<Op>, axis: int, now: real)
    ensures -1.0 <= LogAxis(LogAfter(ops), axis, now) <= 1.0
  {
    hide LogAfter, LastWrite;
    var log := LogAfter(ops);
    var w := Live(log, AxisKey(axis), now);
    if w.Some? {
      var i :| 0 <= i < |log| && log[i] == w.value;
      WritesInRange(ops, i);
    }
  }
}
