/** The socket backend as a mutable object. */
module PadSocket {
  import opened Bytes
  import opened Report
  import opened Socket

  /** `log` and `clock` are the reference: everything ever written, and the last time seen. */
  class Pad {
    var buttonUntil: map<int, real>
    var extraUntil: map<ExtraBit, real>
    var axisUntil: map<int, (real, real)>
    var hatUntil: real
    var hatValue: (Sign, Sign)
    ghost var log: seq<Write>
    ghost var clock: real

    ghost function View(): Table
      reads this
    {
      Table(buttonUntil, extraUntil, axisUntil, hatUntil, hatValue)
    }

    ghost predicate Valid()
      reads this
    {
      Agrees(View(), log, clock)
    }

    constructor (ghost now: real)
      requires now >= 0.0
      ensures Valid() && log == [] && clock == now
    {
      buttonUntil, extraUntil, axisUntil := map[], map[], map[];
      hatUntil, hatValue := 0.0, (0, 0);
      log, clock := [], now;
      new;
      EmptyAgrees(now);
    }

    method Expire(now: real)
      requires Valid() && clock <= now
      modifies this
      ensures Valid() && log == old(log) && clock == now
      ensures View() == Socket.Expire(old(View()), now)
    {
      hide Agrees;
      AgreesLater(View(), log, clock, now);
      ExpireAgrees(View(), log, now);
      buttonUntil := map k | k in buttonUntil && buttonUntil[k] > now :: buttonUntil[k];
      extraUntil := map k | k in extraUntil && extraUntil[k] > now :: extraUntil[k];
      axisUntil := map k | k in axisUntil && axisUntil[k].1 > now :: axisUntil[k];
      if hatUntil <= now {
        hatValue := (0, 0);
      }
      clock := now;
    }

    // Two readings of the clock: one to prune, one to answer.
    method Prepare(pruned: real, now: real)
      requires Valid() && clock <= pruned <= now
      modifies this
      ensures Valid() && log == old(log) && clock == now
      ensures View() == Socket.Expire(old(View()), pruned)
    {
      hide Agrees;
      Expire(pruned);
      AgreesLater(View(), log, clock, now);
      clock := now;
    }

    /** btn: the answer of the complete log. */
    method Btn(index: int, pruned: real, now: real) returns (r: bool)
      requires Valid() && clock <= pruned <= now
      modifies this
      ensures Valid() && log == old(log) && clock == now
      ensures r == LogButton(log, index, now)
    {
      hide Agrees, Socket.Expire;
      Prepare(pruned, now);
      AnswersAgree(View(), log, now);
      r := index in buttonUntil && buttonUntil[index] > now;
      assert r == TableButton(View(), index, now);
    }

    /** extra_buttons. */
    method ExtraButtons(pruned: real, now: real) returns (bits: nat)
      requires Valid() && clock <= pruned <= now
      modifies this
      ensures Valid() && log == old(log) && clock == now
      ensures bits == LogExtras(log, now)
    {
      hide Agrees, Socket.Expire, LogExtras, Or;
      ExtraOr();
      Prepare(pruned, now);
      AnswersAgree(View(), log, now);
      bits := 0;
      var left := extraUntil.Keys;
      while left != {}
        invariant left <= extraUntil.Keys
        invariant bits == Or(Weight(TableExtra(View(), HOME, now) && HOME !in left, HOME),
                             Weight(TableExtra(View(), CAPTURE, now) && CAPTURE !in left, CAPTURE))
        decreases |left|
      {
        var bit :| bit in left;
        left := left - {bit};
        if extraUntil[bit] > now {
          bits := Or(bits, bit);
        }
      }
    }

    /** axis. */
    method Axis(axis: int, pruned: real, now: real) returns (value: real)
      requires Valid() && clock <= pruned <= now
      modifies this
      ensures Valid() && log == old(log) && clock == now
      ensures value == LogAxis(log, axis, now)
    {
      hide Agrees, Socket.Expire, LogAxis;
      Prepare(pruned, now);
      AnswersAgree(View(), log, now);
      value := if axis in axisUntil && axisUntil[axis].1 > now then axisUntil[axis].0 else 0.0;
      assert value == TableAxis(View(), axis, now);
    }

    /** hat. */
    method Hat(pruned: real, now: real) returns (r: (Sign, Sign))
      requires Valid() && clock <= pruned <= now
      modifies this
      ensures Valid() && log == old(log) && clock == now
      ensures r == LogHat(log, now)
    {
      hide Agrees, Socket.Expire, LogHat;
      Prepare(pruned, now);
      AnswersAgree(View(), log, now);
      r := if hatUntil > now then hatValue else (0, 0);
    }

    // One assignment, recorded in the log.
    method Put(w: Write)
      requires Valid()
      modifies this
      ensures Valid() && log == old(log) + [w] && clock == old(clock)
      ensures View() == Assign(old(View()), w)
    {
      hide Agrees;
      AssignAgrees(View(), log, w, clock);
      match w {
        case SetButton(index, until) => buttonUntil := buttonUntil[index := until];
        case SetExtra(bit, until) => extraUntil := extraUntil[bit := until];
        case SetAxis(axis, value, until) => axisUntil := axisUntil[axis := (value, until)];
        case SetHat(x, y, until) => hatValue := (x, y); hatUntil := until;
      }
      log := log + [w];
    }

    /** apply_event: the commands in order, then the sticks. */
    method ApplyEvent(e: Event, now: real)
      requires Valid() && clock <= now
      modifies this
      ensures Valid() && log == old(log) + Writes(e, now) && clock == now
    {
      hide Agrees, Assign;
      AgreesLater(View(), log, clock, now);
      clock := now;
      var until := Until(e, now);
      for i := 0 to |e.commands|
        invariant Valid() && clock == now
        invariant log == old(log) + Writes(e, now)[..i]
      {
        Put(CommandWrite(e.commands[i], until));
        assert Writes(e, now)[..i + 1] == Writes(e, now)[..i] + [CommandWrite(e.commands[i], until)];
      }
      PutStick(e.left, 0, 1, until);
      PutStick(e.right, 3, 4, until);
      assert Writes(e, now)[..|e.commands|] + StickWrites(e.left, 0, 1, until) + StickWrites(e.right, 3, 4, until)
          == Writes(e, now);
    }

    method PutStick(stick: Option<(real, real)>, xAxis: int, yAxis: int, until: real)
      requires Valid()
      modifies this
      ensures Valid() && clock == old(clock)
      ensures log == old(log) + StickWrites(stick, xAxis, yAxis, until)
    {
      hide Agrees, Assign;
      if stick.Some? {
        Put(SetAxis(xAxis, Clamp(stick.value.0, -1.0, 1.0), until));
        Put(SetAxis(yAxis, Clamp(stick.value.1, -1.0, 1.0), until));
      }
    }

    // The loop over BTN_MAP.
    method MappedBits(times: seq<real>) returns (b: nat)
      requires Valid() && Readings(times) && clock <= times[0]
      modifies this
      ensures Valid() && log == old(log) && clock == AnswerTime(times, |BTN_MAP| - 1)
      ensures b == MappedButtons(log, times, |BTN_MAP|)
    {
      hide Valid, LogButton, Or;
      b := 0;
      for i := 0 to |BTN_MAP|
        invariant Valid() && log == old(log)
        invariant if i == 0 then clock <= times[0] else clock == times[2 * i - 1]
        invariant b == MappedButtons(log, times, i)
      {
        var pressed := Btn(BTN_MAP[i].0, times[2 * i], times[2 * i + 1]);
        OrZero(b);
        if pressed {
          b := Or(b, BTN_MAP[i].1);
        }
      }
    }

    /** build_packet for this backend: every question reads the clock twice. */
    method BuildPacket(times: seq<real>) returns (p: Packet)
      requires Valid() && Readings(times) && clock <= times[0]
      modifies this
      ensures Valid() && log == old(log) && clock == times[|times| - 1]
      ensures p == LogPacket(log, times)
    {
      hide Valid, MappedButtons, Or, LogExtras, LogAxis, LogHat, HatMap;
      var b := MappedBits(times);
      var extra := ExtraButtons(times[2 * EXTRAS], times[2 * EXTRAS + 1]);
      var hat := Hat(times[2 * HAT], times[2 * HAT + 1]);
      var lx := Axis(0, times[2 * AXES], times[2 * AXES + 1]);
      var ly := Axis(1, times[2 * AXES + 2], times[2 * AXES + 3]);
      var rx := Axis(3, times[2 * AXES + 4], times[2 * AXES + 5]);
      var ry := Axis(4, times[2 * AXES + 6], times[2 * AXES + 7]);
      p := Packet(Or(b, extra), HatMap(hat.0, hat.1), lx, ly, rx, ry);
    }
  }
}
