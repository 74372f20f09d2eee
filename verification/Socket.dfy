/** The socket backend's table of timed inputs. The table forgets entries as soon as they expire;
    the reference is a log that keeps every write for ever and lets the last one win.
 */
module Socket {
  import opened Bytes
  import opened Report

  const MIN_DURATION := 0.01
  const MAX_DURATION := 5.0
  const HOME := 0x1000
  const CAPTURE := 0x2000

  type Sign = v: int | -1 <= v <= 1

  type ExtraBit = b: int | b == HOME || b == CAPTURE witness HOME

  // What a command name stands for.
  datatype Target =
    | Dpad(x: Sign, y: Sign)
    | Button(index: int)
    | Extra(bit: ExtraBit)
    | Trigger(axis: int)

  datatype Event = Event(duration: real, commands: seq<Target>, left: Option<(real, real)>, right: Option<(real, real)>)

  // One assignment to the table.
  datatype Write =
    | SetButton(index: int, until: real)
    | SetExtra(bit: ExtraBit, until: real)
    | SetAxis(axis: int, value: real, until: real)
    | SetHat(x: Sign, y: Sign, until: real)

  function Clamp(v: real, low: real, high: real): real {
    if v < low then low else if v > high then high else v
  }

  // The moment an event received at `now` runs out.
  function Until(e: Event, now: real): (u: real)
    ensures now < u <= now + MAX_DURATION
  {
    now + Clamp(e.duration, MIN_DURATION, MAX_DURATION)
  }

  function CommandWrite(t: Target, until: real): Write {
    match t
    case Dpad(x, y) => SetHat(x, y, until)
    case Button(index) => SetButton(index, until)
    case Extra(bit) => SetExtra(bit, until)
    case Trigger(axis) => SetAxis(axis, 1.0, until)
  }

  function StickWrites(stick: Option<(real, real)>, xAxis: int, yAxis: int, until: real): seq<Write> {
    match stick
    case None => []
    case Some((x, y)) => [SetAxis(xAxis, Clamp(x, -1.0, 1.0), until), SetAxis(yAxis, Clamp(y, -1.0, 1.0), until)]
  }

  // The assignments that an event makes, in order.
  function Writes(e: Event, now: real): (w: seq<Write>)
    ensures forall i :: 0 <= i < |w| ==> w[i].until == Until(e, now)
  {
    var until := Until(e, now);
    seq(|e.commands|, i requires 0 <= i < |e.commands| => CommandWrite(e.commands[i], until))
    + StickWrites(e.left, 0, 1, until) + StickWrites(e.right, 3, 4, until)
  }

  // ---- The reference: last writer wins over the whole log ----

  datatype Key = ButtonKey(index: int) | ExtraKey(bit: ExtraBit) | AxisKey(axis: int) | HatKey

  function KeyOf(w: Write): Key {
    match w
    case SetButton(index, _) => ButtonKey(index)
    case SetExtra(bit, _) => ExtraKey(bit)
    case SetAxis(axis, _, _) => AxisKey(axis)
    case SetHat(_, _, _) => HatKey
  }

  function LastWrite(log: seq<Write>, key: Key): (r: Option<Write>)
    ensures r.Some? ==> KeyOf(r.value) == key && r.value in log
  {
    if log == [] then None
    else if KeyOf(log[|log| - 1]) == key then Some(log[|log| - 1])
    else LastWrite(log[..|log| - 1], key)
  }

  // The write to a key that still holds at `now`.
  function Live(log: seq<Write>, key: Key, now: real): (r: Option<Write>)
    ensures r.Some? ==> KeyOf(r.value) == key
  {
    var w := LastWrite(log, key);
    if w.Some? && w.value.until > now then w else None
  }

  predicate LogButton(log: seq<Write>, index: int, now: real) {
    Live(log, ButtonKey(index), now).Some?
  }

  function LogExtras(log: seq<Write>, now: real): nat {
    Or(Weight(Live(log, ExtraKey(HOME), now).Some?, HOME), Weight(Live(log, ExtraKey(CAPTURE), now).Some?, CAPTURE))
  }

  function LogAxis(log: seq<Write>, axis: int, now: real): real {
    var w := Live(log, AxisKey(axis), now);
    if w.Some? then w.value.value else 0.0
  }

  function LogHat(log: seq<Write>, now: real): (Sign, Sign) {
    var w := Live(log, HatKey, now);
    if w.Some? then (w.value.x, w.value.y) else (0, 0)
  }

  // ---- The table ----

  datatype Table = Table(
    buttons: map<int, real>, extras: map<ExtraBit, real>, axes: map<int, (real, real)>,
    hatUntil: real, hat: (Sign, Sign))

  const EMPTY := Table(map[], map[], map[], 0.0, (0, 0))

  function Assign(t: Table, w: Write): Table {
    match w
    case SetButton(index, until) => t.(buttons := t.buttons[index := until])
    case SetExtra(bit, until) => t.(extras := t.extras[bit := until])
    case SetAxis(axis, value, until) => t.(axes := t.axes[axis := (value, until)])
    case SetHat(x, y, until) => t.(hat := (x, y), hatUntil := until)
  }

  function AssignAll(t: Table, ws: seq<Write>): Table {
    if ws == [] then t else Assign(AssignAll(t, ws[..|ws| - 1]), ws[|ws| - 1])
  }

  /** _expire. */
  function Expire(t: Table, now: real): Table {
    Table(map k | k in t.buttons && t.buttons[k] > now :: t.buttons[k],
          map k | k in t.extras && t.extras[k] > now :: t.extras[k],
          map k | k in t.axes && t.axes[k].1 > now :: t.axes[k],
          t.hatUntil,
          if t.hatUntil <= now then (0, 0) else t.hat)
  }

  // ---- The table agrees with the log from `now` on ----

  // What the table holds for a key, as a write.
  function Held(t: Table, key: Key): Option<Write> {
    match key
    case ButtonKey(i) => if i in t.buttons then Some(SetButton(i, t.buttons[i])) else None
    case ExtraKey(b) => if b in t.extras then Some(SetExtra(b, t.extras[b])) else None
    case AxisKey(a) => if a in t.axes then Some(SetAxis(a, t.axes[a].0, t.axes[a].1)) else None
    case HatKey => Some(SetHat(t.hat.0, t.hat.1, t.hatUntil))
  }

  // The same write, or two that have both run out.
  ghost predicate SameFrom(held: Option<Write>, last: Option<Write>, now: real) {
    held == last || ((held.Some? ==> held.value.until <= now) && (last.Some? ==> last.value.until <= now))
  }

  ghost predicate Agrees(t: Table, log: seq<Write>, now: real) {
    forall key: Key :: SameFrom(Held(t, key), LastWrite(log, key), now)
  }

  lemma EmptyAgrees(now: real)
    requires now >= 0.0
    ensures Agrees(EMPTY, [], now)
  {
  }

  lemma ExpireAgrees(t: Table, log: seq<Write>, now: real)
    requires Agrees(t, log, now)
    ensures Agrees(Expire(t, now), log, now)
  {
    hide LastWrite, Agrees;
    forall key: Key
      ensures SameFrom(Held(Expire(t, now), key), LastWrite(log, key), now)
    {
      AgreesAt(t, log, now, key);
    }
    AgreesAll(Expire(t, now), log, now);
  }

  /** Pruning keeps exactly the entries that still hold, with their values, and an expired direction is
      reset. */
  lemma ExpireKeepsLive(t: Table, now: real)
    ensures var r := Expire(t, now);
            && (forall k :: k in r.buttons <==> k in t.buttons && t.buttons[k] > now)
            && (forall k :: k in r.extras <==> k in t.extras && t.extras[k] > now)
            && (forall k :: k in r.axes <==> k in t.axes && t.axes[k].1 > now)
            && (forall k :: k in r.buttons ==> r.buttons[k] == t.buttons[k])
            && (forall k :: k in r.extras ==> r.extras[k] == t.extras[k])
            && (forall k :: k in r.axes ==> r.axes[k] == t.axes[k])
            && r.hatUntil == t.hatUntil && r.hat == if t.hatUntil <= now then (0, 0) else t.hat
  {
  }

  lemma AgreesAt(t: Table, log: seq<Write>, now: real, key: Key)
    requires Agrees(t, log, now)
    ensures SameFrom(Held(t, key), LastWrite(log, key), now)
  {
  }

  lemma AgreesAll(t: Table, log: seq<Write>, now: real)
    requires forall key: Key :: SameFrom(Held(t, key), LastWrite(log, key), now)
    ensures Agrees(t, log, now)
  {
  }

  lemma AssignAgrees(t: Table, log: seq<Write>, w: Write, now: real)
    requires Agrees(t, log, now)
    ensures Agrees(Assign(t, w), log + [w], now)
  {
    assert (log + [w])[..|log|] == log;
    forall key: Key
      ensures SameFrom(Held(Assign(t, w), key), LastWrite(log + [w], key), now)
    {
      AgreesAt(t, log, now, key);
    }
  }

  lemma {:induction false} AssignAllAgrees(t: Table, log: seq<Write>, ws: seq<Write>, now: real)
    requires Agrees(t, log, now)
    ensures Agrees(AssignAll(t, ws), log + ws, now)
  {
    hide Agrees, Assign;
    if ws == [] {
      assert log + ws == log;
    } else {
      var last := |ws| - 1;
      AssignAllAgrees(t, log, ws[..last], now);
      AssignAgrees(AssignAll(t, ws[..last]), log + ws[..last], ws[last], now);
      assert log + ws[..last] + [ws[last]] == log + ws;
    }
  }

  lemma AgreesLater(t: Table, log: seq<Write>, now: real, later: real)
    requires Agrees(t, log, now) && now <= later
    ensures Agrees(t, log, later)
  {
    hide LastWrite, Held;
    forall key: Key
      ensures SameFrom(Held(t, key), LastWrite(log, key), later)
    {
      AgreesAt(t, log, now, key);
    }
  }

  // ---- What a query reads from the table ----

  predicate TableButton(t: Table, index: int, now: real) {
    index in t.buttons && t.buttons[index] > now
  }

  predicate TableExtra(t: Table, bit: ExtraBit, now: real) {
    bit in t.extras && t.extras[bit] > now
  }

  function TableExtras(t: Table, now: real): nat {
    Or(Weight(TableExtra(t, HOME, now), HOME), Weight(TableExtra(t, CAPTURE, now), CAPTURE))
  }

  function TableAxis(t: Table, axis: int, now: real): real {
    if axis in t.axes && t.axes[axis].1 > now then t.axes[axis].0 else 0.0
  }

  function TableHat(t: Table, now: real): (Sign, Sign) {
    if t.hatUntil > now then t.hat else (0, 0)
  }

  lemma ExtraOr()
    ensures Or(0, 0) == 0 && Or(HOME, 0) == Or(0, HOME) == HOME && Or(CAPTURE, 0) == Or(0, CAPTURE) == CAPTURE
    ensures Or(HOME, CAPTURE) == Or(CAPTURE, HOME)
  {
    OrCommutes(HOME, CAPTURE);
  }

  lemma AnswersAgree(t: Table, log: seq<Write>, now: real)
    requires Agrees(t, log, now)
    ensures forall i :: TableButton(t, i, now) == LogButton(log, i, now)
    ensures TableExtras(t, now) == LogExtras(log, now)
    ensures forall a :: TableAxis(t, a, now) == LogAxis(log, a, now)
    ensures TableHat(t, now) == LogHat(log, now)
  {
    hide LastWrite, Agrees, Or;
    forall i ensures TableButton(t, i, now) == LogButton(log, i, now) { AgreesAt(t, log, now, ButtonKey(i)); }
    forall a ensures TableAxis(t, a, now) == LogAxis(log, a, now) { AgreesAt(t, log, now, AxisKey(a)); }
    AgreesAt(t, log, now, HatKey);
    AgreesAt(t, log, now, ExtraKey(HOME));
    AgreesAt(t, log, now, ExtraKey(CAPTURE));
  }

  // ---- Runs ----

  // What happens to the table: an event is applied, or a query prunes it.
  datatype Op = Apply(e: Event, at: real) | Prune(at: real)

  function TableAfter(ops: seq<Op>): Table {
    if ops == [] then EMPTY
    else
      var t := TableAfter(ops[..|ops| - 1]);
      match ops[|ops| - 1]
      case Apply(e, at) => AssignAll(t, Writes(e, at))
      case Prune(at) => Expire(t, at)
  }

  // The log ignores the pruning.
  function LogAfter(ops: seq<Op>): seq<Write> {
    if ops == [] then []
    else
      var log := LogAfter(ops[..|ops| - 1]);
      match ops[|ops| - 1]
      case Apply(e, at) => log + Writes(e, at)
      case Prune(_) => log
  }

  // The clock never goes back, and shows `now` or less during the run.
  ghost predicate Timely(ops: seq<Op>, now: real) {
    && now >= 0.0
    && (forall i :: 0 <= i < |ops| ==> 0.0 <= ops[i].at <= now)
    && (forall i, j :: 0 <= i < j < |ops| ==> ops[i].at <= ops[j].at)
  }

  lemma {:induction false} RunAgrees(ops: seq<Op>, now: real)
    requires Timely(ops, now)
    ensures Agrees(TableAfter(ops), LogAfter(ops), now)
  {
    hide Agrees, Expire, Writes, LastWrite;
    if ops == [] {
      EmptyAgrees(now);
    } else {
      var last := |ops| - 1;
      var t, log, at := TableAfter(ops[..last]), LogAfter(ops[..last]), ops[last].at;
      RunAgrees(ops[..last], at);
      match ops[last] {
        case Apply(e, _) => AssignAllAgrees(t, log, Writes(e, at), at);
        case Prune(_) => ExpireAgrees(t, log, at);
      }
      AgreesLater(TableAfter(ops), LogAfter(ops), at, now);
    }
  }

  /** Pruning cannot be observed: after any run of events and queries, a query that prunes the
      table and then reads it gets the answer of the complete log. */
  lemma ExpiryUnobservable(ops: seq<Op>, pruned: real, now: real)
    requires Timely(ops, pruned) && pruned <= now
    ensures var t, log := Expire(TableAfter(ops), pruned), LogAfter(ops);
            && (forall i :: TableButton(t, i, now) == LogButton(log, i, now))
            && TableExtras(t, now) == LogExtras(log, now)
            && (forall a :: TableAxis(t, a, now) == LogAxis(log, a, now))
            && TableHat(t, now) == LogHat(log, now)
  {
    hide Agrees, Expire, LastWrite, TableAfter, LogAfter;
    RunAgrees(ops, pruned);
    ExpireAgrees(TableAfter(ops), LogAfter(ops), pruned);
    AgreesLater(Expire(TableAfter(ops), pruned), LogAfter(ops), pruned, now);
    AnswersAgree(Expire(TableAfter(ops), pruned), LogAfter(ops), now);
  }

  // ---- The packet ----

  // BTN_MAP: pad button and report bit.
  const BTN_MAP: seq<(int, nat)> :=
    [(0, 0x002), (1, 0x004), (2, 0x001), (3, 0x008), (4, 0x010), (5, 0x020),
     (6, 0x100), (7, 0x200), (9, 0x400), (10, 0x800)]

  // The bit number of each entry.
  const BTN_BIT: seq<nat> := [1, 2, 0, 3, 4, 5, 8, 9, 10, 11]

  // The questions of one packet: the entries of BTN_MAP, the extra buttons, the hat and four axes.
  const QUESTIONS := 16
  const EXTRAS := 10
  const HAT := 11
  const AXES := 12

  // Readings of the clock for one packet: each question prunes at one and answers at the next.
  predicate Readings(times: seq<real>) {
    |times| == 2 * QUESTIONS && forall i, j :: 0 <= i < j < |times| ==> times[i] <= times[j]
  }

  function AnswerTime(times: seq<real>, question: nat): real
    requires |times| == 2 * QUESTIONS && question < QUESTIONS
  {
    times[2 * question + 1]
  }

  // Whether entry j of BTN_MAP is pressed when it is asked for.
  predicate Pressed(log: seq<Write>, times: seq<real>, j: nat)
    requires |times| == 2 * QUESTIONS && j < |BTN_MAP|
  {
    LogButton(log, BTN_MAP[j].0, AnswerTime(times, j))
  }

  // The bits of the first n entries of BTN_MAP that are pressed.
  function MappedButtons(log: seq<Write>, times: seq<real>, n: nat): nat
    requires |times| == 2 * QUESTIONS && n <= |BTN_MAP|
  {
    if n == 0 then 0
    else Or(MappedButtons(log, times, n - 1), Weight(Pressed(log, times, n - 1), BTN_MAP[n - 1].1))
  }

  /** build_packet for the socket backend, as the log sees it. */
  function LogPacket(log: seq<Write>, times: seq<real>): Packet
    requires |times| == 2 * QUESTIONS
  {
    var hat := LogHat(log, AnswerTime(times, HAT));
    Packet(Or(MappedButtons(log, times, |BTN_MAP|), LogExtras(log, AnswerTime(times, EXTRAS))), HatMap(hat.0, hat.1),
           LogAxis(log, 0, AnswerTime(times, AXES)), LogAxis(log, 1, AnswerTime(times, AXES + 1)),
           LogAxis(log, 3, AnswerTime(times, AXES + 2)), LogAxis(log, 4, AnswerTime(times, AXES + 3)))
  }

  // ---- Five seconds later ----

  lemma {:induction false} UntilBound(ops: seq<Op>, now: real, i: nat)
    requires Timely(ops, now) && i < |LogAfter(ops)|
    ensures LogAfter(ops)[i].until <= now + MAX_DURATION
  {
    var last := |ops| - 1;
    if i < |LogAfter(ops[..last])| {
      UntilBound(ops[..last], now, i);
    }
  }

  // Every write has run out whenever the clock is read.
  ghost predicate AllOver(log: seq<Write>, times: seq<real>) {
    forall i, j :: 0 <= i < |log| && 0 <= j < |times| ==> log[i].until <= times[j]
  }

  lemma NothingLive(log: seq<Write>, times: seq<real>, key: Key, question: nat)
    requires |times| == 2 * QUESTIONS && question < QUESTIONS && AllOver(log, times)
    ensures Live(log, key, AnswerTime(times, question)).None?
  {
    hide LastWrite;
  }

  lemma {:induction false} NoMappedButtons(log: seq<Write>, times: seq<real>, n: nat)
    requires |times| == 2 * QUESTIONS && n <= |BTN_MAP| && AllOver(log, times)
    ensures MappedButtons(log, times, n) == 0
  {
    hide Or, AllOver, Live;
    ExtraOr();
    if n > 0 {
      NoMappedButtons(log, times, n - 1);
      NothingLive(log, times, ButtonKey(BTN_MAP[n - 1].0), n - 1);
    }
  }

  /** Five seconds after the last event the bridge sends what it sends for a neutral pad, whatever the
      clock shows while the packet is built. */
  lemma NeutralAfterFiveSeconds(ops: seq<Op>, last: real, times: seq<real>)
    requires Timely(ops, last) && |times| == 2 * QUESTIONS
    requires forall j :: 0 <= j < |times| ==> last + MAX_DURATION <= times[j]
    ensures Pack(LogPacket(LogAfter(ops), times)) == Pack(NEUTRAL)
  {
    hide Live, LogAfter, WireAxis, Or, MappedButtons, AnswerTime, AllOver;
    ExtraOr();
    var log := LogAfter(ops);
    OverAfterFiveSeconds(ops, last, times);
    NoMappedButtons(log, times, |BTN_MAP|);
    NothingLive(log, times, ExtraKey(HOME), EXTRAS);
    NothingLive(log, times, ExtraKey(CAPTURE), EXTRAS);
    NothingLive(log, times, HatKey, HAT);
    NothingLive(log, times, AxisKey(0), AXES);
    NothingLive(log, times, AxisKey(1), AXES + 1);
    NothingLive(log, times, AxisKey(3), AXES + 2);
    NothingLive(log, times, AxisKey(4), AXES + 3);
    assert LogPacket(log, times) == NEUTRAL;
  }

  lemma OverAfterFiveSeconds(ops: seq<Op>, last: real, times: seq<real>)
    requires Timely(ops, last) && forall j :: 0 <= j < |times| ==> last + MAX_DURATION <= times[j]
    ensures AllOver(LogAfter(ops), times)
  {
    hide LogAfter;
    forall i | 0 <= i < |LogAfter(ops)|
      ensures LogAfter(ops)[i].until <= last + MAX_DURATION
    {
      UntilBound(ops, last, i);
    }
  }

  // ---- Which bits a packet has ----

  lemma {:induction false} OrBit(a: nat, b: nat, k: nat)
    ensures Bit(Or(a, b), k) <==> Bit(a, k) || Bit(b, k)
    decreases k
  {
    hide Or;
    ZeroBit(k);
    OrStep(a, b);
    if a > 0 && b > 0 && k > 0 {
      OrBit(a / 2, b / 2, k - 1);
    }
  }

  lemma OrStep(a: nat, b: nat)
    ensures a == 0 ==> Or(a, b) == b
    ensures b == 0 ==> Or(a, b) == a
    ensures a > 0 && b > 0 ==> Or(a, b) / 2 == Or(a / 2, b / 2)
    ensures a > 0 && b > 0 ==> (Or(a, b) % 2 == 1 <==> a % 2 == 1 || b % 2 == 1)
  {
    if a > 0 && b > 0 {
      var half, low := Or(a / 2, b / 2), if a % 2 == 1 || b % 2 == 1 then 1 else 0;
      assert Or(a, b) == 2 * half + low;
    }
  }

  lemma {:induction false} ZeroBit(k: nat)
    ensures !Bit(0, k)
  {
    if k > 0 {
      ZeroBit(k - 1);
    }
  }

  lemma {:induction false} PowerBit(m: nat, k: nat)
    ensures Bit(Power(m), k) <==> m == k
    decreases k
  {
    if m == 0 {
      if k > 0 {
        ZeroBit(k - 1);
      }
    } else if k > 0 {
      PowerBit(m - 1, k - 1);
      assert Power(m) / 2 == Power(m - 1);
    }
  }

  // The entries of BTN_MAP are powers of two.
  lemma MapIsPower(j: nat)
    requires j < |BTN_MAP|
    ensures BTN_MAP[j].1 == Power(BTN_BIT[j])
  {
    Powers();
  }

  lemma Powers()
    ensures Power(0) == 1 && Power(1) == 2 && Power(2) == 4 && Power(3) == 8 && Power(4) == 16 && Power(5) == 32
    ensures Power(8) == 256 && Power(9) == 512 && Power(10) == 1024 && Power(11) == 2048
    ensures Power(12) == HOME && Power(13) == CAPTURE
  {
    assert Power(3) == 8;
    assert Power(6) == 64;
    assert Power(9) == 512;
    assert Power(12) == 4096;
  }

  lemma WeightBit(pressed: bool, m: nat, k: nat)
    ensures Bit(Weight(pressed, Power(m)), k) <==> pressed && m == k
  {
    hide Power, Bit;
    PowerBit(m, k);
    ZeroBit(k);
  }

  lemma {:induction false} MappedBit(log: seq<Write>, times: seq<real>, n: nat, k: nat)
    requires |times| == 2 * QUESTIONS && n <= |BTN_MAP|
    ensures Bit(MappedButtons(log, times, n), k) <==>
            exists j :: 0 <= j < n && BTN_BIT[j] == k && Pressed(log, times, j)
  {
    hide Or, Bit, Power, Weight, Pressed;
    if n == 0 {
      ZeroBit(k);
    } else {
      MappedBit(log, times, n - 1, k);
      MapIsPower(n - 1);
      OrBit(MappedButtons(log, times, n - 1), Weight(Pressed(log, times, n - 1), BTN_MAP[n - 1].1), k);
      WeightBit(Pressed(log, times, n - 1), BTN_BIT[n - 1], k);
    }
  }

  lemma ExtrasBit(log: seq<Write>, now: real, k: nat)
    ensures Bit(LogExtras(log, now), k) <==>
            (k == 12 && Live(log, ExtraKey(HOME), now).Some?) || (k == 13 && Live(log, ExtraKey(CAPTURE), now).Some?)
  {
    hide Or, Bit, Power, Weight, Live;
    Powers();
    var home, capture := Live(log, ExtraKey(HOME), now).Some?, Live(log, ExtraKey(CAPTURE), now).Some?;
    OrBit(Weight(home, HOME), Weight(capture, CAPTURE), k);
    WeightBit(home, 12, k);
    WeightBit(capture, 13, k);
  }

  /** A bit of the packet is set exactly when an entry of the button map with that bit, or the extra
      button with that bit, is live when it is asked for. */
  lemma PacketBit(log: seq<Write>, times: seq<real>, k: nat)
    requires |times| == 2 * QUESTIONS
    ensures Bit(LogPacket(log, times).buttons, k) <==>
            || (exists j :: 0 <= j < |BTN_MAP| && BTN_BIT[j] == k && Pressed(log, times, j))
            || (k == 12 && Live(log, ExtraKey(HOME), AnswerTime(times, EXTRAS)).Some?)
            || (k == 13 && Live(log, ExtraKey(CAPTURE), AnswerTime(times, EXTRAS)).Some?)
  {
    hide Or, Bit, Pressed, LogExtras, MappedButtons, LogHat, LogAxis, Live, AnswerTime;
    var now := AnswerTime(times, EXTRAS);
    OrBit(MappedButtons(log, times, |BTN_MAP|), LogExtras(log, now), k);
    MappedBit(log, times, |BTN_MAP|, k);
    ExtrasBit(log, now, k);
  }

  lemma {:induction false} MappedBound(log: seq<Write>, times: seq<real>, n: nat)
    requires |times| == 2 * QUESTIONS && n <= |BTN_MAP|
    ensures MappedButtons(log, times, n) <= [0, 2, 6, 7, 15, 31, 63, 319, 831, 1855, 3903][n]
  {
    hide Or, Pressed;
    if n > 0 {
      MappedBound(log, times, n - 1);
    }
  }

  /** Every packet built from the table is one that the firmware can show in full. */
  lemma PacketFits(log: seq<Write>, times: seq<real>)
    requires |times| == 2 * QUESTIONS
    ensures LogPacket(log, times).buttons < 16384
    ensures var hat := LogHat(log, AnswerTime(times, HAT)); LogPacket(log, times).hat == HatMap(hat.0, hat.1)
  {
    hide Or, LogHat, LogAxis, Live, AnswerTime, HatMap, MappedButtons;
    MappedBound(log, times, |BTN_MAP|);
  }
}
