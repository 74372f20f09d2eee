/** The handshake that synchronises the device, over every stream of bytes. */
module Handshake {
  import opened Bytes
  import opened Crc
  import opened Report
  import opened Device

  // The parts of the handshake, and all of it.
  const START: seq<byte> := [0xFF]
  const FIRST: seq<byte> := [0xFF, 0x33]
  const HANDSHAKE: seq<byte> := [0xFF, 0x33, 0xCC]

  // What a device that is not synchronised has seen of the handshake.
  function Seen(s: State): seq<byte> {
    match s.sync
    case SyncStart => [0xFF]
    case Sync1 => [0xFF, 0x33]
    case _ => []
  }

  predicate EndsWith(t: seq<byte>, tail: seq<byte>) {
    |tail| <= |t| && forall i :: 0 <= i < |tail| ==> t[|t| - |tail| + i] == tail[i]
  }

  // The state that a history ends in: the longest part of the handshake that it ends with.
  function SyncOf(t: seq<byte>): SyncState {
    if EndsWith(t, HANDSHAKE) then Synced
    else if EndsWith(t, FIRST) then Sync1
    else if EndsWith(t, START) then SyncStart
    else OutOfSync
  }

  // The answer to the last byte of a history.
  function AnswerTo(t: seq<byte>): seq<byte> {
    if EndsWith(t, HANDSHAKE) then [0x33]
    else if EndsWith(t, FIRST) then [0xCC]
    else if EndsWith(t, START) then [0xFF]
    else []
  }

  // All answers to a stream that follows `before`.
  function AnswersTo(before: seq<byte>, stream: seq<byte>): seq<byte> {
    if stream == [] then []
    else AnswersTo(before, stream[..|stream| - 1]) + AnswerTo(before + stream)
  }

  // The handshake is not complete before the last byte of the stream.
  ghost predicate NotEarlier(before: seq<byte>, stream: seq<byte>) {
    forall i :: 0 <= i < |stream| ==> !EndsWith(before + stream[..i], HANDSHAKE)
  }

  // One byte on a device that knows what it has seen.
  lemma OneByte(s: State, t: seq<byte>, b: byte)
    requires Valid(s) && s.sync == SyncOf(t) && !s.sync.Synced?
    ensures Receive(s, b) == Outcome(s.(sync := SyncOf(t + [b])), AnswerTo(t + [b]))
  {
    hide Crc8, Accepted, EndsWith;
    LastBytes(t, b);
  }

  lemma LastBytes(t: seq<byte>, b: byte)
    ensures var u := t + [b];
            && (EndsWith(u, HANDSHAKE) <==> EndsWith(t, FIRST) && b == 0xCC)
            && (EndsWith(u, FIRST) <==> EndsWith(t, START) && b == 0x33)
            && (EndsWith(u, START) <==> b == 0xFF)
            && !(EndsWith(t, FIRST) && EndsWith(t, START))
  {
    hide EndsWith;
    EndsIs(t);
    EndsIs(t + [b]);
  }

  lemma EndsIs(t: seq<byte>)
    ensures var n := |t|;
            && (EndsWith(t, START) <==> n >= 1 && t[n - 1] == 0xFF)
            && (EndsWith(t, FIRST) <==> n >= 2 && t[n - 2] == 0xFF && t[n - 1] == 0x33)
            && (EndsWith(t, HANDSHAKE) <==> n >= 3 && t[n - 3] == 0xFF && t[n - 2] == 0x33 && t[n - 1] == 0xCC)
  {
    var n := |t|;
    if n >= 3 && t[n - 3] == 0xFF && t[n - 2] == 0x33 && t[n - 1] == 0xCC {
      assert forall i :: 0 <= i < 3 ==> t[n - 3 + i] == HANDSHAKE[i];
    }
    if EndsWith(t, HANDSHAKE) {
      assert t[n - 3 + 0] == HANDSHAKE[0] && t[n - 3 + 1] == HANDSHAKE[1] && t[n - 3 + 2] == HANDSHAKE[2];
    }
    if EndsWith(t, FIRST) {
      assert t[n - 2 + 0] == FIRST[0] && t[n - 2 + 1] == FIRST[1];
    }
    if EndsWith(t, START) {
      assert t[n - 1 + 0] == START[0];
    }
  }

  lemma SeenIs(s: State)
    requires !s.sync.Synced?
    ensures s.sync == SyncOf(Seen(s))
  {
    hide EndsWith;
    EndsIs(Seen(s));
  }

  /** Over every stream in which the handshake is not complete before its end: a device that is not
      synchronised ends SYNCED exactly when the stream, behind what it has already seen, ends with the
      handshake; it answers each part of the handshake and nothing else, and nothing else changes. */
  lemma {:induction false} HandshakeLaw(s: State, stream: seq<byte>)
    requires Valid(s) && !s.sync.Synced? && NotEarlier(Seen(s), stream)
    ensures Run(s, stream) == Outcome(s.(sync := SyncOf(Seen(s) + stream)), AnswersTo(Seen(s), stream))
    decreases |stream|
  {
    hide Receive, SyncOf, AnswerTo, EndsWith, Seen;
    var t := Seen(s);
    if stream == [] {
      SeenIs(s);
      assert t + [] == t;
    } else {
      var n := |stream| - 1;
      var init, b := stream[..n], stream[n];
      forall i | 0 <= i < n
        ensures !EndsWith(t + init[..i], HANDSHAKE)
      {
        assert init[..i] == stream[..i];
      }
      HandshakeLaw(s, init);
      NotSynced(t + init);
      OneByte(s.(sync := SyncOf(t + init)), t + init, b);
      assert t + init + [b] == t + stream;
    }
  }

  lemma NotSynced(t: seq<byte>)
    requires !EndsWith(t, HANDSHAKE)
    ensures !SyncOf(t).Synced?
  {
  }

  /** From reset: until the handshake is complete the device shows a centred pad, and right after it, in
      the fifteen reports before the watchdog, still does. */
  lemma FromReset(stream: seq<byte>)
    requires NotEarlier([], stream)
    ensures Valid(Initial()) && SelectedReport(Initial()) == IdleReport(false)
    ensures var r := Run(Initial(), stream);
            && r.sent == AnswersTo([], stream) && r.state.sync == SyncOf(stream) && r.state.millis == 0
            && SelectedReport(r.state) == SelectedReport(BeforeSend(r.state)) == IdleReport(false)
  {
    hide Run, SyncOf, AnswersTo, IdleReport, EndsWith;
    assert [] + stream == stream;
    HandshakeLaw(Initial(), stream);
  }

  /** So it is synchronised after some part of a stream exactly when the handshake is complete there. */
  lemma {:induction false} SyncsIff(s: State, stream: seq<byte>)
    requires Valid(s) && !s.sync.Synced?
    ensures (forall i :: 0 <= i <= |stream| ==> !Run(s, stream[..i]).state.sync.Synced?) <==>
            (forall i :: 0 <= i <= |stream| ==> !EndsWith(Seen(s) + stream[..i], HANDSHAKE))
    decreases |stream|
  {
    hide Run, EndsWith, Seen, SyncOf;
    var n := |stream|;
    assert stream[..n] == stream;
    if n == 0 {
      WholeStream(s, stream);
    } else {
      var init := stream[..n - 1];
      SyncsIff(s, init);
      assert forall i :: 0 <= i < n ==> init[..i] == stream[..i];
      if forall i :: 0 <= i < n ==> !EndsWith(Seen(s) + stream[..i], HANDSHAKE) {
        WholeStream(s, stream);
      }
    }
  }

  lemma WholeStream(s: State, stream: seq<byte>)
    requires Valid(s) && !s.sync.Synced? && NotEarlier(Seen(s), stream)
    ensures Run(s, stream).state.sync.Synced? <==> EndsWith(Seen(s) + stream, HANDSHAKE)
  {
    hide Run, EndsWith, Seen, AnswersTo;
    HandshakeLaw(s, stream);
  }
}
