/** How a socket connection's byte stream becomes lines, however the network cuts it. */
module Framing {
  import opened Bytes

  const NEWLINE: byte := 10

  // Lines put back together, each with its newline.
  function Join(lines: seq<seq<byte>>): seq<byte> {
    if lines == [] then [] else Join(lines[..|lines| - 1]) + lines[|lines| - 1] + [NEWLINE]
  }

  ghost predicate Unbroken(lines: seq<seq<byte>>) {
    forall i :: 0 <= i < |lines| ==> NEWLINE !in lines[i]
  }

  /** `lines` are the newline-terminated lines of `stream` and `residue` is what follows the last
      newline. */
  ghost predicate IsSplit(stream: seq<byte>, lines: seq<seq<byte>>, residue: seq<byte>) {
    stream == Join(lines) + residue && Unbroken(lines) && NEWLINE !in residue
  }

  // The bytes received before the peer closed the connection.
  function Received(chunks: seq<seq<byte>>): seq<byte> {
    if chunks == [] || chunks[0] == [] then [] else chunks[0] + Received(chunks[1..])
  }

  // A split says where the last newline is.
  lemma SplitEnd(stream: seq<byte>, lines: seq<seq<byte>>, residue: seq<byte>)
    requires IsSplit(stream, lines, residue)
    ensures |residue| <= |stream| && residue == stream[|stream| - |residue|..]
    ensures lines == [] ==> |residue| == |stream|
    ensures lines != [] ==> |residue| < |stream| && stream[|stream| - |residue| - 1] == NEWLINE
  {
    var joined := Join(lines);
    assert stream[|joined|..] == residue;
    if lines != [] {
      assert joined[|joined| - 1] == NEWLINE;
    }
  }

  /** A stream has at most one split, so the lines do not depend on how they were found. */
  lemma {:induction false} SplitUnique(
      stream: seq<byte>, lines: seq<seq<byte>>, residue: seq<byte>, lines': seq<seq<byte>>, residue': seq<byte>)
    requires IsSplit(stream, lines, residue) && IsSplit(stream, lines', residue')
    ensures lines == lines' && residue == residue'
    decreases |lines|
  {
    SplitEnd(stream, lines, residue);
    SplitEnd(stream, lines', residue');
    SameEnd(stream, |residue|, |residue'|);
    if lines != [] {
      var n, n' := |lines| - 1, |lines'| - 1;
      var body := stream[..|stream| - |residue| - 1];
      assert body == Join(lines[..n]) + lines[n];
      assert body == Join(lines'[..n']) + lines'[n'];
      SplitUnique(body, lines[..n], lines[n], lines'[..n'], lines'[n']);
      assert lines == lines[..n] + [lines[n]];
      assert lines' == lines'[..n'] + [lines'[n']];
    }
  }

  // Two tails without a newline, each preceded by one or covering the stream, have the same length.
  lemma SameEnd(stream: seq<byte>, a: nat, b: nat)
    requires a <= |stream| && NEWLINE !in stream[|stream| - a..]
    requires a < |stream| ==> stream[|stream| - a - 1] == NEWLINE
    requires b <= |stream| && NEWLINE !in stream[|stream| - b..]
    requires b < |stream| ==> stream[|stream| - b - 1] == NEWLINE
    ensures a == b
  {
  }

  // Where buf.split(b"\n", 1) cuts.
  method FindNewline(buf: seq<byte>) returns (k: nat)
    requires NEWLINE in buf
    ensures k < |buf| && buf[k] == NEWLINE && NEWLINE !in buf[..k]
  {
    k := 0;
    while buf[k] != NEWLINE
      invariant k < |buf| && NEWLINE !in buf[..k]
      decreases |buf| - k
    {
      assert buf == buf[..k] + [buf[k]] + buf[k + 1..];
      k := k + 1;
    }
  }

  // The inner loop: every complete line of the buffer, in order.
  method TakeLines(before: seq<seq<byte>>, buf: seq<byte>) returns (lines: seq<seq<byte>>, residue: seq<byte>)
    requires Unbroken(before)
    ensures IsSplit(Join(before) + buf, lines, residue)
  {
    lines, residue := before, buf;
    while NEWLINE in residue
      invariant Join(before) + buf == Join(lines) + residue
      invariant Unbroken(lines)
      decreases |residue|
    {
      var k := FindNewline(residue);
      assert residue == residue[..k] + [NEWLINE] + residue[k + 1..];
      lines := lines + [residue[..k]];
      assert lines[..|lines| - 1] + [lines[|lines| - 1]] == lines;
      residue := residue[k + 1..];
    }
  }

  /** The receive loop of `_handle_client`: `lines` is what `_handle_line` is called with, in order. */
  method HandleClient(chunks: seq<seq<byte>>) returns (lines: seq<seq<byte>>, residue: seq<byte>)
    ensures IsSplit(Received(chunks), lines, residue)
  {
    hide Join, Received, Unbroken;
    NothingReceived();
    lines, residue := [], [];
    var i := 0;
    while i < |chunks| && chunks[i] != []
      invariant i <= |chunks|
      invariant Received(chunks) == Join(lines) + residue + Received(chunks[i..])
      invariant Unbroken(lines) && NEWLINE !in residue
    {
      ghost var before, later := Join(lines) + residue, Received(chunks[i + 1..]);
      ReceivedStep(chunks, i);
      assert before + (chunks[i] + later) == Join(lines) + (residue + chunks[i]) + later;
      lines, residue := TakeLines(lines, residue + chunks[i]);
      i := i + 1;
    }
    ReceivedEnd(chunks, i);
  }

  lemma NothingReceived()
    ensures Join([]) == [] && Unbroken([])
  {
  }

  lemma ReceivedStep(chunks: seq<seq<byte>>, i: nat)
    requires i < |chunks| && chunks[i] != []
    ensures Received(chunks[i..]) == chunks[i] + Received(chunks[i + 1..])
  {
    assert chunks[i..][1..] == chunks[i + 1..];
  }

  lemma ReceivedEnd(chunks: seq<seq<byte>>, i: nat)
    requires i == |chunks| || (i < |chunks| && chunks[i] == [])
    ensures Received(chunks[i..]) == []
  {
  }
}
