/** The newline splitter of the stats services: reads of any size in, whole lines out. */
module LineSplitter {
  import opened Bytes

  const NEWLINE: byte := 10

  ghost predicate OneLine(b: bytes) {
    NEWLINE !in b
  }

  // The text of a list of lines, each with its newline.
  ghost function Text(lines: seq<bytes>): bytes {
    if lines == [] then [] else (lines[0] + [NEWLINE]) + Text(lines[1..])
  }

  ghost function NonEmpty(lines: seq<bytes>): seq<bytes> {
    if lines == [] then []
    else (if lines[0] == [] then [] else [lines[0]]) + NonEmpty(lines[1..])
  }

  // How a stream divides: whole lines, and a tail without a newline.
  ghost predicate Divides(stream: bytes, lines: seq<bytes>, tail: bytes) {
    && stream == Text(lines) + tail && OneLine(tail)
    && forall i :: 0 <= i < |lines| ==> OneLine(lines[i])
  }

  lemma {:induction false} TextSplit(a: seq<bytes>, b: seq<bytes>)
    ensures Text(a + b) == Text(a) + Text(b) && NonEmpty(a + b) == NonEmpty(a) + NonEmpty(b)
  {
    if a == [] {
      assert a + b == b && Text(a) == [] && NonEmpty(a) == [];
    } else {
      var line, rest := a[0] + [NEWLINE], a[1..];
      var first := if a[0] == [] then [] else [a[0]];
      TextSplit(rest, b);
      assert (a + b)[1..] == rest + b && (a + b)[0] == a[0];
      assert (line + Text(rest)) + Text(b) == line + (Text(rest) + Text(b));
      assert (first + NonEmpty(rest)) + NonEmpty(b) == first + (NonEmpty(rest) + NonEmpty(b));
    }
  }

  lemma TextAppend(lines: seq<bytes>, line: bytes)
    ensures Text(lines + [line]) == Text(lines) + (line + [NEWLINE])
    ensures NonEmpty(lines + [line]) == NonEmpty(lines) + if line == [] then [] else [line]
  {
    TextSplit(lines, [line]);
    assert Text([line]) == line + [NEWLINE];
    assert NonEmpty([line]) == if line == [] then [] else [line];
  }

  // What is handled: every line that is not empty, as often as it came.
  lemma {:induction false} NonEmptyExact(lines: seq<bytes>, line: bytes)
    ensures multiset(NonEmpty(lines))[line] == if line == [] then 0 else multiset(lines)[line]
  {
    if lines != [] {
      NonEmptyExact(lines[1..], line);
      assert lines == [lines[0]] + lines[1..];
    }
  }

  // A line ends at byte 10, which is no part of it.
  lemma LineExample(a: byte, b: byte)
    requires a != 10 && b != 10
    ensures Divides([a, 10, 10, b], [[a], []], [b]) && NonEmpty([[a], []]) == [[a]]
  {
    TextAppend([], [a]);
    TextAppend([[a]], []);
    assert [] + [[a]] == [[a]] && [[a]] + [[]] == [[a], []];
    assert Text([[a], []]) == [a, 10, 10];
  }

  ghost predicate FirstNewline(b: bytes, at: nat) {
    at < |b| && b[at] == NEWLINE && OneLine(b[..at])
  }

  lemma FirstNewlineUnique(b: bytes, i: nat, j: nat)
    requires FirstNewline(b, i) && FirstNewline(b, j)
    ensures i == j
  {
    assert forall k :: 0 <= k < i ==> b[k] == b[..i][k];
    assert forall k :: 0 <= k < j ==> b[k] == b[..j][k];
  }

  lemma FirstLine(line: bytes, rest: bytes, line': bytes, rest': bytes)
    requires OneLine(line) && OneLine(line') && (line + [NEWLINE]) + rest == (line' + [NEWLINE]) + rest'
    ensures line == line' && rest == rest'
  {
    var a, b := (line + [NEWLINE]) + rest, (line' + [NEWLINE]) + rest';
    assert a[..|line|] == line && b[..|line'|] == line';
    FirstNewlineUnique(a, |line|, |line'|);
    assert rest == a[|line| + 1..] && rest' == b[|line'| + 1..];
  }

  // There is one way to divide a stream.
  lemma {:induction false} DivisionUnique(stream: bytes, lines: seq<bytes>, tail: bytes, lines': seq<bytes>,
                                          tail': bytes)
    requires Divides(stream, lines, tail) && Divides(stream, lines', tail')
    ensures lines == lines' && tail == tail'
    decreases |lines|
  {
    if lines == [] || lines' == [] {
      HasNewline(lines, tail);
      HasNewline(lines', tail');
      assert [] + tail == tail && [] + tail' == tail';
    } else {
      var rest, rest' := Text(lines[1..]) + tail, Text(lines'[1..]) + tail';
      assert stream == (lines[0] + [NEWLINE]) + rest;
      assert stream == (lines'[0] + [NEWLINE]) + rest';
      FirstLine(lines[0], rest, lines'[0], rest');
      DivisionUnique(rest, lines[1..], tail, lines'[1..], tail');
      assert lines == [lines[0]] + lines[1..] && lines' == [lines'[0]] + lines'[1..];
    }
  }

  lemma HasNewline(lines: seq<bytes>, tail: bytes)
    ensures lines != [] ==> NEWLINE in Text(lines) + tail
  {
    if lines != [] {
      assert (lines[0] + [NEWLINE])[|lines[0]|] == NEWLINE;
      assert (Text(lines) + tail)[|lines[0]|] == NEWLINE;
    }
  }

  // The index of the first newline, or none.
  method Position(b: bytes) returns (at: Option<nat>)
    ensures at == None ==> OneLine(b)
    ensures at.Some? ==> FirstNewline(b, at.value)
  {
    for i := 0 to |b|
      invariant OneLine(b[..i])
    {
      if b[i] == NEWLINE {
        return Some(i);
      }
    }
    assert b[..|b|] == b;
    return None;
  }

  // The inner loop: takes whole lines off the front, and hands on those that are not empty.
  method Drain(pending: bytes) returns (handled: seq<bytes>, leftover: bytes)
    ensures exists lines :: Divides(pending, lines, leftover) && handled == NonEmpty(lines)
  {
    leftover, handled := pending, [];
    ghost var lines := [];
    assert Text([]) + pending == pending;
    var at := Position(leftover);
    while at.Some?
      invariant pending == Text(lines) + leftover && handled == NonEmpty(lines)
      invariant forall i :: 0 <= i < |lines| ==> OneLine(lines[i])
      invariant at == None ==> OneLine(leftover)
      invariant at.Some? ==> 0 <= at.value && FirstNewline(leftover, at.value)
      decreases |leftover|
    {
      var line := leftover[..at.value];
      if line != [] {
        handled := handled + [line];
      }
      TextAppend(lines, line);
      assert Text(lines) + leftover == (Text(lines) + (line + [NEWLINE])) + leftover[at.value + 1..];
      lines := lines + [line];
      leftover := leftover[at.value + 1..];
      at := Position(leftover);
    }
  }

  lemma DivideNothing()
    ensures Divides([], [], []) && NonEmpty([]) == []
  {
  }

  // A stream divided so far, and its tail divided with one more read.
  lemma DivideOn(stream: bytes, lines: seq<bytes>, tail: bytes, chunk: bytes, more: seq<bytes>, tail': bytes)
    requires Divides(stream, lines, tail) && Divides(tail + chunk, more, tail')
    ensures Divides(stream + chunk, lines + more, tail')
  {
    hide Text, NonEmpty, OneLine;
    TextSplit(lines, more);
    assert stream + chunk == Text(lines) + (tail + chunk);
    assert Text(lines) + (Text(more) + tail') == Text(lines + more) + tail';
  }

  // The bytes of the reads up to the first empty one, which is the peer's close.
  ghost function Received(chunks: seq<bytes>): bytes {
    if chunks == [] || chunks[0] == [] then [] else chunks[0] + Received(chunks[1..])
  }

  // `handle_pool_connection`: however the stream was cut into reads, the messages handled are its
  // non-empty lines in order, and what is left over is its unterminated tail.
  method HandlePoolConnection(chunks: seq<bytes>) returns (handled: seq<bytes>, leftover: bytes)
    ensures exists lines :: Divides(Received(chunks), lines, leftover)
    ensures forall lines, tail :: Divides(Received(chunks), lines, tail) ==>
            handled == NonEmpty(lines) && leftover == tail
  {
    hide Divides, NonEmpty;
    handled, leftover := [], [];
    var i := 0;
    ghost var lines, stream := [], [];
    DivideNothing();
    while i < |chunks|
      invariant i <= |chunks| && handled == NonEmpty(lines)
      invariant Divides(stream, lines, leftover)
      invariant Received(chunks) == stream + Received(chunks[i..])
    {
      var read := chunks[i];
      if read == [] {
        break;
      }
      ghost var tail := leftover;
      var more, rest := Drain(leftover + read);
      ghost var moreLines :| Divides(tail + read, moreLines, rest) && more == NonEmpty(moreLines);
      DivideOn(stream, lines, tail, read, moreLines, rest);
      TextSplit(lines, moreLines);
      assert chunks[i..][1..] == chunks[i + 1..];
      assert stream + (read + Received(chunks[i + 1..])) == (stream + read) + Received(chunks[i + 1..]);
      handled, leftover := handled + more, rest;
      lines, stream := lines + moreLines, stream + read;
      i := i + 1;
    }
    assert stream + [] == stream;
    assert Received(chunks) == stream;
    forall lines', tail | Divides(Received(chunks), lines', tail)
      ensures handled == NonEmpty(lines') && leftover == tail
    {
      DivisionUnique(stream, lines, leftover, lines', tail);
    }
  }
}
