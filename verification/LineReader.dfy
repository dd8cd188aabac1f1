/** Reading one line of a stream without ever holding more than a limit: clientapi/v1/lineio.go. */
module LineReader {
  import opened Outcomes

  type Byte = b: int | 0 <= b < 256

  const NEWLINE: Byte := 10

  type Bytes = seq<Byte>

  /** How the stream ends: at end of input, or with a transport error. */
  datatype End = EndOfInput | ReadFailed

  datatype ReadError = LimitNotPositive | LineTooLarge | Ended(end: End)

  /** What `readBoundedLine` returns: the bytes, and an error or none. */
  datatype Line = Line(bytes: Bytes, error: Option<ReadError>)

  /** The bytes through the first newline, or all of them. */
  function FirstLine(s: Bytes): (r: Bytes)
    ensures r <= s
  {
    if s == [] then [] else if s[0] == NEWLINE then s[..1] else s[..1] + FirstLine(s[1..])
  }

  /** Bytes without a newline only extend the line that follows. */
  lemma {:induction false} FirstLineAfter(part: Bytes, rest: Bytes)
    requires NEWLINE !in part
    ensures FirstLine(part + rest) == part + FirstLine(rest)
  {
    if part == [] {
      assert part + rest == rest;
    } else {
      FirstLineAfter(part[1..], rest);
      assert (part + rest)[1..] == part[1..] + rest;
      assert (part + rest)[..1] == part[..1];
      assert (part + rest)[0] == part[0];
      assert part == part[..1] + part[1..];
    }
  }

  /** A line holds a newline at its end or not at all. */
  lemma {:induction false} FirstLineShape(s: Bytes)
    ensures NEWLINE !in s ==> FirstLine(s) == s
    ensures NEWLINE in s ==> FirstLine(s) != [] && NEWLINE in FirstLine(s)
    ensures FirstLine(s) != [] ==> NEWLINE !in FirstLine(s)[..|FirstLine(s)| - 1]
  {
    if s != [] && s[0] != NEWLINE {
      var tail := FirstLine(s[1..]);
      FirstLineShape(s[1..]);
      assert s == s[..1] + s[1..];
      if tail != [] {
        assert FirstLine(s)[..|FirstLine(s)| - 1] == s[..1] + tail[..|tail| - 1];
      }
    }
  }

  /** The line as one would take it from the whole stream. */
  function BoundedLine(s: Bytes, end: End, limit: int): Line {
    if limit <= 0 then Line([], Some(LimitNotPositive))
    else if |FirstLine(s)| > limit then Line([], Some(LineTooLarge))
    else Line(FirstLine(s), if NEWLINE in s then None else Some(Ended(end)))
  }

  /** The first newline, at position `i`, ends the line, and the stream's end does not matter. */
  lemma LineEndsAt(s: Bytes, end: End, limit: int, i: nat)
    requires limit > 0 && i < |s| && s[i] == NEWLINE && NEWLINE !in s[..i]
    ensures BoundedLine(s, end, limit) == if i < limit then Line(s[..i + 1], None) else Line([], Some(LineTooLarge))
  {
    FirstLineAfter(s[..i], s[i..]);
    assert s == s[..i] + s[i..];
    StartsWithNewline(s[i..]);
    hide FirstLine;
    assert s[..i + 1] == s[..i] + [NEWLINE];
  }

  lemma StartsWithNewline(s: Bytes)
    requires s != [] && s[0] == NEWLINE
    ensures FirstLine(s) == [NEWLINE]
  {
  }

  /** Only a limit that is not positive is refused as one. */
  lemma LimitMustBePositive(s: Bytes, end: End, limit: int)
    ensures BoundedLine(s, end, limit) == Line([], Some(LimitNotPositive)) <==> limit < 1
  {
    hide FirstLine;
  }

  /** Without a newline the line is all there is, and how the stream ended is reported. */
  lemma LineRunsOut(s: Bytes, end: End, limit: int)
    requires limit > 0 && NEWLINE !in s
    ensures BoundedLine(s, end, limit) ==
            if |s| > limit then Line([], Some(LineTooLarge))
            else if end == EndOfInput then Line(s, Some(Ended(EndOfInput)))
            else Line(s, Some(Ended(ReadFailed)))
  {
    hide FirstLine;
    FirstLineShape(s);
  }

  datatype ReadSliceError = BufferFull | StreamEnded

  /** A buffered reader over the bytes still to come. Where its buffer happens to fill up is not
      determined: `splits` says it, one entry for each time. */
  class BufferedReader {
    var rest: Bytes
    var splits: seq<nat>
    const end: End

    constructor (stream: Bytes, end: End, splits: seq<nat>)
      ensures rest == stream && this.end == end && this.splits == splits
    {
      this.rest, this.end, this.splits := stream, end, splits;
    }

    /** `ReadSlice('\n')`: through the newline, or a full buffer that holds none, or what is left. */
    method ReadSlice() returns (part: Bytes, error: Option<ReadSliceError>)
      modifies this
      ensures part + rest == old(rest) && |splits| <= |old(splits)|
      ensures error.None? ==> part != [] && part == FirstLine(old(rest)) && NEWLINE in old(rest)
      ensures error.Some? ==> NEWLINE !in part
      ensures error == Some(BufferFull) ==> part != []
      ensures error == Some(StreamEnded) ==> rest == []
    {
      hide FirstLine;
      var line := FirstLine(rest);
      FirstLineShape(rest);
      if splits != [] && 0 < splits[0] && (splits[0] < |line| || (splits[0] == |line| && NEWLINE !in rest)) {
        var size := splits[0];
        if size < |line| {
          PrefixHasNoNewline(rest, size);
        }
        part := rest[..size];
        rest := rest[size..];
        splits := splits[1..];
        return part, Some(BufferFull);
      }
      part := line;
      if NEWLINE in rest {
        rest := rest[|line|..];
        return part, None;
      }
      rest := [];
      return part, Some(StreamEnded);
    }
  }

  lemma PrefixHasNoNewline(s: Bytes, n: nat)
    requires n < |FirstLine(s)|
    ensures NEWLINE !in s[..n]
  {
    hide FirstLine;
    FirstLineShape(s);
    var line := FirstLine(s);
    assert s[..n] == line[..|line| - 1][..n];
  }

  /** For every stream and every way the buffer splits it, the loop ends with the line one would take
      from the whole stream, and what it holds never exceeds the limit. A line that is returned is
      consumed and nothing beyond it. */
  method ReadBoundedLine(reader: BufferedReader, limit: int) returns (r: Line)
    modifies reader
    ensures r == BoundedLine(old(reader.rest), reader.end, limit)
    ensures limit <= 0 <==> r == Line([], Some(LimitNotPositive))
    ensures r.error != Some(LimitNotPositive) && r.error != Some(LineTooLarge) ==>
              r.bytes + reader.rest == old(reader.rest) && |r.bytes| <= limit
  {
    hide FirstLine;
    if limit <= 0 {
      return Line([], Some(LimitNotPositive));
    }
    ghost var stream := reader.rest;
    var out: Bytes := [];
    while true
      invariant out + reader.rest == stream && NEWLINE !in out
      invariant |out| <= limit
      decreases |reader.rest|
    {
      ghost var before := reader.rest;
      FirstLineAfter(out, before);
      var part, error := reader.ReadSlice();
      LineSoFar(part, reader.rest, before, error);
      assert out + part + reader.rest == stream;
      if |out| + |part| > limit {
        return Line([], Some(LineTooLarge));
      }
      out := out + part;
      if error.None? {
        assert NEWLINE in stream;
        return Line(out, None);
      }
      if error.value == StreamEnded {
        assert out == stream;
        return Line(out, Some(Ended(reader.end)));
      }
    }
  }

  /** What a slice says about the line it was taken from. */
  lemma LineSoFar(part: Bytes, rest: Bytes, before: Bytes, error: Option<ReadSliceError>)
    requires part + rest == before
    requires error.None? ==> part == FirstLine(before) && NEWLINE in before
    requires error.Some? ==> NEWLINE !in part
    requires error == Some(StreamEnded) ==> rest == []
    ensures |part| <= |FirstLine(before)|
    ensures error == Some(StreamEnded) ==> FirstLine(before) == part && before == part
  {
    hide FirstLine;
    if error.Some? {
      FirstLineAfter(part, rest);
      FirstLineShape(rest);
    }
  }
}
