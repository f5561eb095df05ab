/**
  The `Writer` of internal/response/writer.go and the chunked transfer
  coding it writes (section 7.1 of RFC 9112). The writer keeps no state of
  its own besides the sink it writes to: it checks no order of calls, and
  every call only appends to the sink's output.
*/
module ResponseWriter {
  import opened Text
  import Headers
  import Response

  // ---------------------------------------------------------------------------
  // Chunked transfer coding

  /** One chunk as `WriteChunkedBody` formats it: `%X` of the length, CRLF, the data, CRLF. */
  function ChunkText(p: Bytes): (r: Bytes)
    ensures |r| == |Hex(|p|)| + |p| + 4
  {
    Hex(|p|) + CRLF + p + CRLF
  }

  /** The last chunk as `WriteChunkedBodyDone` writes it; the trailer section follows it. */
  const LastChunk: Bytes := "0\r\n"

  /** Decoded chunk data and what follows the last chunk. */
  datatype Decoded = Decoded(data: Bytes, rest: Bytes)

  /** One chunk read off the front of some bytes: the last chunk, or data and what follows it. */
  datatype Chunk = Last(rest: Bytes) | Data(data: Bytes, next: Bytes)

  /**
    The chunk at the front of `s`: a size line of hexadecimal digits, at least
    one, up to the first CRLF; size zero is the last chunk, otherwise that many
    bytes of data follow, then CRLF.
  */
  function ReadChunk(s: Bytes): (r: Option<Chunk>)
    ensures r.Some? && r.value.Data? ==> |r.value.next| < |s|
  {
    var i := Index(s, CRLF);
    if i <= 0 || !AllHex(s[..i]) then None
    else
      var size := HexValue(s[..i]);
      if size == 0 then Some(Last(s[i + 2..]))
      else
        var end := i + 2 + size;
        if |s| < end + 2 || s[end..end + 2] != CRLF then None
        else Some(Data(s[i + 2..end], s[end + 2..]))
  }

  /** A decoder for chunked coding: chunks are read until the last chunk. */
  function DecodeChunked(s: Bytes): Option<Decoded>
    decreases |s|
  {
    match ReadChunk(s)
    case None => None
    case Some(Last(rest)) => Some(Decoded([], rest))
    case Some(Data(p, next)) => Prepend(p, DecodeChunked(next))
  }

  /** The data of one chunk put in front of what the following chunks decode to. */
  function Prepend(p: Bytes, d: Option<Decoded>): Option<Decoded> {
    match d
    case None => None
    case Some(d) => Some(Decoded(p + d.data, d.rest))
  }

  /** The chunks of `ps`, one after the other. */
  function Chunks(ps: seq<Bytes>): Bytes
    decreases |ps|
  {
    if ps == [] then [] else ChunkText(ps[0]) + Chunks(ps[1..])
  }

  function Concat(ps: seq<Bytes>): Bytes
    decreases |ps|
  {
    if ps == [] then [] else ps[0] + Concat(ps[1..])
  }

  lemma HexNoCRLF(n: nat)
    ensures Index(Hex(n) + CRLF, CRLF) == |Hex(n)|
  {
    var h := Hex(n);
    assert forall i :: 0 <= i < |h| ==> h[i] != '\r';
    NoCRNoCRLF(h);
    IndexCRLFAfter(h, []);
    assert h + CRLF + [] == h + CRLF;
  }

  /** The size line of a chunk is found and read back as the length of its data. */
  lemma SizeLine(p: Bytes, rest: Bytes, s: Bytes)
    requires s == ChunkText(p) + rest
    ensures Index(s, CRLF) == |Hex(|p|)| > 0
    ensures AllHex(s[..|Hex(|p|)|]) && HexValue(s[..|Hex(|p|)|]) == |p|
  {
    var h := Hex(|p|);
    HexNoCRLF(|p|);
    assert s == (h + CRLF) + (p + CRLF + rest);
    IndexExtend(h + CRLF, p + CRLF + rest, CRLF);
    assert s[..|h|] == h;
    HexValueOf(|p|);
  }

  /** A non-empty chunk is read back as its data, followed by what comes after it. */
  lemma ReadDataChunk(p: Bytes, rest: Bytes, s: Bytes)
    requires p != [] && s == ChunkText(p) + rest
    ensures ReadChunk(s) == Some(Data(p, rest))
  {
    SizeLine(p, rest, s);
    ChunkParts(p, rest, s);
  }

  /** A non-empty chunk decodes to its data, then decoding goes on after it. */
  lemma DecodeChunk(p: Bytes, rest: Bytes, s: Bytes)
    requires p != [] && s == ChunkText(p) + rest
    ensures DecodeChunked(s) == Prepend(p, DecodeChunked(rest))
  {
    ReadDataChunk(p, rest, s);
  }

  lemma ChunkParts(p: Bytes, rest: Bytes, s: Bytes)
    requires s == ChunkText(p) + rest
    ensures var i := |Hex(|p|)|;
      |s| >= i + 4 + |p| && s[i + 2..i + 2 + |p|] == p && s[i + 2 + |p|..i + 4 + |p|] == CRLF
      && s[i + 4 + |p|..] == rest
  {
  }

  /** The last chunk ends the data; what follows it is left for the trailer section. */
  lemma DecodeLastChunk(rest: Bytes, s: Bytes)
    requires s == LastChunk + rest
    ensures DecodeChunked(s) == Some(Decoded([], rest))
  {
    IndexCRLFAfter("0", rest);
    assert s == "0" + CRLF + rest;
    assert s[..1] == "0";
    assert HexValue("0") == HexValue([]) * 16 + 0;
  }

  /**
    Non-empty chunks followed by the last chunk decode to the concatenation
    of their data, and the decoder stops right after the last chunk.
  */
  lemma {:induction false} ChunkedRoundTrip(ps: seq<Bytes>, rest: Bytes)
    requires forall i :: 0 <= i < |ps| ==> ps[i] != []
    ensures DecodeChunked(Chunks(ps) + LastChunk + rest) == Some(Decoded(Concat(ps), rest))
    decreases |ps|
  {
    if ps == [] {
      DecodeLastChunk(rest, Chunks(ps) + LastChunk + rest);
    } else {
      var tail := Chunks(ps[1..]) + LastChunk + rest;
      assert Chunks(ps) + LastChunk + rest == ChunkText(ps[0]) + tail;
      DecodeChunk(ps[0], tail, ChunkText(ps[0]) + tail);
      ChunkedRoundTrip(ps[1..], rest);
    }
  }

  /**
    `WriteChunkedBody` with empty data writes "0\r\n\r\n": a last chunk and
    an empty trailer section, so a decoder takes the body to end there.
  */
  lemma EmptyChunkEndsBody(rest: Bytes)
    ensures ChunkText([]) == LastChunk + CRLF
    ensures DecodeChunked(ChunkText([]) + rest) == Some(Decoded([], CRLF + rest))
  {
    assert Hex(0) == "0";
    DecodeLastChunk(CRLF + rest, ChunkText([]) + rest);
  }

  lemma ThreeByteChunk(p: Bytes)
    requires |p| == 3
    ensures ChunkText(p) == "3\r\n" + p + "\r\n"
  {
    assert Hex(3) == "3";
  }

  /** "foo" and "bar" as two chunks, then the last chunk. */
  lemma FooBarChunks()
    ensures ChunkText("foo") + ChunkText("bar") + LastChunk == "3\r\n" + "foo" + "\r\n" + "3\r\n" + "bar" + "\r\n" + "0\r\n"
  {
    ThreeByteChunk("foo");
    ThreeByteChunk("bar");
  }

  /** Decoding the chunks "foo" and "bar" and the last chunk gives back "foobar". */
  lemma FooBarDecoded()
    ensures DecodeChunked(ChunkText("foo") + ChunkText("bar") + LastChunk) == Some(Decoded("foobar", []))
  {
    var ps: seq<Bytes> := ["foo", "bar"];
    assert ps[1..] == ["bar"] && ps[1..][1..] == [];
    assert Chunks(ps) == ChunkText("foo") + ChunkText("bar");
    assert Concat(ps) == "foobar";
    ChunkedRoundTrip(ps, []);
    assert Chunks(ps) + LastChunk + [] == ChunkText("foo") + ChunkText("bar") + LastChunk;
  }

  /** The last chunk followed by an empty trailer section is "0\r\n\r\n". */
  lemma LastChunkEmptyTrailers()
    ensures LastChunk + Response.HeaderBlock(map[], []) == "0\r\n\r\n"
  {
  }

  // ---------------------------------------------------------------------------
  // The writer

  /** `Writer`: its only state is the sink (a connection) it writes to. */
  class Writer {
    const writer: Response.Sink

    /** `NewWriter`. */
    constructor (conn: Response.Sink)
      ensures writer == conn
    {
      writer := conn;
    }

    method WriteStatusLine(code: Response.StatusCode) returns (err: Option<Response.WriteError>)
      modifies writer
      ensures err.None? ==> writer.output == old(writer.output) + Response.GetStatusLine(code)
      ensures err.Some? ==> writer.output == old(writer.output)
      ensures err == writer.lastError
    {
      err := Response.WriteStatusLine(writer, code);
    }

    method WriteHeaders(h: Headers.Fields) returns (err: Option<Response.WriteError>, ghost order: seq<Bytes>)
      modifies writer
      ensures Response.Lists(order, h)
      ensures err.None? ==>
        Response.Enumerates(order, h) && writer.output == old(writer.output) + Response.HeaderBlock(h, order)
      ensures err.Some? ==> writer.output == old(writer.output) + Response.Lines(h, order)
      ensures err == writer.lastError
    {
      err, order := Response.WriteHeaders(writer, h);
    }

    /** One write of `p`: all of it and its length, or nothing and the error. */
    method WriteBody(p: Bytes) returns (n: nat, err: Option<Response.WriteError>)
      modifies writer
      ensures err.None? ==> n == |p| && writer.output == old(writer.output) + p
      ensures err.Some? ==> n == 0 && writer.output == old(writer.output)
      ensures err == writer.lastError
    {
      n, err := writer.Write(p);
      if err.Some? {
        n := 0;
      }
    }

    /** One chunk; the count returned is that of the framed chunk, not of `p`. */
    method WriteChunkedBody(p: Bytes) returns (n: nat, err: Option<Response.WriteError>)
      modifies writer
      ensures err.None? ==> n == |Hex(|p|)| + |p| + 4 && writer.output == old(writer.output) + ChunkText(p)
      ensures err.Some? ==> n == 0 && writer.output == old(writer.output)
      ensures err == writer.lastError
    {
      n, err := WriteBody(ChunkText(p));
    }

    method WriteChunkedBodyDone() returns (err: Option<Response.WriteError>)
      modifies writer
      ensures err.None? ==> writer.output == old(writer.output) + LastChunk
      ensures err.Some? ==> writer.output == old(writer.output)
      ensures err == writer.lastError
    {
      var n;
      n, err := writer.Write(LastChunk);
    }

    /** Trailers are written exactly as headers are. */
    method WriteTrailers(h: Headers.Fields) returns (err: Option<Response.WriteError>, ghost order: seq<Bytes>)
      modifies writer
      ensures Response.Lists(order, h)
      ensures err.None? ==>
        Response.Enumerates(order, h) && writer.output == old(writer.output) + Response.HeaderBlock(h, order)
      ensures err.Some? ==> writer.output == old(writer.output) + Response.Lines(h, order)
      ensures err == writer.lastError
    {
      err, order := WriteHeaders(h);
    }
  }
}
