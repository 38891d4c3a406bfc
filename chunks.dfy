/**
 * Chunk framing (ISO/IEC 15948, section 5.3): after the signature the file is a
 * sequence of chunks, each a 4-byte big-endian length, a 4-byte type, `length`
 * payload bytes and a 4-byte big-endian CRC over the type and the payload.
 *
 * Frame is the reading of a byte sequence as chunks, independent of what the
 * chunks mean; Encode is its inverse.
 */
module Chunks {
  import opened Wrappers
  import opened BigEndian

  /** One framed chunk as it appears in the stream; `length` is the stored length field. */
  datatype Chunk = Chunk(length: u32, tag: seq<byte>, data: seq<byte>, crc: u32)

  /** How framing stopped: cleanly (fewer than 8 bytes left for a chunk header),
      or in the middle of a chunk whose payload or CRC runs past the end. */
  datatype FrameEnd = CleanEnd | PayloadCut | CrcCut

  datatype Framing = Framing(chunks: seq<Chunk>, end: FrameEnd)

  /** A chunk that can be written: a 4-byte type and a length field that counts the payload. */
  ghost predicate WellFormed(c: Chunk)
  {
    |c.tag| == 4 && c.length == |c.data|
  }

  /** A checksum over bytes, such as the CRC-32 of module Crc32. */
  type Checksummer = seq<byte> -> u32

  /** The stored CRC equals the checksum of the type followed by the payload. */
  predicate CrcOk(c: Chunk, checksum: Checksummer)
  {
    c.crc == checksum(c.tag + c.data)
  }

  /** Number of bytes a chunk with payload length `len` occupies when the stream holds all of it. */
  function Size(len: u32): nat
  {
    12 + len
  }

  /** `body` begins with a complete chunk: a header, the payload its length field announces, and a CRC. */
  predicate HasChunk(body: seq<byte>)
  {
    |body| >= 8 && |body| >= Size(Decode32(body[..4]))
  }

  /** The complete chunk at the front of `body`. */
  function FirstChunk(body: seq<byte>): (c: Chunk)
    requires HasChunk(body)
  {
    var len := Decode32(body[..4]);
    Chunk(len, body[4..8], body[8..8 + len], Decode32(body[8 + len..Size(len)]))
  }

  /** What follows the complete chunk at the front of `body`. */
  function AfterFirst(body: seq<byte>): (rest: seq<byte>)
    requires HasChunk(body)
    ensures |rest| < |body|
  {
    body[Size(Decode32(body[..4]))..]
  }

  /** Reading at a cursor: the chunk at position `pos` of `input`, field by field. */
  lemma ChunkAt(input: seq<byte>, pos: nat)
    requires pos + 8 <= |input|
    ensures input[pos..][..4] == input[pos..pos + 4]
    ensures HasChunk(input[pos..]) <==> pos + Size(Decode32(input[pos..pos + 4])) <= |input|
    ensures HasChunk(input[pos..]) ==>
              var len := Decode32(input[pos..pos + 4]);
              FirstChunk(input[pos..]) == Chunk(len, input[pos + 4..pos + 8], input[pos + 8..pos + 8 + len],
                                                Decode32(input[pos + 8 + len..pos + 12 + len]))
              && AfterFirst(input[pos..]) == input[pos + 12 + len..]
  {
    var body := input[pos..];
    assert body[..4] == input[pos..pos + 4];
    if HasChunk(body) {
      var len := Decode32(body[..4]);
      assert body[4..8] == input[pos + 4..pos + 8];
      assert body[8..8 + len] == input[pos + 8..pos + 8 + len];
      assert body[8 + len..Size(len)] == input[pos + 8 + len..pos + 12 + len];
      assert body[Size(len)..] == input[pos + 12 + len..];
    }
  }

  /** The chunks at the front of `body`, in order, and how the reading stopped. There is
      a chunk exactly when a complete one is at the front, and each takes at least 12 bytes. */
  function Frame(body: seq<byte>): (f: Framing)
    ensures f.chunks != [] <==> HasChunk(body)
    ensures 12 * |f.chunks| <= |body|
    decreases |body|
  {
    if |body| < 8 then Framing([], CleanEnd)
    else if |body| - 8 < Decode32(body[..4]) then Framing([], PayloadCut)
    else if |body| - 8 - Decode32(body[..4]) < 4 then Framing([], CrcCut)
    else
      var rest := Frame(AfterFirst(body));
      Framing([FirstChunk(body)] + rest.chunks, rest.end)
  }

  /** The bytes of one chunk in the stream. */
  function Encode(c: Chunk): (b: seq<byte>)
    requires WellFormed(c)
    ensures |b| == Size(c.length)
  {
    Encode32(c.length) + c.tag + c.data + Encode32(c.crc)
  }

  /** The bytes of several chunks, one after another. */
  function EncodeAll(cs: seq<Chunk>): seq<byte>
    requires forall i :: 0 <= i < |cs| ==> WellFormed(cs[i])
  {
    if cs == [] then [] else Encode(cs[0]) + EncodeAll(cs[1..])
  }

  /** An encoded chunk at the front of a stream is read back, and what follows it is left. */
  lemma FirstChunkOfEncode(c: Chunk, rest: seq<byte>)
    requires WellFormed(c)
    ensures HasChunk(Encode(c) + rest)
    ensures FirstChunk(Encode(c) + rest) == c && AfterFirst(Encode(c) + rest) == rest
  {
    var body := Encode(c) + rest;
    var len := c.length;
    assert body[..4] == Encode32(len);
    DecodeEncode32(len);
    assert body[4..8] == c.tag;
    assert body[8..8 + len] == c.data;
    assert body[8 + len..Size(len)] == Encode32(c.crc);
    DecodeEncode32(c.crc);
    assert body[Size(len)..] == rest;
  }

  /** Framing reads an encoded chunk back, and then continues with what follows it. */
  lemma FrameEncode(c: Chunk, rest: seq<byte>)
    requires WellFormed(c)
    ensures Frame(Encode(c) + rest) == Framing([c] + Frame(rest).chunks, Frame(rest).end)
  {
    FirstChunkOfEncode(c, rest);
  }

  /** Encoding a non-empty list is encoding its first chunk followed by the rest. */
  lemma EncodeAllCons(cs: seq<Chunk>, tail: seq<byte>)
    requires cs != [] && forall i :: 0 <= i < |cs| ==> WellFormed(cs[i])
    ensures forall i :: 0 <= i < |cs[1..]| ==> WellFormed(cs[1..][i])
    ensures EncodeAll(cs) + tail == Encode(cs[0]) + (EncodeAll(cs[1..]) + tail)
  {
    forall i | 0 <= i < |cs[1..]| ensures WellFormed(cs[1..][i]) {
      assert cs[1..][i] == cs[i + 1];
    }
  }

  /** Framing is the inverse of encoding: encoded chunks are read back, and framing then
      continues with what follows them (with nothing after them, it ends cleanly). */
  lemma {:induction false} FrameEncodeAll(cs: seq<Chunk>, tail: seq<byte>)
    requires forall i :: 0 <= i < |cs| ==> WellFormed(cs[i])
    ensures Frame(EncodeAll(cs) + tail) == Framing(cs + Frame(tail).chunks, Frame(tail).end)
    decreases |cs|
  {
    var ts := Frame(tail).chunks;
    if cs == [] {
      assert EncodeAll(cs) + tail == tail && cs + ts == ts;
    } else {
      var after := EncodeAll(cs[1..]) + tail;
      EncodeAllCons(cs, tail);
      calc {
        Frame(EncodeAll(cs) + tail);
        Frame(Encode(cs[0]) + after);
        { FrameEncode(cs[0], after); }
        Framing([cs[0]] + Frame(after).chunks, Frame(after).end);
        { FrameEncodeAll(cs[1..], tail); }
        Framing([cs[0]] + (cs[1..] + ts), Frame(tail).end);
        { ConsAppend(cs, ts); }
        Framing(cs + ts, Frame(tail).end);
      }
    }
  }

  /** The chunk at the front of `body` is well formed and its encoding is the bytes it was read from. */
  lemma FirstChunkEncodes(body: seq<byte>)
    requires HasChunk(body)
    ensures WellFormed(FirstChunk(body))
    ensures body == Encode(FirstChunk(body)) + AfterFirst(body)
  {
    var len := Decode32(body[..4]);
    var c := FirstChunk(body);
    assert Encode(c) == body[..Size(len)] by {
      EncodeDecode32(body[..4]);
      EncodeDecode32(body[8 + len..Size(len)]);
      assert Encode32(c.length) == body[0..4] && Encode32(c.crc) == body[8 + len..Size(len)];
      Adjacent(body, 0, 4, 8);
      Adjacent(body, 0, 8, 8 + len as int);
      Adjacent(body, 0, 8 + len as int, Size(len));
    }
    assert body == body[..Size(len)] + body[Size(len)..];
  }

  /** Putting the head of a non-empty sequence back in front of its tail. */
  lemma ConsAppend<T>(xs: seq<T>, ys: seq<T>)
    requires xs != []
    ensures [xs[0]] + (xs[1..] + ys) == xs + ys
  {
    assert xs == [xs[0]] + xs[1..];
  }

  /** Two adjacent slices of a sequence make up the slice that spans both. */
  lemma Adjacent<T>(s: seq<T>, i: nat, j: nat, k: nat)
    requires i <= j <= k <= |s|
    ensures s[i..j] + s[j..k] == s[i..k]
  {
  }

  /** Framing consumes a prefix of the stream: every framed chunk is well formed, and
      re-encoding the framed chunks gives back the bytes they were read from. */
  lemma {:induction false} FrameIsPrefix(body: seq<byte>)
    ensures forall i :: 0 <= i < |Frame(body).chunks| ==> WellFormed(Frame(body).chunks[i])
    ensures |EncodeAll(Frame(body).chunks)| <= |body|
    ensures EncodeAll(Frame(body).chunks) == body[..|EncodeAll(Frame(body).chunks)|]
    decreases |body|
  {
    if HasChunk(body) {
      var tail := AfterFirst(body);
      FrameIsPrefix(tail);
      FirstChunkEncodes(body);
      var cs := Frame(body).chunks;
      assert cs == [FirstChunk(body)] + Frame(tail).chunks;
      assert cs[0] == FirstChunk(body) && cs[1..] == Frame(tail).chunks;
      assert EncodeAll(cs) == Encode(FirstChunk(body)) + EncodeAll(Frame(tail).chunks);
    }
  }
}
