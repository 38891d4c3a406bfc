/**
 * The PNG chunk-stream parser of package apng.
 *
 * `Image.Parse` checks the signature, then reads chunks one after another with a
 * cursor, skips a chunk whose CRC does not match, decodes IHDR, decompresses and
 * appends IDAT, notes IEND, and finally checks that IHDR, IDAT and IEND were all seen.
 *
 * The same behaviour is also given as functions of the input (`ParseOutcome`):
 * framing the bytes into chunks (`Chunks.Frame`), folding the per-chunk dispatch over
 * them (`Run`) and the final check (`Finish`). `Image.Parse` is proved to agree with
 * `ParseOutcome`, and the properties of the parser are proved about `ParseOutcome`
 * in module ApngProperties.
 */
module Apng {
  import opened Wrappers
  import opened BigEndian
  import opened Chunks

  /** The three chunks a PNG file must contain. */
  datatype Mandatory = IhdrChunk | IdatChunk | IendChunk

  /** Every way a parse can fail. */
  datatype Error =
    | SignatureRead          // not a single byte could be read for the signature
    | BadSignature           // the 8-byte signature buffer differs from the PNG signature
    | DataRead               // a chunk's payload runs past the end of the input
    | CrcRead                // a chunk's CRC field runs past the end of the input
    | OrderError             // an IDAT chunk before any IHDR chunk
    | IhdrSize               // an IHDR payload that is not 13 bytes long
    | Missing(which: Mandatory)  // the input ended without a mandatory chunk
    | Inflate(reason: string)    // the decompressor refused an IDAT payload

  /** The zlib decompressor, a collaborator outside the model: a payload either
      inflates to bytes or is refused with a reason. */
  type Inflater = seq<byte> -> Result<seq<byte>, string>

  /** The two library routines the parser calls: zlib decompression and the CRC-32
      checksum (crc32.ChecksumIEEE, which Crc32.Checksum computes). */
  datatype Library = Library(inflate: Inflater, checksum: Checksummer)

  /** The decoded IHDR chunk (ISO/IEC 15948, section 11.2.2). */
  datatype Ihdr = Ihdr(width: u32, height: u32, bitDepth: byte, colorType: byte,
                       compress: byte, filter: byte, interlace: byte)

  /** The zero value of Ihdr, which a fresh Image holds. */
  const NoIhdr := Ihdr(0, 0, 0, 0, 0, 0, 0)

  /** The PNG signature (ISO/IEC 15948, section 5.2). */
  const Signature: seq<byte> := [0x89, 0x50, 0x4E, 0x47, 0x0D, 0x0A, 0x1A, 0x0A]

  /** The chunk types the parser knows, as their four ASCII bytes. */
  const IhdrTag: seq<byte> := [0x49, 0x48, 0x44, 0x52]
  const IdatTag: seq<byte> := [0x49, 0x44, 0x41, 0x54]
  const IendTag: seq<byte> := [0x49, 0x45, 0x4E, 0x44]

  /** The 13-byte IHDR payload: width and height big-endian, then five single bytes.
      Width and height are the values whose big-endian encodings are bytes 0-3 and 4-7. */
  function DecodeIhdr(data: seq<byte>): (h: Ihdr)
    requires |data| == 13
    ensures Encode32(h.width) == data[0..4] && Encode32(h.height) == data[4..8]
  {
    EncodeDecode32(data[0..4]);
    EncodeDecode32(data[4..8]);
    Ihdr(Decode32(data[0..4]), Decode32(data[4..8]), data[8], data[9], data[10], data[11], data[12])
  }

  /** The IHDR payload that describes `h`. */
  function EncodeIhdr(h: Ihdr): (data: seq<byte>)
    ensures |data| == 13
  {
    Encode32(h.width) + Encode32(h.height) + [h.bitDepth, h.colorType, h.compress, h.filter, h.interlace]
  }

  /** The 8-byte buffer after one read of the signature: the first bytes of the input,
      padded with zeros when the input is shorter than 8 bytes. */
  function SignatureBuffer(input: seq<byte>): (buf: seq<byte>)
    ensures |buf| == 8
    ensures |input| >= 8 ==> buf == input[..8]
    ensures |input| < 8 ==> buf[..|input|] == input && forall i :: |input| <= i < 8 ==> buf[i] == 0
  {
    if |input| >= 8 then input[..8] else input + seq(8 - |input|, _ => 0)
  }

  /** Parser state between two chunks: what has been decoded and which mandatory chunks were seen. */
  datatype State = State(ihdr: Ihdr, idat: seq<byte>, seenIhdr: bool, seenIdat: bool, seenIend: bool)

  /** The state when the chunk loop starts, over the fields the Image already holds: no
      mandatory chunk has been seen yet, so ending here reports IHDR missing. */
  function Start(ihdr: Ihdr, idat: seq<byte>): (s: State)
    ensures s.ihdr == ihdr && s.idat == idat
    ensures Finish(s) == Some(Missing(IhdrChunk))
  {
    State(ihdr, idat, false, false, false)
  }

  /** `t` can follow `s`: the image data has only been appended to, and a mandatory chunk
      once seen stays seen. */
  predicate Extends(s: State, t: State)
  {
    && s.idat <= t.idat
    && (s.seenIhdr ==> t.seenIhdr)
    && (s.seenIdat ==> t.seenIdat)
    && (s.seenIend ==> t.seenIend)
  }

  /** What a chunk with a matching CRC does to the state, by its type, or the error that
      stops the parse. Only IHDR and IDAT chunks can fail, only IHDR changes the header,
      and the new state extends the old one. */
  function Apply(s: State, tag: seq<byte>, data: seq<byte>, inflate: Inflater): (r: Result<State, Error>)
    ensures r.Err? ==> tag == IhdrTag || tag == IdatTag
    ensures r.Ok? ==> Extends(s, r.value)
    ensures r.Ok? && r.value.ihdr != s.ihdr ==> tag == IhdrTag
  {
    if tag == IhdrTag then
      if |data| != 13 then Err(IhdrSize)
      else Ok(s.(ihdr := DecodeIhdr(data), seenIhdr := true))
    else if tag == IdatTag then
      if !s.seenIhdr then Err(OrderError)
      else match inflate(data)
        case Err(reason) => Err(Inflate(reason))
        case Ok(bytes) => Ok(s.(idat := s.idat + bytes, seenIdat := true))
    else if tag == IendTag then Ok(s.(seenIend := true))
    else Ok(s)
  }

  /** What one framed chunk does to the state: nothing when its CRC does not match, so
      only a chunk with a matching CRC can fail. */
  function Dispatch(s: State, c: Chunk, lib: Library): (r: Result<State, Error>)
    ensures r.Err? ==> CrcOk(c, lib.checksum)
    ensures r.Ok? ==> Extends(s, r.value)
  {
    if !CrcOk(c, lib.checksum) then Ok(s) else Apply(s, c.tag, c.data, lib.inflate)
  }

  /** The state after the last chunk processed, and the error that stopped the loop if any. */
  datatype RunResult = RunResult(state: State, err: Option<Error>)

  /** Dispatch the chunks in order, stopping at the first error. The state reached extends
      the state it started from. */
  function Run(s: State, cs: seq<Chunk>, lib: Library): (r: RunResult)
    ensures Extends(s, r.state)
    decreases |cs|
  {
    if cs == [] then RunResult(s, None)
    else match Dispatch(s, cs[0], lib)
      case Err(e) => RunResult(s, Some(e))
      case Ok(t) => Run(t, cs[1..], lib)
  }

  /** The check after the loop: the first mandatory chunk not seen, in the order IHDR, IDAT, IEND.
      It passes exactly when all three were seen, and otherwise reports a missing chunk. */
  function Finish(s: State): (e: Option<Error>)
    ensures e.None? <==> s.seenIhdr && s.seenIdat && s.seenIend
    ensures e.Some? ==> e.value.Missing? && (e.value.which == IhdrChunk <==> !s.seenIhdr)
  {
    if !s.seenIhdr then Some(Missing(IhdrChunk))
    else if !s.seenIdat then Some(Missing(IdatChunk))
    else if !s.seenIend then Some(Missing(IendChunk))
    else None
  }

  /** The result of Parse and the fields of the Image afterwards. */
  datatype Outcome = Outcome(err: Option<Error>, ihdr: Ihdr, idat: seq<byte>)

  /** Parsing the chunk stream `body` from state `s`, one chunk at a time as the loop of
      Parse does: stop cleanly when fewer than 8 bytes are left, fail when a payload or
      CRC is cut off, otherwise dispatch the chunk and go on after it. Whatever the
      outcome, the image data has only been appended to. */
  function Scan(s: State, body: seq<byte>, lib: Library): (o: Outcome)
    ensures s.idat <= o.idat
    decreases |body|
  {
    if |body| < 8 then Outcome(Finish(s), s.ihdr, s.idat)
    else if |body| - 8 < Decode32(body[..4]) then Outcome(Some(DataRead), s.ihdr, s.idat)
    else if |body| - 8 - Decode32(body[..4]) < 4 then Outcome(Some(CrcRead), s.ihdr, s.idat)
    else match Dispatch(s, FirstChunk(body), lib)
      case Err(e) => Outcome(Some(e), s.ihdr, s.idat)
      case Ok(t) => Scan(t, AfterFirst(body), lib)
  }

  /** Parsing the whole input into an Image whose fields were `ihdr0` and `idat0`. Only an
      input that starts with the signature can succeed, and the image data that was there
      stays in front. */
  function ParseOutcome(input: seq<byte>, lib: Library, ihdr0: Ihdr, idat0: seq<byte>): (o: Outcome)
    ensures o.err.None? ==> |input| >= 8 && input[..8] == Signature
    ensures idat0 <= o.idat
  {
    if |input| == 0 then Outcome(Some(SignatureRead), ihdr0, idat0)
    else if |input| < 8 || input[..8] != Signature then Outcome(Some(BadSignature), ihdr0, idat0)
    else Scan(Start(ihdr0, idat0), input[8..], lib)
  }

  /** One complete chunk: its dispatch either fails with the fields as they were, or the scan
      goes on from the new state after the chunk. */
  lemma ScanStep(s: State, body: seq<byte>, lib: Library)
    requires HasChunk(body)
    ensures var d := Dispatch(s, FirstChunk(body), lib);
            Scan(s, body, lib) ==
              if d.Err? then Outcome(Some(d.error), s.ihdr, s.idat) else Scan(d.value, AfterFirst(body), lib)
  {
  }

  /** A short read leaves a zero where the signature has 0x0A, so the buffer matches
      exactly when the input begins with the full signature. */
  lemma SignatureBufferMatches(input: seq<byte>)
    ensures SignatureBuffer(input) == Signature <==> |input| >= 8 && input[..8] == Signature
  {
    if |input| < 8 {
      assert SignatureBuffer(input)[7] != Signature[7];
    }
  }

  /** The decoded image: the IHDR fields and the decompressed image data. */
  class Image {
    var ihdr: Ihdr
    var idat: seq<byte>

    /** The zero Image. */
    constructor ()
      ensures ihdr == NoIhdr && idat == []
    {
      ihdr := NoIhdr;
      idat := [];
    }

    /** Decode an IHDR payload into `ihdr`; a payload of the wrong size changes nothing. */
    method ParseIhdr(data: seq<byte>) returns (err: Option<Error>)
      modifies this`ihdr
      ensures |data| != 13 ==> err == Some(IhdrSize) && ihdr == old(ihdr)
      ensures |data| == 13 ==> err == None && ihdr == DecodeIhdr(data)
    {
      if |data| != 13 {
        return Some(IhdrSize);
      }
      ihdr := ihdr.(width := Decode32(data[0..4]));
      ihdr := ihdr.(height := Decode32(data[4..8]));
      ihdr := ihdr.(bitDepth := data[8]);
      ihdr := ihdr.(colorType := data[9]);
      ihdr := ihdr.(compress := data[10]);
      ihdr := ihdr.(filter := data[11]);
      ihdr := ihdr.(interlace := data[12]);
      return None;
    }

    /** Decompress an IDAT payload and append it to `idat`; a refused payload changes nothing. */
    method ParseIdat(data: seq<byte>, inflate: Inflater) returns (err: Option<Error>)
      modifies this`idat
      ensures inflate(data).Ok? ==> err == None && idat == old(idat) + inflate(data).value
      ensures inflate(data).Err? ==> err == Some(Inflate(inflate(data).error)) && idat == old(idat)
    {
      var decoded := inflate(data);
      if decoded.Err? {
        return Some(Inflate(decoded.error));
      }
      if |idat| == 0 {
        idat := decoded.value;
      } else {
        idat := idat + decoded.value;
      }
      return None;
    }

    /** The switch on the chunk type in the loop of Parse, for a chunk whose CRC matched:
        IHDR is decoded, IDAT is refused before any IHDR and otherwise appended, IEND is
        noted, any other type is ignored. On an error the fields are as the failing
        operation left them, which is as they were. */
    method DispatchChunk(chunkType: seq<byte>, data: seq<byte>, seenIhdr: bool, seenIdat: bool, seenIend: bool,
                         inflate: Inflater)
      returns (err: Option<Error>, seenIhdr': bool, seenIdat': bool, seenIend': bool)
      modifies this
      ensures var s := State(old(ihdr), old(idat), seenIhdr, seenIdat, seenIend);
              var a := Apply(s, chunkType, data, inflate);
              && (a.Err? ==> err == Some(a.error) && ihdr == old(ihdr) && idat == old(idat))
              && (a.Ok? ==> err == None && a.value == State(ihdr, idat, seenIhdr', seenIdat', seenIend'))
    {
      err := None;
      seenIhdr', seenIdat', seenIend' := seenIhdr, seenIdat, seenIend;
      if chunkType == IhdrTag {
        seenIhdr' := true;
        err := ParseIhdr(data);
      } else if chunkType == IdatTag {
        if !seenIhdr {
          return Some(OrderError), seenIhdr', seenIdat', seenIend';
        }
        seenIdat' := true;
        err := ParseIdat(data, inflate);
      } else if chunkType == IendTag {
        seenIend' := true;
      }
    }

    /** Parse a PNG file held in `input`. The fields are updated as chunks are read and are
        not restored when a later chunk fails. */
    method Parse(input: seq<byte>, lib: Library) returns (err: Option<Error>)
      modifies this
      ensures Outcome(err, ihdr, idat) == ParseOutcome(input, lib, old(ihdr), old(idat))
    {
      if |input| == 0 {
        return Some(SignatureRead);
      }
      var signature := SignatureBuffer(input);
      SignatureBufferMatches(input);
      if signature != Signature {
        return Some(BadSignature);
      }
      ghost var goal := Scan(Start(ihdr, idat), input[8..], lib);
      assert goal == ParseOutcome(input, lib, old(ihdr), old(idat));
      var seenIhdr, seenIdat, seenIend := false, false, false;
      var pos := 8;
      while true
        invariant 8 <= pos <= |input|
        invariant Scan(State(ihdr, idat, seenIhdr, seenIdat, seenIend), input[pos..], lib) == goal
        decreases |input| - pos
      {
        ghost var s := State(ihdr, idat, seenIhdr, seenIdat, seenIend);
        ghost var body := input[pos..];
        if |input| - pos < 8 {
          break;
        }
        ChunkAt(input, pos);
        var header := input[pos..pos + 8];
        var length := Decode32(header[..4]);
        var chunkType := header[4..8];
        assert header[..4] == input[pos..pos + 4] && chunkType == input[pos + 4..pos + 8];
        assert length == Decode32(body[..4]);
        if |input| - (pos + 8) < length {
          return Some(DataRead);
        }
        var data := input[pos + 8..pos + 8 + length];
        if |input| - (pos + 8 + length) < 4 {
          return Some(CrcRead);
        }
        var crc := Decode32(input[pos + 8 + length..pos + 12 + length]);
        ScanStep(s, body, lib);
        assert FirstChunk(body) == Chunk(length, chunkType, data, crc);
        pos := pos + 12 + length;
        assert AfterFirst(body) == input[pos..];
        if crc != lib.checksum(chunkType + data) {
          continue;
        }
        var e;
        e, seenIhdr, seenIdat, seenIend := DispatchChunk(chunkType, data, seenIhdr, seenIdat, seenIend, lib.inflate);
        if e.Some? {
          return e;
        }
      }
      if !seenIhdr {
        return Some(Missing(IhdrChunk));
      }
      if !seenIdat {
        return Some(Missing(IdatChunk));
      }
      if !seenIend {
        return Some(Missing(IendChunk));
      }
      return None;
    }
  }
}
