/**
 * Properties of the parser, proved about ParseOutcome, which Image.Parse is proved to
 * compute.
 *
 * The step-by-step scan of the parser is first shown to be the same as framing the
 * whole chunk stream and then folding the dispatch over the framed chunks
 * (ScanIsFrameThenRun); most properties are then stated over the framed chunks.
 */
module ApngProperties {
  import opened Wrappers
  import opened BigEndian
  import opened Chunks
  import opened Apng
  import Crc32

  // ---------------------------------------------------------------------------
  // IHDR payloads

  lemma DecodeEncodeIhdr(h: Ihdr)
    ensures DecodeIhdr(EncodeIhdr(h)) == h
  {
    var data := EncodeIhdr(h);
    assert data[0..4] == Encode32(h.width);
    assert data[4..8] == Encode32(h.height);
    DecodeEncode32(h.width);
    DecodeEncode32(h.height);
  }

  lemma EncodeDecodeIhdr(data: seq<byte>)
    requires |data| == 13
    ensures EncodeIhdr(DecodeIhdr(data)) == data
  {
    var h := DecodeIhdr(data);
    assert Encode32(h.width) == data[0..4] by { EncodeDecode32(data[0..4]); }
    assert Encode32(h.height) == data[4..8] by { EncodeDecode32(data[4..8]); }
    EncodeIhdrFields(h, data);
  }

  /** A payload whose fields are those of `h` is the encoding of `h`. */
  lemma EncodeIhdrFields(h: Ihdr, data: seq<byte>)
    requires |data| == 13 && Encode32(h.width) == data[0..4] && Encode32(h.height) == data[4..8]
    requires h.bitDepth == data[8] && h.colorType == data[9] && h.compress == data[10]
    requires h.filter == data[11] && h.interlace == data[12]
    ensures EncodeIhdr(h) == data
  {
    assert [h.bitDepth, h.colorType, h.compress, h.filter, h.interlace] == data[8..13];
    Adjacent(data, 0, 4, 8);
    Adjacent(data, 0, 8, 13);
  }

  // ---------------------------------------------------------------------------
  // The scan as framing followed by a fold over the chunks

  /** Parsing the chunk stream `body` from state `s`, stated as: frame the stream into
      chunks, dispatch them in order until one fails, and if none fails report how the
      framing ended (a cut payload or CRC, or the final check of the mandatory chunks). */
  function FramedOutcome(s: State, body: seq<byte>, lib: Library): Outcome
  {
    var f := Frame(body);
    var r := Run(s, f.chunks, lib);
    var err :=
      if r.err.Some? then r.err
      else match f.end
        case PayloadCut => Some(DataRead)
        case CrcCut => Some(CrcRead)
        case CleanEnd => Finish(r.state);
    Outcome(err, r.state.ihdr, r.state.idat)
  }

  lemma {:induction false} ScanIsFrameThenRun(s: State, body: seq<byte>, lib: Library)
    ensures Scan(s, body, lib) == FramedOutcome(s, body, lib)
    decreases |body|
  {
    if HasChunk(body) {
      var f := Frame(body);
      var rest := Frame(AfterFirst(body));
      assert f.chunks == [FirstChunk(body)] + rest.chunks && f.end == rest.end;
      assert f.chunks[0] == FirstChunk(body) && f.chunks[1..] == rest.chunks;
      match Dispatch(s, FirstChunk(body), lib)
      case Err(e) =>
      case Ok(t) => ScanIsFrameThenRun(t, AfterFirst(body), lib);
    }
  }

  /** The chunks framed after the signature. */
  function ChunksOf(input: seq<byte>): seq<Chunk>
    requires |input| >= 8
  {
    Frame(input[8..]).chunks
  }

  /** Parsing an input with a valid signature is framing followed by the fold. */
  lemma ParseIsFrameThenRun(input: seq<byte>, lib: Library, ihdr0: Ihdr, idat0: seq<byte>)
    requires |input| >= 8 && input[..8] == Signature
    ensures ParseOutcome(input, lib, ihdr0, idat0) == FramedOutcome(Start(ihdr0, idat0), input[8..], lib)
  {
    ScanIsFrameThenRun(Start(ihdr0, idat0), input[8..], lib);
  }

  // ---------------------------------------------------------------------------
  // The signature

  /** The only errors the chunk scan can report: no signature error comes from it. */
  lemma {:induction false} ScanNoSignatureError(s: State, body: seq<byte>, lib: Library)
    ensures Scan(s, body, lib).err != Some(SignatureRead)
    ensures Scan(s, body, lib).err != Some(BadSignature)
    decreases |body|
  {
    if HasChunk(body) {
      match Dispatch(s, FirstChunk(body), lib)
      case Err(e) =>
      case Ok(t) => ScanNoSignatureError(t, AfterFirst(body), lib);
    }
  }

  /** Parse fails on the signature, with the fields untouched, exactly when the input does
      not begin with the 8 PNG signature bytes: an empty input cannot be read at all, and
      a shorter input or one with a differing byte has a bad signature. */
  lemma ParseSignature(input: seq<byte>, lib: Library, ihdr0: Ihdr, idat0: seq<byte>)
    ensures var o := ParseOutcome(input, lib, ihdr0, idat0);
            (o.err == Some(SignatureRead) || o.err == Some(BadSignature))
            <==> !(|input| >= 8 && input[..8] == Signature)
    ensures |input| == 0 ==> ParseOutcome(input, lib, ihdr0, idat0) == Outcome(Some(SignatureRead), ihdr0, idat0)
    ensures |input| > 0 && !(|input| >= 8 && input[..8] == Signature) ==>
              ParseOutcome(input, lib, ihdr0, idat0) == Outcome(Some(BadSignature), ihdr0, idat0)
  {
    if |input| >= 8 && input[..8] == Signature {
      ScanNoSignatureError(Start(ihdr0, idat0), input[8..], lib);
    }
  }

  // ---------------------------------------------------------------------------
  // One encoded chunk in the stream

  /** A chunk in the stream is dispatched, and the scan then goes on with the bytes after it. */
  lemma ScanEncoded(s: State, c: Chunk, rest: seq<byte>, lib: Library)
    requires WellFormed(c)
    ensures var d := Dispatch(s, c, lib);
            Scan(s, Encode(c) + rest, lib) ==
              if d.Err? then Outcome(Some(d.error), s.ihdr, s.idat) else Scan(d.value, rest, lib)
  {
    FirstChunkOfEncode(c, rest);
    ScanStep(s, Encode(c) + rest, lib);
  }

  /** A chunk whose stored CRC differs from the CRC of its type and payload has no effect,
      wherever it stands in the stream: scanning with it is scanning without it. */
  lemma {:induction false} ScanSkipsBadCrc(s: State, pre: seq<Chunk>, c: Chunk, rest: seq<byte>, lib: Library)
    requires forall i :: 0 <= i < |pre| ==> WellFormed(pre[i])
    requires WellFormed(c) && !CrcOk(c, lib.checksum)
    ensures Scan(s, EncodeAll(pre) + Encode(c) + rest, lib) == Scan(s, EncodeAll(pre) + rest, lib)
    decreases |pre|
  {
    if pre == [] {
      assert EncodeAll(pre) + Encode(c) + rest == Encode(c) + rest;
      assert EncodeAll(pre) + rest == rest;
      ScanEncoded(s, c, rest, lib);
    } else {
      EncodeAllCons(pre, Encode(c) + rest);
      EncodeAllCons(pre, rest);
      Regroup3(EncodeAll(pre), Encode(c), rest);
      Regroup3(EncodeAll(pre[1..]), Encode(c), rest);
      ScanEncoded(s, pre[0], EncodeAll(pre[1..]) + (Encode(c) + rest), lib);
      ScanEncoded(s, pre[0], EncodeAll(pre[1..]) + rest, lib);
      var d := Dispatch(s, pre[0], lib);
      if d.Ok? {
        ScanSkipsBadCrc(d.value, pre[1..], c, rest, lib);
      }
    }
  }

  /** The same for the whole file: a chunk with a wrong CRC after any encoded chunks is
      skipped, and parsing the file with it gives the error and fields of parsing it without. */
  lemma ParseSkipsBadCrc(pre: seq<Chunk>, c: Chunk, rest: seq<byte>, lib: Library, ihdr0: Ihdr, idat0: seq<byte>)
    requires forall i :: 0 <= i < |pre| ==> WellFormed(pre[i])
    requires WellFormed(c) && !CrcOk(c, lib.checksum)
    ensures ParseOutcome(Signature + EncodeAll(pre) + Encode(c) + rest, lib, ihdr0, idat0)
            == ParseOutcome(Signature + EncodeAll(pre) + rest, lib, ihdr0, idat0)
  {
    var with := EncodeAll(pre) + Encode(c) + rest;
    var without := EncodeAll(pre) + rest;
    assert ParseOutcome(Signature + EncodeAll(pre) + Encode(c) + rest, lib, ihdr0, idat0)
           == Scan(Start(ihdr0, idat0), with, lib) by {
      Regroup4(Signature, EncodeAll(pre), Encode(c), rest);
      ParseAfterSignature(with, lib, ihdr0, idat0);
    }
    assert ParseOutcome(Signature + EncodeAll(pre) + rest, lib, ihdr0, idat0)
           == Scan(Start(ihdr0, idat0), without, lib) by {
      Regroup3(Signature, EncodeAll(pre), rest);
      ParseAfterSignature(without, lib, ihdr0, idat0);
    }
    ScanSkipsBadCrc(Start(ihdr0, idat0), pre, c, rest, lib);
  }

  lemma Regroup3<T>(a: seq<T>, b: seq<T>, c: seq<T>)
    ensures a + b + c == a + (b + c)
  {
  }

  lemma Regroup4<T>(a: seq<T>, b: seq<T>, c: seq<T>, d: seq<T>)
    ensures a + b + c + d == a + (b + c + d)
  {
    Regroup3(a, b, c);
    Regroup3(a, b + c, d);
    Regroup3(a + b, c, d);
  }

  /** After the signature, Parse is the scan of the rest of the file. */
  lemma ParseAfterSignature(body: seq<byte>, lib: Library, ihdr0: Ihdr, idat0: seq<byte>)
    ensures ParseOutcome(Signature + body, lib, ihdr0, idat0) == Scan(Start(ihdr0, idat0), body, lib)
  {
    var input := Signature + body;
    assert input[..8] == Signature && input[8..] == body;
  }

  /** A valid IHDR chunk replaces the header whatever was decoded before it, and marks IHDR as seen. */
  lemma IhdrOverwrites(s: State, c: Chunk, rest: seq<byte>, lib: Library)
    requires WellFormed(c) && CrcOk(c, lib.checksum) && c.tag == IhdrTag && |c.data| == 13
    ensures Scan(s, Encode(c) + rest, lib)
            == Scan(s.(ihdr := DecodeIhdr(c.data), seenIhdr := true), rest, lib)
  {
    ScanEncoded(s, c, rest, lib);
  }

  /** A valid IHDR chunk with a payload of any other size fails the parse, with the fields as they were. */
  lemma IhdrWrongSize(s: State, c: Chunk, rest: seq<byte>, lib: Library)
    requires WellFormed(c) && CrcOk(c, lib.checksum) && c.tag == IhdrTag && |c.data| != 13
    ensures Scan(s, Encode(c) + rest, lib) == Outcome(Some(IhdrSize), s.ihdr, s.idat)
  {
    ScanEncoded(s, c, rest, lib);
  }

  /** A valid IDAT chunk after IHDR appends its decompressed payload and marks IDAT as seen;
      a payload the decompressor refuses fails the parse, with the fields as they were. */
  lemma IdatAppends(s: State, c: Chunk, rest: seq<byte>, lib: Library)
    requires WellFormed(c) && CrcOk(c, lib.checksum) && c.tag == IdatTag && s.seenIhdr
    ensures lib.inflate(c.data).Ok? ==>
              Scan(s, Encode(c) + rest, lib)
              == Scan(s.(idat := s.idat + lib.inflate(c.data).value, seenIdat := true), rest, lib)
    ensures lib.inflate(c.data).Err? ==>
              Scan(s, Encode(c) + rest, lib) == Outcome(Some(Inflate(lib.inflate(c.data).error)), s.ihdr, s.idat)
  {
    ScanEncoded(s, c, rest, lib);
    TagsDistinct();
  }

  /** A valid IEND chunk only marks IEND as seen: the chunks after it are still read. */
  lemma IendContinues(s: State, c: Chunk, rest: seq<byte>, lib: Library)
    requires WellFormed(c) && CrcOk(c, lib.checksum) && c.tag == IendTag
    ensures Scan(s, Encode(c) + rest, lib) == Scan(s.(seenIend := true), rest, lib)
  {
    ScanEncoded(s, c, rest, lib);
  }

  /** A valid chunk of any type other than IHDR, IDAT and IEND is passed over. */
  lemma UnknownChunkIgnored(s: State, c: Chunk, rest: seq<byte>, lib: Library)
    requires WellFormed(c) && CrcOk(c, lib.checksum) && c.tag != IhdrTag && c.tag != IdatTag && c.tag != IendTag
    ensures Scan(s, Encode(c) + rest, lib) == Scan(s, rest, lib)
  {
    ScanEncoded(s, c, rest, lib);
  }

  /** Fewer than 8 bytes after the last complete chunk, even a partial chunk header, end the
      chunk loop silently. */
  lemma PartialHeaderIgnored(cs: seq<Chunk>, tail: seq<byte>)
    requires forall i :: 0 <= i < |cs| ==> WellFormed(cs[i])
    requires |tail| < 8
    ensures Frame(EncodeAll(cs) + tail) == Framing(cs, CleanEnd)
  {
    FrameEncodeAll(cs, tail);
    assert cs + [] == cs;
  }

  // ---------------------------------------------------------------------------
  // The fold over the framed chunks

  /** Some chunk in `cs` has a CRC that matches `checksum` and type `tag`. */
  ghost predicate Seen(cs: seq<Chunk>, tag: seq<byte>, checksum: Checksummer)
  {
    exists i :: 0 <= i < |cs| && CrcOk(cs[i], checksum) && cs[i].tag == tag
  }

  lemma SeenCons(cs: seq<Chunk>, tag: seq<byte>, checksum: Checksummer)
    requires cs != []
    ensures Seen(cs, tag, checksum) <==> (CrcOk(cs[0], checksum) && cs[0].tag == tag) || Seen(cs[1..], tag, checksum)
  {
    if Seen(cs[1..], tag, checksum) {
      var i :| 0 <= i < |cs[1..]| && CrcOk(cs[1..][i], checksum) && cs[1..][i].tag == tag;
      assert CrcOk(cs[i + 1], checksum) && cs[i + 1].tag == tag;
    }
    if Seen(cs, tag, checksum) && !(CrcOk(cs[0], checksum) && cs[0].tag == tag) {
      var i :| 0 <= i < |cs| && CrcOk(cs[i], checksum) && cs[i].tag == tag;
      assert cs[1..][i - 1] == cs[i];
    }
  }

  /** The decompressed payload one chunk adds to the image data: that of a CRC-valid IDAT
      chunk the decompressor accepts, and nothing for any other chunk. */
  function Contribution(c: Chunk, lib: Library): seq<byte>
  {
    if CrcOk(c, lib.checksum) && c.tag == IdatTag && lib.inflate(c.data).Ok? then lib.inflate(c.data).value else []
  }

  /** The decompressed payloads of the CRC-valid IDAT chunks of `cs`, in order. */
  function Inflated(cs: seq<Chunk>, lib: Library): seq<byte>
    decreases |cs|
  {
    if cs == [] then [] else Contribution(cs[0], lib) + Inflated(cs[1..], lib)
  }

  /** The three chunk types the parser knows are different. */
  lemma TagsDistinct()
    ensures IhdrTag != IdatTag && IhdrTag != IendTag && IdatTag != IendTag
  {
    assert IhdrTag[1] != IdatTag[1] && IhdrTag[1] != IendTag[1] && IdatTag[1] != IendTag[1];
  }

  /** A chunk whose dispatch does not fail adds its contribution to the image data. */
  lemma DispatchIdat(s: State, c: Chunk, lib: Library)
    requires Dispatch(s, c, lib).Ok?
    ensures Dispatch(s, c, lib).value.idat == s.idat + Contribution(c, lib)
  {
    TagsDistinct();
  }

  /** When no chunk fails, the flags say exactly whether a CRC-valid chunk of each mandatory
      type was among the chunks. */
  lemma {:induction false} RunFlags(s: State, cs: seq<Chunk>, lib: Library)
    requires Run(s, cs, lib).err.None?
    ensures var last := Run(s, cs, lib).state;
            && last.seenIhdr == (s.seenIhdr || Seen(cs, IhdrTag, lib.checksum))
            && last.seenIdat == (s.seenIdat || Seen(cs, IdatTag, lib.checksum))
            && last.seenIend == (s.seenIend || Seen(cs, IendTag, lib.checksum))
    decreases |cs|
  {
    if cs == [] {
      assert !Seen(cs, IhdrTag, lib.checksum) && !Seen(cs, IdatTag, lib.checksum) && !Seen(cs, IendTag, lib.checksum);
    } else {
      var t :| Dispatch(s, cs[0], lib) == Ok(t);
      RunFlags(t, cs[1..], lib);
      SeenCons(cs, IhdrTag, lib.checksum);
      SeenCons(cs, IdatTag, lib.checksum);
      SeenCons(cs, IendTag, lib.checksum);
    }
  }

  /** When no chunk fails, the image data is what was there before followed by the
      decompressed payloads of the CRC-valid IDAT chunks, in order. */
  lemma {:induction false} RunIdat(s: State, cs: seq<Chunk>, lib: Library)
    requires Run(s, cs, lib).err.None?
    ensures Run(s, cs, lib).state.idat == s.idat + Inflated(cs, lib)
    decreases |cs|
  {
    if cs != [] {
      assert Dispatch(s, cs[0], lib).Ok?;
      var t := Dispatch(s, cs[0], lib).value;
      RunIdat(t, cs[1..], lib);
      DispatchIdat(s, cs[0], lib);
    }
  }

  /** When no chunk fails, the header is the decoding of the last CRC-valid IHDR chunk, or
      the earlier header when there is none: a later IHDR overwrites an earlier one. */
  lemma {:induction false} RunLastIhdr(s: State, cs: seq<Chunk>, lib: Library)
    requires Run(s, cs, lib).err.None?
    ensures !Seen(cs, IhdrTag, lib.checksum) ==> Run(s, cs, lib).state.ihdr == s.ihdr
    ensures forall i :: 0 <= i < |cs| && CrcOk(cs[i], lib.checksum) && cs[i].tag == IhdrTag && !Seen(cs[i + 1..], IhdrTag, lib.checksum) ==>
              |cs[i].data| == 13 && Run(s, cs, lib).state.ihdr == DecodeIhdr(cs[i].data)
    decreases |cs|
  {
    if cs != [] {
      var t :| Dispatch(s, cs[0], lib) == Ok(t);
      RunLastIhdr(t, cs[1..], lib);
      SeenCons(cs, IhdrTag, lib.checksum);
      var h := Run(s, cs, lib).state.ihdr;
      forall i | 0 <= i < |cs| && CrcOk(cs[i], lib.checksum) && cs[i].tag == IhdrTag && !Seen(cs[i + 1..], IhdrTag, lib.checksum)
        ensures |cs[i].data| == 13 && h == DecodeIhdr(cs[i].data)
      {
        if i == 0 {
          assert cs[1..] == cs[i + 1..];
        } else {
          assert cs[1..][i - 1] == cs[i] && cs[1..][i - 1 + 1..] == cs[i + 1..];
        }
      }
    }
  }

  /** The fold stops at the first failing chunk and keeps what the chunks before it did:
      the state it reports is the state after the chunks before index k, nothing is rolled
      back, and k is the length of the list when no chunk fails. */
  lemma {:induction false} RunStopsAt(s: State, cs: seq<Chunk>, lib: Library)
    ensures exists k :: 0 <= k <= |cs|
              && Run(s, cs[..k], lib) == RunResult(Run(s, cs, lib).state, None)
              && (Run(s, cs, lib).err.None? <==> k == |cs|)
              && (k < |cs| ==> Dispatch(Run(s, cs, lib).state, cs[k], lib) == Err(Run(s, cs, lib).err.value))
    decreases |cs|
  {
    var r := Run(s, cs, lib);
    if cs == [] {
      assert cs[..0] == [];
    } else {
      match Dispatch(s, cs[0], lib)
      case Err(e) =>
        assert cs[..0] == [];
        assert Run(s, cs[..0], lib) == RunResult(r.state, None);
      case Ok(t) =>
        RunStopsAt(t, cs[1..], lib);
        var k :| 0 <= k <= |cs[1..]|
              && Run(t, cs[1..][..k], lib) == RunResult(Run(t, cs[1..], lib).state, None)
              && (Run(t, cs[1..], lib).err.None? <==> k == |cs[1..]|)
              && (k < |cs[1..]| ==> Dispatch(Run(t, cs[1..], lib).state, cs[1..][k], lib)
                                    == Err(Run(t, cs[1..], lib).err.value));
        assert cs[..k + 1][0] == cs[0] && cs[..k + 1][1..] == cs[1..][..k];
        assert k < |cs[1..]| ==> cs[1..][k] == cs[k + 1];
        assert Run(s, cs[..k + 1], lib) == RunResult(r.state, None);
    }
  }

  /** Without a CRC-valid IHDR first, a CRC-valid IDAT chunk makes the fold fail with an
      ordering error, whatever its payload, and the fields are as they were. */
  lemma {:induction false} RunIdatBeforeIhdr(s: State, cs: seq<Chunk>, k: nat, lib: Library)
    requires !s.seenIhdr
    requires k < |cs| && CrcOk(cs[k], lib.checksum) && cs[k].tag == IdatTag
    requires !Seen(cs[..k], IhdrTag, lib.checksum)
    ensures Run(s, cs, lib) == RunResult(Run(s, cs, lib).state, Some(OrderError))
    ensures Run(s, cs, lib).state.ihdr == s.ihdr && Run(s, cs, lib).state.idat == s.idat
    decreases k
  {
    if k > 0 {
      assert cs[..k][0] == cs[0];
      assert !(CrcOk(cs[0], lib.checksum) && cs[0].tag == IhdrTag);
      match Dispatch(s, cs[0], lib)
      case Err(e) =>
      case Ok(t) =>
        assert cs[1..][..k - 1] == cs[..k][1..];
        SeenCons(cs[..k], IhdrTag, lib.checksum);
        assert cs[1..][k - 1] == cs[k];
        RunIdatBeforeIhdr(t, cs[1..], k - 1, lib);
    }
  }

  // ---------------------------------------------------------------------------
  // The whole parse

  /** An IDAT chunk with a matching CRC, framed before any IHDR chunk with a matching CRC,
      makes Parse fail with an ordering error and leaves the fields as they were, whatever
      follows in the file. */
  lemma ParseIdatBeforeIhdr(input: seq<byte>, k: nat, lib: Library, ihdr0: Ihdr, idat0: seq<byte>)
    requires |input| >= 8 && input[..8] == Signature
    requires k < |ChunksOf(input)| && CrcOk(ChunksOf(input)[k], lib.checksum) && ChunksOf(input)[k].tag == IdatTag
    requires !Seen(ChunksOf(input)[..k], IhdrTag, lib.checksum)
    ensures ParseOutcome(input, lib, ihdr0, idat0) == Outcome(Some(OrderError), ihdr0, idat0)
  {
    ParseIsFrameThenRun(input, lib, ihdr0, idat0);
    RunIdatBeforeIhdr(Start(ihdr0, idat0), ChunksOf(input), k, lib);
  }

  /** When the chunk stream ends cleanly and no chunk fails, Parse succeeds exactly when a
      CRC-valid IHDR, IDAT and IEND chunk were all read, and otherwise names the first
      missing one in the order IHDR, IDAT, IEND. */
  lemma ParseCompletion(input: seq<byte>, lib: Library, ihdr0: Ihdr, idat0: seq<byte>)
    requires |input| >= 8 && input[..8] == Signature
    requires Frame(input[8..]).end == CleanEnd
    requires Run(Start(ihdr0, idat0), ChunksOf(input), lib).err.None?
    ensures var cs := ChunksOf(input);
            ParseOutcome(input, lib, ihdr0, idat0).err ==
              if !Seen(cs, IhdrTag, lib.checksum) then Some(Missing(IhdrChunk))
              else if !Seen(cs, IdatTag, lib.checksum) then Some(Missing(IdatChunk))
              else if !Seen(cs, IendTag, lib.checksum) then Some(Missing(IendChunk))
              else None
  {
    ParseIsFrameThenRun(input, lib, ihdr0, idat0);
    RunFlags(Start(ihdr0, idat0), ChunksOf(input), lib);
  }

  /** Parse succeeds exactly when the signature is right, the chunk stream ends cleanly, no
      chunk fails, and CRC-valid IHDR, IDAT and IEND chunks were all read. A successful parse
      leaves the header of the last CRC-valid IHDR chunk, and the image data extended by the
      decompressed payloads of all CRC-valid IDAT chunks, in order. */
  lemma ParseSuccess(input: seq<byte>, lib: Library, ihdr0: Ihdr, idat0: seq<byte>)
    ensures ParseOutcome(input, lib, ihdr0, idat0).err.None? <==>
              && |input| >= 8 && input[..8] == Signature
              && Frame(input[8..]).end == CleanEnd
              && Run(Start(ihdr0, idat0), ChunksOf(input), lib).err.None?
              && Seen(ChunksOf(input), IhdrTag, lib.checksum) && Seen(ChunksOf(input), IdatTag, lib.checksum) && Seen(ChunksOf(input), IendTag, lib.checksum)
    ensures ParseOutcome(input, lib, ihdr0, idat0).err.None? ==>
              var o := ParseOutcome(input, lib, ihdr0, idat0);
              var cs := ChunksOf(input);
              && o.idat == idat0 + Inflated(cs, lib)
              && forall i :: 0 <= i < |cs| && CrcOk(cs[i], lib.checksum) && cs[i].tag == IhdrTag && !Seen(cs[i + 1..], IhdrTag, lib.checksum) ==>
                   |cs[i].data| == 13 && o.ihdr == DecodeIhdr(cs[i].data)
  {
    ParseSignature(input, lib, ihdr0, idat0);
    if |input| >= 8 && input[..8] == Signature {
      ParseIsFrameThenRun(input, lib, ihdr0, idat0);
      var cs := ChunksOf(input);
      var r := Run(Start(ihdr0, idat0), cs, lib);
      if r.err.None? {
        RunFlags(Start(ihdr0, idat0), cs, lib);
        RunIdat(Start(ihdr0, idat0), cs, lib);
        RunLastIhdr(Start(ihdr0, idat0), cs, lib);
      }
    }
  }

  /** Whatever the outcome, after a valid signature the parse ends after the chunks before
      some index k, none of which fails: k is the first chunk that fails, whose error Parse
      reports, or the end of the chunks. The image data is the earlier data followed by the
      decompressed payloads of the CRC-valid IDAT chunks before k, and the header is the one
      those chunks left: what was written before an error stays. */
  lemma ParseIdatIsConcatenation(input: seq<byte>, lib: Library, ihdr0: Ihdr, idat0: seq<byte>)
    requires |input| >= 8 && input[..8] == Signature
    ensures var cs := ChunksOf(input);
            var o := ParseOutcome(input, lib, ihdr0, idat0);
            exists k :: 0 <= k <= |cs|
              && Run(Start(ihdr0, idat0), cs[..k], lib).err.None?
              && (k < |cs| ==>
                    && Dispatch(Run(Start(ihdr0, idat0), cs[..k], lib).state, cs[k], lib).Err?
                    && o.err == Some(Dispatch(Run(Start(ihdr0, idat0), cs[..k], lib).state, cs[k], lib).error))
              && o.idat == idat0 + Inflated(cs[..k], lib)
              && o.ihdr == Run(Start(ihdr0, idat0), cs[..k], lib).state.ihdr
              && (o.err.None? ==> k == |cs|)
  {
    var s := Start(ihdr0, idat0);
    var cs := ChunksOf(input);
    ParseIsFrameThenRun(input, lib, ihdr0, idat0);
    RunStopsAt(s, cs, lib);
    var k :| 0 <= k <= |cs|
          && Run(s, cs[..k], lib) == RunResult(Run(s, cs, lib).state, None)
          && (Run(s, cs, lib).err.None? <==> k == |cs|)
          && (k < |cs| ==> Dispatch(Run(s, cs, lib).state, cs[k], lib) == Err(Run(s, cs, lib).err.value));
    RunIdat(s, cs[..k], lib);
  }

  /** A whole file written as the signature followed by encoded chunks parses as the fold
      of the dispatch over exactly those chunks, followed by the final check. */
  lemma ParseEncoded(cs: seq<Chunk>, lib: Library, ihdr0: Ihdr, idat0: seq<byte>)
    requires forall i :: 0 <= i < |cs| ==> WellFormed(cs[i])
    ensures var r := Run(Start(ihdr0, idat0), cs, lib);
            ParseOutcome(Signature + EncodeAll(cs), lib, ihdr0, idat0)
            == Outcome(if r.err.Some? then r.err else Finish(r.state), r.state.ihdr, r.state.idat)
  {
    var input := Signature + EncodeAll(cs);
    assert input[..8] == Signature && input[8..] == EncodeAll(cs) + [];
    FrameEncodeAll(cs, []);
    assert cs + [] == cs;
    ParseIsFrameThenRun(input, lib, ihdr0, idat0);
  }

  /** The fold over a valid IHDR, a valid IDAT whose payload inflates and a valid IEND
      succeeds with the decoded header, the inflated data and all three flags set. */
  lemma RunMinimal(h: Chunk, d: Chunk, e: Chunk, lib: Library, ihdr0: Ihdr, idat0: seq<byte>)
    requires CrcOk(h, lib.checksum) && h.tag == IhdrTag && |h.data| == 13
    requires CrcOk(d, lib.checksum) && d.tag == IdatTag && lib.inflate(d.data).Ok?
    requires CrcOk(e, lib.checksum) && e.tag == IendTag
    ensures Run(Start(ihdr0, idat0), [h, d, e], lib)
            == RunResult(State(DecodeIhdr(h.data), idat0 + lib.inflate(d.data).value, true, true, true), None)
  {
    var s0 := Start(ihdr0, idat0);
    var s1 := s0.(ihdr := DecodeIhdr(h.data), seenIhdr := true);
    var s2 := s1.(idat := idat0 + lib.inflate(d.data).value, seenIdat := true);
    var s3 := s2.(seenIend := true);
    TagsDistinct();
    assert Dispatch(s0, h, lib) == Ok(s1);
    assert Dispatch(s1, d, lib) == Ok(s2);
    assert Dispatch(s2, e, lib) == Ok(s3);
    assert Run(s0, [h, d, e], lib) == Run(s1, [d, e], lib) by { assert [h, d, e][1..] == [d, e]; }
    assert Run(s1, [d, e], lib) == Run(s2, [e], lib) by { assert [d, e][1..] == [e]; }
    assert Run(s2, [e], lib) == RunResult(s3, None) by { assert [e][1..] == []; }
  }

  /** The minimal file: signature, a valid IHDR, a valid IDAT whose payload inflates, and a
      valid IEND parse successfully into the encoded header and the inflated data. */
  lemma MinimalFileParses(h: Chunk, d: Chunk, e: Chunk, lib: Library, ihdr0: Ihdr, idat0: seq<byte>)
    requires WellFormed(h) && CrcOk(h, lib.checksum) && h.tag == IhdrTag && |h.data| == 13
    requires WellFormed(d) && CrcOk(d, lib.checksum) && d.tag == IdatTag && lib.inflate(d.data).Ok?
    requires WellFormed(e) && CrcOk(e, lib.checksum) && e.tag == IendTag
    ensures ParseOutcome(Signature + EncodeAll([h, d, e]), lib, ihdr0, idat0)
            == Outcome(None, DecodeIhdr(h.data), idat0 + lib.inflate(d.data).value)
  {
    ParseEncoded([h, d, e], lib, ihdr0, idat0);
    RunMinimal(h, d, e, lib, ihdr0, idat0);
  }

  /** With the CRC-32 of module Crc32 as the checksum, the IEND chunk every PNG file ends
      with, an empty payload and the stored CRC AE 42 60 82, is CRC-valid. */
  lemma IendChunkValid()
    ensures var e := Chunk(0, IendTag, [], 0xAE42_6082);
            WellFormed(e) && CrcOk(e, Crc32.Checksum)
  {
    var e := Chunk(0, IendTag, [], 0xAE42_6082);
    assert e.tag + e.data == [0x49, 0x45, 0x4E, 0x44];
    assert Crc32.Checksum([0x49, 0x45, 0x4E, 0x44]) == e.crc by { Crc32.IendCheckValue(); }
  }
}
