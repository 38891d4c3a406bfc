# apng: the PNG chunk-stream parser, modelled and proved in Dafny

Package `apng` reads a PNG file. It checks the 8-byte signature (ISO/IEC 15948,
section 5.2). It then reads chunks one after another (section 5.3). Each chunk is a
4-byte big-endian length, a 4-byte type, the payload and a 4-byte big-endian CRC-32 of
the type and payload (section 5.5). The parser acts on each chunk:

- a chunk whose CRC does not match is skipped;
- IHDR is decoded into the `ihdr` field of the `Image` (section 11.2.2);
- IDAT is decompressed with zlib and appended to the `idat` field (section 11.2.4);
- IEND is noted (section 11.2.5);
- any other type is ignored.

IDAT before IHDR is an error. When the input runs out, IHDR, IDAT and IEND must all
have been seen.

The model has six modules:

- `BigEndian`: Go's `uint8` and `uint32` as integer subtypes, and 4-byte big-endian
  decoding and encoding, with both round trips proved.
- `Crc32`: the CRC-32 of PNG, computed bit by bit with the reflected polynomial
  0xEDB88320, a register preset to all ones and a final complement. It is checked
  against the CRC every IEND chunk carries (AE 42 60 82).
- `Chunks`: how a byte stream reads as chunks (`Frame`) and how chunks are written
  (`Encode`). Framing is proved to invert encoding.
- `Apng`: the parser.
  - `Image` is a class with the two fields the Go struct has.
  - `ParseIhdr`, `ParseIdat` and `Parse` are methods that update those fields in place.
  - `Parse` works on the input as a byte sequence with a cursor.
  - `DispatchChunk` is the `switch` on the chunk type.
  - The same behaviour is also given as functions: `Apply` (the switch), `Dispatch`
    (the CRC test and the switch), `Scan` (the loop), `Finish` (the final check) and
    `ParseOutcome` (the whole parse).
  - `Image.Parse` is proved to compute exactly `ParseOutcome`: the returned error, and
    the fields as it leaves them.
- `ApngProperties`: what the parser promises, proved about `ParseOutcome`.
  - First, the scan is shown to be the same as framing the stream and then folding
    `Dispatch` over the framed chunks (`Run`).
  - Then the properties are stated over the framed chunks, or over files built from
    encoded chunks.
- `Wrappers`: `Option` and `Result`.

The two library routines the parser calls are parameters, gathered in
`Apng.Library`. zlib decompression is `inflate`, a total function that gives bytes or
a reason for refusing. `crc32.ChecksumIEEE` is `checksum`. Every property holds for
every pair of such functions. `ApngProperties.IendChunkValid` instantiates the
checksum with `Crc32.Checksum`.

The model follows what the code does, including where a reader of the format might
expect otherwise:

- The `break` under `case "IEND"` leaves only the `switch`, so chunks after IEND are
  still read and dispatched (`IendContinues`).
- Fewer than 8 bytes left where a chunk header should start end the loop without an
  error, even a partial header (`PartialHeaderIgnored`).
- A second IHDR replaces the first (`IhdrOverwrites`, `RunLastIhdr`).
- Each IDAT payload is decompressed as a zlib stream of its own, one call per chunk,
  and the results are concatenated (`Inflated`, `RunIdat`). The PNG format instead
  treats the IDAT payloads together as one zlib stream.
- Nothing is rolled back on an error. IDAT data appended before a failing chunk stays,
  and so does a header decoded before it (`RunStopsAt`, `ParseIdatIsConcatenation`).
- An empty input fails with its own error (`SignatureRead`), separate from a wrong or
  short signature (`BadSignature`). A short input cannot pass the check, because the
  8-byte buffer keeps a zero where the signature has 0x0A.

## Model

| member | source | states |
|---|---|---|
| BigEndian.Decode32 | apng/apng.go:101 | defines `binary.BigEndian.Uint32`, used at lines 33, 34, 101 and 116: the value of four bytes, most significant first, so the first byte alone decides which block of 2^24 values the result lies in |
| BigEndian.DecodeEncode32 | apng/apng.go:101 | decoding the 4-byte big-endian encoding of a uint32 gives the value back |
| BigEndian.EncodeDecode32 | apng/apng.go:116 | encoding the big-endian value of 4 bytes gives the bytes back, so `binary.BigEndian.Uint32` is injective on 4-byte slices |
| Crc32.Checksum | apng/apng.go:118 | defines `crc32.ChecksumIEEE`: the reflected CRC-32 over the input bits with the register preset to all ones and complemented at the end; the CRC of no bytes is 0 |
| Crc32.UpdateAppend | apng/apng.go:117-118 | the register over two pieces of input is the register over the first continued with the second, so the CRC of a chunk's type followed by its payload is the type's register fed the payload |
| Crc32.IendCheckValue | apng/apng.go:118 | the CRC-32 of the bytes "IEND" is 0xAE426082, the value every PNG IEND chunk stores |
| Chunks.ChunkAt | apng/apng.go:92-116 | reading the header, payload and CRC at a cursor position gives the first complete chunk of the rest of the input, and the cursor then points just after it |
| Chunks.Frame | apng/apng.go:92-114 | defines how the loop reads the stream as chunks: a header, the payload its length announces and a CRC, until fewer than 8 bytes are left (a clean end) or a payload or CRC runs past the end; there is a chunk exactly when a complete one is at the front, and each takes at least 12 bytes |
| Chunks.FirstChunkOfEncode | apng/apng.go:101-116 | an encoded chunk at the front of a stream is read back field by field, and exactly the bytes after it are left |
| Chunks.FrameEncode | apng/apng.go:90-116 | framing reads an encoded chunk back and then continues with the bytes after it |
| Chunks.FrameEncodeAll | apng/apng.go:90-116 | framing the encoding of any list of chunks followed by a tail gives that list followed by the framing of the tail |
| Chunks.FirstChunkEncodes | apng/apng.go:101-116 | the chunk read from the front of a stream is well formed, and re-encoding it gives back exactly the bytes it was read from |
| Chunks.FrameIsPrefix | apng/apng.go:90-116 | every framed chunk is well formed, and re-encoding the framed chunks gives a prefix of the stream |
| Apng.DecodeIhdr | apng/apng.go:33-39 | defines the decoding of a 13-byte IHDR payload: width and height are the values whose big-endian encodings are bytes 0-3 and 4-7, and the five single-byte fields are bytes 8-12 |
| Apng.Start | apng/apng.go:87-89 | defines the state when the chunk loop starts: the header and image data the Image already holds, and none of IHDR, IDAT and IEND seen, so ending the loop there reports IHDR missing |
| Apng.Apply | apng/apng.go:125-141 | defines the `switch` on the type of a chunk with a matching CRC: IHDR of the wrong size fails and of 13 bytes is decoded, IDAT before IHDR fails and otherwise is inflated and appended or fails with the decompressor's reason, IEND is noted, other types change nothing; only IHDR and IDAT can fail, only IHDR changes the header, and the data is only appended to and flags are only set |
| Apng.Dispatch | apng/apng.go:115-146 | defines one iteration's effect: a chunk whose stored CRC differs from the checksum of its type and payload is skipped, any other goes through `Apply`; only a chunk with a matching CRC can fail, and the data is only appended to and flags are only set |
| Apng.Run | apng/apng.go:90-147 | defines the loop over framed chunks: dispatch them in order and stop at the first error with the state before it; the state reached keeps the earlier data in front and the flags already set |
| Apng.Finish | apng/apng.go:148-159 | defines the check after the loop: it passes exactly when IHDR, IDAT and IEND were all seen, and otherwise reports a missing chunk, IHDR exactly when IHDR was not seen |
| Apng.Scan | apng/apng.go:90-147 | defines the cursor loop over the stream: fewer than 8 bytes left end it with the final check, a cut payload or CRC is the read error, and otherwise the chunk is dispatched and the loop goes on after it; whatever the outcome, the image data has only been appended to |
| Apng.ParseOutcome | apng/apng.go:65-160 | defines the whole parse: an empty input is the signature read error, a short or wrong signature the bad-signature error, and otherwise the scan of what follows; only an input that starts with the signature can succeed, and the data the Image held stays in front |
| Apng.SignatureBuffer | apng/apng.go:74-76 | the signature buffer holds 8 bytes: the first 8 bytes of an input that has them, and otherwise the whole input followed by zeros |
| Apng.SignatureBufferMatches | apng/apng.go:74-85 | the buffer equals the PNG signature exactly when the input has at least 8 bytes and its first 8 are the signature |
| Apng.ScanStep | apng/apng.go:101-146 | when a complete chunk is at the front, the scan either stops with the dispatch error and the fields as they were, or goes on after the chunk from the state the dispatch gives |
| Apng.Image.constructor | apng/apng.go:14-27 | a new Image holds the zero header and no image data |
| Apng.Image.ParseIhdr | apng/apng.go:29-42 | a payload that is not 13 bytes gives the IHDR size error and leaves `ihdr` unchanged; a 13-byte payload sets width and height to its big-endian bytes 0-3 and 4-7 and the five single-byte fields to bytes 8-12 |
| Apng.Image.ParseIdat | apng/apng.go:43-63 | a payload that inflates makes `idat` the old data followed by the inflated bytes, in both the empty and the non-empty branch; a refused payload returns the decompressor's error and leaves `idat` unchanged |
| Apng.Image.DispatchChunk | apng/apng.go:123-146 | the type switch does what `Apply` says: on an error the fields are unchanged; otherwise the fields and the three flags are the new state `Apply` gives (IHDR decoded, IDAT refused before IHDR and otherwise appended, IEND noted, other types ignored) |
| Apng.Image.Parse | apng/apng.go:65-160 | the returned error and the fields afterwards are exactly `ParseOutcome` of the input and the fields before the call |
| ApngProperties.DecodeEncodeIhdr | apng/apng.go:33-39 | decoding the 13-byte encoding of any header gives the header back |
| ApngProperties.EncodeDecodeIhdr | apng/apng.go:33-39 | encoding the header decoded from a 13-byte payload gives the payload back, so two different payloads give different headers |
| ApngProperties.ScanIsFrameThenRun | apng/apng.go:90-147 | the cursor loop is the same as framing the whole stream, folding the dispatch over the chunks until one fails, and reporting a cut payload or CRC or the final check |
| ApngProperties.ParseIsFrameThenRun | apng/apng.go:86-159 | after a valid signature, Parse is framing followed by the fold and the final check |
| ApngProperties.ScanNoSignatureError | apng/apng.go:90-159 | the chunk loop and the final check never report a signature error |
| ApngProperties.ParseSignature | apng/apng.go:74-85 | Parse fails on the signature exactly when the input does not start with the 8 signature bytes; an empty input gives the read error, any other such input the bad-signature error, and the fields are untouched |
| ApngProperties.ScanEncoded | apng/apng.go:101-146 | an encoded chunk in the stream is dispatched, and the scan goes on with the bytes after it unless the dispatch fails |
| ApngProperties.ScanSkipsBadCrc | apng/apng.go:115-122 | from any state, a chunk whose stored CRC does not match has no effect wherever it stands after any encoded chunks: the scan with it is the scan without it |
| ApngProperties.ParseSkipsBadCrc | apng/apng.go:115-122 | a chunk whose stored CRC does not match has no effect at any position of a file: parsing the signature, any encoded chunks, the bad chunk and any rest gives the same error and fields as parsing the file without the bad chunk |
| ApngProperties.IhdrOverwrites | apng/apng.go:126-128 | a valid 13-byte IHDR chunk replaces the header, whatever was decoded before, and marks IHDR as seen |
| ApngProperties.IhdrWrongSize | apng/apng.go:126-128 | a valid IHDR chunk of any other size stops the parse with the size error and the fields as they were |
| ApngProperties.IdatAppends | apng/apng.go:129-134 | a valid IDAT chunk after IHDR appends its inflated payload and marks IDAT as seen; a refused payload stops the parse with the decompressor's error and the fields as they were |
| ApngProperties.IendContinues | apng/apng.go:135-137 | a valid IEND chunk only marks IEND as seen, and the chunks after it are still read |
| ApngProperties.UnknownChunkIgnored | apng/apng.go:138-141 | a valid chunk of any other type changes nothing, and the scan goes on after it |
| ApngProperties.PartialHeaderIgnored | apng/apng.go:92-97 | fewer than 8 bytes after the last complete chunk end the framing cleanly, even when they are a partial header |
| ApngProperties.DispatchIdat | apng/apng.go:129-134 | a chunk that does not fail adds to the image data exactly its contribution: the inflated payload of a CRC-valid IDAT chunk, nothing for any other chunk |
| ApngProperties.RunFlags | apng/apng.go:125-137 | when no chunk fails, each of the three flags is set exactly when a CRC-valid chunk of that type was read |
| ApngProperties.RunIdat | apng/apng.go:116-134 | when no chunk fails, the image data is the earlier data followed by the inflated payloads of exactly the CRC-valid IDAT chunks, in order |
| ApngProperties.RunLastIhdr | apng/apng.go:126-128 | when no chunk fails, the header is the decoding of the last CRC-valid IHDR chunk, or the earlier header when there is none |
| ApngProperties.RunStopsAt | apng/apng.go:143-146 | the fold stops at the first failing chunk, and the state it reports is the state after the chunks before it, with nothing rolled back |
| ApngProperties.RunIdatBeforeIhdr | apng/apng.go:129-132 | a CRC-valid IDAT chunk with no CRC-valid IHDR before it makes the fold fail with the ordering error, whatever its payload, with the fields as they were |
| ApngProperties.ParseIdatBeforeIhdr | apng/apng.go:129-132 | the same for the whole parse: the ordering error, and the fields as they were before Parse |
| ApngProperties.ParseCompletion | apng/apng.go:148-159 | when the stream ends cleanly and no chunk fails, Parse succeeds exactly when CRC-valid IHDR, IDAT and IEND chunks were all read, and otherwise names the first missing one in the order IHDR, IDAT, IEND |
| ApngProperties.ParseSuccess | apng/apng.go:65-160 | Parse succeeds exactly when the signature is right, the stream ends cleanly, no chunk fails and all three mandatory chunks were read; then the header is that of the last valid IHDR and the data is the inflated payloads of all valid IDAT chunks in order |
| ApngProperties.ParseIdatIsConcatenation | apng/apng.go:116-146 | whatever the outcome, the parse stops at some index k: none of the chunks before k fails, and chunk k is the first that fails, with Parse reporting its error, or k is the end of the chunks; the image data is the earlier data followed by the inflated payloads of the CRC-valid IDAT chunks before k, and the header is the one those chunks left, so nothing written before an error is rolled back |
| ApngProperties.ParseEncoded | apng/apng.go:86-159 | a file written as the signature and encoded chunks parses as the fold over exactly those chunks, followed by the final check |
| ApngProperties.RunMinimal | apng/apng.go:125-146 | a valid IHDR, a valid IDAT whose payload inflates and a valid IEND fold to the decoded header, the inflated data and all three flags set |
| ApngProperties.MinimalFileParses | apng/apng.go:65-160 | the minimal file (signature, IHDR, IDAT, IEND) parses without error into the decoded header and the inflated data |
| ApngProperties.IendChunkValid | apng/apng.go:115-119 | with the real CRC-32, the empty IEND chunk with stored CRC AE 42 60 82 passes the CRC test |

## Left out

- File I/O (apng/apng.go:67-72): `os.Open`, `f.Close` and `defer` are not modelled. The
  input is an immutable byte sequence, and a failure to open the file is not a case.
- Diagnostics (apng/apng.go:69, 120, 124, 139): the `fmt` prints only log and change
  no state.
- Decompression (apng/apng.go:45-56): `zlib.NewReader`, `bytes.Buffer.ReadFrom` and
  `zr.Close` are the parameter `Library.inflate`. Deflate itself is not modelled.
- Checksum (apng/apng.go:118): the parser calls `crc32.ChecksumIEEE` through the
  parameter `Library.checksum`. `Crc32.Checksum` is the CRC-32 itself. It is tied to the
  parser by `IendChunkValid`, and otherwise the proofs hold for any checksum.
- Short reads (apng/apng.go:104-114): a payload or CRC that runs past the end of the
  input is the data or CRC read error. The partial reads an `os.File` can return, with
  the rest of the buffer left as zeros and no error, are not modelled. The model
  therefore differs from the code on a regular file, for example in these cases:
  - A file cut inside a payload with at least one payload byte left: the code reads
    that part of the payload without an error and then fails on the CRC read (line 113).
    The model reports `DataRead` (line 107).
  - A file cut inside the CRC field with 1 to 3 bytes left: the CRC read gives no error.
    The code compares the zero-padded CRC, normally skips the chunk, ends the loop at
    the next header read and still runs the final check (lines 148-159). A cut IEND
    chunk, for example, gives the missing-IEND error. The model reports `CrcRead`.
  - A complete chunk whose length field exceeds 2^30: one `Read` on an `os.File`
    returns at most 2^30 bytes, without an error. The code then takes the next 4
    payload bytes as the CRC and goes on reading chunk headers from inside the payload.
    The model reads the whole chunk as one.
- Header read error (apng/apng.go:98-100): a read of 8 bytes from a byte sequence
  cannot also fail, so this error has no variant.
- Signature read error (apng/apng.go:80-82): likewise unreachable over a byte sequence.
  The cases with no bytes (apng/apng.go:77-79) and with a wrong or short buffer
  (apng/apng.go:83-85) are modelled.
- Allocation (apng/apng.go:104): `make([]uint8, length)` with a length of up to
  4 GiB can exhaust memory. The model has no memory limit.
- Error texts: the Japanese messages are the variants of `Apng.Error`. `Inflate` keeps
  the decompressor's reason.
