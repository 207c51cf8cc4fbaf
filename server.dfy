/**
 * The gRPC front end's own logic: making strings safe for protobuf, the
 * defaults it puts into the chunking configuration, the file type it hands
 * to the parser, and the conversion of parsed chunks into proto messages.
 *
 * Python strings may hold lone surrogates, which a Dafny `string` cannot, so
 * incoming text is a sequence of code points and outgoing text a `string`.
 */
module Server {
  import opened Wrappers
  import opened PyStr

  /** A code point of a Python `str`, surrogates included. */
  type CodePoint = x: int | 0 <= x <= 0x10FFFF

  type Byte = x: int | 0 <= x < 256

  predicate IsSurrogate(x: CodePoint) {
    0xD800 <= x <= 0xDFFF
  }

  /** The code points of a Dafny string (which holds no surrogates). */
  function CodePoints(s: string): (r: seq<CodePoint>)
    ensures |r| == |s|
    ensures forall i :: 0 <= i < |s| ==> r[i] == s[i] as int && !IsSurrogate(r[i])
  {
    if s == [] then [] else [s[0] as int as CodePoint] + CodePoints(s[1..])
  }

  /** One code point after `_SURROGATE_RE.sub("�", s)`. */
  function ScrubPoint(x: CodePoint): char {
    if IsSurrogate(x) then '\U{FFFD}' else x as char
  }

  /** `_SURROGATE_RE.sub("�", s)`. */
  function Scrub(s: seq<CodePoint>): string {
    if s == [] then [] else [ScrubPoint(s[0])] + Scrub(s[1..])
  }

  // UTF-8 as section 3 of RFC 3629 defines it.

  /** The UTF-8 bytes of one scalar value. */
  function EncodeChar(c: char): (r: seq<Byte>)
    ensures 1 <= |r| <= 4
  {
    var x := c as int;
    if x < 0x80 then [x]
    else if x < 0x800 then [0xC0 + x / 64, 0x80 + x % 64]
    else if x < 0x10000 then [0xE0 + x / 4096, 0x80 + (x / 64) % 64, 0x80 + x % 64]
    else [0xF0 + x / 262144, 0x80 + (x / 4096) % 64, 0x80 + (x / 64) % 64, 0x80 + x % 64]
  }

  /** `s.encode("utf-8")`; a string without surrogates never needs `errors="replace"`. */
  function Encode(s: string): seq<Byte> {
    if s == [] then [] else EncodeChar(s[0]) + Encode(s[1..])
  }

  predicate IsCont(b: Byte) {
    0x80 <= b < 0xC0
  }

  /** A decoded scalar value, if `x` is one. */
  function AsChar(x: int): Option<char> {
    if 0 <= x < 0xD800 || 0xE000 <= x <= 0x10FFFF then Some(x as char) else None
  }

  /**
   * The first character of a UTF-8 byte string and how many bytes it takes,
   * or None for a byte sequence that is not well-formed UTF-8 there
   * (a stray continuation byte, a truncated sequence, an overlong form, a
   * surrogate or a value above U+10FFFF).
   */
  function DecodeOne(b: seq<Byte>): (r: Option<(char, nat)>)
    requires b != []
    ensures r.Some? ==> 1 <= r.value.1 <= |b|
  {
    var b0: int := b[0];
    if b0 < 0x80 then Some((b0 as char, 1))
    else if 0xC2 <= b0 < 0xE0 && |b| >= 2 && IsCont(b[1]) then
      Some((Value2(b0, b[1]) as char, 2))
    else if 0xE0 <= b0 < 0xF0 && |b| >= 3 && IsCont(b[1]) && IsCont(b[2]) then
      var x := Value3(b0, b[1], b[2]);
      if x < 0x800 then None
      else match AsChar(x) { case Some(c) => Some((c, 3)) case None => None }
    else if 0xF0 <= b0 < 0xF5 && |b| >= 4 && IsCont(b[1]) && IsCont(b[2]) && IsCont(b[3]) then
      var x := Value4(b0, b[1], b[2], b[3]);
      if x < 0x10000 then None
      else match AsChar(x) { case Some(c) => Some((c, 4)) case None => None }
    else None
  }

  /** The value a two-byte sequence carries: five bits of the lead, six of the rest. */
  function Value2(b0: int, b1: int): (x: int)
    requires 0xC2 <= b0 < 0xE0 && 0x80 <= b1 < 0xC0
    ensures 0x80 <= x < 0x800
  {
    (b0 - 0xC0) * 64 + (b1 - 0x80)
  }

  function Value3(b0: int, b1: int, b2: int): (x: int)
    requires 0xE0 <= b0 < 0xF0 && 0x80 <= b1 < 0xC0 && 0x80 <= b2 < 0xC0
    ensures 0 <= x < 0x10000
  {
    (b0 - 0xE0) * 4096 + (b1 - 0x80) * 64 + (b2 - 0x80)
  }

  function Value4(b0: int, b1: int, b2: int, b3: int): (x: int)
    requires 0xF0 <= b0 < 0xF5 && 0x80 <= b1 < 0xC0 && 0x80 <= b2 < 0xC0 && 0x80 <= b3 < 0xC0
    ensures 0 <= x < 0x140000
  {
    (b0 - 0xF0) * 262144 + (b1 - 0x80) * 4096 + (b2 - 0x80) * 64 + (b3 - 0x80)
  }

  /** `bytes.decode("utf-8")`, which raises (None here) on ill-formed input. */
  function Decode(b: seq<Byte>): Option<string>
    decreases |b|
  {
    if b == [] then Some([])
    else match DecodeOne(b) {
      case None => None
      case Some(p) =>
        match Decode(b[p.1..]) {
          case None => None
          case Some(rest) => Some([p.0] + rest)
        }
    }
  }

  /** Decoding reads back the character an encoding starts with. */
  lemma DecodeOneEncoded(c: char, rest: seq<Byte>)
    ensures DecodeOne(EncodeChar(c) + rest) == Some((c, |EncodeChar(c)|))
  {
    var x := c as int;
    var e := EncodeChar(c);
    var b := e + rest;
    assert b[..|e|] == e;
    if x < 0x80 {
    } else if x < 0x800 {
      Split2(x);
      assert Value2(b[0], b[1]) == x;
    } else if x < 0x10000 {
      Split3(x);
      assert Value3(b[0], b[1], b[2]) == x;
    } else {
      Split4(x);
      assert Value4(b[0], b[1], b[2], b[3]) == x;
    }
  }

  lemma Split2(x: int)
    requires 0x80 <= x < 0x800
    ensures 0xC2 <= 0xC0 + x / 64 < 0xE0 && Value2(0xC0 + x / 64, 0x80 + x % 64) == x
  {
  }

  lemma Split3(x: int)
    requires 0x800 <= x < 0x10000
    ensures 0xE0 <= 0xE0 + x / 4096 < 0xF0
    ensures Value3(0xE0 + x / 4096, 0x80 + (x / 64) % 64, 0x80 + x % 64) == x
  {
    var q := x / 64;
    assert x == q * 64 + x % 64;
    assert q == (q / 64) * 64 + q % 64;
    assert q / 64 == x / 4096;
  }

  lemma Split4(x: int)
    requires 0x10000 <= x <= 0x10FFFF
    ensures 0xF0 <= 0xF0 + x / 262144 < 0xF5
    ensures Value4(0xF0 + x / 262144, 0x80 + (x / 4096) % 64, 0x80 + (x / 64) % 64, 0x80 + x % 64) == x
  {
    var q := x / 64;
    var q2 := q / 64;
    assert x == q * 64 + x % 64;
    assert q == q2 * 64 + q % 64;
    assert q2 == (q2 / 64) * 64 + q2 % 64;
    assert q2 == x / 4096;
    assert q2 / 64 == x / 262144;
  }

  /** Decoding an encoding gives the string back (the UTF-8 round trip). */
  lemma {:induction false} DecodeEncode(s: string)
    ensures Decode(Encode(s)) == Some(s)
  {
    if s != [] {
      var e := EncodeChar(s[0]);
      var b := Encode(s);
      assert b == e + Encode(s[1..]);
      DecodeOneEncoded(s[0], Encode(s[1..]));
      assert b[|e|..] == Encode(s[1..]);
      DecodeEncode(s[1..]);
      assert Decode(b) == Some([s[0]] + s[1..]);
      assert [s[0]] + s[1..] == s;
    }
  }

  /**
   * `to_valid_utf8_text`: "" for None or "", otherwise the surrogate-scrubbed
   * text sent through a UTF-8 encode and decode.
   */
  function ToValidUtf8(s: Option<seq<CodePoint>>): (r: string)
    ensures s.None? || s.value == [] ==> r == ""
    ensures s.Some? ==> |r| == |s.value|
    ensures s.Some? ==> forall i :: 0 <= i < |r| ==>
      r[i] as int == if IsSurrogate(s.value[i]) then 0xFFFD else s.value[i]
  {
    if s.None? || s.value == [] then ""
    else
      var t := Scrub(s.value);
      DecodeEncode(t);
      ScrubShape(s.value);
      Decode(Encode(t)).value
  }

  lemma {:induction false} ScrubShape(s: seq<CodePoint>)
    ensures |Scrub(s)| == |s|
    ensures forall i :: 0 <= i < |s| ==>
      Scrub(s)[i] as int == if IsSurrogate(s[i]) then 0xFFFD else s[i]
  {
    if s != [] {
      ScrubShape(s[1..]);
      assert forall i :: 1 <= i < |s| ==> Scrub(s)[i] == Scrub(s[1..])[i - 1];
    }
  }

  /** Text already made safe is left as it is. */
  lemma ToValidUtf8Idempotent(s: Option<seq<CodePoint>>)
    ensures ToValidUtf8(Some(CodePoints(ToValidUtf8(s)))) == ToValidUtf8(s)
  {
    var r := ToValidUtf8(s);
    var r2 := ToValidUtf8(Some(CodePoints(r)));
    assert |r2| == |r|;
    forall i | 0 <= i < |r|
      ensures r2[i] == r[i]
    {
      assert r2[i] as int == r[i] as int;
    }
  }

  /** A string from the front end never changes under the clean-up. */
  lemma ToValidUtf8OnStrings(s: string)
    ensures ToValidUtf8(Some(CodePoints(s))) == s
  {
    var r := ToValidUtf8(Some(CodePoints(s)));
    forall i | 0 <= i < |s|
      ensures r[i] == s[i]
    {
      assert r[i] as int == s[i] as int;
    }
  }

  // The request configuration.

  /** The storage settings of a request; `provider` is the proto enum value. */
  datatype StorageRequest = StorageRequest(
    provider: int, region: string, bucketName: string, accessKeyId: string,
    secretAccessKey: string, appId: string, pathPrefix: string)

  datatype VlmRequest = VlmRequest(modelName: string, baseUrl: string, apiKey: string, interfaceType: string)

  /** `request.read_config`; proto scalars default to 0, "" and empty lists. */
  datatype ReadConfig = ReadConfig(
    chunkSize: int, chunkOverlap: int, separators: seq<string>, enableMultimodal: bool,
    storage: StorageRequest, vlm: VlmRequest)

  datatype StorageConfig = StorageConfig(
    provider: string, region: string, bucketName: string, accessKeyId: string,
    secretAccessKey: string, appId: string, pathPrefix: string)

  datatype VlmConfig = VlmConfig(modelName: string, baseUrl: string, apiKey: string, interfaceType: string)

  /** `ChunkingConfig` as the servicer builds it. */
  datatype ChunkingConfig = ChunkingConfig(
    chunkSize: int, chunkOverlap: int, separators: seq<string>, enableMultimodal: bool,
    storage: StorageConfig, vlm: VlmConfig)

  const DefaultSeparators: seq<string> := ["\n\n", "\n", "。"]

  /** The proto enum value of the MinIO provider. */
  const MinioProvider := 2

  /** The configuration `ReadFromFile` and `ReadFromURL` build from a request. */
  function BuildConfig(rc: ReadConfig): ChunkingConfig {
    var sc := rc.storage;
    ChunkingConfig(
      if rc.chunkSize != 0 then rc.chunkSize else 512,
      if rc.chunkOverlap != 0 then rc.chunkOverlap else 50,
      if rc.separators != [] then rc.separators else DefaultSeparators,
      rc.enableMultimodal,
      StorageConfig(if sc.provider == MinioProvider then "minio" else "cos",
        sc.region, sc.bucketName, sc.accessKeyId, sc.secretAccessKey, sc.appId, sc.pathPrefix),
      VlmConfig(rc.vlm.modelName, rc.vlm.baseUrl, rc.vlm.apiKey,
        if rc.vlm.interfaceType != "" then rc.vlm.interfaceType else "openai"))
  }

  /**
   * What the defaulting guarantees: no size, overlap, separator list or
   * interface type is left unset, the provider is one of the two names, and
   * a value the request did set is kept.
   */
  lemma BuildConfigShape(rc: ReadConfig)
    ensures var c := BuildConfig(rc);
      c.chunkSize != 0 && c.chunkOverlap != 0 && c.separators != [] && c.vlm.interfaceType != "" &&
      (c.storage.provider == "minio" <==> rc.storage.provider == MinioProvider) &&
      (c.storage.provider == "minio" || c.storage.provider == "cos") &&
      (rc.chunkSize != 0 ==> c.chunkSize == rc.chunkSize) &&
      (rc.chunkSize == 0 ==> c.chunkSize == 512) &&
      (rc.chunkOverlap != 0 ==> c.chunkOverlap == rc.chunkOverlap) &&
      (rc.chunkOverlap == 0 ==> c.chunkOverlap == 50) &&
      (rc.separators != [] ==> c.separators == rc.separators) &&
      (rc.separators == [] ==> c.separators == ["\n\n", "\n", "。"]) &&
      (rc.vlm.interfaceType != "" ==> c.vlm.interfaceType == rc.vlm.interfaceType) &&
      (rc.vlm.interfaceType == "" ==> c.vlm.interfaceType == "openai") &&
      c.storage.bucketName == rc.storage.bucketName && c.storage.pathPrefix == rc.storage.pathPrefix &&
      c.vlm.modelName == rc.vlm.modelName && c.vlm.baseUrl == rc.vlm.baseUrl && c.vlm.apiKey == rc.vlm.apiKey
  {
  }

  /**
   * `request.file_type or os.path.splitext(request.file_name)[1][1:]`.
   * Without a declared type, the result is the file name's extension without
   * its dot: it holds neither a dot nor a slash, and the name ends with "."
   * and the result whenever the result is non-empty.
   */
  function FileType(fileType: string, fileName: string): (r: string)
    ensures fileType != "" ==> r == fileType
    ensures fileType == "" ==> '.' !in r && '/' !in r
    ensures fileType == "" && r != "" ==> |r| < |fileName| && fileName[|fileName| - |r| - 1..] == "." + r
  {
    if fileType != "" then fileType
    else
      var ext := SplitExt(fileName).1;
      if ext == [] then [] else ext[1..]
  }

  /** A request id is kept when set; otherwise the fresh uuid is used. */
  function RequestId(requestId: string, freshId: string): string {
    if requestId != "" then requestId else freshId
  }

  // Chunks into proto messages.

  /**
   * An image dictionary of a chunk: each entry may be missing, and a value
   * that is missing, None or falsy reads as given here (None).
   */
  datatype ImageDict = ImageDict(
    cosUrl: Option<seq<CodePoint>>, caption: Option<seq<CodePoint>>, ocrText: Option<seq<CodePoint>>,
    originalUrl: Option<seq<CodePoint>>, start: Option<int>, end: Option<int>)

  /** A parsed chunk as the servicer reads it, content possibly None. */
  datatype ParsedChunk = ParsedChunk(content: Option<seq<CodePoint>>, seqNo: int, start: int, end: int,
                                     images: seq<ImageDict>)

  datatype ProtoImage = ProtoImage(url: string, caption: string, ocrText: string, originalUrl: string,
                                   start: int, end: int)

  datatype ProtoChunk = ProtoChunk(content: string, seqNo: int, start: int, end: int, images: seq<ProtoImage>)

  /** `int(value or 0)`. */
  function OrZero(v: Option<int>): int {
    if v.Some? then v.value else 0
  }

  /** The proto image one image dictionary becomes. */
  function ImageProto(d: ImageDict): ProtoImage {
    ProtoImage(ToValidUtf8(d.cosUrl), ToValidUtf8(d.caption), ToValidUtf8(d.ocrText),
      ToValidUtf8(d.originalUrl), OrZero(d.start), OrZero(d.end))
  }

  /** The proto images of a chunk's image dictionaries, in order. */
  function ImageProtos(images: seq<ImageDict>): seq<ProtoImage> {
    if images == [] then [] else ImageProtos(images[..|images| - 1]) + [ImageProto(images[|images| - 1])]
  }

  /** The message a chunk becomes. */
  function ProtoOf(chunk: ParsedChunk): ProtoChunk {
    ProtoChunk(ToValidUtf8(chunk.content), chunk.seqNo, chunk.start, chunk.end, ImageProtos(chunk.images))
  }

  /** One proto image per image dictionary, each converted on its own. */
  lemma {:induction false} ImageProtosShape(images: seq<ImageDict>)
    ensures |ImageProtos(images)| == |images|
    ensures forall k :: 0 <= k < |images| ==> ImageProtos(images)[k] == ImageProto(images[k])
  {
    if images != [] {
      ImageProtosShape(images[..|images| - 1]);
    }
  }

  /**
   * A chunk's message holds its cleaned content and its numbers, and one
   * proto image per image dictionary, in order.
   */
  lemma ProtoOfShape(chunk: ParsedChunk)
    ensures ProtoOf(chunk).content == ToValidUtf8(chunk.content)
    ensures ProtoOf(chunk).seqNo == chunk.seqNo && ProtoOf(chunk).start == chunk.start && ProtoOf(chunk).end == chunk.end
    ensures |ProtoOf(chunk).images| == |chunk.images|
    ensures forall k :: 0 <= k < |chunk.images| ==> ProtoOf(chunk).images[k] == ImageProto(chunk.images[k])
  {
    ImageProtosShape(chunk.images);
  }

  /**
   * `_convert_chunk_to_proto`: the cleaned content and the chunk's numbers,
   * then one proto image per image dictionary, in order.
   */
  method ConvertChunkToProto(chunk: ParsedChunk) returns (p: ProtoChunk)
    ensures p == ProtoOf(chunk)
  {
    p := ProtoChunk(ToValidUtf8(chunk.content), chunk.seqNo, chunk.start, chunk.end, []);
    var k := 0;
    while k < |chunk.images|
      invariant 0 <= k <= |chunk.images|
      invariant p == ProtoChunk(ToValidUtf8(chunk.content), chunk.seqNo, chunk.start, chunk.end, ImageProtos(chunk.images[..k]))
    {
      assert chunk.images[..k + 1][..k] == chunk.images[..k];
      var img := chunk.images[k];
      var proto := ProtoImage(ToValidUtf8(img.cosUrl), ToValidUtf8(img.caption), ToValidUtf8(img.ocrText),
        ToValidUtf8(img.originalUrl), if img.start.Some? then img.start.value else 0,
        if img.end.Some? then img.end.value else 0);
      p := p.(images := p.images + [proto]);
      k := k + 1;
    }
    assert chunk.images[..k] == chunk.images;
  }

  /** An image whose offsets are missing or falsy gets offsets 0. */
  lemma MissingOffsetsAreZero(d: ImageDict)
    requires d.start.None? && d.end.None?
    ensures ImageProto(d).start == 0 && ImageProto(d).end == 0
  {
  }

  /** The outcome of `parse_file` / `parse_url`: chunks, None, or an exception's message. */
  datatype ParseOutcome = Parsed(chunks: seq<ParsedChunk>) | NoResult | Raised(message: string)

  datatype ReadResponse = ReadResponse(chunks: seq<ProtoChunk>, error: string)

  /**
   * The response both handlers build from a parse outcome: the converted
   * chunks, `noResult` in the error field when the parser gave None, or the
   * exception's message.
   */
  method Respond(outcome: ParseOutcome, noResult: string) returns (resp: ReadResponse)
    ensures outcome.NoResult? ==> resp == ReadResponse([], noResult)
    ensures outcome.Raised? ==> resp == ReadResponse([], outcome.message)
    ensures outcome.Parsed? ==> resp.error == "" && |resp.chunks| == |outcome.chunks|
    ensures outcome.Parsed? ==> forall k :: 0 <= k < |resp.chunks| ==> resp.chunks[k] == ProtoOf(outcome.chunks[k])
  {
    match outcome {
      case NoResult => resp := ReadResponse([], noResult);
      case Raised(m) => resp := ReadResponse([], m);
      case Parsed(chunks) =>
        var protos := ConvertChunks(chunks);
        resp := ReadResponse(protos, "");
    }
  }

  /**
   * The response of `ReadFromFile`: a failed parse gives an empty response
   * whose error field is empty too; an exception puts its message there.
   */
  method ReadFromFileResponse(outcome: ParseOutcome) returns (resp: ReadResponse)
    ensures outcome.NoResult? ==> resp == ReadResponse([], "")
    ensures outcome.Raised? ==> resp == ReadResponse([], outcome.message)
    ensures outcome.Parsed? ==> resp.error == "" && |resp.chunks| == |outcome.chunks|
    ensures outcome.Parsed? ==> forall k :: 0 <= k < |resp.chunks| ==> resp.chunks[k] == ProtoOf(outcome.chunks[k])
  {
    resp := Respond(outcome, "");
  }

  /**
   * The response of `ReadFromURL`: as for files, except that a failed parse
   * reports "Failed to parse URL" in the error field.
   */
  method ReadFromUrlResponse(outcome: ParseOutcome) returns (resp: ReadResponse)
    ensures outcome.NoResult? ==> resp == ReadResponse([], "Failed to parse URL")
    ensures outcome.Raised? ==> resp == ReadResponse([], outcome.message)
    ensures outcome.Parsed? ==> resp.error == "" && |resp.chunks| == |outcome.chunks|
    ensures outcome.Parsed? ==> forall k :: 0 <= k < |resp.chunks| ==> resp.chunks[k] == ProtoOf(outcome.chunks[k])
  {
    resp := Respond(outcome, "Failed to parse URL");
  }

  /** The list comprehension over `result.chunks`. */
  method ConvertChunks(chunks: seq<ParsedChunk>) returns (protos: seq<ProtoChunk>)
    ensures |protos| == |chunks|
    ensures forall k :: 0 <= k < |chunks| ==> protos[k] == ProtoOf(chunks[k])
  {
    protos := [];
    var k := 0;
    while k < |chunks|
      invariant 0 <= k <= |chunks| && |protos| == k
      invariant forall j :: 0 <= j < k ==> protos[j] == ProtoOf(chunks[j])
    {
      var p := ConvertChunkToProto(chunks[k]);
      protos := protos + [p];
      k := k + 1;
    }
  }
}
