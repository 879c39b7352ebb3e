/** The `Png` helper class shared, line for line, by backyard_to_tavern_v8.py and
    convert_faraday_to_tavern_v2.py: an unchecked chunk reader, a chunk writer
    that recomputes every CRC, the `tEXt` keyword/text codec, and the
    `chara` field reader and writer.

    Chunk layout follows section 5.3 of the PNG specification (big-endian
    length, four-byte type, data, CRC-32 of type and data); the signature is
    the eight bytes of section 5.2; a `tEXt` chunk is `keyword NUL text`
    (section 11.3.4.3). */
module PngCodec {
  import opened Wrappers
  import opened Text
  import opened Bytes
  import opened Library

  const Signature: seq<byte> := [0x89, 0x50, 0x4E, 0x47, 0x0D, 0x0A, 0x1A, 0x0A]

  /** A chunk dict `{'type', 'data', 'crc'}`; the chunk built by `generate` has no `'crc'` key. */
  datatype Chunk = Chunk(kind: string, data: seq<byte>, crc: Option<nat>)

  /** The dict `{'keyword', 'text'}` returned by `decode_text`. */
  datatype TextField = TextField(keyword: string, text: string)

  /** The exceptions these routines raise. */
  datatype PngError =
    | StructError                    // struct.pack/unpack given the wrong size or an out-of-range value
    | UnicodeDecodeError             // a chunk type or a base64 text that does not decode
    | UnicodeEncodeError             // a chunk type or a text field that does not encode
    | SplitError                     // ValueError: a tEXt chunk without a NUL separator
    | MissingCharacter(message: string)
    | InvalidCharacterConstruction   // TypeError: PngInvalidCharacterError does not accept `cause=`

  const NoTextFields := "No PNG text fields found in file"
  const NoCharaField := "No PNG text field named \"chara\" found in file"

  /** `a + r` when `r` succeeded; the error otherwise. */
  function Prepend<T, E>(a: seq<T>, r: Result<seq<T>, E>): Result<seq<T>, E>
  {
    match r
    case Ok(t) => Ok(a + t)
    case Err(e) => Err(e)
  }

  lemma PrependAssoc<T, E>(a: seq<T>, b: seq<T>, r: Result<seq<T>, E>)
    ensures Prepend(a, Prepend(b, r)) == Prepend(a + b, r)
  {
    if r.Ok? {
      assert a + (b + r.value) == (a + b) + r.value;
    }
  }

  lemma PrependNil<T, E>(r: Result<seq<T>, E>)
    ensures Prepend([], r) == r
  {
    if r.Ok? {
      assert [] + r.value == r.value;
    }
  }

  // ---------------------------------------------------------------------
  // read_chunks
  // ---------------------------------------------------------------------

  /** The chunk `read_chunks` reads at the start of `rest` (the bytes from its
      current offset on), or the exception it raises there: a length field or
      CRC field cut short raises struct.error and a non-ASCII type raises
      UnicodeDecodeError. */
  function ChunkOf(rest: seq<byte>): (r: Result<Chunk, PngError>)
    ensures r.Ok? ==> 12 + |r.value.data| <= |rest|
  {
    if |rest| < 4 then Err(StructError)
    else
      var length := Be32Value(rest[..4]);
      match AsciiDecode(rest[4..Min(8, |rest|)])
      case None => Err(UnicodeDecodeError)
      case Some(kind) =>
        if 12 + length > |rest| then Err(StructError)
        else Ok(Chunk(kind, rest[8..8 + length], Some(Be32Value(rest[8 + length..12 + length]))))
  }

  /** What `read_chunks` returns for the chunks in `rest`: it checks nothing
      beyond what `ChunkOf` raises, and it does not stop at IEND. */
  function ChunksOf(rest: seq<byte>): Result<seq<Chunk>, PngError>
    decreases |rest|
  {
    if |rest| == 0 then Ok([])
    else match ChunkOf(rest)
      case Err(e) => Err(e)
      case Ok(c) => Prepend([c], ChunksOf(rest[12 + |c.data|..]))
  }

  /** What `Png.read_chunks(data)` returns: the chunks after the eight signature bytes. */
  function Chunks(data: seq<byte>): Result<seq<Chunk>, PngError>
  {
    if |data| <= 8 then Ok([]) else ChunksOf(data[8..])
  }

  /** `ChunkOf` on the bytes from offset `pos`, in terms of offsets into the whole buffer. */
  lemma ChunkAtOffset(data: seq<byte>, pos: nat)
    requires pos < |data|
    ensures var rest := data[pos..];
      ChunkOf(rest) ==
        if pos + 4 > |data| then Err(StructError)
        else
          var length := Be32Value(data[pos..pos + 4]);
          var kind := AsciiDecode(data[pos + 4..Min(pos + 8, |data|)]);
          if kind.None? then Err(UnicodeDecodeError)
          else if pos + 12 + length > |data| then Err(StructError)
          else Ok(Chunk(kind.value, data[pos + 8..pos + 8 + length], Some(Be32Value(data[pos + 8 + length..pos + 12 + length]))))
  {
    var rest := data[pos..];
    if pos + 4 <= |data| {
      assert rest[..4] == data[pos..pos + 4];
      assert rest[4..Min(8, |rest|)] == data[pos + 4..Min(pos + 8, |data|)];
      var length := Be32Value(data[pos..pos + 4]);
      if pos + 12 + length <= |data| {
        assert rest[8..8 + length] == data[pos + 8..pos + 8 + length];
        assert rest[8 + length..12 + length] == data[pos + 8 + length..pos + 12 + length];
      }
    }
  }

  /** What the loop of `read_chunks` still returns from offset `pos`. */
  function ChunksFrom(data: seq<byte>, pos: nat): Result<seq<Chunk>, PngError>
  {
    if pos < |data| then ChunksOf(data[pos..]) else Ok([])
  }

  /** `Png.read_chunks(data)`: the loop advancing `pos` past each chunk after the signature. */
  method ReadChunks(data: seq<byte>) returns (r: Result<seq<Chunk>, PngError>)
    ensures r == Chunks(data)
  {
    var pos: nat := 8;
    var chunks: seq<Chunk> := [];
    PrependNil(Chunks(data));
    while pos < |data|
      invariant Chunks(data) == Prepend(chunks, ChunksFrom(data, pos))
      decreases |data| - pos
    {
      ChunkAtOffset(data, pos);
      if pos + 4 > |data| {
        ReadFails(data, pos, chunks, StructError);
        return Err(StructError);
      }
      var length := Be32Value(data[pos..pos + 4]);
      var kind := AsciiDecode(data[pos + 4..Min(pos + 8, |data|)]);
      if kind.None? {
        ReadFails(data, pos, chunks, UnicodeDecodeError);
        return Err(UnicodeDecodeError);
      }
      if pos + 12 + length > |data| {
        ReadFails(data, pos, chunks, StructError);
        return Err(StructError);
      }
      var crc := Be32Value(data[pos + 8 + length..pos + 12 + length]);
      var chunk := Chunk(kind.value, data[pos + 8..pos + 8 + length], Some(crc));
      var next := pos + 12 + length;
      ReadStep(data, pos, next, chunks, chunk);
      chunks := chunks + [chunk];
      pos := next;
    }
    assert chunks + [] == chunks;
    return Ok(chunks);
  }

  /** `read_chunks` raises the exception the chunk at `pos` raises. */
  lemma ReadFails(data: seq<byte>, pos: nat, chunks: seq<Chunk>, e: PngError)
    requires pos < |data| && ChunkOf(data[pos..]) == Err(e)
    requires Chunks(data) == Prepend(chunks, ChunksFrom(data, pos))
    ensures Chunks(data) == Err(e)
  {
  }

  /** The loop invariant of `read_chunks` after the chunk at `pos` is appended;
      `next` is the offset right after its CRC. */
  lemma ReadStep(data: seq<byte>, pos: nat, next: nat, chunks: seq<Chunk>, c: Chunk)
    requires pos < |data| && ChunkOf(data[pos..]) == Ok(c) && next == pos + 12 + |c.data|
    requires Chunks(data) == Prepend(chunks, ChunksFrom(data, pos))
    ensures Chunks(data) == Prepend(chunks + [c], ChunksFrom(data, next))
  {
    ChunksOfStep(data[pos..], c);
    if next < |data| {
      assert data[pos..][12 + |c.data|..] == data[next..];
    }
    PrependAssoc(chunks, [c], ChunksFrom(data, next));
  }

  /** One step of `read_chunks`: the chunk at the start, then the chunks after it. */
  lemma ChunksOfStep(rest: seq<byte>, c: Chunk)
    requires |rest| > 0 && ChunkOf(rest) == Ok(c)
    ensures ChunksOf(rest) == Prepend([c], ChunksOf(rest[12 + |c.data|..]))
  {
  }

  /** A chunk `encode_chunks` can write and `read_chunks` can read back. */
  predicate WellFormed(c: Chunk) {
    |c.kind| == 4 && IsAsciiText(c.kind) && |c.data| < TWO_32
  }

  lemma ChunkOfWellFormed(rest: seq<byte>)
    requires ChunkOf(rest).Ok?
    ensures WellFormed(ChunkOf(rest).value)
  {
    assert Min(8, |rest|) == 8;
  }

  /** Every chunk `read_chunks` returns has a four-character ASCII type and a data length that fits 32 bits. */
  lemma {:induction false} ReadChunksWellFormed(rest: seq<byte>)
    requires ChunksOf(rest).Ok?
    ensures forall c :: c in ChunksOf(rest).value ==> WellFormed(c)
    decreases |rest|
  {
    if |rest| > 0 {
      var chunk := ChunkOf(rest).value;
      ChunkOfWellFormed(rest);
      ReadChunksWellFormed(rest[12 + |chunk.data|..]);
    }
  }

  // ---------------------------------------------------------------------
  // encode_chunks
  // ---------------------------------------------------------------------

  /** The bytes `encode_chunks` appends for one chunk: length, type, data and the
      CRC-32 of type and data; the chunk's stored CRC is not used. */
  function EncodeChunk(c: Chunk): Result<seq<byte>, PngError>
  {
    if |c.data| >= TWO_32 then Err(StructError)
    else match AsciiEncode(c.kind)
      case None => Err(UnicodeEncodeError)
      case Some(t) => Ok(Be32(|c.data|) + t + c.data + Be32(Crc32(t + c.data)))
  }

  function EncodeAll(cs: seq<Chunk>): Result<seq<byte>, PngError>
    decreases |cs|
  {
    if |cs| == 0 then Ok([])
    else match EncodeChunk(cs[0])
      case Err(e) => Err(e)
      case Ok(b) => Prepend(b, EncodeAll(cs[1..]))
  }

  /** What `encode_chunks(chunks)` returns: the signature, then every chunk in order. */
  function EncodedPng(cs: seq<Chunk>): Result<seq<byte>, PngError>
  {
    Prepend(Signature, EncodeAll(cs))
  }

  /** `Png.encode_chunks(chunks)`: accumulates the output chunk by chunk. */
  method EncodeChunks(cs: seq<Chunk>) returns (r: Result<seq<byte>, PngError>)
    ensures r == EncodedPng(cs)
  {
    var data := Signature;
    for i := 0 to |cs|
      invariant EncodedPng(cs) == Prepend(data, EncodeAll(cs[i..]))
    {
      var c := cs[i];
      assert cs[i..][1..] == cs[i + 1..];
      if |c.data| >= TWO_32 {
        return Err(StructError);
      }
      var kind := AsciiEncode(c.kind);
      if kind.None? {
        return Err(UnicodeEncodeError);
      }
      var t := kind.value;
      var piece := Be32(|c.data|) + t + c.data + Be32(Crc32(t + c.data));
      PrependAssoc(data, piece, EncodeAll(cs[i + 1..]));
      data := data + piece;
    }
    assert data + [] == data;
    return Ok(data);
  }

  /** The encoded size of a chunk list: twelve bytes of framing per chunk plus its data. */
  function ChunksSize(cs: seq<Chunk>): nat
  {
    if |cs| == 0 then 0 else 12 + |cs[0].data| + ChunksSize(cs[1..])
  }

  /** A chunk list encodes exactly when every chunk is well formed (given
      four-character types), and the output is the signature plus 12 bytes and the data per chunk. */
  lemma {:induction false} EncodedSize(cs: seq<Chunk>)
    requires forall c :: c in cs ==> WellFormed(c)
    ensures EncodedPng(cs).Ok?
    ensures |EncodedPng(cs).value| == 8 + ChunksSize(cs)
  {
    if |cs| > 0 {
      assert forall c :: c in cs[1..] ==> c in cs;
      EncodedSize(cs[1..]);
      assert cs[0] in cs;
    }
  }

  /** Encoding fails exactly on the first chunk that is too long or has a non-ASCII type. */
  lemma {:induction false} EncodeFailure(cs: seq<Chunk>)
    ensures EncodeAll(cs).Err? <==> exists c :: c in cs && EncodeChunk(c).Err?
  {
    if |cs| > 0 {
      EncodeFailure(cs[1..]);
      assert forall c :: c in cs <==> c == cs[0] || c in cs[1..];
    }
  }

  /** The stored CRC plays no part in the output. */
  lemma {:induction false} EncodeIgnoresCrc(cs: seq<Chunk>, ds: seq<Chunk>)
    requires |cs| == |ds|
    requires forall i :: 0 <= i < |cs| ==> cs[i].kind == ds[i].kind && cs[i].data == ds[i].data
    ensures EncodeAll(cs) == EncodeAll(ds)
    ensures EncodedPng(cs) == EncodedPng(ds)
  {
    if |cs| > 0 {
      EncodeIgnoresCrc(cs[1..], ds[1..]);
      assert EncodeChunk(cs[0]) == EncodeChunk(ds[0]);
    }
  }

  /** The chunk as `read_chunks` sees it after `encode_chunks` wrote it: the CRC is recomputed. */
  function Stamped(c: Chunk): Chunk
    requires WellFormed(c)
  {
    Chunk(c.kind, c.data, Some(Crc32(StrBytes(c.kind) + c.data)))
  }

  function StampAll(cs: seq<Chunk>): (r: seq<Chunk>)
    requires forall c :: c in cs ==> WellFormed(c)
    ensures |r| == |cs|
    ensures forall i :: 0 <= i < |cs| ==> r[i].kind == cs[i].kind && r[i].data == cs[i].data
  {
    if |cs| == 0 then [] else [Stamped(cs[0])] + StampAll(cs[1..])
  }

  lemma FourParts<T>(a: seq<T>, b: seq<T>, c: seq<T>, d: seq<T>, rest: seq<T>)
    requires |a| == 4 && |b| == 4 && |d| == 4
    ensures var s := a + b + c + d + rest;
      && s[..4] == a && s[4..8] == b && s[8..8 + |c|] == c && s[8 + |c|..12 + |c|] == d
      && s[12 + |c|..] == rest
  {
  }

  /** Reading back one encoded chunk from the start of a buffer. */
  lemma ReadEncodedChunk(c: Chunk, rest: seq<byte>)
    requires WellFormed(c)
    ensures EncodeChunk(c).Ok?
    ensures ChunkOf(EncodeChunk(c).value + rest) == Ok(Stamped(c))
    ensures (EncodeChunk(c).value + rest)[12 + |c.data|..] == rest
  {
    var t := AsciiEncode(c.kind).value;
    var len := |c.data|;
    var crc := Be32(Crc32(t + c.data));
    var e := Be32(len) + t + c.data + crc;
    assert EncodeChunk(c) == Ok(e);
    FourParts(Be32(len), t, c.data, crc, rest);
    assert e + rest == Be32(len) + t + c.data + crc + rest;
    Be32RoundTrip(len);
    Be32RoundTrip(Crc32(t + c.data));
    Latin1RoundTrip(t);
    assert AsciiDecode(t) == Some(c.kind);
  }

  lemma {:induction false} ReadEncodedBody(cs: seq<Chunk>)
    requires forall c :: c in cs ==> WellFormed(c)
    ensures EncodeAll(cs).Ok?
    ensures ChunksOf(EncodeAll(cs).value) == Ok(StampAll(cs))
    decreases |cs|
  {
    if |cs| > 0 {
      assert forall c :: c in cs[1..] ==> c in cs;
      assert cs[0] in cs;
      ReadEncodedBody(cs[1..]);
      var e := EncodeChunk(cs[0]).value;
      var body := EncodeAll(cs[1..]).value;
      assert EncodeAll(cs) == Ok(e + body);
      ReadEncodedChunk(cs[0], body);
      ChunksOfStep(e + body, Stamped(cs[0]));
    }
  }

  /** `read_chunks(encode_chunks(cs))` gives back every chunk's type and data, in
      order, with the CRC it was written with. */
  lemma ReadEncodedChunks(cs: seq<Chunk>)
    requires forall c :: c in cs ==> WellFormed(c)
    ensures EncodedPng(cs).Ok?
    ensures Chunks(EncodedPng(cs).value) == Ok(StampAll(cs))
  {
    ReadEncodedBody(cs);
    var body := EncodeAll(cs).value;
    assert (Signature + body)[8..] == body;
    if |cs| > 0 {
      assert |body| > 0 by { ReadEncodedChunk(cs[0], EncodeAll(cs[1..]).value); }
    }
  }

  // ---------------------------------------------------------------------
  // decode_text / encode_text
  // ---------------------------------------------------------------------

  /** `Png.decode_text(data)`: split at the first NUL and decode both halves as latin-1. */
  function DecodeText(data: seq<byte>): (r: Result<TextField, PngError>)
    ensures r.Err? <==> 0 !in data
  {
    var k := Find(data, [0], 0);
    if k == -1 then
      assert 0 !in data by {
        forall i | 0 <= i < |data| ensures data[i] != 0 { assert data[i..i + 1] == [data[i]]; assert !OccursAt(data, [0], i); }
      }
      Err(SplitError)
    else
      assert data[k] == 0 by { assert data[k..k + 1] == [0]; }
      Ok(TextField(Latin1Decode(data[..k]), Latin1Decode(data[k + 1..])))
  }

  /** `Png.encode_text(keyword, text)`: latin-1 keyword, NUL, latin-1 text. */
  function EncodeText(keyword: string, text: string): (r: Result<seq<byte>, PngError>)
    ensures r.Ok? <==> Latin1Encode(keyword).Some? && Latin1Encode(text).Some?
  {
    match Latin1Encode(keyword)
    case None => Err(UnicodeEncodeError)
    case Some(k) =>
      match Latin1Encode(text)
      case None => Err(UnicodeEncodeError)
      case Some(t) => Ok(k + [0] + t)
  }

  /** The first NUL of `k + [0] + t` is the separator when `k` has none. */
  lemma FirstNulIsSeparator(k: seq<byte>, t: seq<byte>)
    requires 0 !in k
    ensures Find(k + [0] + t, [0], 0) == |k|
  {
    var data := k + [0] + t;
    forall i | 0 <= i < |k| ensures !OccursAt(data, [0], i) {
      assert data[i..i + 1] == [k[i]];
    }
    assert OccursAt(data, [0], |k|) by { assert data[|k|..|k| + 1] == [0]; }
  }

  /** A NUL inside `k` comes before the separator. */
  lemma FirstNulInside(k: seq<byte>, t: seq<byte>, j: nat)
    requires j < |k| && k[j] == 0
    ensures 0 <= Find(k + [0] + t, [0], 0) <= j
  {
    var data := k + [0] + t;
    assert OccursAt(data, [0], j) by { assert data[j..j + 1] == [k[j]]; }
  }

  /** Decoding an encoded text field gives back keyword and text exactly when the
      keyword has no NUL: the split is at the first NUL. */
  lemma TextRoundTrip(keyword: string, text: string)
    requires EncodeText(keyword, text).Ok?
    ensures DecodeText(EncodeText(keyword, text).value) == Ok(TextField(keyword, text)) <==> '\0' !in keyword
  {
    var k := Latin1Encode(keyword).value;
    var t := Latin1Encode(text).value;
    var data := k + [0] + t;
    LatinEncodeDecode(keyword);
    LatinEncodeDecode(text);
    if '\0' !in keyword {
      assert 0 !in k by {
        forall i | 0 <= i < |k| ensures k[i] != 0 {
          assert keyword[i] as int == k[i] as int;
        }
      }
      FirstNulIsSeparator(k, t);
      assert data[..|k|] == k && data[|k| + 1..] == t;
    } else {
      var j :| 0 <= j < |keyword| && keyword[j] == '\0';
      assert keyword[j] as int == k[j] as int;
      FirstNulInside(k, t, j);
      var f := Find(data, [0], 0);
      assert |Latin1Decode(data[..f])| < |keyword|;
    }
  }

  // ---------------------------------------------------------------------
  // parse
  // ---------------------------------------------------------------------

  predicate IsText(c: Chunk) { c.kind == "tEXt" }

  function NotText(c: Chunk): bool { !IsText(c) }

  /** `[decode_text(c['data']) for c in chunks if c['type'] == 'tEXt']`: the first failing decode raises. */
  function TextFields(cs: seq<Chunk>): Result<seq<TextField>, PngError>
    decreases |cs|
  {
    if |cs| == 0 then Ok([])
    else if IsText(cs[0]) then
      match DecodeText(cs[0].data)
      case Err(e) => Err(e)
      case Ok(t) => Prepend([t], TextFields(cs[1..]))
    else TextFields(cs[1..])
  }

  /** `next((t for t in text_chunks if t['keyword'] == 'chara'), None)`. */
  function FirstChara(ts: seq<TextField>): (r: Option<TextField>)
    ensures r.None? <==> forall t :: t in ts ==> t.keyword != "chara"
    ensures r.Some? ==> r.value in ts && r.value.keyword == "chara"
    ensures r.Some? ==> exists i :: 0 <= i < |ts| && ts[i] == r.value && forall j :: 0 <= j < i ==> ts[j].keyword != "chara"
  {
    if |ts| == 0 then None
    else if ts[0].keyword == "chara" then Some(ts[0])
    else
      var r := FirstChara(ts[1..]);
      assert forall t :: t in ts <==> t == ts[0] || t in ts[1..];
      if r.Some? then
        var i :| 0 <= i < |ts[1..]| && ts[1..][i] == r.value && forall j :: 0 <= j < i ==> ts[1..][j].keyword != "chara";
        assert ts[i + 1] == r.value;
        r
      else r
  }

  /** `Png.parse(array_buffer)`: the decoded `chara` text field. */
  function Parse(buffer: seq<byte>, lib: Primitives): (r: Result<string, PngError>)
    ensures Chunks(buffer).Err? ==> r == Err(Chunks(buffer).error)
    ensures r.Ok? ==> Chunks(buffer).Ok? && TextFields(Chunks(buffer).value).Ok?
    ensures r.Ok? ==> FirstChara(TextFields(Chunks(buffer).value).value).Some?
    ensures Chunks(buffer).Ok? && TextFields(Chunks(buffer).value) == Ok([]) ==> r == Err(MissingCharacter(NoTextFields))
  {
    match Chunks(buffer)
    case Err(e) => Err(e)
    case Ok(cs) =>
      match TextFields(cs)
      case Err(e) => Err(e)
      case Ok(ts) =>
        if |ts| == 0 then Err(MissingCharacter(NoTextFields))
        else match FirstChara(ts)
          case None => Err(MissingCharacter(NoCharaField))
          case Some(chara) =>
            match B64DecodeText(lib, chara.text)
            case None => Err(InvalidCharacterConstruction)
            case Some(raw) =>
              match lib.utf8Decode(raw)
              case None => Err(InvalidCharacterConstruction)
              case Some(s) => Ok(s)
  }

  /** What `parse` makes of a file whose text fields decode: text fields but
      none keyed `chara` raise the missing-field error; otherwise the result
      is the UTF-8 text of the base64 payload of the FIRST `chara` field, and
      any failure of those two decodings raises the invalid-character error. */
  lemma ParseFirstChara(buffer: seq<byte>, lib: Primitives, ts: seq<TextField>)
    requires Chunks(buffer).Ok? && TextFields(Chunks(buffer).value) == Ok(ts) && |ts| > 0
    ensures FirstChara(ts).None? ==> Parse(buffer, lib) == Err(MissingCharacter(NoCharaField))
    ensures FirstChara(ts).Some? ==> var text := FirstChara(ts).value.text;
      && (Parse(buffer, lib).Ok? <==>
            B64DecodeText(lib, text).Some? && lib.utf8Decode(B64DecodeText(lib, text).value).Some?)
      && (Parse(buffer, lib).Ok? ==> Parse(buffer, lib).value == lib.utf8Decode(B64DecodeText(lib, text).value).value)
      && (Parse(buffer, lib).Err? ==> Parse(buffer, lib).error == InvalidCharacterConstruction)
  {
  }

  /** A text chunk that does not decode makes `parse` raise that error. */
  lemma ParseTextFieldError(buffer: seq<byte>, lib: Primitives)
    requires Chunks(buffer).Ok? && TextFields(Chunks(buffer).value).Err?
    ensures Parse(buffer, lib) == Err(TextFields(Chunks(buffer).value).error)
  {
  }

  // ---------------------------------------------------------------------
  // generate
  // ---------------------------------------------------------------------

  /** Python's `chunks.insert(-1, x)`: before the last element, or alone in an empty list. */
  function InsertBeforeLast<T>(cs: seq<T>, x: T): (r: seq<T>)
    ensures |r| == |cs| + 1
  {
    if |cs| == 0 then [x] else cs[..|cs| - 1] + [x] + [cs[|cs| - 1]]
  }

  /** Where `insert(-1, x)` puts `x`. */
  function InsertIndex<T>(cs: seq<T>): nat
  {
    if |cs| == 0 then 0 else |cs| - 1
  }

  /** `x` lands immediately before the last element, and the other elements keep their order. */
  lemma InsertBeforeLastLayout<T>(cs: seq<T>, x: T)
    ensures var r := InsertBeforeLast(cs, x); var k := InsertIndex(cs);
      && k < |r| && r[k] == x
      && r[..k] + r[k + 1..] == cs
      && (|cs| > 0 ==> k == |r| - 2)
  {
    var r := InsertBeforeLast(cs, x);
    var k := InsertIndex(cs);
    if |cs| > 0 {
      assert r[..k] == cs[..|cs| - 1];
      assert r[k + 1..] == [cs[|cs| - 1]];
    }
  }

  /** The chunk list `generate` writes: every `tEXt` chunk of the input removed, then the new chunk inserted before the last. */
  function GeneratedChunks(cs: seq<Chunk>, chara: Chunk): seq<Chunk>
  {
    InsertBeforeLast(Filter(NotText, cs), chara)
  }

  /** The new `chara` text field: base64 of the UTF-8 JSON text, decoded back to a string. */
  function CharaText(json: string, lib: Primitives): Option<string>
  {
    lib.utf8Decode(lib.b64Encode(lib.utf8Encode(json)))
  }

  /** What `Png.generate(array_buffer, json_data)` returns. */
  function Generated(buffer: seq<byte>, json: string, lib: Primitives): Result<seq<byte>, PngError>
  {
    match Chunks(buffer)
    case Err(e) => Err(e)
    case Ok(cs) =>
      match CharaText(json, lib)
      case None => Err(UnicodeDecodeError)
      case Some(text) =>
        match EncodeText("chara", text)
        case Err(e) => Err(e)
        case Ok(d) => EncodedPng(GeneratedChunks(cs, Chunk("tEXt", d, None)))
  }

  /** `Png.generate(array_buffer, json_data)`. */
  method Generate(buffer: seq<byte>, json: string, lib: Primitives) returns (r: Result<seq<byte>, PngError>)
    ensures r == Generated(buffer, json, lib)
  {
    var read := ReadChunks(buffer);
    if read.Err? {
      return Err(read.error);
    }
    var chunks := Filter(NotText, read.value);
    var text := CharaText(json, lib);
    if text.None? {
      return Err(UnicodeDecodeError);
    }
    var data := EncodeText("chara", text.value);
    if data.Err? {
      return Err(data.error);
    }
    chunks := InsertBeforeLast(chunks, Chunk("tEXt", data.value, None));
    r := EncodeChunks(chunks);
  }

  /** The chunk list `generate` writes has exactly one `tEXt` chunk, the new one,
      immediately before the last chunk; every other input chunk that is not
      `tEXt` keeps its order. */
  lemma GeneratedLayout(cs: seq<Chunk>, chara: Chunk)
    requires IsText(chara)
    ensures var out := GeneratedChunks(cs, chara); var kept := Filter(NotText, cs); var k := InsertIndex(kept);
      && k < |out| && out[k] == chara
      && out[..k] + out[k + 1..] == kept
      && (|kept| > 0 ==> k == |out| - 2)
      && (forall i :: 0 <= i < |out| && i != k ==> !IsText(out[i]))
  {
    var kept := Filter(NotText, cs);
    var out := GeneratedChunks(cs, chara);
    var k := InsertIndex(kept);
    InsertBeforeLastLayout(kept, chara);
    forall i | 0 <= i < |out| && i != k ensures !IsText(out[i]) {
      if i < k {
        assert out[i] == kept[i];
      } else {
        assert out[i] == kept[i - 1];
      }
    }
  }

  lemma {:induction false} TextFieldsSkip(a: seq<Chunk>, b: seq<Chunk>)
    requires forall i :: 0 <= i < |a| ==> !IsText(a[i])
    ensures TextFields(a + b) == TextFields(b)
  {
    if |a| > 0 {
      assert (a + b)[1..] == a[1..] + b;
      TextFieldsSkip(a[1..], b);
    } else {
      assert a + b == b;
    }
  }

  lemma GeneratedWellFormed(cs: seq<Chunk>, chara: Chunk)
    requires forall c :: c in cs ==> WellFormed(c)
    requires WellFormed(chara)
    ensures forall c :: c in GeneratedChunks(cs, chara) ==> WellFormed(c)
  {
    var kept := Filter(NotText, cs);
    forall c | c in GeneratedChunks(cs, chara) ensures c == chara || c in kept {
      if |kept| > 0 {
        assert c in kept[..|kept| - 1] || c == chara || c == kept[|kept| - 1];
      }
    }
  }

  /** The text fields of a chunk list whose only `tEXt` chunk sits at index `k`. */
  lemma TextFieldsSingle(st: seq<Chunk>, k: nat, t: TextField)
    requires k < |st| && IsText(st[k]) && DecodeText(st[k].data) == Ok(t)
    requires forall i :: 0 <= i < |st| && i != k ==> !IsText(st[i])
    ensures TextFields(st) == Ok([t])
  {
    var front, x, back := st[..k], st[k], st[k + 1..];
    assert st == front + ([x] + back);
    assert forall i :: 0 <= i < |front| ==> front[i] == st[i];
    assert forall i :: 0 <= i < |back| ==> back[i] == st[k + 1 + i];
    TextFieldsSkip(front, [x] + back);
    TextFieldsCons(x, back, t);
    assert back + [] == back;
    TextFieldsSkip(back, []);
    assert TextFields(back) == Ok([]);
    assert [t] + [] == [t];
  }

  lemma TextFieldsCons(x: Chunk, rest: seq<Chunk>, t: TextField)
    requires IsText(x) && DecodeText(x.data) == Ok(t)
    ensures TextFields([x] + rest) == Prepend([t], TextFields(rest))
  {
    assert ([x] + rest)[1..] == rest;
  }

  /** Latin-1 text decoded from ASCII bytes is ASCII and encodes back to the same bytes. */
  lemma AsciiBytesText(b: seq<byte>)
    requires forall i :: 0 <= i < |b| ==> b[i] < 128
    ensures IsAsciiText(Latin1Decode(b))
    ensures StrBytes(Latin1Decode(b)) == b
  {
    var text := Latin1Decode(b);
    assert forall i :: 0 <= i < |text| ==> text[i] as int == b[i] as int;
    Latin1RoundTrip(b);
  }

  lemma CharaKeyword()
    ensures Latin1Encode("chara").Some?
    ensures '\0' !in "chara"
  {
    assert IsAsciiText("chara");
    Latin1EncodeAscii("chara");
  }

  /** The new `chara` field encodes, decodes back to itself, and its base64 text decodes to the UTF-8 JSON. */
  lemma CharaFieldRoundTrip(json: string, lib: Primitives)
    requires CodecLaws(lib)
    ensures CharaText(json, lib).Some?
    ensures var text := CharaText(json, lib).value;
      && EncodeText("chara", text).Ok?
      && DecodeText(EncodeText("chara", text).value) == Ok(TextField("chara", text))
      && B64DecodeText(lib, text) == Some(lib.utf8Encode(json))
  {
    var u := lib.utf8Encode(json);
    var b64 := lib.b64Encode(u);
    assert forall i :: 0 <= i < |b64| ==> b64[i] < 128;
    assert lib.utf8Decode(b64) == Some(Latin1Decode(b64));
    assert lib.b64Decode(b64) == Some(u);
    var text := Latin1Decode(b64);
    AsciiBytesText(b64);
    Latin1EncodeAscii(text);
    CharaKeyword();
    TextRoundTrip("chara", text);
  }

  lemma TextKind()
    ensures |"tEXt"| == 4 && IsAsciiText("tEXt")
  {
  }

  lemma EncodedMember(cs: seq<Chunk>, c: Chunk)
    requires EncodedPng(cs).Ok? && c in cs
    ensures EncodeChunk(c).Ok?
  {
    EncodeFailure(cs);
  }

  /** Reading the chunk list `generate` writes yields one text field, the new one. */
  lemma GeneratedTextFields(cs: seq<Chunk>, chara: Chunk, t: TextField)
    requires forall c :: c in cs ==> WellFormed(c)
    requires IsText(chara) && DecodeText(chara.data) == Ok(t)
    requires EncodedPng(GeneratedChunks(cs, chara)).Ok?
    ensures Chunks(EncodedPng(GeneratedChunks(cs, chara)).value).Ok?
    ensures TextFields(Chunks(EncodedPng(GeneratedChunks(cs, chara)).value).value) == Ok([t])
  {
    var out := GeneratedChunks(cs, chara);
    GeneratedLayout(cs, chara);
    var k := InsertIndex(Filter(NotText, cs));
    EncodedMember(out, chara);
    TextKind();
    assert WellFormed(chara);
    GeneratedWellFormed(cs, chara);
    ReadEncodedChunks(out);
    TextFieldsSingle(StampAll(out), k, t);
  }

  /** `parse(generate(buffer, json))` returns `json`, given the base64 and UTF-8 laws. */
  lemma ParseGenerated(buffer: seq<byte>, json: string, lib: Primitives)
    requires CodecLaws(lib)
    requires Generated(buffer, json, lib).Ok?
    ensures Parse(Generated(buffer, json, lib).value, lib) == Ok(json)
  {
    var cs := Chunks(buffer).value;
    if |buffer| > 8 { ReadChunksWellFormed(buffer[8..]); }
    CharaFieldRoundTrip(json, lib);
    var text := CharaText(json, lib).value;
    var chara := Chunk("tEXt", EncodeText("chara", text).value, None);
    var png := EncodedPng(GeneratedChunks(cs, chara));
    assert Generated(buffer, json, lib) == png;
    GeneratedTextFields(cs, chara, TextField("chara", text));
    ParseSingleChara(png.value, text, json, lib);
  }

  /** A buffer whose only text field is `chara` parses to what that field's base64 encodes. */
  lemma ParseSingleChara(png: seq<byte>, text: string, json: string, lib: Primitives)
    requires CodecLaws(lib)
    requires Chunks(png).Ok? && TextFields(Chunks(png).value) == Ok([TextField("chara", text)])
    requires B64DecodeText(lib, text) == Some(lib.utf8Encode(json))
    ensures Parse(png, lib) == Ok(json)
  {
    assert lib.utf8Decode(lib.utf8Encode(json)) == Some(json);
    assert FirstChara([TextField("chara", text)]) == Some(TextField("chara", text));
  }
}
