/** The writing half of `backyard_to_tavern.py`: the end of `save_tavern_card`,
    which drops the old character chunks, inserts the new `chara` chunk and
    writes the chunks back, and what the reader makes of the result. */
module BackyardWrite {
  import opened Wrappers
  import opened Text
  import opened Bytes
  import opened Library
  import opened PngCodec
  import opened BackyardPng

  /** Every chunk read has a data length and a CRC that fit 32 bits and an ASCII type. */
  lemma {:induction false} CheckedChunksBounded(rest: seq<byte>)
    ensures forall c :: c in CheckedChunksOf(rest) ==>
      |c.data| < TWO_32 && c.crc.Some? && c.crc.value < TWO_32 && IsAsciiText(c.kind)
    decreases |rest|
  {
    var h := HeadChunk(rest);
    if h.Some? && !IsIend(h.value) && 12 + |h.value.data| < |rest| {
      CheckedChunksBounded(rest[12 + |h.value.data|..]);
      assert CheckedChunksOf(rest) == [h.value] + CheckedChunksOf(rest[12 + |h.value.data|..]);
    }
  }

  // ---------------------------------------------------------------------
  // Writing the card (the end of save_tavern_card)
  // ---------------------------------------------------------------------

  /** The bytes written for one chunk: its length, its type, its data and the
      CRC it carries, not a recomputed one. `pack('>I', ...)` fails on a value
      of 2^32 or more and `.encode('ascii')` on a non-ASCII type; a type of
      another length than four is written as it is. */
  function WrittenChunk(c: Chunk): (r: Option<seq<byte>>)
    ensures r.Some? ==> |r.value| == 8 + |c.kind| + |c.data|
  {
    if |c.data| >= TWO_32 || c.crc.None? || c.crc.value >= TWO_32 then None
    else
      var t := AsciiEncode(c.kind);
      if t.None? then None
      else Some(Be32(|c.data|) + t.value + c.data + Be32(c.crc.value))
  }

  function WrittenAll(cs: seq<Chunk>): (r: Option<seq<byte>>)
    ensures r.Some? ==> (|r.value| == 0 <==> |cs| == 0)
    decreases |cs|
  {
    if |cs| == 0 then Some([])
    else match WrittenChunk(cs[0])
      case None => None
      case Some(b) =>
        match WrittenAll(cs[1..])
        case None => None
        case Some(rest) => Some(b + rest)
  }

  /** The file `save_tavern_card` writes: the signature, then every chunk in order. */
  function WrittenPng(cs: seq<Chunk>): Option<seq<byte>>
  {
    match WrittenAll(cs)
    case None => None
    case Some(b) => Some(Signature + b)
  }

  /** A chunk the writer can write and the reader reads back as it was. */
  predicate Storable(c: Chunk) {
    |c.kind| == 4 && IsAsciiText(c.kind) && |c.data| < TWO_32 && c.crc.Some? && c.crc.value < TWO_32
  }

  /** IEND, if present, is the last chunk. */
  predicate IendOnlyLast(cs: seq<Chunk>) {
    forall i :: 0 <= i < |cs| - 1 ==> !IsIend(cs[i])
  }

  /** An ASCII type survives encoding and the reader's decoding. */
  lemma AsciiTypeRoundTrip(kind: string)
    requires IsAsciiText(kind)
    ensures AsciiEncode(kind).Some?
    ensures |AsciiEncode(kind).value| == |kind|
    ensures AsciiDecodeIgnore(AsciiEncode(kind).value) == kind
  {
    var t := AsciiEncode(kind).value;
    assert Latin1Decode(t) == kind;
    forall i | 0 <= i < |t| ensures t[i] < 128 {
      assert Latin1Decode(t)[i] as int == t[i] as int;
    }
  }

  lemma ReadWrittenChunk(c: Chunk, rest: seq<byte>)
    requires Storable(c)
    ensures WrittenChunk(c).Some? && WrittenChunk(c).value[4..8] == AsciiEncode(c.kind).value
    ensures HeadChunk(WrittenChunk(c).value + rest) == Some(c)
    ensures (WrittenChunk(c).value + rest)[12 + |c.data|..] == rest
  {
    AsciiTypeRoundTrip(c.kind);
    var t := AsciiEncode(c.kind).value;
    var w := Be32(|c.data|) + t + c.data + Be32(c.crc.value);
    assert WrittenChunk(c) == Some(w);
    FourParts(Be32(|c.data|), t, c.data, Be32(c.crc.value), rest);
    assert w + rest == Be32(|c.data|) + t + c.data + Be32(c.crc.value) + rest;
    Be32RoundTrip(|c.data|);
    Be32RoundTrip(c.crc.value);
  }

  lemma {:induction false} ReadWrittenBody(cs: seq<Chunk>)
    requires forall c :: c in cs ==> Storable(c)
    requires IendOnlyLast(cs)
    ensures WrittenAll(cs).Some?
    ensures CheckedChunksOf(WrittenAll(cs).value) == cs
    decreases |cs|
  {
    if |cs| > 0 {
      var c := cs[0];
      assert c in cs;
      assert forall x :: x in cs[1..] ==> x in cs;
      assert IendOnlyLast(cs[1..]) by {
        forall i | 0 <= i < |cs[1..]| - 1 ensures !IsIend(cs[1..][i]) {
          assert cs[1..][i] == cs[i + 1];
        }
      }
      ReadWrittenBody(cs[1..]);
      var body := WrittenAll(cs[1..]).value;
      ReadWrittenChunk(c, body);
      var w := WrittenChunk(c).value;
      assert WrittenAll(cs) == Some(w + body);
      ReadWrittenStep(w + body, c, body, cs[1..]);
      assert cs == [c] + cs[1..];
    }
  }

  lemma ReadWrittenStep(s: seq<byte>, c: Chunk, body: seq<byte>, tail: seq<Chunk>)
    requires |s| == 12 + |c.data| + |body| && HeadChunk(s) == Some(c) && s[12 + |c.data|..] == body
    requires CheckedChunksOf(body) == tail
    requires |body| == 0 <==> |tail| == 0
    requires |tail| > 0 ==> !IsIend(c)
    ensures CheckedChunksOf(s) == [c] + tail
  {
  }

  /** What the reader gives back from a file the writer wrote: the same chunks,
      each with the CRC it was written with. */
  lemma ReadWrittenPng(cs: seq<Chunk>)
    requires forall c :: c in cs ==> Storable(c)
    requires IendOnlyLast(cs)
    ensures WrittenPng(cs).Some?
    ensures CheckedChunks(WrittenPng(cs).value) == cs
  {
    ReadWrittenBody(cs);
    var body := WrittenAll(cs).value;
    assert (Signature + body)[8..] == body;
  }

  /** Writing succeeds exactly when every chunk can be written. */
  lemma {:induction false} WrittenAllSome(cs: seq<Chunk>)
    ensures WrittenAll(cs).Some? <==> forall c :: c in cs ==> WrittenChunk(c).Some?
    decreases |cs|
  {
    if |cs| > 0 {
      WrittenAllSome(cs[1..]);
      assert forall c :: c in cs <==> c == cs[0] || c in cs[1..];
    }
  }

  /** Writing one chunk more appends its bytes. */
  lemma WrittenAllStep(cs: seq<Chunk>, i: nat)
    requires i < |cs|
    ensures WrittenAll(cs[i..]) ==
      match WrittenChunk(cs[i])
      case None => None
      case Some(b) => AppendTo(b, WrittenAll(cs[i + 1..]))
  {
    assert cs[i..][0] == cs[i];
    assert cs[i..][1..] == cs[i + 1..];
  }

  /** `prefix` followed by the bytes still to be written, if they can be. */
  function AppendTo(prefix: seq<byte>, r: Option<seq<byte>>): Option<seq<byte>>
  {
    match r
    case None => None
    case Some(b) => Some(prefix + b)
  }

  lemma AppendToAssoc(a: seq<byte>, b: seq<byte>, r: Option<seq<byte>>)
    ensures AppendTo(a, AppendTo(b, r)) == AppendTo(a + b, r)
  {
    if r.Some? {
      assert a + (b + r.value) == (a + b) + r.value;
    }
  }

  /** The writing loop of `save_tavern_card`: the signature, then each chunk as
      `pack('>I', len) + type + data + pack('>I', crc)`, failing where `pack`
      or the ASCII encoding of the type would raise. */
  method WritePng(chunks: seq<Chunk>) returns (r: Option<seq<byte>>)
    ensures r == WrittenPng(chunks)
  {
    var out := Signature;
    for i := 0 to |chunks|
      invariant WrittenPng(chunks) == AppendTo(out, WrittenAll(chunks[i..]))
    {
      WrittenAllStep(chunks, i);
      var c := chunks[i];
      if |c.data| >= TWO_32 || c.crc.None? || c.crc.value >= TWO_32 {
        return None;
      }
      var kind := AsciiEncode(c.kind);
      if kind.None? {
        return None;
      }
      var b := Be32(|c.data|) + kind.value + c.data + Be32(c.crc.value);
      AppendToAssoc(out, b, WrittenAll(chunks[i + 1..]));
      out := out + b;
    }
    assert WrittenAll(chunks[|chunks|..]) == Some([]);
    assert out + [] == out;
    r := Some(out);
  }

  // ---------------------------------------------------------------------
  // The chunk rewrite of save_tavern_card
  // ---------------------------------------------------------------------

  /** `b'chara\x00'`. */
  const CharaPrefix: seq<byte> := [0x63, 0x68, 0x61, 0x72, 0x61, 0x00]

  /** `b'tEXt'`. */
  const TextTypeBytes: seq<byte> := [0x74, 0x45, 0x58, 0x74]

  /** A chunk the rewrite removes: a `tEXt` chunk whose data holds `chara\0` anywhere. */
  predicate HoldsChara(c: Chunk) {
    c.kind == "tEXt" && Contains(c.data, CharaPrefix)
  }

  function KeepChunk(c: Chunk): bool { !HoldsChara(c) }

  /** The index of the first IEND chunk, if there is one. */
  function FirstIend(cs: seq<Chunk>): (r: Option<nat>)
    ensures r.Some? ==> r.value < |cs| && IsIend(cs[r.value]) && forall j :: 0 <= j < r.value ==> !IsIend(cs[j])
    ensures r.None? ==> forall j :: 0 <= j < |cs| ==> !IsIend(cs[j])
    decreases |cs|
  {
    if |cs| == 0 then None
    else if IsIend(cs[0]) then Some(0)
    else match FirstIend(cs[1..])
      case None => None
      case Some(k) => Some(k + 1)
  }

  /** Where `chunks.insert(iend_index, chara_chunk)` puts the new chunk: at the
      first IEND, or else at `len(chunks) - 1`, which `insert` reads as 0 on an
      empty list. */
  function IendIndex(cs: seq<Chunk>): (r: nat)
    ensures r <= |cs|
  {
    match FirstIend(cs)
    case Some(k) => k
    case None => InsertIndex(cs)
  }

  function InsertAt<T>(cs: seq<T>, k: nat, x: T): (r: seq<T>)
    requires k <= |cs|
    ensures |r| == |cs| + 1
  {
    cs[..k] + [x] + cs[k..]
  }

  /** The chunk list `save_tavern_card` writes. */
  function RewrittenChunks(chunks: seq<Chunk>, chara: Chunk): seq<Chunk>
  {
    var kept := Filter(KeepChunk, chunks);
    InsertAt(kept, IendIndex(kept), chara)
  }

  /** The list comprehension dropping the old `chara` chunks. */
  method DropCharaChunks(chunks: seq<Chunk>) returns (kept: seq<Chunk>)
    ensures kept == Filter(KeepChunk, chunks)
  {
    kept := [];
    for i := 0 to |chunks|
      invariant kept == Filter(KeepChunk, chunks[..i])
    {
      FilterAppend(KeepChunk, chunks[..i], [chunks[i]]);
      assert chunks[..i + 1] == chunks[..i] + [chunks[i]];
      if !HoldsChara(chunks[i]) {
        kept := kept + [chunks[i]];
      }
    }
    assert chunks[..|chunks|] == chunks;
  }

  /** `next((i for i, c in enumerate(chunks) if c['type'] == 'IEND'), len(chunks) - 1)`,
      then the index as `list.insert` reads it: a negative index counts from
      the end and is clamped at 0. */
  method FindIendIndex(cs: seq<Chunk>) returns (index: int)
    ensures index == IendIndex(cs)
  {
    var i := 0;
    while i < |cs|
      invariant 0 <= i <= |cs|
      invariant forall j :: 0 <= j < i ==> !IsIend(cs[j])
    {
      if IsIend(cs[i]) {
        return i;
      }
      i := i + 1;
    }
    index := |cs| - 1;
    if index < 0 {
      index := index + |cs|;
      if index < 0 {
        index := 0;
      }
    }
  }

  /** The chunk rewrite of `save_tavern_card`, step by step. */
  method RewriteChunks(chunks: seq<Chunk>, chara: Chunk) returns (r: seq<Chunk>)
    ensures r == RewrittenChunks(chunks, chara)
  {
    var kept := DropCharaChunks(chunks);
    var index := FindIendIndex(kept);
    r := kept[..index] + [chara] + kept[index..];
  }

  /** Where an inserted element and the others end up. */
  lemma InsertAtLayout<T>(cs: seq<T>, k: nat, x: T)
    requires k <= |cs|
    ensures var r := InsertAt(cs, k, x);
      && r[k] == x && r[..k] + r[k + 1..] == cs
      && (forall j :: 0 <= j < k ==> r[j] == cs[j])
      && (forall j :: k < j < |r| ==> r[j] == cs[j - 1])
  {
    var r := InsertAt(cs, k, x);
    assert r[..k] == cs[..k];
    assert r[k + 1..] == cs[k..];
  }

  /** The new chunk goes where the first IEND was, which then follows it, or
      before the last chunk when there is no IEND; the others keep their order. */
  lemma RewrittenPlacement(chunks: seq<Chunk>, chara: Chunk)
    ensures var r := RewrittenChunks(chunks, chara); var kept := Filter(KeepChunk, chunks); var k := IendIndex(kept);
      && k < |r| && r[k] == chara
      && r[..k] + r[k + 1..] == kept
      && (FirstIend(kept).Some? ==> k + 1 < |r| && IsIend(r[k + 1]) && forall j :: 0 <= j < k ==> !IsIend(r[j]))
      && (FirstIend(kept).None? && |kept| > 0 ==> k == |r| - 2)
  {
    var kept := Filter(KeepChunk, chunks);
    InsertAtLayout(kept, IendIndex(kept), chara);
  }

  /** Apart from the new chunk, no chunk written holds a `chara` field. */
  lemma RewrittenDropsChara(chunks: seq<Chunk>, chara: Chunk)
    ensures var r := RewrittenChunks(chunks, chara); var k := IendIndex(Filter(KeepChunk, chunks));
      forall j :: 0 <= j < |r| && j != k ==> !HoldsChara(r[j])
  {
    var kept := Filter(KeepChunk, chunks);
    var k := IendIndex(kept);
    InsertAtLayout(kept, k, chara);
    var r := RewrittenChunks(chunks, chara);
    forall j | 0 <= j < |r| && j != k ensures KeepChunk(r[j]) {
      if j < k {
        assert r[j] == kept[j];
      } else {
        assert r[j] == kept[j - 1];
      }
    }
  }

  /** Every chunk without a `chara` field is written, with the CRC it was read with. */
  lemma RewrittenKeeps(chunks: seq<Chunk>, chara: Chunk)
    ensures forall c :: c in chunks && !HoldsChara(c) ==> c in RewrittenChunks(chunks, chara)
  {
    var kept := Filter(KeepChunk, chunks);
    var k := IendIndex(kept);
    InsertAtLayout(kept, k, chara);
    var r := RewrittenChunks(chunks, chara);
    forall c | c in chunks && !HoldsChara(c) ensures c in r {
      assert KeepChunk(c);
      assert c in kept;
      var j :| 0 <= j < |kept| && kept[j] == c;
      if j < k {
        assert r[j] == c;
      } else {
        assert r[j + 1] == c;
      }
    }
  }

  // ---------------------------------------------------------------------
  // The card written by save_tavern_card
  // ---------------------------------------------------------------------

  /** The `metadata` entry; the two timestamps (`int(time.time() * 1000)`) are parameters. */
  function Metadata(created: int, modified: int): Json {
    Obj(map[
      "version" := Int(1),
      "created" := Int(created),
      "modified" := Int(modified),
      "tool" := Obj(map[
        "name" := Str("BackyardAI to TavernAI Converter"),
        "version" := Str("4.0.0"),
        "source" := Str("Optimized Edition")])])
  }

  /** The card embedded in the file: a copy of the character without
      `display_name`, with `metadata` set. */
  function CardFields(charData: map<string, Json>, created: int, modified: int): (r: map<string, Json>)
    ensures "display_name" !in r
    ensures "metadata" in r && r["metadata"] == Metadata(created, modified)
    ensures forall key :: key in charData && key != "display_name" && key != "metadata" ==> key in r && r[key] == charData[key]
    ensures forall key :: key in r ==> key == "metadata" || key in charData
  {
    (charData - {"display_name"})["metadata" := Metadata(created, modified)]
  }

  /** The data of the new chunk: `chara\0`, then the base64 of the card's JSON
      (`ensure_ascii=False`, UTF-8), or None where `.decode('utf-8')` or
      `.encode('latin-1')` would raise. */
  function CharaData(card: Json, lib: Primitives): (r: Option<seq<byte>>)
    ensures r.Some? ==> |r.value| >= |CharaPrefix| && r.value[..|CharaPrefix|] == CharaPrefix
  {
    var encoded := lib.b64Encode(lib.utf8Encode(lib.jsonDumps(card, CompactUnicode)));
    match lib.utf8Decode(encoded)
    case None => None
    case Some(text) =>
      match Latin1Encode(text)
      case None => None
      case Some(bytes) => Some(CharaPrefix + bytes)
  }

  /** The new chunk, whose CRC is `crc32(b'tEXt' + data) & 0xffffffff`; the
      mask changes nothing, as the CRC already fits 32 bits. */
  function CharaChunk(data: seq<byte>): (r: Chunk)
    ensures r.kind == "tEXt" && r.data == data && r.crc.Some? && r.crc.value < TWO_32
    ensures r.crc == Some(Crc32(TextTypeBytes + r.data))
  {
    Chunk("tEXt", data, Some(Crc32(TextTypeBytes + data)))
  }

  /** `save_tavern_card(char_data, original_png, ...)`: the bytes written, or
      None where it raises: the character is not a dict (the `metadata`
      assignment fails), or an encoding or `pack` step fails. */
  function SavedCard(charData: Json, original: seq<byte>, created: int, modified: int, lib: Primitives): Option<seq<byte>>
  {
    if !charData.Obj? then None
    else
      match CharaData(Obj(CardFields(charData.fields, created, modified)), lib)
      case None => None
      case Some(data) => WrittenPng(RewrittenChunks(CheckedChunks(original), CharaChunk(data)))
  }

  /** `save_tavern_card`, step by step as the source does it. */
  method SaveTavernCard(charData: Json, original: seq<byte>, created: int, modified: int, lib: Primitives)
    returns (r: Option<seq<byte>>)
    ensures r == SavedCard(charData, original, created, modified, lib)
  {
    if !charData.Obj? {
      return None;
    }
    var card := Obj(CardFields(charData.fields, created, modified));
    var data := CharaData(card, lib);
    if data.None? {
      return None;
    }
    var chunks := ReadPngChunks(original);
    chunks := RewriteChunks(chunks, CharaChunk(data.value));
    r := WritePng(chunks);
  }

  // ---------------------------------------------------------------------
  // Reading the saved card back
  // ---------------------------------------------------------------------

  /** Dropping chunks keeps IEND last: IEND is never dropped. */
  lemma {:induction false} FilterIendOnlyLast(cs: seq<Chunk>)
    requires IendOnlyLast(cs)
    ensures IendOnlyLast(Filter(KeepChunk, cs))
    decreases |cs|
  {
    if |cs| > 0 {
      assert IendOnlyLast(cs[1..]) by {
        forall i | 0 <= i < |cs[1..]| - 1 ensures !IsIend(cs[1..][i]) {
          assert cs[1..][i] == cs[i + 1];
        }
      }
      FilterIendOnlyLast(cs[1..]);
      var t := Filter(KeepChunk, cs[1..]);
      if KeepChunk(cs[0]) {
        var f := [cs[0]] + t;
        assert Filter(KeepChunk, cs) == f;
        if |cs| > 1 {
          assert !IsIend(cs[0]);
        } else {
          assert t == [];
        }
        forall i | 0 <= i < |f| - 1 ensures !IsIend(f[i]) {
          if i > 0 {
            assert f[i] == t[i - 1];
          }
        }
      }
    }
  }

  /** Inserting a chunk other than IEND at the insertion point keeps IEND last. */
  lemma InsertIendOnlyLast(kept: seq<Chunk>, chara: Chunk)
    requires IendOnlyLast(kept) && !IsIend(chara)
    ensures IendOnlyLast(InsertAt(kept, IendIndex(kept), chara))
  {
    var k := IendIndex(kept);
    var r := InsertAt(kept, k, chara);
    InsertAtLayout(kept, k, chara);
    forall i | 0 <= i < |r| - 1 ensures !IsIend(r[i]) {
      if i < k {
        assert r[i] == kept[i];
      } else if i > k {
        assert r[i] == kept[i - 1];
        assert i - 1 < |kept| - 1;
      }
    }
  }

  /** `chara\0`, then the base64 of the card's JSON in UTF-8. */
  function CharaPayload(card: Json, lib: Primitives): seq<byte> {
    CharaPrefix + lib.b64Encode(lib.utf8Encode(lib.jsonDumps(card, CompactUnicode)))
  }

  /** Under the codec laws the base64 text is ASCII, so neither `.decode('utf-8')`
      nor `.encode('latin-1')` fails, and the chunk data is `chara\0` then the
      base64 bytes. */
  lemma CharaDataUnderLaws(card: Json, lib: Primitives)
    requires CodecLaws(lib)
    ensures CharaData(card, lib) == Some(CharaPayload(card, lib))
  {
    var raw := lib.utf8Encode(lib.jsonDumps(card, CompactUnicode));
    B64Utf8Decode(lib, raw);
    Latin1RoundTrip(lib.b64Encode(raw));
  }

  /** Every chunk the rewrite produces from a read file can be written and read back. */
  lemma RewrittenStorable(original: seq<byte>, data: seq<byte>)
    requires forall c :: c in CheckedChunks(original) ==> |c.kind| == 4
    requires |data| < TWO_32
    ensures forall c :: c in RewrittenChunks(CheckedChunks(original), CharaChunk(data)) ==> Storable(c)
  {
    var chunks := CheckedChunks(original);
    var chara := CharaChunk(data);
    assert forall c :: c in chunks ==> Storable(c) by {
      if |original| > 8 {
        CheckedChunksBounded(original[8..]);
      }
    }
    assert Storable(chara) by {
      assert IsAsciiText(chara.kind);
    }
    var kept := Filter(KeepChunk, chunks);
    InsertStorable(kept, IendIndex(kept), chara);
  }

  lemma InsertStorable(cs: seq<Chunk>, k: nat, x: Chunk)
    requires k <= |cs| && Storable(x)
    requires forall c :: c in cs ==> Storable(c)
    ensures forall c :: c in InsertAt(cs, k, x) ==> Storable(c)
  {
    var r := InsertAt(cs, k, x);
    InsertAtLayout(cs, k, x);
    forall c | c in r ensures Storable(c) {
      var j :| 0 <= j < |r| && r[j] == c;
      if j < k {
        assert c == cs[j];
      } else if j > k {
        assert c == cs[j - 1];
      }
    }
  }

  /** The rewritten list, once written, reads back as it is. */
  lemma RewrittenReadsBack(original: seq<byte>, data: seq<byte>)
    requires forall c :: c in CheckedChunks(original) ==> |c.kind| == 4
    requires |data| < TWO_32
    ensures var r := RewrittenChunks(CheckedChunks(original), CharaChunk(data));
      WrittenPng(r).Some? && CheckedChunks(WrittenPng(r).value) == r
  {
    var chunks := CheckedChunks(original);
    if |original| > 8 {
      CheckedIendLast(original[8..]);
    }
    assert IendOnlyLast(chunks);
    FilterIendOnlyLast(chunks);
    InsertIendOnlyLast(Filter(KeepChunk, chunks), CharaChunk(data));
    RewrittenStorable(original, data);
    ReadWrittenPng(RewrittenChunks(chunks, CharaChunk(data)));
  }

  /** The card `save_tavern_card` writes reads back, chunk for chunk, as the
      rewritten list: the kept chunks with their CRCs and the new `chara`
      chunk, when every chunk read has a four-letter type and the new chunk's
      data fits a 32-bit length. */
  lemma SavedCardReadsBack(charData: Json, original: seq<byte>, created: int, modified: int, lib: Primitives)
    requires CodecLaws(lib) && charData.Obj?
    requires forall c :: c in CheckedChunks(original) ==> |c.kind| == 4
    requires |CharaPayload(Obj(CardFields(charData.fields, created, modified)), lib)| < TWO_32
    ensures SavedCard(charData, original, created, modified, lib).Some?
    ensures CheckedChunks(SavedCard(charData, original, created, modified, lib).value)
      == RewrittenChunks(CheckedChunks(original), CharaChunk(CharaPayload(Obj(CardFields(charData.fields, created, modified)), lib)))
  {
    var card := Obj(CardFields(charData.fields, created, modified));
    var data := CharaPayload(card, lib);
    CharaDataUnderLaws(card, lib);
    assert SavedCard(charData, original, created, modified, lib) == WrittenPng(RewrittenChunks(CheckedChunks(original), CharaChunk(data)));
    RewrittenReadsBack(original, data);
  }
}
