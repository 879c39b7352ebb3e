/** The PNG chunk handling of `BackyardToTavernConverter` (backyard_to_tavern.py):
    a chunk reader that checks its bounds and stops at IEND, and the rewrite
    in `save_tavern_card` that drops the old `chara` text chunks, inserts a new
    one before IEND and writes every chunk with the CRC it carries.

    Layout as in section 5.3 of the PNG specification: a four-byte big-endian
    length, a four-byte type, the data, and a four-byte CRC. */
module BackyardPng {
  import opened Wrappers
  import opened Text
  import opened Bytes
  import opened Library
  import opened PngCodec

  // ---------------------------------------------------------------------
  // read_png_chunks
  // ---------------------------------------------------------------------

  /** The chunk `read_png_chunks` reads at the start of `rest`, the bytes from
      its current offset on, or None where it stops: fewer than eight header
      bytes remain, or the declared length runs past the end. A CRC field cut
      short reads as 0, and a type byte above 127 is dropped. */
  function HeadChunk(rest: seq<byte>): (r: Option<Chunk>)
    ensures r.Some? ==> 8 + |r.value.data| <= |rest|
  {
    if |rest| < 8 then None
    else
      var length := Be32Value(rest[..4]);
      if 8 + length > |rest| then None
      else
        var crc := if 12 + length <= |rest| then Be32Value(rest[8 + length..12 + length]) else 0;
        Some(Chunk(AsciiDecodeIgnore(rest[4..8]), rest[8..8 + length], Some(crc)))
  }

  /** The end-of-image chunk, after which reading stops. */
  predicate IsIend(c: Chunk) {
    c.kind == "IEND"
  }

  /** The chunks `read_png_chunks` collects from `rest`: it stops where no chunk
      fits, and right after an IEND chunk. */
  function CheckedChunksOf(rest: seq<byte>): seq<Chunk>
    decreases |rest|
  {
    match HeadChunk(rest)
    case None => []
    case Some(c) =>
      if IsIend(c) || 12 + |c.data| >= |rest| then [c]
      else [c] + CheckedChunksOf(rest[12 + |c.data|..])
  }

  /** What `read_png_chunks(data)` returns: reading starts after the eight signature bytes. */
  function CheckedChunks(data: seq<byte>): seq<Chunk>
  {
    if |data| <= 8 then [] else CheckedChunksOf(data[8..])
  }

  /** The chunks still to be read from offset `pos`. */
  function ChunksFrom(data: seq<byte>, pos: nat): seq<Chunk>
  {
    if pos < |data| then CheckedChunksOf(data[pos..]) else []
  }

  /** Reading stops at offset `pos` when the header or the declared data does not fit. */
  lemma HeadChunkStops(data: seq<byte>, pos: nat)
    requires pos < |data|
    requires pos + 8 > |data| || pos + 8 + Be32Value(data[pos..pos + 4]) > |data|
    ensures ChunksFrom(data, pos) == []
  {
    if pos + 8 <= |data| {
      assert data[pos..][..4] == data[pos..pos + 4];
    }
  }

  /** The chunk read at offset `pos`, in offsets into the whole buffer. */
  function ChunkAt(data: seq<byte>, pos: nat): Chunk
    requires pos + 8 <= |data| && pos + 8 + Be32Value(data[pos..pos + 4]) <= |data|
  {
    var length := Be32Value(data[pos..pos + 4]);
    var crc := if pos + 12 + length <= |data| then Be32Value(data[pos + 8 + length..pos + 12 + length]) else 0;
    Chunk(AsciiDecodeIgnore(data[pos + 4..pos + 8]), data[pos + 8..pos + 8 + length], Some(crc))
  }

  lemma HeadChunkAt(data: seq<byte>, pos: nat)
    requires pos + 8 <= |data| && pos + 8 + Be32Value(data[pos..pos + 4]) <= |data|
    ensures HeadChunk(data[pos..]) == Some(ChunkAt(data, pos))
  {
    var rest := data[pos..];
    var length := Be32Value(data[pos..pos + 4]);
    assert rest[..4] == data[pos..pos + 4];
    assert rest[4..8] == data[pos + 4..pos + 8];
    assert rest[8..8 + length] == data[pos + 8..pos + 8 + length];
    if pos + 12 + length <= |data| {
      assert rest[8 + length..12 + length] == data[pos + 8 + length..pos + 12 + length];
    }
  }

  /** One step of `read_png_chunks` at offset `pos`, once its chunk `c` is
      known; `next` is the offset right after its CRC. */
  lemma CheckedStepAt(data: seq<byte>, pos: nat, next: nat, c: Chunk)
    requires pos < |data| && HeadChunk(data[pos..]) == Some(c) && next == pos + 12 + |c.data|
    ensures ChunksFrom(data, pos) == [c] + if IsIend(c) then [] else ChunksFrom(data, next)
  {
    if next < |data| {
      assert data[pos..][12 + |c.data|..] == data[next..];
    }
  }

  /** The loop invariant of `read_png_chunks` after the chunk at `pos` is appended. */
  lemma ReadStep(data: seq<byte>, pos: nat, length: nat, next: nat, chunks: seq<Chunk>, c: Chunk)
    requires pos < |data| && pos + 8 <= |data| && length == Be32Value(data[pos..pos + 4]) && pos + 8 + length <= |data|
    requires c == ChunkAt(data, pos) && next == pos + 12 + length
    requires CheckedChunks(data) == chunks + ChunksFrom(data, pos)
    ensures IsIend(c) ==> CheckedChunks(data) == chunks + [c]
    ensures !IsIend(c) ==> CheckedChunks(data) == (chunks + [c]) + ChunksFrom(data, next)
  {
    HeadChunkAt(data, pos);
    CheckedStepAt(data, pos, next, c);
    var tail := if IsIend(c) then [] else ChunksFrom(data, next);
    AppendShift(chunks, c, tail);
  }

  lemma AppendShift<T>(a: seq<T>, x: T, b: seq<T>)
    ensures a + ([x] + b) == (a + [x]) + b
    ensures b == [] ==> a + ([x] + b) == a + [x]
  {
  }

  /** `read_png_chunks(data)`: the loop advancing `pos` and appending each chunk. */
  method ReadPngChunks(data: seq<byte>) returns (chunks: seq<Chunk>)
    ensures chunks == CheckedChunks(data)
  {
    var pos: nat := 8;
    chunks := [];
    while pos < |data|
      invariant CheckedChunks(data) == chunks + ChunksFrom(data, pos)
      decreases |data| - pos
    {
      if pos + 8 > |data| {
        HeadChunkStops(data, pos);
        break;
      }
      var length := Be32Value(data[pos..pos + 4]);
      if pos + 8 + length > |data| {
        HeadChunkStops(data, pos);
        break;
      }
      // the type, the data and the CRC, read as `ChunkAt` describes
      var c := ChunkAt(data, pos);
      var next := pos + 12 + length;
      ReadStep(data, pos, length, next, chunks, c);
      chunks := chunks + [c];
      pos := next;
      if IsIend(c) {
        break;
      }
    }
    assert chunks + [] == chunks;
  }

  /** An IEND chunk can only be the last one read. */
  lemma {:induction false} CheckedIendLast(rest: seq<byte>)
    ensures forall i :: 0 <= i < |CheckedChunksOf(rest)| - 1 ==> !IsIend(CheckedChunksOf(rest)[i])
    decreases |rest|
  {
    var h := HeadChunk(rest);
    if h.Some? && !IsIend(h.value) && 12 + |h.value.data| < |rest| {
      var r := CheckedChunksOf(rest);
      var t := CheckedChunksOf(rest[12 + |h.value.data|..]);
      CheckedIendLast(rest[12 + |h.value.data|..]);
      assert r == [h.value] + t;
      forall i | 0 <= i < |r| - 1 ensures !IsIend(r[i]) {
        if i > 0 {
          assert r[i] == t[i - 1];
        }
      }
    }
  }

  /** The chunks read never claim more bytes than there are, except for a
      last CRC field cut short. */
  lemma {:induction false} CheckedChunksFit(rest: seq<byte>)
    ensures ChunksSize(CheckedChunksOf(rest)) <= |rest| + 4
    decreases |rest|
  {
    var h := HeadChunk(rest);
    if h.Some? && !IsIend(h.value) && 12 + |h.value.data| < |rest| {
      var r := CheckedChunksOf(rest);
      CheckedChunksFit(rest[12 + |h.value.data|..]);
      assert r[1..] == CheckedChunksOf(rest[12 + |h.value.data|..]);
    }
  }

  /** A last chunk whose CRC field is cut short is read with CRC 0, and reading ends there. */
  lemma TruncatedCrcReadsZero(kind: seq<byte>, data: seq<byte>, tail: seq<byte>)
    requires |kind| == 4 && |data| < TWO_32 && |tail| < 4
    ensures CheckedChunksOf(Be32(|data|) + kind + data + tail) == [Chunk(AsciiDecodeIgnore(kind), data, Some(0))]
  {
    var rest := Be32(|data|) + kind + data + tail;
    var c := Chunk(AsciiDecodeIgnore(kind), data, Some(0));
    TruncatedHead(kind, data, tail);
    LastChunk(rest, c);
  }

  lemma TruncatedHead(kind: seq<byte>, data: seq<byte>, tail: seq<byte>)
    requires |kind| == 4 && |data| < TWO_32 && |tail| < 4
    ensures HeadChunk(Be32(|data|) + kind + data + tail) == Some(Chunk(AsciiDecodeIgnore(kind), data, Some(0)))
  {
    var h := Be32(|data|);
    Be32RoundTrip(|data|);
    HeaderParts(h, kind, data, tail);
  }

  lemma HeaderParts<T>(h: seq<T>, kind: seq<T>, data: seq<T>, tail: seq<T>)
    requires |h| == 4 && |kind| == 4
    ensures var rest := h + kind + data + tail;
      rest[..4] == h && rest[4..8] == kind && rest[8..8 + |data|] == data && |rest| == 8 + |data| + |tail|
  {
  }

  lemma LastChunk(rest: seq<byte>, c: Chunk)
    requires HeadChunk(rest) == Some(c) && 12 + |c.data| >= |rest|
    ensures CheckedChunksOf(rest) == [c]
  {
  }
}
