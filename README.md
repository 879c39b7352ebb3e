# Backyard/Faraday to TavernAI card conversion, modelled in Dafny

The repository converts AI-chat "character cards" stored in PNG images by
BackyardAI (formerly Faraday) into TavernAI cards. It holds four scripts, each
a separate generation of the same idea, and this project models each of them
on its own terms:

- `backyard_to_tavern.py`, the `BackyardToTavernConverter`:
  - a bounds-checked PNG chunk reader that stops at IEND;
  - three extraction strategies (the TavernAI `tEXt`/`chara` chunk, the
    BackyardAI export payload between `ASCII` and `IDATx`, and the `ASCII`
    payload inside an `eXIf` chunk), with base64 padding repair and a greedy
    `{.*}` JSON cut;
  - the field fallbacks of `parse_backyard_format`, `parse_persona_field` and
    `sanitize_filename`;
  - the rewrite in `save_tavern_card`, which drops the old `chara` chunks,
    inserts a new one before IEND and writes every chunk back with the CRC it
    carries;
  - the strategy chain and the success/failure counters of `convert_file`, as
    a class with mutable `stats` and `failedFiles`.
- `backyard_to_tavern_v8.py`:
  - the `Png` helper class, shared line for line with
    `convert_faraday_to_tavern_v2.py` and modelled once, in `PngCodec`;
  - `normalize_newlines` and the two-pass `convert_placeholders`;
  - the `ASCII`…`IDATx` scan of `extract_backyard_png_data`, with its
    `=`-free cleaning, its trim to a multiple of four and its persona split;
  - the `tavern_data` dictionary of `create_tavern_card`, with its lorebook
    mapping.
- `convert_faraday_to_tavern_v2.py`: the `ASCII`…`Q==` scan with its
  `isalnum` cleaning, `create_new_data`, and the field mapping of
  `convert_faraday_png_to_tavern_data`.
- `faraday2tavern.py`: `extract_content`, `process_special_tokens` and the
  delimiter-driven fields of `get_character`.

Modules, one per file:

| Module | What it holds |
|---|---|
| `Wrappers` | `Option` and `Result` |
| `Text` | generic sequence helpers (`find`, `rfind`, `replace`, filtering, stripping, splitting) with their lemmas |
| `Bytes` | bytes, big-endian 32-bit integers, latin-1 and ASCII codecs, and CRC-32 as defined in section 5.5 of the PNG specification |
| `Library` | JSON values, truthiness, `dict.get`, and the library routines (base64, UTF-8, `json`) as a record of functions passed in |
| `Placeholders` | the `{character}`/`{user}` rewrite shared by all generations |
| `Scan` | marker scans and the `find('{')`/`rfind('}')` JSON cut |
| `PngCodec` | the `Png` class |
| `BackyardPng` | reading chunks in `backyard_to_tavern.py` |
| `BackyardExtract` | its strategies and `parse_backyard_format` |
| `BackyardFields` | `parse_persona_field` and `sanitize_filename` |
| `BackyardWrite` | the rewrite and writing of `save_tavern_card` |
| `BackyardConvert` | `convert_file`, plus the proof that a saved card is found again |
| `BackyardV8` | `backyard_to_tavern_v8.py` |
| `FaradayV2` | `convert_faraday_to_tavern_v2.py` |
| `Faraday2Tavern` | `faraday2tavern.py` |

Chunks follow section 5.3 of the PNG specification: a four-byte big-endian
length, a four-byte type, the data, and a four-byte CRC. The chunk list comes
after the eight-byte signature of section 5.2. A `tEXt` chunk is
`keyword NUL text`, as in section 11.3.4.3.

Python exceptions are modelled as error values (`Option`/`Result`), never as
preconditions. Each place a `try` swallows an exception becomes `None` in the
model.

Three points of the conversion that the model keeps:
- **Strategy order.** `convert_file` tries the database, then the TavernAI
  `tEXt` chunk, then the `ASCII`/`IDATx` export scan, and the `eXIf` chunk
  last (backyard_to_tavern.py:417-444). A strategy runs, and counts, only
  while no earlier one has produced a usable card.
- **Placeholder rewrites.** Each generation rewrites its own set of text
  fields: `parse_backyard_format` rewrites five fields, `create_tavern_card`
  four, `create_new_data` five, and `get_character` three. None of them
  rewrites lorebook values.
- **What `extract_tavern_format` returns.** It returns the JSON as loaded,
  without running it through `parse_backyard_format`.

## Model

| member | source | states |
|---|---|---|
| Bytes.Be32RoundTrip | backyard_to_tavern_v8.py:55 | unpacking a packed 32-bit length gives the length back |
| Bytes.Be32Inverse | backyard_to_tavern_v8.py:34 | packing the value unpacked from four bytes gives the four bytes back |
| Bytes.Latin1Encode | backyard_to_tavern_v8.py:49 | latin-1 encoding fails exactly when some code point exceeds 255; otherwise it gives the code points byte for byte |
| Bytes.Latin1RoundTrip | backyard_to_tavern_v8.py:45 | encoding latin-1-decoded bytes gives the same bytes back |
| Bytes.LatinEncodeDecode | backyard_to_tavern_v8.py:49 | decoding an encodable string's latin-1 bytes gives the string back |
| Bytes.AsciiDecode | backyard_to_tavern_v8.py:35 | strict ASCII decoding fails exactly on a byte above 127 and otherwise keeps every byte |
| Bytes.AsciiDecodeIgnore | backyard_to_tavern.py:617 | decoding with `errors='ignore'` gives ASCII text no longer than the input, equal to it when the input is ASCII |
| Bytes.AsciiEncode | backyard_to_tavern.py:605 | ASCII encoding of a type fails exactly when it is not ASCII, and decodes back to it otherwise |
| Bytes.Crc32 | backyard_to_tavern_v8.py:58 | the CRC fits 32 bits, so `& 0xffffffff` changes nothing |
| Library.WithCardFields | backyard_to_tavern_v8.py:325-331 | the six card fields of a dict literal, set over the remaining entries: each holds its given value, and every other entry is kept |
| Library.B64DecodeTextRoundTrip | convert_faraday_to_tavern_v2.py:70 | `b64decode` of the latin-1 text of a base64 encoding gives the encoded bytes back |
| Placeholders.TranslateTokens | convert_faraday_to_tavern_v2.py:214-215 | after `{character}`→`{{char}}` then `{user}`→`{{user}}`, no `{character}` remains |
| Scan.Between | backyard_to_tavern_v8.py:417-426 | the payload is absent exactly when `start` is missing or no `end` follows it; otherwise it lies strictly between the first `start` and the first `end` after it |
| Scan.BetweenPlaced | backyard_to_tavern_v8.py:419-426 | a payload placed after the first `start`, and holding no `end`, is found exactly |
| Scan.SpanThroughEnd | convert_faraday_to_tavern_v2.py:120 | a slice taken through the end marker ends with the marker and holds no earlier copy of it |
| Scan.JsonSpan | convert_faraday_to_tavern_v2.py:130-137 | the cut is absent exactly when there is no `{` (the `json_end == -1` guard never fires); otherwise it runs from the first `{` to the last `}`, and it is empty only when every `}` precedes every `{` |
| Scan.JsonSpanPlaced | backyard_to_tavern_v8.py:438-443 | an object with no `{` before it and no `}` after it is cut out exactly |
| PngCodec.ChunkOf | backyard_to_tavern_v8.py:34-37 | a chunk read lies entirely within the remaining bytes, CRC included; otherwise `unpack` raises |
| PngCodec.ChunksOfStep | backyard_to_tavern_v8.py:33-39 | reading is the chunk at the front, then reading again right after its CRC |
| PngCodec.Chunks | backyard_to_tavern_v8.py:30-40 | `read_chunks`: its properties are stated by `ReadChunks`, `ReadChunksWellFormed` and `ReadEncodedChunks` |
| PngCodec.ReadChunks | backyard_to_tavern_v8.py:30-40 | the loop returns the chunk list `Chunks(data)`, or the first exception a chunk raises |
| PngCodec.ReadChunksWellFormed | convert_faraday_to_tavern_v2.py:25-35 | every chunk read has a four-character ASCII type and a length that fits 32 bits |
| PngCodec.EncodeChunks | backyard_to_tavern_v8.py:52-60 | the accumulating loop produces the signature followed by every chunk's encoding, in order |
| PngCodec.EncodedPng | backyard_to_tavern_v8.py:52-60 | `encode_chunks`: its properties are stated by `EncodeChunks`, `EncodedSize`, `EncodeFailure`, `EncodeIgnoresCrc` and `ReadEncodedChunks` |
| PngCodec.EncodedSize | backyard_to_tavern_v8.py:52-60 | well-formed chunks always encode, to 8 bytes plus 12 bytes and the data per chunk |
| PngCodec.EncodeFailure | backyard_to_tavern_v8.py:55-56 | encoding fails exactly when some chunk is too long or has a non-ASCII type |
| PngCodec.EncodeIgnoresCrc | backyard_to_tavern_v8.py:58 | the output depends only on types and data; stored CRCs are ignored and recomputed |
| PngCodec.ReadEncodedChunk | backyard_to_tavern_v8.py:30-60 | one encoded chunk reads back with its type and data and the recomputed CRC, and reading resumes right after it |
| PngCodec.ReadEncodedChunks | backyard_to_tavern_v8.py:30-60 | `read_chunks(encode_chunks(cs))` gives back every type and data in order, with the CRCs the encoder wrote |
| PngCodec.DecodeText | backyard_to_tavern_v8.py:43-45 | `decode_text` raises exactly when the data holds no NUL |
| PngCodec.EncodeText | backyard_to_tavern_v8.py:48-49 | `encode_text` succeeds exactly when keyword and text are both latin-1 encodable |
| PngCodec.FirstNulIsSeparator | backyard_to_tavern_v8.py:44 | in `k + NUL + t`, the split happens at the added NUL when `k` holds none |
| PngCodec.FirstNulInside | backyard_to_tavern_v8.py:44 | a NUL inside the keyword is split on before the separator |
| PngCodec.TextRoundTrip | backyard_to_tavern_v8.py:43-49 | decoding an encoded field gives keyword and text back if and only if the keyword holds no NUL |
| PngCodec.FirstChara | convert_faraday_to_tavern_v2.py:65 | the first text field whose keyword is `chara`, and none exactly when no keyword is `chara` |
| PngCodec.Parse | convert_faraday_to_tavern_v2.py:58-72 | reader errors propagate; no text fields raises the missing-character error; a result always comes from a decoded `chara` field; the outcome in every case is fixed by `ParseFirstChara` and `ParseTextFieldError` |
| PngCodec.ParseFirstChara | convert_faraday_to_tavern_v2.py:63-72 | with text fields present: no `chara` keyword raises the missing-character error; otherwise the first `chara` field's text is base64-decoded and UTF-8-decoded, success exactly when both decodes succeed, and any failure is the invalid-construction error |
| PngCodec.ParseTextFieldError | convert_faraday_to_tavern_v2.py:63 | an error decoding a text field propagates out of `parse` |
| PngCodec.TextFieldsSkip | backyard_to_tavern_v8.py:66 | non-`tEXt` chunks contribute no text field |
| PngCodec.TextFieldsSingle | backyard_to_tavern_v8.py:66 | a chunk list with one `tEXt` chunk yields exactly that chunk's field |
| PngCodec.TextFields | backyard_to_tavern_v8.py:66 | the `tEXt` fields decoded in order: see `TextFieldsSkip`, `TextFieldsSingle` and `GeneratedTextFields` |
| PngCodec.InsertBeforeLast | backyard_to_tavern_v8.py:86 | `insert(-1, x)` adds exactly one element |
| PngCodec.InsertBeforeLastLayout | backyard_to_tavern_v8.py:86 | the new element lands immediately before the last one, or alone in an empty list, and the others keep their order |
| PngCodec.Generate | backyard_to_tavern_v8.py:80-88 | `generate` returns the encoding of the filtered list with the new chunk inserted |
| PngCodec.Generated | backyard_to_tavern_v8.py:80-88 | `generate`: its properties are stated by `Generate`, `GeneratedLayout`, `GeneratedWellFormed`, `GeneratedTextFields` and `ParseGenerated` |
| PngCodec.GeneratedLayout | convert_faraday_to_tavern_v2.py:76-81 | the output list has exactly one `tEXt` chunk, the new one, just before the last kept chunk; every non-`tEXt` chunk keeps its order |
| PngCodec.GeneratedWellFormed | convert_faraday_to_tavern_v2.py:76-83 | a list generated from chunks that were read can be encoded again |
| PngCodec.CharaFieldRoundTrip | backyard_to_tavern_v8.py:84-85 | the new `chara` field encodes, decodes back to itself, and its base64 text decodes to the UTF-8 of the JSON |
| PngCodec.GeneratedTextFields | convert_faraday_to_tavern_v2.py:75-83 | reading the generated file yields one text field, the new `chara` |
| PngCodec.ParseGenerated | convert_faraday_to_tavern_v2.py:58-83 | `parse(generate(png, json)) == json` under the base64 and UTF-8 laws |
| PngCodec.ParseSingleChara | convert_faraday_to_tavern_v2.py:58-72 | a file whose only text field is `chara` parses to what its base64 encodes |
| BackyardPng.HeadChunk | backyard_to_tavern.py:614-623 | the chunk read at an offset lies within the data; reading stops when the header or the declared data does not fit |
| BackyardPng.HeadChunkStops | backyard_to_tavern.py:614-620 | with fewer than 8 header bytes, or a length overrunning the data, reading stops without error |
| BackyardPng.CheckedStepAt | backyard_to_tavern.py:622-632 | after a chunk, reading resumes at `pos + 12 + length`, unless the chunk was IEND |
| BackyardPng.ReadPngChunks | backyard_to_tavern.py:609-633 | the loop, started at offset 8, returns exactly the chunk list `CheckedChunks(data)` |
| BackyardPng.CheckedChunks | backyard_to_tavern.py:609-633 | `read_png_chunks`: its properties are stated by `ReadPngChunks`, `CheckedIendLast`, `CheckedChunksFit`, `TruncatedCrcReadsZero` and `CheckedChunksBounded` |
| BackyardPng.CheckedIendLast | backyard_to_tavern.py:631-632 | an IEND chunk can only be the last chunk read |
| BackyardPng.CheckedChunksFit | backyard_to_tavern.py:613-630 | the chunks read never claim more than the data holds, except a last CRC cut short |
| BackyardPng.TruncatedCrcReadsZero | backyard_to_tavern.py:623 | a last chunk whose CRC field is cut short is read with CRC 0, and reading ends there |
| BackyardWrite.CheckedChunksBounded | backyard_to_tavern.py:616-623 | every chunk read has an ASCII type, and a length and CRC that fit 32 bits |
| BackyardWrite.WrittenChunk | backyard_to_tavern.py:604-607 | a written chunk takes its type and data plus four bytes each for the length and the stored CRC |
| BackyardWrite.WrittenAllSome | backyard_to_tavern.py:603-607 | writing succeeds exactly when every chunk can be written |
| BackyardWrite.WritePng | backyard_to_tavern.py:601-607 | the writing loop produces the signature followed by each chunk written with its stored CRC |
| BackyardWrite.ReadWrittenChunk | backyard_to_tavern.py:604-630 | a written chunk reads back as the same chunk, and reading resumes right after it |
| BackyardWrite.ReadWrittenPng | backyard_to_tavern.py:601-633 | writing then reading gives the same chunk list, stored CRCs included, when IEND comes only last |
| BackyardWrite.FirstIend | backyard_to_tavern.py:597 | the index of the first IEND, or none exactly when there is no IEND |
| BackyardWrite.IendIndex | backyard_to_tavern.py:597 | the insertion index is never past the end of the list |
| BackyardWrite.InsertAt | backyard_to_tavern.py:598 | `list.insert` adds exactly one element |
| BackyardWrite.DropCharaChunks | backyard_to_tavern.py:586 | the comprehension keeps exactly the chunks that are not `tEXt` with `chara\0` in their data |
| BackyardWrite.FindIendIndex | backyard_to_tavern.py:597 | the scan returns the first IEND index, or `len - 1` (clamped at 0) when there is none |
| BackyardWrite.RewriteChunks | backyard_to_tavern.py:586-598 | filtering, then inserting the new chunk, gives `RewrittenChunks` |
| BackyardWrite.InsertAtLayout | backyard_to_tavern.py:598 | after an insert, the element sits at its index and the others keep their order |
| BackyardWrite.RewrittenPlacement | backyard_to_tavern.py:586-598 | the new chunk takes the first IEND's place, with that IEND right after it, or goes before the last chunk when there is no IEND; the kept chunks keep their order |
| BackyardWrite.RewrittenDropsChara | backyard_to_tavern.py:586-598 | apart from the inserted chunk, no chunk written holds a `chara\0` field |
| BackyardWrite.RewrittenKeeps | backyard_to_tavern.py:586 | every chunk without a `chara\0` field is written, with the CRC it was read with |
| BackyardWrite.CardFields | backyard_to_tavern.py:562-576 | the embedded card copies the character, drops `display_name` and sets `metadata`; no other key is added |
| BackyardWrite.CharaData | backyard_to_tavern.py:579-589 | the new chunk's data starts with `chara\0` |
| BackyardWrite.CharaChunk | backyard_to_tavern.py:589-594 | the new chunk is a `tEXt` chunk with that data and the CRC-32 of `tEXt` followed by the data, which fits 32 bits |
| BackyardWrite.SaveTavernCard | backyard_to_tavern.py:559-607 | the step-by-step save produces exactly the bytes of `SavedCard` |
| BackyardWrite.SavedCard | backyard_to_tavern.py:559-607 | `save_tavern_card`: its properties are stated by `SaveTavernCard`, `SavedCardReadsBack` and `BackyardConvert.SavedCardExtracted` |
| BackyardWrite.FilterIendOnlyLast | backyard_to_tavern.py:586 | dropping `chara` chunks never drops IEND, so IEND stays last |
| BackyardWrite.InsertIendOnlyLast | backyard_to_tavern.py:597-598 | inserting at the IEND index keeps IEND last |
| BackyardWrite.CharaDataUnderLaws | backyard_to_tavern.py:579-589 | under the codec laws, the base64 text is ASCII and the latin-1 encoding succeeds |
| BackyardWrite.RewrittenStorable | backyard_to_tavern.py:583-598 | every chunk of the rewritten list can be written and read back |
| BackyardWrite.RewrittenReadsBack | backyard_to_tavern.py:583-607 | the rewritten list, once written, reads back as it is |
| BackyardWrite.SavedCardReadsBack | backyard_to_tavern.py:559-633 | the saved file reads back, chunk for chunk, as the rewritten list with the new `chara` chunk |
| BackyardExtract.TavernChara | backyard_to_tavern.py:187-191 | the `chara` payload counts at most once, and exactly once when it yields a card |
| BackyardExtract.TavernScan | backyard_to_tavern.py:172-195 | the chunk loop counts at most one find, and exactly one when it returns a card; which chunk decides is stated by `TavernScanFirst` and `TavernScanAllSkip` |
| BackyardExtract.TavernFormat | backyard_to_tavern.py:166-200 | no card and no count unless the data starts with `\x89PNG`; at most one count; the result itself is stated by `TavernFormatFirst` and `TavernFormatNone` |
| BackyardExtract.TavernScanSkips | backyard_to_tavern.py:185-193 | chunks that are not `tEXt`, or are `tEXt` with a keyword other than `chara`, do not change the scan's outcome |
| BackyardExtract.TavernScanFirst | backyard_to_tavern.py:185-195 | after chunks that are passed over, a `tEXt` chunk without NUL ends the scan with nothing, and one whose keyword is `chara` gives the decoded payload after its first NUL |
| BackyardExtract.TavernScanAllSkip | backyard_to_tavern.py:185-198 | a scan that passes over every chunk finds nothing and counts nothing |
| BackyardExtract.TavernFormatFirst | backyard_to_tavern.py:166-200 | on a PNG, the first chunk read that is not passed over decides: nothing when it holds no NUL, else the `chara` payload decode |
| BackyardExtract.TavernFormatNone | backyard_to_tavern.py:166-200 | when every chunk read is passed over, the strategy finds nothing and counts nothing |
| BackyardExtract.SkipsWithoutChara | backyard_to_tavern.py:186-187 | a `tEXt` chunk with a NUL and no `chara\0` is passed over |
| BackyardExtract.TavernCharaRoundTrip | backyard_to_tavern.py:188-191 | a payload written as base64 of UTF-8 JSON decodes back to `json.loads` of that JSON, counted once |
| BackyardExtract.StripPadding | backyard_to_tavern.py:301 | `rstrip(b'=')` removes exactly the trailing `=` run |
| BackyardExtract.Repadded | backyard_to_tavern.py:301-304 | after repair the length is a multiple of 4: the unpadded text followed by 0 to 3 `=` |
| BackyardExtract.StripPaddingOfRepadded | backyard_to_tavern.py:252-255 | stripping the repaired text finds the same unpadded text |
| BackyardExtract.RepaddedIdempotent | backyard_to_tavern.py:252-255 | repairing twice is repairing once |
| BackyardExtract.DecodeCardJson | backyard_to_tavern.py:301-315 | repair, base64, UTF-8 ignoring errors, greedy `{.*}`, `json.loads`; shared with the EXIF strategy; its use is stated by `BackyardExportPayload` |
| BackyardExtract.GreedyBraces | backyard_to_tavern.py:311-313 | the greedy `{.*}` match exists exactly when some `{` has a `}` after it, and runs from the first `{` to the last `}` |
| BackyardExtract.FirstPresent | backyard_to_tavern.py:335-340 | nested `.get` fallbacks give the value of the first key present, or the default |
| BackyardExtract.ConvertField | backyard_to_tavern.py:350-353 | a converted string holds no `{character}`; the conversion raises exactly on a truthy non-string |
| BackyardExtract.ParseBackyardFormat | backyard_to_tavern.py:326-355 | on success: `name` is the first present of `aiName`, `aiDisplayName`, `name` (default `Unknown`); `description`, `first_mes` and `mes_example` are their fallback chains and `personality`, `scenario` their own keys (default `""`), each with placeholders converted; `display_name` is present exactly when `aiDisplayName` or `display_name` is |
| BackyardExtract.CharacterOf | backyard_to_tavern.py:328-331 | `json_data['character']` when present, else the data itself; used in the contracts of `ParseBackyardFormat` and `ParseBackyardFormatAccepts` |
| BackyardExtract.ParsedFields | backyard_to_tavern.py:334-353 | the six fields exist exactly when all five conversions succeed; the keys are exactly the six, each value the converted first-present value of its chain |
| BackyardExtract.WithDisplayName | backyard_to_tavern.py:343-347 | adds `display_name` exactly when `aiDisplayName` or `display_name` is present, `aiDisplayName` first, keeping the other fields |
| BackyardExtract.ParsedTextFieldsClean | backyard_to_tavern.py:349-353 | no string among the five text fields of a parsed card holds `{character}` |
| BackyardExtract.ParseBackyardFormatAccepts | backyard_to_tavern.py:326-355 | parsing succeeds exactly for a dict whose character is a dict and whose chosen text fields are strings or falsy |
| BackyardExtract.ParsedDisplayName | backyard_to_tavern.py:344-347 | the display name is `aiDisplayName` when present, else `display_name` |
| BackyardExtract.SkipBlank | backyard_to_tavern.py:235-236 | skipping stops at the first byte outside space, NUL, LF, CR and TAB |
| BackyardExtract.CleanStop | backyard_to_tavern.py:241-247 | the cleaning loop stops at the first byte 0-4 that follows kept text not ending in `=`, or at the end |
| BackyardExtract.CleanStep | backyard_to_tavern.py:242-247 | one byte of the loop: a base64 byte is appended, and the loop stops exactly at a stopping byte |
| BackyardExtract.CleanExif | backyard_to_tavern.py:241-247 | the byte loop produces exactly the base64 bytes before the stop, in order |
| BackyardExtract.ExifCleaned | backyard_to_tavern.py:241-247 | what the cleaning loop keeps: see `CleanExif`, `ExifCleanedAlphabet`, `ExifCleanedStopsAtNul` and `CleanStopFirst` |
| BackyardExtract.ExifCleanedAlphabet | backyard_to_tavern.py:242-244 | a run of base64 bytes is kept whole |
| BackyardExtract.ExifCleanedStopsAtNul | backyard_to_tavern.py:245-247 | nothing after a NUL that follows base64 text not ending in `=` is kept |
| BackyardExtract.CleanStopFirst | backyard_to_tavern.py:245-247 | the loop stops at the first stopping byte |
| BackyardExtract.ExifPayload | backyard_to_tavern.py:226-249 | no payload without an `ASCII` marker; a payload is non-empty and uses only `[A-Za-z0-9+/=]` |
| BackyardExtract.ExifJson | backyard_to_tavern.py:222-264 | the JSON an `eXIf` chunk yields: its payload found and decoded; None for any other chunk; used by `ExifScanSkips` and `ExifScanFirst` |
| BackyardExtract.ExifScan | backyard_to_tavern.py:209-273 | a card is found only after counting it, and is a dict; never more counts than chunks; which chunk decides is stated by `ExifScanFirst` and `ExifScanAllSkip` |
| BackyardExtract.ExifScanSkips | backyard_to_tavern.py:222-249 | chunks that are not `eXIf`, or whose payload or JSON fails, change neither the card nor the count |
| BackyardExtract.ExifScanSkipOne | backyard_to_tavern.py:271 | one chunk passed over: the loop goes on with the next chunk |
| BackyardExtract.ExifScanFirst | backyard_to_tavern.py:260-272 | after chunks passed over, the first chunk whose JSON loads decides: a card `parse_backyard_format` accepts is returned with count 1; a card it raises on is counted, and the result and count are those of the chunks after it plus one |
| BackyardExtract.ExifScanHead | backyard_to_tavern.py:260-272 | the same decision when that chunk comes first |
| BackyardExtract.ExifScanAllSkip | backyard_to_tavern.py:209-278 | every chunk passed over: no card and no count |
| BackyardExtract.ExifFormat | backyard_to_tavern.py:202-278 | no card and no count unless the data starts with `\x89PNG`; a card found is a counted dict; on a PNG, see `ExifFormatFirst` and `ExifFormatNone` |
| BackyardExtract.ExifFormatFirst | backyard_to_tavern.py:202-278 | on a PNG whose chunks read are `pre`, `c`, `rest`, with every chunk of `pre` passed over and the JSON of `c` loading: the card `parse_backyard_format` makes of it, counted once, or, when it raises, the scan of `rest` with one more count |
| BackyardExtract.ExifFormatNone | backyard_to_tavern.py:202-278 | every chunk read passed over: None, uncounted |
| BackyardExtract.BackyardExport | backyard_to_tavern.py:280-324 | no card and no count without `ASCII` followed by `IDATx`; at most one count, and a card is a counted dict |
| BackyardExtract.BackyardExportPayload | backyard_to_tavern.py:286-318 | what is decoded is the base64 filter of exactly the bytes strictly between the first `ASCII` and the first `IDATx` after it; the strategy's card is `parse_backyard_format` of `DecodeCardJson` of it, counted exactly when that JSON loads |
| BackyardExtract.BackyardExportCleanedOrder | backyard_to_tavern.py:286-298 | the cleaning keeps the bytes' order: a base64 run between the markers reappears whole between what is kept before and after it |
| BackyardFields.ParsePersonaField | backyard_to_tavern.py:145-164 | the in-place line loop gives `ParsedPersona` |
| BackyardFields.ParsedPersona | backyard_to_tavern.py:145-164 | `parse_persona_field`: its properties are stated by `PersonaFirstPersonality`, `PersonaFirstScenario`, `PersonaKeepsFilled` and `PersonaUnstructured` |
| BackyardFields.PersonaLinesKeep | backyard_to_tavern.py:151-158 | the line loop never overwrites a filled field and never touches the description |
| BackyardFields.PersonaLinesFirstPersonality | backyard_to_tavern.py:151-155 | an empty personality becomes the first personality line, stripped |
| BackyardFields.PersonaLinesFirstScenario | backyard_to_tavern.py:156-158 | an empty scenario becomes the first scenario line, stripped |
| BackyardFields.PersonaFirstPersonality | backyard_to_tavern.py:148-155 | with a structured persona, the personality becomes its first line naming `personality:`, `traits:` or `character:` (any case), and the description is kept |
| BackyardFields.PersonaFirstScenario | backyard_to_tavern.py:148-158 | with a structured persona, the scenario becomes its first non-personality line naming `scenario:`, `setting:` or `context:`, and the description is kept |
| BackyardFields.PersonaKeepsFilled | backyard_to_tavern.py:151-162 | filled fields are never overwritten, and then the description is kept |
| BackyardFields.PersonaUnstructured | backyard_to_tavern.py:160-162 | with both fields empty and no keyword line, the whole persona becomes the description and nothing else changes |
| BackyardFields.KeptChars | backyard_to_tavern.py:379-380 | the comprehension maps each character to itself when it is safe, and to `_` otherwise |
| BackyardFields.SanitizeFilename | backyard_to_tavern.py:374-386 | empty input gives `Unknown`; otherwise a name of the same length using only ASCII letters, digits, `-` and `_`, each safe character kept in place |
| BackyardFields.SanitizeFilenameIdempotent | backyard_to_tavern.py:374-386 | sanitizing a sanitized name changes nothing |
| BackyardConvert.ChainOf | backyard_to_tavern.py:417-444 | the pick, if any, is truthy; the database counts exactly when picked, and a picked strategy counted |
| BackyardConvert.Extract | backyard_to_tavern.py:417-444 | the chain on the bytes of a file: see `ChainOf`, `ChainPicksFirst`, `ChainPicksTavern` and `ReconvertPicksTavern` |
| BackyardConvert.FirstUsable | backyard_to_tavern.py:417-444 | the index of the first usable result, none exactly when no result is usable |
| BackyardConvert.ChainPicksFirst | backyard_to_tavern.py:417-444 | the chain picks the first strategy, in order, whose result is usable, and fails exactly when none is |
| BackyardConvert.ChainPicksTavern | backyard_to_tavern.py:425-430 | with no database entry, a usable TavernAI result wins whatever the later strategies return |
| BackyardConvert.StrategiesCountFinds | backyard_to_tavern.py:166-324 | every PNG strategy counts whenever it finds a card |
| BackyardConvert.ConvertOutcome | backyard_to_tavern.py:395-515 | unreadable exactly when the file cannot be read; the naming step raises exactly in batch mode without an output path when the picked card's name or display name cannot be sanitized (`NamingRaises`); saved only with the bytes `save_tavern_card` writes for the picked card |
| BackyardConvert.Bump | backyard_to_tavern.py:454-456 | one more use of that strategy, every other count unchanged |
| BackyardConvert.BumpTotal | backyard_to_tavern.py:454-456 | one use more in total |
| BackyardConvert.CountedUsage | backyard_to_tavern.py:417-456 | adding the chain's counts and one use of the picked strategy keeps counters and usage in step |
| BackyardConvert.Tallied | backyard_to_tavern.py:392-515 | `self.stats` after a conversion: see `TalliedInvariant`, `Record` and `ConvertFile` |
| BackyardConvert.TalliedInvariant | backyard_to_tavern.py:392-515 | a conversion keeps the stats invariant; unless the naming step raised, it adds exactly one success or one failure and lists the file as failed exactly when it was not saved; a raise adds a use and no success or failure |
| BackyardConvert.InitialStatsInvariant | backyard_to_tavern.py:22-36 | the counters start out consistent |
| BackyardConvert.Converter.constructor | backyard_to_tavern.py:22-36 | all counters zero, no usage, no failed files |
| BackyardConvert.Converter.Record | backyard_to_tavern.py:392-515 | the stats become `Tallied` of the old stats; the path is appended to `failedFiles` exactly when the file was neither saved nor escaped by a raise; the raise count grows exactly on a raise |
| BackyardConvert.Converter.ConvertFile | backyard_to_tavern.py:389-516 | returns success exactly when the card was saved and `raised` exactly when the naming step raised (backyard_to_tavern.py:458-468); updates stats and failed files as the outcome dictates |
| BackyardConvert.EmbeddedCard | backyard_to_tavern.py:562-576 | the embedded card is a non-empty dict without `display_name` |
| BackyardConvert.WrittenPngMagic | backyard_to_tavern.py:602 | a written file begins with `\x89PNG` |
| BackyardConvert.CharaChunkScanned | backyard_to_tavern.py:185-191 | the new `chara` chunk is recognised by the TavernAI scan and its payload decoded |
| BackyardConvert.KeptChunksSkipped | backyard_to_tavern.py:586 | chunks kept by the rewrite are passed over by the TavernAI scan |
| BackyardConvert.RewrittenScanned | backyard_to_tavern.py:586-598 | the TavernAI scan of the rewritten list decodes the new chunk |
| BackyardConvert.SavedCardExtracted | backyard_to_tavern.py:559-607 | the TavernAI strategy finds the card `save_tavern_card` wrote |
| BackyardConvert.ReconvertPicksTavern | backyard_to_tavern.py:417-444 | converting a saved card again, with no database entry, picks the TavernAI strategy with the embedded card |
| BackyardV8.NormalizeNewlines | backyard_to_tavern_v8.py:282-291 | the replace-while loop gives `NormalizedNewlines` |
| BackyardV8.NormalizedNewlines | backyard_to_tavern_v8.py:282-291 | `normalize_newlines`: see `NormalizedNewlinesShape`, `NormalizedNewlinesIdempotent` and `NormalizedNewlinesKeepsTokensOut` |
| BackyardV8.NormalizedNewlinesShape | backyard_to_tavern_v8.py:282-291 | the output holds no `\r` and no `\n\n\n`, and keeps every other character in order |
| BackyardV8.NormalizedNewlinesIdempotent | backyard_to_tavern_v8.py:282-291 | normalising twice is normalising once |
| BackyardV8.NormalizedNewlinesKeepsTokensOut | backyard_to_tavern_v8.py:287-290 | normalising introduces no `{character}` token |
| BackyardV8.ConvertPlaceholders | backyard_to_tavern_v8.py:293-303 | no `{character}` survives the conversion |
| BackyardV8.ConvertPlaceholdersValue | backyard_to_tavern_v8.py:293-296 | a falsy value converts to `""`, a string is converted, and any other value raises |
| BackyardV8.UnwrapTranslate | backyard_to_tavern_v8.py:297-302 | collapsing the doubled macros undoes the token rewrite on text without `{{char}}` |
| BackyardV8.UnwrapAvoidsCharMacro | backyard_to_tavern_v8.py:298-299 | the collapse leaves no `{{char}}` |
| BackyardV8.ConvertPlaceholdersIdempotent | backyard_to_tavern_v8.py:293-303 | converting an already converted text changes nothing |
| BackyardV8.TrimmedToQuads | backyard_to_tavern_v8.py:430-431 | the longest prefix whose length is a multiple of 4, fewer than 4 bytes shorter |
| BackyardV8.TrimToQuads | backyard_to_tavern_v8.py:430-431 | the byte-dropping loop gives `TrimmedToQuads` |
| BackyardV8.SliceTo | backyard_to_tavern_v8.py:463 | Python's `s[i:j]`: the slice when `i <= j`, empty otherwise |
| BackyardV8.SplitPersona | backyard_to_tavern_v8.py:455-477 | the persona split: see `SplitPersonaWithoutMarkers` and `SplitPersonaWorldInfo` |
| BackyardV8.SplitPersonaWithoutMarkers | backyard_to_tavern_v8.py:455-473 | with neither marker, the personality is the whole persona and the description is empty; with the personality marker, the personality is the non-empty stripped tail from it |
| BackyardV8.SplitPersonaWorldInfo | backyard_to_tavern_v8.py:455-477 | text before the appearance marker heads the description, followed by a blank line when a section follows |
| BackyardV8.BackyardJsonText | backyard_to_tavern_v8.py:416-443 | nothing without `ASCII` followed by `IDATx`; a non-empty JSON text runs from `{` to `}` |
| BackyardV8.ExtractBackyardPngData | backyard_to_tavern_v8.py:410-491 | nothing without a JSON text; no `{character}` in the five converted fields |
| BackyardV8.LorebookLines | backyard_to_tavern_v8.py:356-359 | one `"key: value"` line per lorebook entry, in order |
| BackyardV8.AlternateGreetings | backyard_to_tavern_v8.py:356-359 | the append loop gives `LorebookLines` |
| BackyardV8.TavernData | backyard_to_tavern_v8.py:325-359 | `name` is the character's name; `personality` is `""`; `description`, `scenario`, `first_mes` and `mes_example` are `CardText` of the character's description, scenario, first message and example dialogue; `alternate_greetings` holds the lorebook lines, in order, and is empty without a lorebook; the `created` and `modified` timestamps are separate parameters |
| BackyardV8.TavernExtras | backyard_to_tavern_v8.py:332-352 | the entries after the six card fields; `alternate_greetings` is the list of lorebook lines |
| BackyardV8.CardText | backyard_to_tavern_v8.py:327-331 | one text field of `create_tavern_card`: see `CardTextClean` |
| BackyardV8.CardTextClean | backyard_to_tavern_v8.py:327-331 | card text fields hold no `\r`, no `\n\n\n` and no `{character}` |
| FaradayV2.Candidate | convert_faraday_to_tavern_v2.py:106-120 | no candidate without `ASCII` followed by `Q==`; otherwise it runs from just after `ASCII` through the end of the first `Q==` |
| FaradayV2.DashUnderscoreNoOp | convert_faraday_to_tavern_v2.py:121-125 | the `-`/`_` replacement changes nothing after the cleaning |
| FaradayV2.ExtraBase64Data | convert_faraday_to_tavern_v2.py:85-150 | `None` whenever the markers are missing |
| FaradayV2.NonAsciiLetterDefeatsDecode | convert_faraday_to_tavern_v2.py:121-126 | a non-ASCII latin-1 letter kept by `isalnum` makes the decode fail, giving `None` |
| FaradayV2.ExtraBase64DataOf | convert_faraday_to_tavern_v2.py:120-143 | a candidate that is the base64 of a JSON object yields that JSON re-serialised with indent 4 |
| FaradayV2.NewDataObject | convert_faraday_to_tavern_v2.py:214-242 | the name is kept; `description`, `personality`, `scenario`, `first_mes` and `mes_example` are each its argument with `{character}` and `{user}` translated; the keys are exactly `name`, `metadata` and the five text fields |
| FaradayV2.NewDataObjectClean | convert_faraday_to_tavern_v2.py:214-223 | each of the five text fields is present, is a string and holds no `{character}` |
| FaradayV2.CreateNewData | convert_faraday_to_tavern_v2.py:212-248 | a dict exactly when `return_as_json_data` is set, otherwise its indented JSON text |
| FaradayV2.CharacterField | convert_faraday_to_tavern_v2.py:164-169 | `.get('character', {}).get(key, 'N/A')`: `N/A` when absent, raising exactly on a non-dict |
| FaradayV2.TavernDataV2 | convert_faraday_to_tavern_v2.py:161-180 | name from `aiName`, description empty; personality from `aiPersona`, scenario from `scenario`, first_mes from `firstMessage` and mes_example from `customDialogue`, each with its tokens translated; raises exactly on a non-dict or a non-string field |
| FaradayV2.ConvertFaradayPngToTavernData | convert_faraday_to_tavern_v2.py:152-183 | `None` when nothing is extracted, when the text extracted is empty, or when `json.loads` raises on it; otherwise exactly the card built from the loaded JSON, serialised with indent 4, or the error building it raised |
| FaradayV2.EmptyJsonSpanIsNone | convert_faraday_to_tavern_v2.py:130-143 | under the codec laws, an empty JSON span extracts nothing, since `json.loads("")` raises |
| FaradayV2.MissingFieldIsNA | convert_faraday_to_tavern_v2.py:164-169 | a missing field reads `N/A`, which the rewrite leaves as it is |
| Faraday2Tavern.StartPos | faraday2tavern.py:20 | just after the first start delimiter, or `len(start) - 1` when there is none |
| Faraday2Tavern.ExtractContent | faraday2tavern.py:19-24 | raises exactly when no end delimiter occurs at or after the start; otherwise the text up to the first one |
| Faraday2Tavern.ExtractPlaced | faraday2tavern.py:19-24 | text placed between first delimiters, with no end delimiter inside, is extracted exactly |
| Faraday2Tavern.Doubled | faraday2tavern.py:32 | the f-string wraps the token in one more pair of braces; a `{…}` token becomes `{{…}}` |
| Faraday2Tavern.WrapTokensAfterFirstPass | faraday2tavern.py:31-32 | once `{character}` is gone, the loop only rewrites `{user}` to `{{user}}` |
| Faraday2Tavern.ProcessSpecialTokens | faraday2tavern.py:26-33 | `process_special_tokens`: see `ProcessSpecialTokensRemovesCharacter` |
| Faraday2Tavern.ProcessSpecialTokensRemovesCharacter | faraday2tavern.py:26-33 | the function is the four replaces in order, and no `{character}` remains |
| Faraday2Tavern.GetCharacter | faraday2tavern.py:35-56 | succeeds exactly when all four delimiter pairs match in the content with `2}` appended; the name is the `aiName` extraction; summary, greeting and example messages are the `aiPersona`, `firstMessage` and `customDialogue` extractions with their special tokens processed; no `{character}` in those three; personality and scenario empty |

## Left out

- File I/O and plumbing: reading and writing files, `os.path.exists`,
  `makedirs`, printing, `debug_print`, `argparse`/`main`, `convert_batch` and
  `print_summary`. File contents are parameters (`None` for a file that is
  missing or unreadable), and the bytes to be written are results.
- The JSON sidecar `convert_file` writes after the PNG
  (backyard_to_tavern.py:491-497). A failure there would count as a save
  failure, and the model does not include it.
- Output names and paths: `generate_unique_filename`, the output filename
  built in `convert_file` (backyard_to_tavern.py:458-485), and the file names
  of `create_tavern_card`. They depend on the filesystem.
- The SQLite layer and default database paths. The lookup's result is the
  parameter `db`.
- PIL image handling in `create_tavern_card`, the `aichar` library in
  `faraday2tavern.py`, and the unused `create_chunk`. These are foreign code
  or dead code.
- `time.time()`: the timestamps are parameters.
- Base64, UTF-8 and `json`: these are the fields of a `Primitives` record
  passed in. The round-trip lemmas assume only the laws in
  `Library.CodecLaws`; among them is that `json.loads("")` raises.
  `json.dumps` key order and `ensure_ascii` are not modelled.
- JSON objects are maps. Key order and duplicate keys are not modelled, so
  the key order of the dumped card is not captured.
- `method_usage` is keyed by a `Strategy` value, and `Label` gives the
  string `convert_file` uses. Within `convert_file`, the strategies' own
  counters are applied at the end together with the rest of the
  bookkeeping. The order of the updates is not modelled, only their sum.
- `str.lower()` in `parse_persona_field` lowers ASCII letters only. The
  `str.strip()` whitespace is the full `str.isspace` set, and the `isalnum`
  of the v2 cleaning is written out for the latin-1 code points, up to 255.
- Of the naming step in `convert_file` (backyard_to_tavern.py:458-468), only
  whether it raises is modelled, by `NamingRaises`. The names it builds are
  left out with the other output names above.
- Bytes.Crc32: its contract states only the 32-bit bound. The reflected
  polynomial is implemented, but no property of the CRC value is proved.
- ExtractBackyardPngData and ExtraBase64Data: when the markers are present,
  the contract says nothing about the decoded result. That result depends on
  the abstract base64 and `json` routines, and on a `try` that swallows every
  exception.
- BackyardV8.SplitPersonaWorldInfo: it states that the world info heads the
  description. The part after the blank line is not pinned down.
