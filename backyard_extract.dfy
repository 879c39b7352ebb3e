/** The extraction strategies of `BackyardToTavernConverter`
    (backyard_to_tavern.py): the TavernAI `chara` text chunk, the base64
    payload between `ASCII` and `IDATx`, and the base64 text inside an `eXIf`
    chunk, together with `parse_backyard_format`, which maps a BackyardAI
    character to the TavernAI fields.

    The two chunk walks (`extract_tavern_format`, `extract_exif_format`) step
    through the file exactly as `read_png_chunks` does, so they are modelled
    as scans over the chunks `CheckedChunks` reads. Each strategy also reports
    how many times it incremented its counter in `self.stats`. */
module BackyardExtract {
  import opened Wrappers
  import opened Text
  import opened Bytes
  import opened Library
  import opened PngCodec
  import opened Placeholders
  import opened Scan
  import opened BackyardPng
  import BackyardV8

  /** The data a strategy returns (None where it returns None or its `try`
      catches an exception), and how many times it counted a find. */
  datatype Extraction = Extraction(data: Option<Json>, counted: nat)

  const NotFound := Extraction(None, 0)

  /** `b'\x89PNG'`, the prefix both chunk walks insist on. */
  const PngMagic: seq<byte> := [0x89, 0x50, 0x4E, 0x47]

  /** `b'chara'`. */
  const CharaKeyword: seq<byte> := [0x63, 0x68, 0x61, 0x72, 0x61]

  const Nul: byte := 0

  /** `b'='`. */
  const Pad: byte := 61

  // ---------------------------------------------------------------------
  // extract_tavern_format
  // ---------------------------------------------------------------------

  /** The `chara` payload: `base64.b64decode(text).decode('utf-8')`, counted,
      then `json.loads`. A decoding error ends the strategy uncounted; a JSON
      error ends it after the count. */
  function TavernChara(text: seq<byte>, lib: Primitives): (r: Extraction)
    ensures r.counted <= 1 && (r.data.Some? ==> r.counted == 1)
  {
    match lib.b64Decode(text)
    case None => NotFound
    case Some(raw) =>
      match lib.utf8Decode(raw)
      case None => NotFound
      case Some(decoded) => Extraction(lib.jsonLoads(decoded), 1)
  }

  /** The chunk loop of `extract_tavern_format`: the first `tEXt` chunk whose
      keyword (the bytes before the first NUL) is `chara` decides; a `tEXt`
      chunk without a NUL makes `split` raise, which ends the strategy. */
  function TavernScan(chunks: seq<Chunk>, lib: Primitives): (r: Extraction)
    ensures r.counted <= 1 && (r.data.Some? ==> r.counted == 1)
    decreases |chunks|
  {
    if |chunks| == 0 then NotFound
    else
      var c := chunks[0];
      if !IsText(c) then TavernScan(chunks[1..], lib)
      else
        var k := Find(c.data, [Nul], 0);
        if k == -1 then NotFound
        else if c.data[..k] == CharaKeyword then TavernChara(c.data[k + 1..], lib)
        else TavernScan(chunks[1..], lib)
  }

  /** `extract_tavern_format(png_data)`. */
  function TavernFormat(png: seq<byte>, lib: Primitives): (r: Extraction)
    ensures !StartsWith(png, PngMagic) ==> r == NotFound
    ensures r.counted <= 1 && (r.data.Some? ==> r.counted == 1)
  {
    if !StartsWith(png, PngMagic) then NotFound else TavernScan(CheckedChunks(png), lib)
  }

  /** A chunk the tavern scan passes over: not `tEXt`, or `tEXt` with a NUL
      and a keyword other than `chara`. */
  predicate TavernSkips(c: Chunk) {
    !IsText(c) || (Find(c.data, [Nul], 0) != -1 && c.data[..Find(c.data, [Nul], 0)] != CharaKeyword)
  }

  /** Chunks the scan passes over do not change its outcome. */
  lemma {:induction false} TavernScanSkips(pre: seq<Chunk>, rest: seq<Chunk>, lib: Primitives)
    requires forall c :: c in pre ==> TavernSkips(c)
    ensures TavernScan(pre + rest, lib) == TavernScan(rest, lib)
    decreases |pre|
  {
    if |pre| > 0 {
      assert pre[0] in pre;
      assert forall c :: c in pre[1..] ==> c in pre;
      TavernScanSkips(pre[1..], rest, lib);
      var s := pre + rest;
      assert s[0] == pre[0] && s[1..] == pre[1..] + rest;
      assert TavernSkips(s[0]);
      assert TavernScan(s, lib) == TavernScan(s[1..], lib);
    } else {
      assert pre + rest == rest;
    }
  }

  /** The first chunk the scan does not pass over decides: without a NUL the
      `split` raises and the strategy ends with nothing; with the keyword
      `chara` its payload is decoded. */
  lemma TavernScanFirst(pre: seq<Chunk>, c: Chunk, rest: seq<Chunk>, lib: Primitives)
    requires forall x :: x in pre ==> TavernSkips(x)
    requires IsText(c)
    ensures Find(c.data, [Nul], 0) == -1 ==> TavernScan(pre + [c] + rest, lib) == NotFound
    ensures var k := Find(c.data, [Nul], 0);
      k != -1 && c.data[..k] == CharaKeyword ==> TavernScan(pre + [c] + rest, lib) == TavernChara(c.data[k + 1..], lib)
  {
    assert pre + [c] + rest == pre + ([c] + rest);
    TavernScanSkips(pre, [c] + rest, lib);
    assert ([c] + rest)[0] == c;
  }

  /** A scan that passes over every chunk finds nothing. */
  lemma TavernScanAllSkip(chunks: seq<Chunk>, lib: Primitives)
    requires forall x :: x in chunks ==> TavernSkips(x)
    ensures TavernScan(chunks, lib) == NotFound
  {
    TavernScanSkips(chunks, [], lib);
    assert chunks + [] == chunks;
  }

  /** `extract_tavern_format` on a PNG: the first chunk read that the loop
      does not pass over decides the result, as in `TavernScanFirst`. */
  lemma TavernFormatFirst(png: seq<byte>, lib: Primitives, i: nat)
    requires StartsWith(png, PngMagic) && i < |CheckedChunks(png)|
    requires forall j :: 0 <= j < i ==> TavernSkips(CheckedChunks(png)[j])
    requires !TavernSkips(CheckedChunks(png)[i])
    ensures var c := CheckedChunks(png)[i]; var k := Find(c.data, [Nul], 0);
      TavernFormat(png, lib) == if k == -1 then NotFound else TavernChara(c.data[k + 1..], lib)
  {
    var cs := CheckedChunks(png);
    assert cs == cs[..i] + [cs[i]] + cs[i + 1..];
    TavernScanFirst(cs[..i], cs[i], cs[i + 1..], lib);
  }

  /** `extract_tavern_format` returns None when every chunk read is passed over. */
  lemma TavernFormatNone(png: seq<byte>, lib: Primitives)
    requires forall x :: x in CheckedChunks(png) ==> TavernSkips(x)
    ensures TavernFormat(png, lib) == NotFound
  {
    TavernScanAllSkip(CheckedChunks(png), lib);
  }

  /** A `tEXt` chunk free of `chara\0` is passed over once it has a NUL:
      a keyword equal to `chara` would put `chara\0` at its start. */
  lemma SkipsWithoutChara(c: Chunk, charaPrefix: seq<byte>)
    requires charaPrefix == CharaKeyword + [Nul]
    requires !Contains(c.data, charaPrefix)
    requires IsText(c) ==> Nul in c.data
    ensures TavernSkips(c)
  {
    if IsText(c) {
      var k := Find(c.data, [Nul], 0);
      ContainsElem(c.data, Nul);
      assert k != -1;
      if c.data[..k] == CharaKeyword {
        assert c.data[k..k + 1] == [Nul];
        assert c.data[..k + 1] == charaPrefix;
        assert OccursAt(c.data, charaPrefix, 0);
        assert false;
      }
    }
  }

  /** The payload of a chunk written as `chara\0` + base64 of the UTF-8 of a
      JSON text is decoded back into `json.loads` of that text. */
  lemma TavernCharaRoundTrip(json: string, lib: Primitives)
    requires CodecLaws(lib)
    ensures TavernChara(lib.b64Encode(lib.utf8Encode(json)), lib) == Extraction(lib.jsonLoads(json), 1)
  {
    assert lib.b64Decode(lib.b64Encode(lib.utf8Encode(json))) == Some(lib.utf8Encode(json));
    assert lib.utf8Decode(lib.utf8Encode(json)) == Some(json);
  }

  // ---------------------------------------------------------------------
  // Base64 repair, shared by the EXIF and export strategies
  // ---------------------------------------------------------------------

  /** The bytes both strategies keep: `[A-Za-z0-9+/=]`. */
  predicate IsBase64PadByte(b: byte) {
    BackyardV8.IsBase64Byte(b) || b == Pad
  }

  /** `c.rstrip(b'=')`. */
  function StripPadding(c: seq<byte>): (r: seq<byte>)
    ensures |r| <= |c| && r == c[..|r|]
    ensures forall i :: |r| <= i < |c| ==> c[i] == Pad
    ensures |r| > 0 ==> r[|r| - 1] != Pad
    decreases |c|
  {
    if |c| > 0 && c[|c| - 1] == Pad then StripPadding(c[..|c| - 1]) else c
  }

  /** The padding repair: strip the trailing `=`, then append
      `4 - len % 4` of them unless the length is already a multiple of 4. */
  function Repadded(c: seq<byte>): (r: seq<byte>)
    ensures |r| % 4 == 0
    ensures var t := StripPadding(c);
      && |t| <= |r| < |t| + 4 && r[..|t|] == t
      && forall i :: |t| <= i < |r| ==> r[i] == Pad
  {
    var t := StripPadding(c);
    var padding := 4 - |t| % 4;
    if padding != 4 then t + seq(padding, _ => Pad) else t
  }

  /** Stripping the padding again finds the same unpadded text. */
  lemma StripPaddingOfRepadded(c: seq<byte>)
    ensures StripPadding(Repadded(c)) == StripPadding(c)
  {
    var t := StripPadding(c);
    var r := Repadded(c);
    StripPaddingPrefix(t, r);
  }

  lemma {:induction false} StripPaddingPrefix(t: seq<byte>, r: seq<byte>)
    requires |t| <= |r| && r[..|t|] == t
    requires |t| > 0 ==> t[|t| - 1] != Pad
    requires forall i :: |t| <= i < |r| ==> r[i] == Pad
    ensures StripPadding(r) == t
    decreases |r|
  {
    if |r| > |t| {
      assert r[..|r| - 1][..|t|] == t;
      StripPaddingPrefix(t, r[..|r| - 1]);
    } else {
      assert r == t;
    }
  }

  /** Repairing the padding twice is the same as once. */
  lemma RepaddedIdempotent(c: seq<byte>)
    ensures Repadded(Repadded(c)) == Repadded(c)
  {
    StripPaddingOfRepadded(c);
  }

  /** `re.search(r'(\{.*\})', text, re.DOTALL)`: from the first `{` to the last
      `}`, present exactly when some `{` has a `}` after it. */
  function GreedyBraces(text: string): (r: Option<string>)
    ensures r.None? <==> forall i, k :: 0 <= i < |text| && 0 <= k < |text| && text[i] == '{' && text[k] == '}' ==> k < i
    ensures r.Some? ==> var j := Find(text, ['{'], 0);
      && 0 <= j && j + |r.value| <= |text| && r.value == text[j..j + |r.value|]
      && |r.value| >= 2 && r.value[0] == '{' && r.value[|r.value| - 1] == '}'
      && '{' !in text[..j] && '}' !in text[j + |r.value|..]
  {
    var span := JsonSpan(text, '{', '}');
    if span.Some? && |span.value| > 0 then
      var j := Find(text, ['{'], 0);
      assert text[j] == '{' && text[j + |span.value| - 1] == '}';
      Some(span.value)
    else None
  }

  /** The JSON the two base64 strategies decode: repaired padding, base64,
      UTF-8 with errors ignored, the greedy `{.*}` match, `json.loads`. */
  function DecodeCardJson(cleaned: seq<byte>, lib: Primitives): Option<Json>
  {
    match lib.b64Decode(Repadded(cleaned))
    case None => None
    case Some(raw) =>
      match GreedyBraces(lib.utf8DecodeIgnore(raw))
      case None => None
      case Some(text) => lib.jsonLoads(text)
  }

  // ---------------------------------------------------------------------
  // parse_backyard_format
  // ---------------------------------------------------------------------

  /** `d.get(k1, d.get(k2, ... default))`: the value of the first key present. */
  function FirstPresent(m: map<string, Json>, keys: seq<string>, default: Json): (r: Json)
    ensures forall i :: 0 <= i < |keys| && keys[i] in m && (forall j :: 0 <= j < i ==> keys[j] !in m) ==> r == m[keys[i]]
    ensures (forall i :: 0 <= i < |keys| ==> keys[i] !in m) ==> r == default
    decreases |keys|
  {
    if |keys| == 0 then default
    else if keys[0] in m then m[keys[0]]
    else FirstPresent(m, keys[1..], default)
  }

  /** The placeholder conversion of one text field: a falsy value is kept, a
      string has its tokens rewritten, any other value has no `replace` and raises. */
  function ConvertField(v: Json): (r: Option<Json>)
    ensures r.Some? && r.value.Str? ==> !Contains(r.value.s, CharacterToken)
    ensures r.None? <==> Truthy(v) && !v.Str?
  {
    if !Truthy(v) then
      assert v.Str? ==> v.s == [];
      Some(v)
    else if v.Str? then Some(Str(TranslateTokens(v.s)))
    else None
  }

  /** The character `parse_backyard_format` reads from: `json_data['character']`
      when that key is present, else `json_data` itself. */
  function CharacterOf(json: Json): Json
    requires json.Obj?
  {
    if "character" in json.fields then json.fields["character"] else json
  }

  const NameKeys: seq<string> := ["aiName", "aiDisplayName", "name"]
  const DescriptionKeys: seq<string> := ["aiPersona", "description", "persona"]
  const FirstMesKeys: seq<string> := ["firstMessage", "greeting", "first_mes"]
  const MesExampleKeys: seq<string> := ["customDialogue", "examples", "mes_example"]


  /** The six fields `parse_backyard_format` fills from the character `m`,
      each the first key present of its fallback chain, the five text fields
      with their placeholders converted; None where a conversion raises. */
  function ParsedFields(m: map<string, Json>): (r: Option<map<string, Json>>)
    ensures r.Some? <==>
      && ConvertField(FirstPresent(m, DescriptionKeys, Str(""))).Some?
      && ConvertField(GetOr(m, "personality", Str(""))).Some?
      && ConvertField(GetOr(m, "scenario", Str(""))).Some?
      && ConvertField(FirstPresent(m, FirstMesKeys, Str(""))).Some?
      && ConvertField(FirstPresent(m, MesExampleKeys, Str(""))).Some?
    ensures r.Some? ==> r.value.Keys == {"name", "description", "personality", "scenario", "first_mes", "mes_example"}
    ensures r.Some? ==> "display_name" !in r.value
    ensures r.Some? ==> "name" in r.value && r.value["name"] == FirstPresent(m, NameKeys, Str("Unknown"))
    ensures r.Some? ==>
      && "description" in r.value && Some(r.value["description"]) == ConvertField(FirstPresent(m, DescriptionKeys, Str("")))
      && "personality" in r.value && Some(r.value["personality"]) == ConvertField(GetOr(m, "personality", Str("")))
      && "scenario" in r.value && Some(r.value["scenario"]) == ConvertField(GetOr(m, "scenario", Str("")))
      && "first_mes" in r.value && Some(r.value["first_mes"]) == ConvertField(FirstPresent(m, FirstMesKeys, Str("")))
      && "mes_example" in r.value && Some(r.value["mes_example"]) == ConvertField(FirstPresent(m, MesExampleKeys, Str("")))
  {
    var description := ConvertField(FirstPresent(m, DescriptionKeys, Str("")));
    var personality := ConvertField(GetOr(m, "personality", Str("")));
    var scenario := ConvertField(GetOr(m, "scenario", Str("")));
    var firstMes := ConvertField(FirstPresent(m, FirstMesKeys, Str("")));
    var mesExample := ConvertField(FirstPresent(m, MesExampleKeys, Str("")));
    if description.None? || personality.None? || scenario.None? || firstMes.None? || mesExample.None? then None
    else
      Some(ResultDict(FirstPresent(m, NameKeys, Str("Unknown")), description.value, personality.value,
        scenario.value, firstMes.value, mesExample.value))
  }

  /** The `result` dict literal of `parse_backyard_format`. */
  function ResultDict(name: Json, description: Json, personality: Json, scenario: Json, firstMes: Json, mesExample: Json): (r: map<string, Json>)
    ensures r.Keys == {"name", "description", "personality", "scenario", "first_mes", "mes_example"}
    ensures "display_name" !in r
    ensures r["name"] == name && r["description"] == description && r["personality"] == personality
    ensures r["scenario"] == scenario && r["first_mes"] == firstMes && r["mes_example"] == mesExample
  {
    CardKeysDistinct();
    WithCardFields(map[], name, description, personality, scenario, firstMes, mesExample)
  }

  /** `parse_backyard_format(json_data)`, or None where it raises: the data or
      its character is not a dict (`in` on a list or string succeeds, and
      then indexing or `.get` fails), or a truthy text field is not a string. */
  function ParseBackyardFormat(json: Json): (r: Option<Json>)
    ensures r.Some? ==> r.value.Obj? && json.Obj? && CharacterOf(json).Obj?
    ensures r.Some? ==>
      ("name" in r.value.fields && r.value.fields["name"] == FirstPresent(CharacterOf(json).fields, NameKeys, Str("Unknown")))
    ensures r.Some? ==> var m := CharacterOf(json).fields;
      && "description" in r.value.fields && Some(r.value.fields["description"]) == ConvertField(FirstPresent(m, DescriptionKeys, Str("")))
      && "personality" in r.value.fields && Some(r.value.fields["personality"]) == ConvertField(GetOr(m, "personality", Str("")))
      && "scenario" in r.value.fields && Some(r.value.fields["scenario"]) == ConvertField(GetOr(m, "scenario", Str("")))
      && "first_mes" in r.value.fields && Some(r.value.fields["first_mes"]) == ConvertField(FirstPresent(m, FirstMesKeys, Str("")))
      && "mes_example" in r.value.fields && Some(r.value.fields["mes_example"]) == ConvertField(FirstPresent(m, MesExampleKeys, Str("")))
    ensures r.Some? ==> ("display_name" in r.value.fields <==>
      "aiDisplayName" in CharacterOf(json).fields || "display_name" in CharacterOf(json).fields)
  {
    if !json.Obj? then None
    else
      var character := CharacterOf(json);
      if !character.Obj? then None
      else
        var m := character.fields;
        match ParsedFields(m)
        case None => None
        case Some(result) => Some(Obj(WithDisplayName(result, m)))
  }

  /** `result['display_name'] = ...`: `aiDisplayName` first, then `display_name`, when the character has either. */
  function WithDisplayName(result: map<string, Json>, m: map<string, Json>): (r: map<string, Json>)
    ensures r.Keys == result.Keys + (if "aiDisplayName" in m || "display_name" in m then {"display_name"} else {})
    ensures "display_name" !in result ==> forall key :: key in result ==> r[key] == result[key]
    ensures "aiDisplayName" in m ==> r["display_name"] == m["aiDisplayName"]
    ensures "aiDisplayName" !in m && "display_name" in m ==> r["display_name"] == m["display_name"]
  {
    if "aiDisplayName" in m then result["display_name" := m["aiDisplayName"]]
    else if "display_name" in m then result["display_name" := m["display_name"]]
    else result
  }

  /** No text field of a parsed card holds `{character}`. */
  lemma ParsedTextFieldsClean(json: Json)
    requires ParseBackyardFormat(json).Some?
    ensures var r := ParseBackyardFormat(json).value.fields;
      forall key :: key in TextKeys ==> key in r && (r[key].Str? ==> !Contains(r[key].s, CharacterToken))
  {
    var r := ParseBackyardFormat(json).value.fields;
    forall key | key in TextKeys
      ensures key in r && (r[key].Str? ==> !Contains(r[key].s, CharacterToken))
    {
      assert key == "description" || key == "personality" || key == "scenario" || key == "first_mes" || key == "mes_example";
    }
  }

  /** Which inputs `parse_backyard_format` accepts: a dict whose character is a
      dict and none of whose chosen text fields is truthy without being a string. */
  lemma ParseBackyardFormatAccepts(json: Json)
    ensures ParseBackyardFormat(json).Some? <==>
      && json.Obj? && CharacterOf(json).Obj?
      && ConvertField(FirstPresent(CharacterOf(json).fields, DescriptionKeys, Str(""))).Some?
      && ConvertField(GetOr(CharacterOf(json).fields, "personality", Str(""))).Some?
      && ConvertField(GetOr(CharacterOf(json).fields, "scenario", Str(""))).Some?
      && ConvertField(FirstPresent(CharacterOf(json).fields, FirstMesKeys, Str(""))).Some?
      && ConvertField(FirstPresent(CharacterOf(json).fields, MesExampleKeys, Str(""))).Some?
  {
  }

  /** The display name, when present, is `aiDisplayName` if the character has
      one and `display_name` otherwise. */
  lemma ParsedDisplayName(json: Json)
    requires ParseBackyardFormat(json).Some?
    ensures var m := CharacterOf(json).fields; var r := ParseBackyardFormat(json).value.fields;
      && ("aiDisplayName" in m ==> r["display_name"] == m["aiDisplayName"])
      && ("aiDisplayName" !in m && "display_name" in m ==> r["display_name"] == m["display_name"])
  {
  }

  // ---------------------------------------------------------------------
  // extract_exif_format
  // ---------------------------------------------------------------------

  /** The bytes skipped after the `ASCII` marker: `b' \x00\n\r\t'`. */
  predicate Blank(b: byte) {
    b == 0x20 || b == 0x00 || b == 0x0A || b == 0x0D || b == 0x09
  }

  /** The first index at or after `i` that does not hold a blank byte. */
  function SkipBlank(data: seq<byte>, i: nat): (r: nat)
    requires i <= |data|
    ensures i <= r <= |data|
    ensures forall j :: i <= j < r ==> Blank(data[j])
    ensures r < |data| ==> !Blank(data[r])
    decreases |data| - i
  {
    if i < |data| && Blank(data[i]) then SkipBlank(data, i + 1) else i
  }

  /** The cleaning loop stops at byte `i`: a byte 0-4 after at least one kept
      byte, the last kept byte not being `=`. */
  predicate StopsAt(data: seq<byte>, i: nat)
    requires i < |data|
  {
    var kept := Filter(IsBase64PadByte, data[..i]);
    data[i] <= 4 && |kept| > 0 && kept[|kept| - 1] != Pad
  }

  /** Where the cleaning loop stops, looking from `i` on: the first stopping
      byte, or the end. */
  function CleanStop(data: seq<byte>, i: nat): (r: nat)
    requires i <= |data|
    ensures i <= r <= |data|
    ensures r < |data| ==> StopsAt(data, r)
    ensures forall j :: i <= j < r ==> !StopsAt(data, j)
    decreases |data| - i
  {
    if i == |data| || StopsAt(data, i) then i else CleanStop(data, i + 1)
  }

  /** What the cleaning loop keeps: the base64 bytes before the stop. */
  function ExifCleaned(data: seq<byte>): seq<byte>
  {
    Filter(IsBase64PadByte, data[..CleanStop(data, 0)])
  }

  /** One byte of the cleaning loop: what it adds, and whether it stops there. */
  lemma CleanStep(data: seq<byte>, i: nat, cleaned: seq<byte>)
    requires i < |data| && cleaned == Filter(IsBase64PadByte, data[..i])
    ensures Filter(IsBase64PadByte, data[..i + 1]) == if IsBase64PadByte(data[i]) then cleaned + [data[i]] else cleaned
    ensures CleanStop(data, i) == if !IsBase64PadByte(data[i]) && |cleaned| > 0 && cleaned[|cleaned| - 1] != Pad && data[i] <= 4 then i else CleanStop(data, i + 1)
  {
    CleanFilterStep(data, i);
    CleanStopStep(data, i, cleaned);
  }

  lemma CleanFilterStep(data: seq<byte>, i: nat)
    requires i < |data|
    ensures var cleaned := Filter(IsBase64PadByte, data[..i]);
      Filter(IsBase64PadByte, data[..i + 1]) == if IsBase64PadByte(data[i]) then cleaned + [data[i]] else cleaned
  {
    FilterAppend(IsBase64PadByte, data[..i], [data[i]]);
    assert data[..i + 1] == data[..i] + [data[i]];
  }

  lemma CleanStopStep(data: seq<byte>, i: nat, cleaned: seq<byte>)
    requires i < |data| && cleaned == Filter(IsBase64PadByte, data[..i])
    ensures CleanStop(data, i) == if !IsBase64PadByte(data[i]) && |cleaned| > 0 && cleaned[|cleaned| - 1] != Pad && data[i] <= 4 then i else CleanStop(data, i + 1)
  {
    assert StopsAt(data, i) == (data[i] <= 4 && |cleaned| > 0 && cleaned[|cleaned| - 1] != Pad);
    assert data[i] <= 4 ==> !IsBase64PadByte(data[i]);
  }

  /** The cleaning loop of `extract_exif_format`. */
  method CleanExif(data: seq<byte>) returns (cleaned: seq<byte>)
    ensures cleaned == ExifCleaned(data)
  {
    cleaned := [];
    var i := 0;
    while i < |data|
      invariant i <= |data| && cleaned == Filter(IsBase64PadByte, data[..i])
      invariant CleanStop(data, i) == CleanStop(data, 0)
    {
      var b := data[i];
      CleanStep(data, i, cleaned);
      if IsBase64PadByte(b) {
        cleaned := cleaned + [b];
      } else if |cleaned| > 0 && cleaned[|cleaned| - 1] != Pad && b <= 4 {
        break;
      }
      i := i + 1;
    }
    assert data[..|data|] == data;
  }

  /** A run of base64 bytes is kept whole. */
  lemma ExifCleanedAlphabet(data: seq<byte>)
    requires forall i :: 0 <= i < |data| ==> IsBase64PadByte(data[i])
    ensures ExifCleaned(data) == data
  {
    assert CleanStop(data, 0) == |data|;
    assert data[..|data|] == data;
    FilterIdentity(IsBase64PadByte, data);
  }

  /** A stop cuts the payload: nothing after a NUL that follows base64 text
      not ending in `=` is kept. */
  lemma ExifCleanedStopsAtNul(b64: seq<byte>, rest: seq<byte>)
    requires |b64| > 0 && b64[|b64| - 1] != Pad
    requires forall i :: 0 <= i < |b64| ==> IsBase64PadByte(b64[i])
    ensures ExifCleaned(b64 + [Nul] + rest) == b64
  {
    var data := b64 + [Nul] + rest;
    assert data[..|b64|] == b64;
    FilterIdentity(IsBase64PadByte, b64);
    assert forall i :: 0 <= i < |b64| ==> !StopsAt(data, i) by {
      forall i | 0 <= i < |b64| ensures !StopsAt(data, i) {
        assert data[i] == b64[i];
      }
    }
    assert StopsAt(data, |b64|);
    CleanStopFirst(data, 0, |b64|);
  }

  /** The first stopping byte is where the loop stops. */
  lemma {:induction false} CleanStopFirst(data: seq<byte>, i: nat, k: nat)
    requires i <= k < |data| && StopsAt(data, k)
    requires forall j :: i <= j < k ==> !StopsAt(data, j)
    ensures CleanStop(data, i) == k
    decreases k - i
  {
    if i < k {
      CleanStopFirst(data, i + 1, k);
    }
  }

  /** `b'ASCII'`. */
  const AsciiMarker: seq<byte> := BackyardV8.StartMarker

  /** The cleaned base64 text of one `eXIf` chunk, or None where the code
      finds no `ASCII` marker or keeps nothing. */
  function ExifPayload(data: seq<byte>): (r: Option<seq<byte>>)
    ensures Find(data, AsciiMarker, 0) == -1 ==> r.None?
    ensures r.Some? ==> |r.value| > 0 && forall i :: 0 <= i < |r.value| ==> IsBase64PadByte(r.value[i])
  {
    var m := Find(data, AsciiMarker, 0);
    if m == -1 then None
    else
      var start := SkipBlank(data, m + |AsciiMarker|);
      var cleaned := ExifCleaned(data[start..]);
      if |cleaned| == 0 then None else Some(cleaned)
  }

  /** The JSON an `eXIf` chunk carries: its payload found and decoded, or None
      where the loop of `extract_exif_format` passes the chunk over. */
  function ExifJson(c: Chunk, lib: Primitives): Option<Json>
  {
    if c.kind != "eXIf" then None
    else match ExifPayload(c.data)
      case None => None
      case Some(cleaned) => DecodeCardJson(cleaned, lib)
  }

  /** The chunk loop of `extract_exif_format`. Every `eXIf` chunk whose JSON
      loads is counted; a card `parse_backyard_format` rejects sends the loop
      on to the next chunk. */
  function ExifScan(chunks: seq<Chunk>, lib: Primitives): (r: Extraction)
    ensures r.data.Some? ==> r.counted > 0 && r.data.value.Obj?
    ensures r.counted <= |chunks|
    decreases |chunks|
  {
    if |chunks| == 0 then NotFound
    else match ExifJson(chunks[0], lib)
      case None => ExifScan(chunks[1..], lib)
      case Some(json) =>
        match ParseBackyardFormat(json)
        case Some(card) => Extraction(Some(card), 1)
        case None =>
          var rest := ExifScan(chunks[1..], lib);
          Extraction(rest.data, rest.counted + 1)
  }

  /** `extract_exif_format(png_data)`. */
  function ExifFormat(png: seq<byte>, lib: Primitives): (r: Extraction)
    ensures !StartsWith(png, PngMagic) ==> r == NotFound
    ensures r.data.Some? ==> r.data.value.Obj? && r.counted > 0
  {
    if !StartsWith(png, PngMagic) then NotFound else ExifScan(CheckedChunks(png), lib)
  }

  /** A chunk the loop of `extract_exif_format` passes over without counting it. */
  predicate ExifSkips(c: Chunk, lib: Primitives) {
    ExifJson(c, lib).None?
  }

  /** Chunks the EXIF scan passes over do not change its outcome. */
  lemma {:induction false} ExifScanSkips(pre: seq<Chunk>, rest: seq<Chunk>, lib: Primitives)
    requires forall c :: c in pre ==> ExifSkips(c, lib)
    ensures ExifScan(pre + rest, lib) == ExifScan(rest, lib)
    decreases |pre|
  {
    if |pre| > 0 {
      var tail := pre[1..] + rest;
      assert pre + rest == [pre[0]] + tail;
      assert pre[0] in pre;
      ExifScanSkipOne(pre[0], tail, lib);
      assert forall c :: c in pre[1..] ==> c in pre;
      ExifScanSkips(pre[1..], rest, lib);
    } else {
      assert pre + rest == rest;
    }
  }

  /** One chunk the EXIF scan passes over. */
  lemma ExifScanSkipOne(c: Chunk, tail: seq<Chunk>, lib: Primitives)
    requires ExifSkips(c, lib)
    ensures ExifScan([c] + tail, lib) == ExifScan(tail, lib)
  {
    assert ([c] + tail)[0] == c && ([c] + tail)[1..] == tail;
  }

  /** The first `eXIf` chunk whose JSON loads decides: a card
      `parse_backyard_format` accepts is returned, counted once; a rejected one
      is counted, and the loop goes on with the chunks after it. */
  lemma ExifScanFirst(pre: seq<Chunk>, c: Chunk, rest: seq<Chunk>, lib: Primitives)
    requires forall x :: x in pre ==> ExifSkips(x, lib)
    requires !ExifSkips(c, lib)
    ensures var j := ExifJson(c, lib).value;
      ParseBackyardFormat(j).Some? ==> ExifScan(pre + ([c] + rest), lib) == Extraction(ParseBackyardFormat(j), 1)
    ensures var j := ExifJson(c, lib).value;
      ParseBackyardFormat(j).None? ==>
        ExifScan(pre + ([c] + rest), lib) == Extraction(ExifScan(rest, lib).data, ExifScan(rest, lib).counted + 1)
  {
    ExifScanSkips(pre, [c] + rest, lib);
    ExifScanHead(c, rest, lib);
  }

  /** The EXIF scan of `[c] + rest` when the JSON of `c` loads. */
  lemma ExifScanHead(c: Chunk, rest: seq<Chunk>, lib: Primitives)
    requires !ExifSkips(c, lib)
    ensures var j := ExifJson(c, lib).value;
      && (ParseBackyardFormat(j).Some? ==> ExifScan([c] + rest, lib) == Extraction(ParseBackyardFormat(j), 1))
      && (ParseBackyardFormat(j).None? ==>
            ExifScan([c] + rest, lib) == Extraction(ExifScan(rest, lib).data, ExifScan(rest, lib).counted + 1))
  {
    assert ([c] + rest)[0] == c && ([c] + rest)[1..] == rest;
  }

  /** A scan that passes over every chunk finds and counts nothing. */
  lemma ExifScanAllSkip(chunks: seq<Chunk>, lib: Primitives)
    requires forall x :: x in chunks ==> ExifSkips(x, lib)
    ensures ExifScan(chunks, lib) == NotFound
  {
    ExifScanSkips(chunks, [], lib);
    assert chunks + [] == chunks;
  }

  /** `extract_exif_format` on a PNG whose chunks read are `pre`, `c`, `rest`:
      when `c` is the first chunk whose JSON loads, it decides, as in
      `ExifScanFirst`. */
  lemma ExifFormatFirst(png: seq<byte>, lib: Primitives, pre: seq<Chunk>, c: Chunk, rest: seq<Chunk>)
    requires StartsWith(png, PngMagic) && CheckedChunks(png) == pre + ([c] + rest)
    requires forall x :: x in pre ==> ExifSkips(x, lib)
    requires !ExifSkips(c, lib)
    ensures var j := ExifJson(c, lib).value;
      && (ParseBackyardFormat(j).Some? ==> ExifFormat(png, lib) == Extraction(ParseBackyardFormat(j), 1))
      && (ParseBackyardFormat(j).None? ==>
            ExifFormat(png, lib) == Extraction(ExifScan(rest, lib).data, ExifScan(rest, lib).counted + 1))
  {
    ExifScanFirst(pre, c, rest, lib);
  }

  /** `extract_exif_format` returns None, uncounted, when every chunk read is passed over. */
  lemma ExifFormatNone(png: seq<byte>, lib: Primitives)
    requires forall x :: x in CheckedChunks(png) ==> ExifSkips(x, lib)
    ensures ExifFormat(png, lib) == NotFound
  {
    ExifScanAllSkip(CheckedChunks(png), lib);
  }

  // ---------------------------------------------------------------------
  // extract_backyard_export
  // ---------------------------------------------------------------------

  /** `extract_backyard_export(png_data)`: the bytes between the first `ASCII`
      and the first `IDATx` after it, cleaned to `[A-Za-z0-9+/=]`, repadded
      and decoded; a loaded JSON is counted before it is parsed. */
  function BackyardExport(png: seq<byte>, lib: Primitives): (r: Extraction)
    ensures Between(png, AsciiMarker, BackyardV8.IdatMarker).None? ==> r == NotFound
    ensures r.counted <= 1 && (r.data.Some? ==> r.counted == 1 && r.data.value.Obj?)
  {
    match Between(png, AsciiMarker, BackyardV8.IdatMarker)
    case None => NotFound
    case Some((a, e)) =>
      match DecodeCardJson(Filter(IsBase64PadByte, png[a..e]), lib)
      case None => NotFound
      case Some(json) => Extraction(ParseBackyardFormat(json), 1)
  }

  /** The export payload decoded is exactly the cleaned bytes strictly between
      the markers. */
  lemma BackyardExportPayload(png: seq<byte>, lib: Primitives)
    requires Between(png, AsciiMarker, BackyardV8.IdatMarker).Some?
    ensures var (a, e) := Between(png, AsciiMarker, BackyardV8.IdatMarker).value;
      var cleaned := Filter(IsBase64PadByte, png[a..e]);
      && (forall i :: 0 <= i < |cleaned| ==> IsBase64PadByte(cleaned[i]))
      && (forall b :: b in png[a..e] && IsBase64PadByte(b) ==> b in cleaned)
      && (BackyardExport(png, lib).data.Some? ==> DecodeCardJson(cleaned, lib).Some?)
      && BackyardExport(png, lib).data == (match DecodeCardJson(cleaned, lib) case Some(j) => ParseBackyardFormat(j) case None => None)
      && BackyardExport(png, lib).counted == (if DecodeCardJson(cleaned, lib).Some? then 1 else 0)
  {
  }

  /** The cleaning keeps the order of the bytes between the markers: a run of
      base64 bytes there reappears whole, between what is kept of the bytes
      before it and of the bytes after it. */
  lemma BackyardExportCleanedOrder(png: seq<byte>, x: seq<byte>, y: seq<byte>, z: seq<byte>)
    requires Between(png, AsciiMarker, BackyardV8.IdatMarker).Some?
    requires var (a, e) := Between(png, AsciiMarker, BackyardV8.IdatMarker).value; png[a..e] == x + y + z
    requires forall i :: 0 <= i < |y| ==> IsBase64PadByte(y[i])
    ensures var (a, e) := Between(png, AsciiMarker, BackyardV8.IdatMarker).value;
      Filter(IsBase64PadByte, png[a..e]) == Filter(IsBase64PadByte, x) + y + Filter(IsBase64PadByte, z)
  {
    FilterAppend(IsBase64PadByte, x + y, z);
    FilterAppend(IsBase64PadByte, x, y);
    FilterIdentity(IsBase64PadByte, y);
  }
}
