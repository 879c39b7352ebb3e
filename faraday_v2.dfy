/** The second Faraday converter (`convert_faraday_to_tavern_v2.py`): the
    base64 payload between an `ASCII` marker and a `Q==` terminator is cleaned,
    decoded and cut down to its JSON object, and the character's fields are
    mapped into a new Tavern card. Its `Png` class is `PngCodec`. */
module FaradayV2 {
  import opened Wrappers
  import opened Text
  import opened Bytes
  import opened Library
  import opened Placeholders
  import opened Scan

  const AsciiMarker: string := "ASCII"
  const EndMarker: string := "Q=="

  /** `c.isalnum()` for a character of a latin-1 decoded string: ASCII letters
      and digits, and the latin-1 letters (ª µ º À-Ö Ø-ö ø-ÿ), digits (² ³ ¹)
      and numerics (¼ ½ ¾). */
  predicate IsAlnumLatin1(c: char) {
    || IsAsciiAlnum(c)
    || c as int == 0xAA || c as int == 0xB2 || c as int == 0xB3 || c as int == 0xB5
    || c as int == 0xB9 || c as int == 0xBA
    || 0xBC <= c as int <= 0xBE
    || 0xC0 <= c as int <= 0xD6
    || 0xD8 <= c as int <= 0xF6
    || 0xF8 <= c as int <= 0xFF
  }

  /** The cleaning filter: `char.isalnum() or char in '+/='`. */
  predicate KeepV2(c: char) {
    IsAlnumLatin1(c) || c == '+' || c == '/' || c == '='
  }

  /** `png_file_string[start_pos:end_pos + 3]`: from just after the first
      `ASCII` through the end of the first `Q==` after it. */
  function Candidate(s: string): (r: Option<string>)
    ensures r.None? <==> Between(s, AsciiMarker, EndMarker).None?
    ensures r.Some? ==> var (a, e) := Between(s, AsciiMarker, EndMarker).value;
      && r.value == s[a..e + 3]
      && |r.value| >= 3 && r.value[|r.value| - 3..] == EndMarker
      && forall i :: 0 <= i < |r.value| - 3 ==> !OccursAt(r.value, EndMarker, i)
  {
    match Between(s, AsciiMarker, EndMarker)
    case None => None
    case Some((a, e)) =>
      SpanThroughEnd(s, EndMarker, a, e);
      Some(s[a..e + 3])
  }

  /** A cleaned candidate holds no `-` and no `_`, so the later
      `.replace("-", "+").replace("_", "/")` changes nothing. */
  lemma DashUnderscoreNoOp(c: string)
    ensures Replace(Replace(Filter(KeepV2, c), "-", "+"), "_", "/") == Filter(KeepV2, c)
  {
    var clean := Filter(KeepV2, c);
    assert '-' !in clean;
    ContainsElem(clean, '-');
    ReplaceAbsent(clean, "-", "+");
    assert '_' !in clean;
    ContainsElem(clean, '_');
    ReplaceAbsent(clean, "_", "/");
  }

  /** `get_faraday_png_extra_base64_data`, from the file contents: `None` for
      every error it prints and swallows. */
  function ExtraBase64Data(content: seq<byte>, lib: Primitives): (r: Option<string>)
    ensures Between(Latin1Decode(content), AsciiMarker, EndMarker).None? ==> r.None?
  {
    var s := Latin1Decode(content);
    match Candidate(s)
    case None => None
    case Some(c) =>
      var clean := Filter(KeepV2, c);
      var vCode := Replace(Replace(clean, "-", "+"), "_", "/");
      match B64DecodeText(lib, vCode)
      case None => None
      case Some(decodedBytes) =>
        var decoded := lib.utf8DecodeReplace(decodedBytes);
        match JsonSpan(decoded, '{', '}')
        case None => None
        case Some(jsonString) =>
          match lib.jsonLoads(jsonString)
          case None => None
          case Some(jsonData) => Some(lib.jsonDumps(jsonData, Indented))
  }

  /** A non-ASCII latin-1 letter or digit that survives the cleaning makes
      `base64.b64decode` raise ValueError, so the extraction yields `None`. */
  lemma NonAsciiLetterDefeatsDecode(content: seq<byte>, lib: Primitives, i: nat)
    requires Candidate(Latin1Decode(content)).Some?
    requires var clean := Filter(KeepV2, Candidate(Latin1Decode(content)).value);
      i < |clean| && clean[i] as int >= 128
    ensures ExtraBase64Data(content, lib).None?
  {
    var c := Candidate(Latin1Decode(content)).value;
    DashUnderscoreNoOp(c);
  }

  /** When the cleaned candidate is the base64 encoding of some bytes whose
      decoded text holds a parsable JSON object, that object is returned,
      re-serialised with an indent of 4. */
  lemma ExtraBase64DataOf(content: seq<byte>, lib: Primitives, payload: seq<byte>, jsonString: string, jsonData: Json)
    requires CodecLaws(lib)
    requires Candidate(Latin1Decode(content)).Some?
    requires Filter(KeepV2, Candidate(Latin1Decode(content)).value) == Latin1Decode(lib.b64Encode(payload))
    requires JsonSpan(lib.utf8DecodeReplace(payload), '{', '}') == Some(jsonString)
    requires lib.jsonLoads(jsonString) == Some(jsonData)
    ensures ExtraBase64Data(content, lib) == Some(lib.jsonDumps(jsonData, Indented))
  {
    var c := Candidate(Latin1Decode(content)).value;
    DashUnderscoreNoOp(c);
    B64DecodeTextRoundTrip(lib, payload);
  }

  /** A `{` with no `}` after it cuts out the empty text, and `json.loads("")`
      raises, so the extraction yields `None`. */
  lemma EmptyJsonSpanIsNone(content: seq<byte>, lib: Primitives, decodedBytes: seq<byte>)
    requires CodecLaws(lib)
    requires Candidate(Latin1Decode(content)).Some?
    requires var clean := Filter(KeepV2, Candidate(Latin1Decode(content)).value);
      B64DecodeText(lib, Replace(Replace(clean, "-", "+"), "_", "/")) == Some(decodedBytes)
    requires JsonSpan(lib.utf8DecodeReplace(decodedBytes), '{', '}') == Some([])
    ensures ExtraBase64Data(content, lib).None?
  {
  }

  /** The `metadata` entry of `create_new_data`. */
  function NewMetadata(created: int, modified: int): Json {
    Obj(map[
      "version" := Int(1),
      "created" := Int(created),
      "modified" := Int(modified),
      "source" := Null,
      "tool" := Obj(map[
        "name" := Str("Custom AI Character Editor"),
        "version" := Str("0.5.0"),
        "url" := Str("https://example.com/character-editor/")])])
  }

  /** The dictionary `create_new_data` builds: the name as given, the five
      text fields as strings with no `{character}` left, and the metadata,
      and no other key. */
  function NewDataObject(
    name: Json, description: string, personality: string, scenario: string,
    firstMes: string, mesExample: string, created: int, modified: int): (r: Json)
    ensures r.Obj? && "name" in r.fields && r.fields["name"] == name
    ensures r.fields.Keys == {"name", "description", "personality", "scenario", "first_mes", "mes_example", "metadata"}
    ensures r.fields["description"] == Str(TranslateTokens(description))
    ensures r.fields["personality"] == Str(TranslateTokens(personality))
    ensures r.fields["scenario"] == Str(TranslateTokens(scenario))
    ensures r.fields["first_mes"] == Str(TranslateTokens(firstMes))
    ensures r.fields["mes_example"] == Str(TranslateTokens(mesExample))
  {
    CardKeysDistinct();
    Obj(WithCardFields(map["metadata" := NewMetadata(created, modified)], name, Str(TranslateTokens(description)),
      Str(TranslateTokens(personality)), Str(TranslateTokens(scenario)),
      Str(TranslateTokens(firstMes)), Str(TranslateTokens(mesExample))))
  }

  /** No text field of a new card keeps a `{character}` token. */
  lemma NewDataObjectClean(
    name: Json, description: string, personality: string, scenario: string,
    firstMes: string, mesExample: string, created: int, modified: int)
    ensures var r := NewDataObject(name, description, personality, scenario, firstMes, mesExample, created, modified);
      forall key :: key in TextKeys ==> key in r.fields && r.fields[key].Str? && !Contains(r.fields[key].s, CharacterToken)
  {
    var r := NewDataObject(name, description, personality, scenario, firstMes, mesExample, created, modified);
    forall key | key in TextKeys
      ensures key in r.fields && r.fields[key].Str? && !Contains(r.fields[key].s, CharacterToken)
    {
      assert key == "description" || key == "personality" || key == "scenario" || key == "first_mes" || key == "mes_example";
    }
  }

  /** What `create_new_data` returns: the dict itself, or its JSON text. */
  datatype NewData = AsJsonData(data: Json) | AsText(text: string)

  /** `create_new_data(...)`; `created`/`modified` stand for the `time.time()` readings. */
  function CreateNewData(
    name: Json, description: string, personality: string, scenario: string,
    firstMes: string, mesExample: string, returnAsJsonData: bool,
    created: int, modified: int, lib: Primitives): (r: NewData)
    ensures returnAsJsonData <==> r.AsJsonData?
    ensures r.AsJsonData? ==> r.data == NewDataObject(name, description, personality, scenario, firstMes, mesExample, created, modified)
    ensures r.AsText? ==> r.text == lib.jsonDumps(NewDataObject(name, description, personality, scenario, firstMes, mesExample, created, modified), Indented)
  {
    var jsonData := NewDataObject(name, description, personality, scenario, firstMes, mesExample, created, modified);
    if !returnAsJsonData then AsText(lib.jsonDumps(jsonData, Indented)) else AsJsonData(jsonData)
  }

  /** The Python exception that escapes `convert_faraday_png_to_tavern_data`:
      `.get` on a non-dict, or `.replace` on a non-string field. */
  datatype AttributeError = AttributeError

  /** `json_data.get('character', {}).get(key, 'N/A')`. */
  function CharacterField(jsonData: Json, key: string): (r: Result<Json, AttributeError>)
    ensures r.Err? <==> !jsonData.Obj? || ("character" in jsonData.fields && !jsonData.fields["character"].Obj?)
    ensures r.Ok? && "character" !in jsonData.fields ==> r.value == Str("N/A")
    ensures r.Ok? && "character" in jsonData.fields && key !in jsonData.fields["character"].fields ==> r.value == Str("N/A")
    ensures r.Ok? && "character" in jsonData.fields && key in jsonData.fields["character"].fields ==>
      r.value == jsonData.fields["character"].fields[key]
  {
    if !jsonData.Obj? then Err(AttributeError)
    else
      var character := GetOr(jsonData.fields, "character", Obj(map[]));
      if !character.Obj? then Err(AttributeError)
      else Ok(GetOr(character.fields, key, Str("N/A")))
  }

  /** The card `convert_faraday_png_to_tavern_data` builds from the loaded
      JSON: the character's persona becomes the personality, the description
      stays empty, and a missing field reads `N/A`. */
  function TavernDataV2(jsonData: Json, created: int, modified: int): (r: Result<Json, AttributeError>)
    ensures r.Ok? ==> CharacterField(jsonData, "aiName").Ok? && CharacterField(jsonData, "aiPersona").Ok?
    ensures r.Ok? ==> r.value.Obj? && "name" in r.value.fields && r.value.fields["name"] == CharacterField(jsonData, "aiName").value
    ensures r.Ok? ==> "description" in r.value.fields && r.value.fields["description"] == Str("")
    ensures r.Ok? ==> (
      && "personality" in r.value.fields && CharacterField(jsonData, "aiPersona").value.Str?
      && r.value.fields["personality"] == Str(TranslateTokens(CharacterField(jsonData, "aiPersona").value.s)))
    ensures r.Ok? ==> (
      && "scenario" in r.value.fields && CharacterField(jsonData, "scenario").value.Str?
      && r.value.fields["scenario"] == Str(TranslateTokens(CharacterField(jsonData, "scenario").value.s)))
    ensures r.Ok? ==> (
      && "first_mes" in r.value.fields && CharacterField(jsonData, "firstMessage").value.Str?
      && r.value.fields["first_mes"] == Str(TranslateTokens(CharacterField(jsonData, "firstMessage").value.s)))
    ensures r.Ok? ==> (
      && "mes_example" in r.value.fields && CharacterField(jsonData, "customDialogue").value.Str?
      && r.value.fields["mes_example"] == Str(TranslateTokens(CharacterField(jsonData, "customDialogue").value.s)))
    ensures r.Err? <==> (
      || CharacterField(jsonData, "aiName").Err?
      || !CharacterField(jsonData, "aiPersona").value.Str? || !CharacterField(jsonData, "scenario").value.Str?
      || !CharacterField(jsonData, "firstMessage").value.Str? || !CharacterField(jsonData, "customDialogue").value.Str?)
  {
    var aiDisplayName := CharacterField(jsonData, "aiDisplayName");
    var aiName := CharacterField(jsonData, "aiName");
    var aiPersona := CharacterField(jsonData, "aiPersona");
    var customDialogue := CharacterField(jsonData, "customDialogue");
    var firstMessage := CharacterField(jsonData, "firstMessage");
    var scenario := CharacterField(jsonData, "scenario");
    if aiDisplayName.Err? || aiName.Err? then Err(AttributeError)
    else if !aiPersona.value.Str? || !scenario.value.Str? || !firstMessage.value.Str? || !customDialogue.value.Str? then
      Err(AttributeError)
    else
      assert TranslateTokens("") == "";
      Ok(NewDataObject(aiName.value, "", aiPersona.value.s, scenario.value.s,
                       firstMessage.value.s, customDialogue.value.s, created, modified))
  }

  /** `convert_faraday_png_to_tavern_data`: `Ok(None)` where it prints an error
      and returns `None`, `Err` where an exception escapes; otherwise the card,
      as `create_new_data` serialises it. */
  function ConvertFaradayPngToTavernData(content: seq<byte>, lib: Primitives, created: int, modified: int)
    : (r: Result<Option<string>, AttributeError>)
    ensures ExtraBase64Data(content, lib).None? ==> r == Ok(None)
    ensures r.Ok? && r.value.Some? ==>
      && ExtraBase64Data(content, lib).Some?
      && lib.jsonLoads(ExtraBase64Data(content, lib).value).Some?
      && var card := TavernDataV2(lib.jsonLoads(ExtraBase64Data(content, lib).value).value, created, modified);
      && card.Ok? && r.value.value == lib.jsonDumps(card.value, Indented)
    ensures var x := ExtraBase64Data(content, lib);
      x.Some? && (x.value == "" || lib.jsonLoads(x.value).None?) ==> r == Ok(None)
    ensures var x := ExtraBase64Data(content, lib);
      x.Some? && x.value != "" && lib.jsonLoads(x.value).Some? ==>
        r == match TavernDataV2(lib.jsonLoads(x.value).value, created, modified)
          case Ok(card) => Ok(Some(lib.jsonDumps(card, Indented)))
          case Err(e) => Err(e)
  {
    var jsonString := ExtraBase64Data(content, lib);
    if jsonString.None? || jsonString.value == "" then Ok(None)
    else match lib.jsonLoads(jsonString.value)
      case None => Ok(None)
      case Some(jsonData) =>
        match TavernDataV2(jsonData, created, modified)
        case Err(e) => Err(e)
        case Ok(card) => Ok(Some(lib.jsonDumps(card, Indented)))
  }

  /** A field missing from the character becomes the text `N/A`, which the
      placeholder rewrite leaves as it is. */
  lemma MissingFieldIsNA(jsonData: Json, key: string)
    requires jsonData.Obj? && "character" in jsonData.fields && jsonData.fields["character"].Obj?
    requires key !in jsonData.fields["character"].fields
    ensures CharacterField(jsonData, key) == Ok(Str("N/A"))
    ensures TranslateTokens("N/A") == "N/A"
  {
    assert !Contains("N/A", CharacterToken);
    ReplaceAbsent("N/A", CharacterToken, CharMacro);
    assert !Contains("N/A", UserToken);
    ReplaceAbsent("N/A", UserToken, UserMacro);
  }
}
