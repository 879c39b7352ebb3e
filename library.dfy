/** JSON values as the converters see them (Python dicts, lists, strings,
    numbers, booleans and None after `json.loads`), and the library routines
    whose behaviour is not part of this model (base64, UTF-8, `json.loads`,
    `json.dumps`), passed in as a record of functions. */
module Library {
  import opened Wrappers
  import opened Bytes

  datatype Json =
    | Null
    | Bool(b: bool)
    | Int(i: int)
    | Float(f: real)
    | Str(s: string)
    | Arr(items: seq<Json>)
    | Obj(fields: map<string, Json>)

  /** Python truthiness of a JSON value (`if value:`). */
  predicate Truthy(v: Json) {
    match v
    case Null => false
    case Bool(b) => b
    case Int(i) => i != 0
    case Float(f) => f != 0.0
    case Str(s) => |s| > 0
    case Arr(a) => |a| > 0
    case Obj(m) => |m| > 0
  }

  /** `d.get(key, default)` on a dict. */
  function GetOr(m: map<string, Json>, key: string, default: Json): (r: Json)
    ensures key in m ==> r == m[key]
    ensures key !in m ==> r == default
  {
    if key in m then m[key] else default
  }

  /** The keys of a converted card are different strings. */
  lemma CardKeysDistinct()
    ensures "name" != "description" && "name" != "personality" && "name" != "scenario"
    ensures "name" != "first_mes" && "name" != "mes_example" && "name" != "display_name"
    ensures "description" != "personality" && "description" != "scenario" && "description" != "first_mes"
    ensures "description" != "mes_example" && "description" != "display_name" && "personality" != "scenario"
    ensures "personality" != "first_mes" && "personality" != "mes_example" && "personality" != "display_name"
    ensures "scenario" != "first_mes" && "scenario" != "mes_example" && "scenario" != "display_name"
    ensures "first_mes" != "mes_example" && "first_mes" != "display_name" && "mes_example" != "display_name"
    ensures "metadata" != "name" && "metadata" != "description" && "metadata" != "personality"
    ensures "metadata" != "scenario" && "metadata" != "first_mes" && "metadata" != "mes_example"
    ensures "alternate_greetings" != "name" && "alternate_greetings" != "description"
    ensures "alternate_greetings" != "personality" && "alternate_greetings" != "scenario"
    ensures "alternate_greetings" != "first_mes" && "alternate_greetings" != "mes_example"
  {
    assert "description"[1] != "display_name"[1];
    assert "metadata"[2] != "mes_example"[2];
  }

  /** `base` with the name and the five text fields every converted card
      carries set, each to its own value; the other keys keep theirs. */
  function WithCardFields(base: map<string, Json>, name: Json, description: Json, personality: Json,
                          scenario: Json, firstMes: Json, mesExample: Json): (r: map<string, Json>)
    ensures r.Keys == base.Keys + {"name", "description", "personality", "scenario", "first_mes", "mes_example"}
    ensures r["name"] == name && r["description"] == description && r["personality"] == personality
    ensures r["scenario"] == scenario && r["first_mes"] == firstMes && r["mes_example"] == mesExample
    ensures forall k :: (k in base && k != "name" && k != "description" && k != "personality" && k != "scenario"
      && k != "first_mes" && k != "mes_example") ==> r[k] == base[k]
  {
    CardKeysDistinct();
    base["name" := name]["description" := description]["personality" := personality]
      ["scenario" := scenario]["first_mes" := firstMes]["mes_example" := mesExample]
  }

  /** The three ways the converters call `json.dumps`. */
  datatype DumpStyle =
    | Compact         // json.dumps(data)
    | CompactUnicode  // json.dumps(data, ensure_ascii=False)
    | Indented        // json.dumps(data, indent=4, ...)

  /** The library routines the converters call, each total, with `None` for a raised exception. */
  datatype Primitives = Primitives(
    b64Decode: seq<byte> -> Option<seq<byte>>,   // base64.b64decode (non-validating, RFC 4648 section 4)
    b64Encode: seq<byte> -> seq<byte>,           // base64.b64encode
    utf8Decode: seq<byte> -> Option<string>,     // bytes.decode('utf-8')
    utf8DecodeIgnore: seq<byte> -> string,       // bytes.decode('utf-8', errors='ignore')
    utf8DecodeReplace: seq<byte> -> string,      // bytes.decode('utf-8', errors='replace')
    utf8Encode: string -> seq<byte>,             // str.encode('utf-8')
    jsonLoads: string -> Option<Json>,           // json.loads
    jsonDumps: (Json, DumpStyle) -> string       // json.dumps
  )

  /** `base64.b64decode(s)` on a `str`: a string with a non-ASCII character raises ValueError. */
  function B64DecodeText(lib: Primitives, s: string): (r: Option<seq<byte>>)
    ensures !IsAsciiText(s) ==> r.None?
    ensures IsAsciiText(s) ==> r == lib.b64Decode(StrBytes(s))
  {
    if IsAsciiText(s) then lib.b64Decode(StrBytes(s)) else None
  }

  /** Base64 text, read as a `str`, decodes back to the bytes it encodes: the
      encoder's output is ASCII, so the non-ASCII check never fires. */
  lemma B64DecodeTextRoundTrip(lib: Primitives, b: seq<byte>)
    requires CodecLaws(lib)
    ensures B64DecodeText(lib, Latin1Decode(lib.b64Encode(b))) == Some(b)
  {
    var e := lib.b64Encode(b);
    var t := Latin1Decode(e);
    assert IsAsciiText(t);
    Latin1RoundTrip(e);
    assert StrBytes(t) == e;
  }

  /** Base64 output is ASCII, so its UTF-8 decoding is its latin-1 decoding. */
  lemma B64Utf8Decode(lib: Primitives, b: seq<byte>)
    requires CodecLaws(lib)
    ensures lib.utf8Decode(lib.b64Encode(b)) == Some(Latin1Decode(lib.b64Encode(b)))
  {
    var e := lib.b64Encode(b);
    assert forall i :: 0 <= i < |e| ==> e[i] < 128;
  }

  /** The laws of base64, UTF-8 and `json.loads` that the results depend on;
      the last says that `json.loads("")` raises. */
  ghost predicate CodecLaws(lib: Primitives) {
    && (forall b :: lib.b64Decode(lib.b64Encode(b)) == Some(b))
    && (forall b :: forall i :: 0 <= i < |lib.b64Encode(b)| ==> lib.b64Encode(b)[i] < 128)
    && (forall s :: lib.utf8Decode(lib.utf8Encode(s)) == Some(s))
    && (forall b :: (forall i :: 0 <= i < |b| ==> b[i] < 128) ==> lib.utf8Decode(b) == Some(Latin1Decode(b)))
    && lib.jsonLoads("") == None
  }
}
