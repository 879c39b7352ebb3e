/** The eighth BackyardAI converter (`backyard_to_tavern_v8.py`): text
    normalisation, placeholder conversion, the extraction of a character from
    the base64 payload between `ASCII` and `IDATx` in a BackyardAI PNG, and the
    Tavern card it writes. Its `Png` class is `PngCodec`. */
module BackyardV8 {
  import opened Wrappers
  import opened Text
  import opened Bytes
  import opened Library
  import opened Placeholders
  import opened Scan

  // ---------------------------------------------------------------------
  // normalize_newlines
  // ---------------------------------------------------------------------

  const TripleNewline: string := "\n\n\n"
  const DoubleNewline: string := "\n\n"

  /** The `while '\n\n\n' in text` loop, as a function. */
  function CollapseNewlines(t: string): string
    decreases |t|
  {
    if Contains(t, TripleNewline) then
      ReplaceShrinks(t, TripleNewline, DoubleNewline);
      CollapseNewlines(Replace(t, TripleNewline, DoubleNewline))
    else t
  }

  /** What `normalize_newlines(text)` returns. */
  function NormalizedNewlines(text: string): string {
    if text == "" then ""
    else CollapseNewlines(Replace(Replace(text, "\r\n", "\n"), "\r", "\n"))
  }

  /** `normalize_newlines(text)`. */
  method NormalizeNewlines(text: string) returns (r: string)
    ensures r == NormalizedNewlines(text)
  {
    if text == "" {
      return "";
    }
    r := Replace(Replace(text, "\r\n", "\n"), "\r", "\n");
    while Contains(r, TripleNewline)
      invariant CollapseNewlines(r) == NormalizedNewlines(text)
      decreases |r|
    {
      ReplaceShrinks(r, TripleNewline, DoubleNewline);
      r := Replace(r, TripleNewline, DoubleNewline);
    }
  }

  /** Neither a carriage return nor a line feed. */
  predicate NotNewline(c: char) { c != '\r' && c != '\n' }

  lemma {:induction false} CollapseNewlinesShape(t: string)
    requires '\r' !in t
    ensures '\r' !in CollapseNewlines(t)
    ensures !Contains(CollapseNewlines(t), TripleNewline)
    ensures Filter(NotNewline, CollapseNewlines(t)) == Filter(NotNewline, t)
    decreases |t|
  {
    if Contains(t, TripleNewline) {
      var u := Replace(t, TripleNewline, DoubleNewline);
      ReplaceShrinks(t, TripleNewline, DoubleNewline);
      ReplaceKeepsOut(t, TripleNewline, DoubleNewline, '\r');
      assert Filter(NotNewline, TripleNewline) == [] == Filter(NotNewline, DoubleNewline);
      ReplaceFilter(NotNewline, t, TripleNewline, DoubleNewline);
      CollapseNewlinesShape(u);
    }
  }

  /** `normalize_newlines` leaves no carriage return and no run of three line
      feeds, and keeps every other character, in order. */
  lemma NormalizedNewlinesShape(text: string)
    ensures '\r' !in NormalizedNewlines(text)
    ensures !Contains(NormalizedNewlines(text), TripleNewline)
    ensures Filter(NotNewline, NormalizedNewlines(text)) == Filter(NotNewline, text)
  {
    if text != "" {
      var a := Replace(text, "\r\n", "\n");
      var b := Replace(a, "\r", "\n");
      assert Filter(NotNewline, "\r\n") == [] == Filter(NotNewline, "\n");
      ReplaceFilter(NotNewline, text, "\r\n", "\n");
      assert Filter(NotNewline, "\r") == [];
      ReplaceFilter(NotNewline, a, "\r", "\n");
      assert NoStartInside("\n", "\r") by { assert !Overlaps("\n", "\r", 0); }
      ReplaceAvoids(a, "\r", "\n", "\r");
      ContainsElem(b, '\r');
      CollapseNewlinesShape(b);
    } else {
      assert Filter(NotNewline, text) == [];
      assert !Contains("", TripleNewline);
    }
  }

  /** Normalising twice is normalising once. */
  lemma NormalizedNewlinesIdempotent(text: string)
    ensures NormalizedNewlines(NormalizedNewlines(text)) == NormalizedNewlines(text)
  {
    var y := NormalizedNewlines(text);
    NormalizedNewlinesShape(text);
    if y != "" {
      forall i | 0 <= i && i + 2 <= |y| ensures !OccursAt(y, "\r\n", i) {
        assert y[i..i + 2][0] == y[i];
      }
      ReplaceAbsent(y, "\r\n", "\n");
      ContainsElem(y, '\r');
      ReplaceAbsent(y, "\r", "\n");
    }
  }

  /** A normalised text holds a `{character}` token only if the input did. */
  lemma NormalizedNewlinesKeepsTokensOut(text: string)
    requires !Contains(text, CharacterToken)
    ensures !Contains(NormalizedNewlines(text), CharacterToken)
  {
    if text != "" {
      var a := Replace(text, "\r\n", "\n");
      NewlineAvoidsToken("\n");
      ReplaceAvoids(text, "\r\n", "\n", CharacterToken);
      ReplaceAvoids(a, "\r", "\n", CharacterToken);
      CollapseKeepsTokensOut(Replace(a, "\r", "\n"));
    }
  }

  lemma {:induction false} CollapseKeepsTokensOut(t: string)
    requires !Contains(t, CharacterToken)
    ensures !Contains(CollapseNewlines(t), CharacterToken)
    decreases |t|
  {
    if Contains(t, TripleNewline) {
      ReplaceShrinks(t, TripleNewline, DoubleNewline);
      NewlineAvoidsToken(DoubleNewline);
      ReplaceAvoids(t, TripleNewline, DoubleNewline, CharacterToken);
      CollapseKeepsTokensOut(Replace(t, TripleNewline, DoubleNewline));
    }
  }

  /** Line feeds cannot be part of a `{character}` token. */
  lemma NewlineAvoidsToken(q: string)
    requires |q| > 0 && forall i :: 0 <= i < |q| ==> q[i] == '\n'
    ensures q[0] !in CharacterToken[1..]
    ensures NoStartInside(q, CharacterToken)
  {
    assert '\n' !in CharacterToken;
    forall i: nat | i < |q| ensures !Overlaps(q, CharacterToken, i) {
      assert q[i] != CharacterToken[0];
    }
  }

  // ---------------------------------------------------------------------
  // convert_placeholders
  // ---------------------------------------------------------------------

  /** The first two replacements: existing `{{char}}`/`{{user}}` collapse to
      the single-brace tokens. */
  function Unwrap(text: string): string {
    Replace(Replace(text, CharMacro, CharacterToken), UserMacro, UserToken)
  }

  /** `convert_placeholders(text)` for a string (`""` maps to `""`). */
  function ConvertPlaceholders(text: string): (r: string)
    ensures !Contains(r, CharacterToken)
  {
    if text == "" then "" else TranslateTokens(Unwrap(text))
  }

  /** `convert_placeholders(value)` for a JSON value: a falsy value (None, "",
      0, an empty list or dict) gives `""`; any other non-string raises
      AttributeError on `.replace`. */
  function ConvertPlaceholdersValue(v: Json): (r: Option<string>)
    ensures !Truthy(v) ==> r == Some("")
    ensures Truthy(v) && v.Str? ==> r == Some(ConvertPlaceholders(v.s))
    ensures Truthy(v) && !v.Str? ==> r.None?
  {
    if !Truthy(v) then Some("")
    else if v.Str? then Some(ConvertPlaceholders(v.s))
    else None
  }

  /** `{character}` at the front becomes `{{char}}`, and the rest is translated on its own. */
  lemma TranslateCharacterToken(x: string)
    ensures TranslateTokens(CharacterToken + x) == CharMacro + TranslateTokens(x)
  {
    var s := CharacterToken + x;
    assert s[..|CharacterToken|] == CharacterToken && s[|CharacterToken|..] == x;
    assert Replace(s, CharacterToken, CharMacro) == CharMacro + Replace(x, CharacterToken, CharMacro);
    CharMacroPassesUser();
    ReplaceCopiesBlock(CharMacro, Replace(x, CharacterToken, CharMacro), UserToken, UserMacro);
  }

  /** `{user}` at the front becomes `{{user}}`, and the rest is translated on its own. */
  lemma TranslateUserToken(x: string)
    ensures TranslateTokens(UserToken + x) == UserMacro + TranslateTokens(x)
  {
    UserPassesCharacter();
    ReplaceCopiesBlock(UserToken, x, CharacterToken, CharMacro);
    var a := UserToken + Replace(x, CharacterToken, CharMacro);
    assert a[..|UserToken|] == UserToken && a[|UserToken|..] == Replace(x, CharacterToken, CharMacro);
  }

  /** `{{char}}` at the front collapses to `{character}`, and the rest on its own. */
  lemma UnwrapCharMacro(x: string)
    ensures Unwrap(CharMacro + x) == CharacterToken + Unwrap(x)
  {
    var s := CharMacro + x;
    assert s[..|CharMacro|] == CharMacro && s[|CharMacro|..] == x;
    CharacterPassesUserMacro();
    ReplaceCopiesBlock(CharacterToken, Replace(x, CharMacro, CharacterToken), UserMacro, UserToken);
  }

  /** `{{user}}` at the front collapses to `{user}`, and the rest on its own. */
  lemma UnwrapUserMacro(x: string)
    ensures Unwrap(UserMacro + x) == UserToken + Unwrap(x)
  {
    UserMacroPassesChar();
    ReplaceCopiesBlock(UserMacro, x, CharMacro, CharacterToken);
    var a := UserMacro + Replace(x, CharMacro, CharacterToken);
    assert a[..|UserMacro|] == UserMacro && a[|UserMacro|..] == Replace(x, CharMacro, CharacterToken);
  }

  /** A first character that starts no token is copied through by the translation. */
  lemma TranslateCopy(z: string)
    requires |z| > 0 && !StartsWith(z, CharacterToken) && !StartsWith(z, UserToken)
    ensures TranslateTokens(z) == [z[0]] + TranslateTokens(z[1..])
  {
    var z' := z[1..];
    assert z == [z[0]] + z';
    var a := Replace(z', CharacterToken, CharMacro);
    assert Replace(z, CharacterToken, CharMacro) == [z[0]] + a;
    StartsWithCons(z[0], a, UserToken);
    StartsWithCons(z[0], z', UserToken);
    if StartsWith(a, UserToken[1..]) {
      BracedTailsUnaligned();
      ReplacePrefixFromInput(z', CharacterToken, CharMacro, UserToken[1..]);
    }
  }

  /** After a brace that starts no token, the translated rest cannot complete
      a `{{char}}`. */
  lemma TranslateNoCharMacroTail(z': string)
    requires !StartsWith(z', CharMacro[1..])
    ensures !StartsWith(TranslateTokens(z'), CharMacro[1..])
  {
    var w := CharMacro[1..];
    BracedTailsUnaligned();
    ReplacePrefixBack(Replace(z', CharacterToken, CharMacro), UserToken, UserMacro, w);
    ReplacePrefixBack(z', CharacterToken, CharMacro, w);
  }

  /** After a brace, the translated rest with its macros collapsed cannot
      complete a `{{user}}`. */
  lemma TranslateNoUserMacroTail(z': string)
    ensures !StartsWith(Replace(TranslateTokens(z'), CharMacro, CharacterToken), UserMacro[1..])
  {
    var y := TranslateTokens(z');
    var w := UserMacro[1..];
    BracedTailsUnaligned();
    ReplacePrefixBack(y, CharMacro, CharacterToken, w);
    ReplacePrefixBack(Replace(z', CharacterToken, CharMacro), UserToken, UserMacro, w);
    ReplacePrefixBack(z', CharacterToken, CharMacro, w);
  }

  /** A first character that starts no macro in the translated text is copied
      through by the collapse. */
  lemma UnwrapCopy(z: string)
    requires |z| > 0 && !StartsWith(z, CharMacro)
    ensures Unwrap([z[0]] + TranslateTokens(z[1..])) == [z[0]] + Unwrap(TranslateTokens(z[1..]))
  {
    var z' := z[1..];
    assert z == [z[0]] + z';
    var y := TranslateTokens(z');
    StartsWithCons(z[0], y, CharMacro);
    StartsWithCons(z[0], z', CharMacro);
    if z[0] == CharMacro[0] {
      TranslateNoCharMacroTail(z');
    }
    assert Replace([z[0]] + y, CharMacro, CharacterToken) == [z[0]] + Replace(y, CharMacro, CharacterToken);
    var d := Replace(y, CharMacro, CharacterToken);
    StartsWithCons(z[0], d, UserMacro);
    TranslateNoUserMacroTail(z');
  }

  /** Collapsing the doubled macros undoes `TranslateTokens` on any text that
      holds no `{{char}}`. */
  lemma {:induction false} UnwrapTranslate(z: string)
    requires !Contains(z, CharMacro)
    ensures Unwrap(TranslateTokens(z)) == z
    decreases |z|
  {
    if |z| == 0 {
    } else if StartsWith(z, CharacterToken) {
      var x := z[|CharacterToken|..];
      assert z == CharacterToken + x;
      forall i | OccursAt(x, CharMacro, i) ensures false { OccursInSuffix(z, CharMacro, |CharacterToken|, i); }
      TranslateCharacterToken(x);
      UnwrapCharMacro(TranslateTokens(x));
      UnwrapTranslate(x);
    } else if StartsWith(z, UserToken) {
      var x := z[|UserToken|..];
      assert z == UserToken + x;
      forall i | OccursAt(x, CharMacro, i) ensures false { OccursInSuffix(z, CharMacro, |UserToken|, i); }
      TranslateUserToken(x);
      UnwrapUserMacro(TranslateTokens(x));
      UnwrapTranslate(x);
    } else {
      var x := z[1..];
      forall i | OccursAt(x, CharMacro, i) ensures false { OccursInSuffix(z, CharMacro, 1, i); }
      assert StartsWith(z, CharMacro) ==> OccursAt(z, CharMacro, 0);
      TranslateCopy(z);
      UnwrapCopy(z);
      UnwrapTranslate(x);
      assert z == [z[0]] + x;
    }
  }

  /** The collapse leaves no `{{char}}` behind. */
  lemma UnwrapAvoidsCharMacro(t: string)
    ensures !Contains(Unwrap(t), CharMacro)
  {
    CollapsedAvoidsCharMacro();
    ReplaceAvoidsUnaligned(t, CharMacro, CharacterToken, CharMacro);
    ReplaceAvoidsUnaligned(Replace(t, CharMacro, CharacterToken), UserMacro, UserToken, CharMacro);
  }

  /** Converting the placeholders of an already converted text changes nothing. */
  lemma ConvertPlaceholdersIdempotent(t: string)
    ensures ConvertPlaceholders(ConvertPlaceholders(t)) == ConvertPlaceholders(t)
  {
    if t != "" {
      UnwrapAvoidsCharMacro(t);
      UnwrapTranslate(Unwrap(t));
    }
  }

  // ---------------------------------------------------------------------
  // extract_backyard_png_data
  // ---------------------------------------------------------------------

  /** `re.sub(rb'[^a-zA-Z0-9+/]', b'', ...)` keeps these bytes (no `=`). */
  predicate IsBase64Byte(b: byte) {
    (65 <= b <= 90) || (97 <= b <= 122) || (48 <= b <= 57) || b == 43 || b == 47
  }

  /** The longest prefix whose length is a multiple of 4. */
  function TrimmedToQuads(c: seq<byte>): (r: seq<byte>)
    ensures |r| <= |c| && r == c[..|r|]
    ensures |r| % 4 == 0 && |c| - |r| < 4
  {
    c[..|c| - |c| % 4]
  }

  /** `while len(cleaned) % 4 != 0: cleaned = cleaned[:-1]`. */
  method TrimToQuads(c: seq<byte>) returns (r: seq<byte>)
    ensures r == TrimmedToQuads(c)
  {
    r := c;
    while |r| % 4 != 0
      invariant |r| <= |c| && r == c[..|r|]
      invariant |c| - |c| % 4 <= |r|
      decreases |r|
    {
      r := r[..|r| - 1];
    }
  }

  const AppearanceMarker: string := "{character}'s appearance:"
  const PersonalityMarker: string := "{character}'s personality:"

  /** Python's `s[i:j]` for `0 <= i` and `j <= len(s)`: empty when `j <= i`. */
  function SliceTo(s: string, i: nat, j: nat): (r: string)
    requires i <= |s| && j <= |s|
    ensures i <= j ==> r == s[i..j]
    ensures j < i ==> r == ""
  {
    if i <= j then s[i..j] else ""
  }

  /** The persona split into (description, personality). */
  function SplitPersona(persona: string): (r: (string, string))
  {
    var appearanceStart := Find(persona, AppearanceMarker, 0);
    var worldInfo := if appearanceStart != -1 then Strip(persona[..appearanceStart]) else "";
    var personalityStart := Find(persona, PersonalityMarker, 0);
    var description :=
      if appearanceStart != -1 && personalityStart != -1 then Strip(SliceTo(persona, appearanceStart, personalityStart))
      else if appearanceStart != -1 then Strip(persona[appearanceStart..])
      else "";
    var personality := if personalityStart != -1 then Strip(persona[personalityStart..]) else "";
    var (description, personality) :=
      if description == "" && personality == "" then ("", persona) else (description, personality);
    var description :=
      if worldInfo != "" then (if description != "" then worldInfo + "\n\n" + description else worldInfo)
      else description;
    (description, personality)
  }

  /** Without either marker the whole persona is the personality and the
      description is empty; with a marker, the personality is empty only when
      the personality marker is missing. */
  lemma SplitPersonaWithoutMarkers(persona: string)
    ensures !Contains(persona, AppearanceMarker) && !Contains(persona, PersonalityMarker) ==>
      SplitPersona(persona) == ("", persona)
    ensures Contains(persona, PersonalityMarker) ==>
      |SplitPersona(persona).1| > 0 && SplitPersona(persona).1 == Strip(persona[Find(persona, PersonalityMarker, 0)..])
  {
    var p := Find(persona, PersonalityMarker, 0);
    if Contains(persona, PersonalityMarker) {
      var i :| 0 <= i <= |persona| - |PersonalityMarker| && OccursAt(persona, PersonalityMarker, i);
      assert p != -1;
      var tail := persona[p..];
      assert tail[0] == PersonalityMarker[0] == '{';
      StripNonEmpty(tail);
    }
    if !Contains(persona, AppearanceMarker) && !Contains(persona, PersonalityMarker) {
      var a := Find(persona, AppearanceMarker, 0);
      assert a == -1;
      assert p == -1;
    }
  }

  /** Text before the appearance marker is put in front of the description,
      separated by a blank line. */
  lemma SplitPersonaWorldInfo(persona: string)
    requires Contains(persona, AppearanceMarker)
    requires Strip(persona[..Find(persona, AppearanceMarker, 0)]) != ""
    ensures var worldInfo := Strip(persona[..Find(persona, AppearanceMarker, 0)]);
      var description := SplitPersona(persona).0;
      description == worldInfo || (|description| > |worldInfo| + 2 && description[..|worldInfo| + 2] == worldInfo + "\n\n")
  {
    var a := Find(persona, AppearanceMarker, 0);
    assert a != -1 by {
      var i :| 0 <= i <= |persona| - |AppearanceMarker| && OccursAt(persona, AppearanceMarker, i);
    }
  }

  /** The character `extract_backyard_png_data` returns. */
  datatype BackyardCharacter = BackyardCharacter(
    name: Json,
    description: string,
    personality: string,
    firstMessage: string,
    exampleDialogue: string,
    scenario: string,
    displayName: Json)

  const StartMarker: seq<byte> := [65, 83, 67, 73, 73]      // b'ASCII'
  const IdatMarker: seq<byte> := [73, 68, 65, 84, 120]      // b'IDATx'

  /** The JSON text inside the payload between `ASCII` and `IDATx`, or `None`
      where the code returns `None` or raises inside its `try`. */
  function BackyardJsonText(pngData: seq<byte>, lib: Primitives): (r: Option<string>)
    ensures Between(pngData, StartMarker, IdatMarker).None? ==> r.None?
    ensures r.Some? && |r.value| > 0 ==> r.value[0] == '{' && r.value[|r.value| - 1] == '}'
  {
    var startIndex := Find(pngData, StartMarker, 0);
    var endIndex := Find(pngData, IdatMarker, startIndex + |StartMarker|);
    if startIndex == -1 || endIndex == -1 then None
    else
      var base64Data := pngData[startIndex + |StartMarker|..endIndex];
      var cleaned := TrimmedToQuads(Filter(IsBase64Byte, base64Data));
      match lib.b64Decode(cleaned)
      case None => None
      case Some(decoded) => JsonSpan(lib.utf8DecodeReplace(decoded), '{', '}')
  }

  /** `extract_backyard_png_data`, from the file contents. */
  function ExtractBackyardPngData(pngData: seq<byte>, lib: Primitives): (r: Option<BackyardCharacter>)
    ensures BackyardJsonText(pngData, lib).None? ==> r.None?
    ensures r.Some? ==> !Contains(r.value.description, CharacterToken) && !Contains(r.value.personality, CharacterToken)
    ensures r.Some? ==> !Contains(r.value.firstMessage, CharacterToken) && !Contains(r.value.exampleDialogue, CharacterToken)
    ensures r.Some? ==> !Contains(r.value.scenario, CharacterToken)
  {
    match BackyardJsonText(pngData, lib)
    case None => None
    case Some(jsonString) =>
      match lib.jsonLoads(jsonString)
      case None => None
      case Some(jsonData) =>
        if !jsonData.Obj? then None
        else
          var character := GetOr(jsonData.fields, "character", Obj(map[]));
          if !character.Obj? then None
          else
            var aiPersona := GetOr(character.fields, "aiPersona", Str(""));
            if !aiPersona.Str? then None
            else
              var (description, personality) := SplitPersona(aiPersona.s);
              var firstMessage := ConvertPlaceholdersValue(GetOr(character.fields, "firstMessage", Str("")));
              var exampleDialogue := ConvertPlaceholdersValue(GetOr(character.fields, "customDialogue", Str("")));
              var scenario := ConvertPlaceholdersValue(GetOr(character.fields, "scenario", Str("")));
              if firstMessage.None? || exampleDialogue.None? || scenario.None? then None
              else Some(BackyardCharacter(
                GetOr(character.fields, "aiName", Str("")),
                ConvertPlaceholders(description),
                ConvertPlaceholders(personality),
                firstMessage.value,
                exampleDialogue.value,
                scenario.value,
                GetOr(character.fields, "aiDisplayName", Str(""))))
  }

  // ---------------------------------------------------------------------
  // create_tavern_card
  // ---------------------------------------------------------------------

  /** The character dict `create_tavern_card` receives; the lorebook is an
      ordered dict of strings. */
  datatype Character = Character(
    name: Json,
    description: string,
    personality: string,
    scenario: string,
    firstMessage: string,
    exampleDialogue: string,
    lorebook: seq<(string, string)>,
    displayName: Json)

  /** `f"{key}: {value}"` for each lorebook entry, in order. */
  function LorebookLines(lorebook: seq<(string, string)>): (r: seq<string>)
    ensures |r| == |lorebook|
    ensures forall i :: 0 <= i < |r| ==> r[i] == lorebook[i].0 + ": " + lorebook[i].1
  {
    if |lorebook| == 0 then [] else [lorebook[0].0 + ": " + lorebook[0].1] + LorebookLines(lorebook[1..])
  }

  /** The `for key, value in character['lorebook'].items()` loop. */
  method AlternateGreetings(lorebook: seq<(string, string)>) returns (greetings: seq<string>)
    ensures greetings == LorebookLines(lorebook)
  {
    greetings := [];
    if |lorebook| > 0 {
      for i := 0 to |lorebook|
        invariant greetings == LorebookLines(lorebook[..i])
      {
        assert lorebook[..i + 1] == lorebook[..i] + [lorebook[i]];
        LorebookLinesAppend(lorebook[..i], lorebook[i]);
        greetings := greetings + [lorebook[i].0 + ": " + lorebook[i].1];
      }
      assert lorebook[..|lorebook|] == lorebook;
    }
  }

  lemma LorebookLinesAppend(lorebook: seq<(string, string)>, entry: (string, string))
    ensures LorebookLines(lorebook + [entry]) == LorebookLines(lorebook) + [entry.0 + ": " + entry.1]
  {
  }

  /** A list of strings as a JSON array. */
  function StrItems(lines: seq<string>): (r: seq<Json>)
    ensures |r| == |lines| && forall i :: 0 <= i < |r| ==> r[i] == Str(lines[i])
  {
    seq(|lines|, i requires 0 <= i < |lines| => Str(lines[i]))
  }

  /** A card text field: placeholders converted, then newlines normalised. */
  function CardText(s: string): string {
    NormalizedNewlines(ConvertPlaceholders(s))
  }

  /** The entries of the `tavern_data` dict other than the name and the text
      fields; `created` and `modified` stand for the two `int(time.time())`
      readings. */
  function TavernExtras(lines: seq<string>, created: int, modified: int): (r: map<string, Json>)
    ensures "alternate_greetings" in r && r["alternate_greetings"] == Arr(StrItems(lines))
  {
    map[
      "creator_notes" := Str("Converted from BackyardAI"),
      "system_prompt" := Str(""),
      "post_history_instructions" := Str(""),
      "character_version" := Str("v2"),
      "tags" := Arr([]),
      "creator" := Str("Unknown (BackyardAI)"),
      "character_book" := Null,
      "extensions" := Obj(map[
        "world" := Str(""),
        "bias" := Str(""),
        "depth_prompt" := Str(""),
        "jailbreak" := Str("")]),
      "metadata" := Obj(map[
        "version" := Str("2.0"),
        "created" := Int(created),
        "modified" := Int(modified),
        "source" := Str("BackyardAI"),
        "tool" := Str("BackyardAI to TavernAI Converter")]),
      "alternate_greetings" := Arr(StrItems(lines))]
  }

  /** The `tavern_data` dict of `create_tavern_card`: the character's name,
      an empty personality, the four text fields through `CardText`, and the
      lorebook lines as `alternate_greetings`. */
  function TavernData(character: Character, created: int, modified: int): (r: Json)
    ensures r.Obj? && "name" in r.fields && r.fields["name"] == character.name
    ensures "personality" in r.fields && r.fields["personality"] == Str("")
    ensures "description" in r.fields && r.fields["description"] == Str(CardText(character.description))
    ensures "scenario" in r.fields && r.fields["scenario"] == Str(CardText(character.scenario))
    ensures "first_mes" in r.fields && r.fields["first_mes"] == Str(CardText(character.firstMessage))
    ensures "mes_example" in r.fields && r.fields["mes_example"] == Str(CardText(character.exampleDialogue))
    ensures "alternate_greetings" in r.fields && r.fields["alternate_greetings"].Arr?
    ensures var g := r.fields["alternate_greetings"].items;
      |g| == |character.lorebook| && forall i :: 0 <= i < |g| ==> g[i] == Str(character.lorebook[i].0 + ": " + character.lorebook[i].1)
  {
    CardKeysDistinct();
    Obj(WithCardFields(TavernExtras(LorebookLines(character.lorebook), created, modified), character.name,
      Str(CardText(character.description)), Str(""), Str(CardText(character.scenario)),
      Str(CardText(character.firstMessage)), Str(CardText(character.exampleDialogue))))
  }

  /** The card's text fields hold no carriage return, no run of three line
      feeds and no `{character}` token. */
  lemma CardTextClean(s: string)
    ensures '\r' !in CardText(s)
    ensures !Contains(CardText(s), TripleNewline)
    ensures !Contains(CardText(s), CharacterToken)
  {
    NormalizedNewlinesShape(ConvertPlaceholders(s));
    NormalizedNewlinesKeepsTokensOut(ConvertPlaceholders(s));
  }
}
