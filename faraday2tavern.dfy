/** The first-generation Faraday converter (`faraday2tavern.py`): the card's
    JSON is not parsed; the fields are cut out of the decoded file contents
    between fixed delimiters, and the placeholder tokens are rewritten. */
module Faraday2Tavern {
  import opened Wrappers
  import opened Text
  import opened Placeholders

  /** `ContentNotFoundException`: a delimiter pair did not match. */
  datatype ContentNotFound = ContentNotFound

  /** Where the extracted text begins: just after the first start delimiter,
      or at `len(start) - 1` when there is none (`find` returned -1). */
  function StartPos(s: string, start: string): (r: nat)
    ensures Find(s, start, 0) == -1 ==> r + 1 == |start|
    ensures Find(s, start, 0) != -1 ==> r == Find(s, start, 0) + |start| && OccursAt(s, start, r - |start|)
    ensures Find(s, start, 0) != -1 ==> forall i :: 0 <= i < r - |start| ==> !OccursAt(s, start, i)
  {
    var f := Find(s, start, 0);
    if f == -1 then
      |start| - 1
    else f + |start|
  }

  /** `extract_content(s, start, end)`. */
  function ExtractContent(s: string, start: string, end: string): (r: Result<string, ContentNotFound>)
    ensures r.Err? <==> forall i :: StartPos(s, start) <= i ==> !OccursAt(s, end, i)
    ensures r.Ok? ==> var p := StartPos(s, start);
      && p + |r.value| <= |s|
      && r.value == s[p..p + |r.value|]
      && OccursAt(s, end, p + |r.value|)
      && forall i :: p <= i < p + |r.value| ==> !OccursAt(s, end, i)
  {
    var p := StartPos(s, start);
    var e := Find(s, end, p);
    if e == -1 then Err(ContentNotFound) else Ok(s[p..e])
  }

  /** Extraction recovers the text placed between the delimiters, when the start
      delimiter first occurs there and the end delimiter does not occur earlier. */
  lemma ExtractPlaced(pre: string, start: string, v: string, end: string, post: string)
    requires forall i :: 0 <= i < |pre| ==> !OccursAt(pre + start + v + end + post, start, i)
    requires forall i :: |pre| + |start| <= i < |pre| + |start| + |v| ==> !OccursAt(pre + start + v + end + post, end, i)
    ensures ExtractContent(pre + start + v + end + post, start, end) == Ok(v)
  {
    var s := pre + start + v + end + post;
    var a := |pre| + |start|;
    assert Find(s, start, 0) == |pre| by {
      assert s[|pre|..a] == start;
      FindFirst(s, start, 0, |pre|);
    }
    assert Find(s, end, a) == a + |v| by {
      assert s[a + |v|..a + |v| + |end|] == end;
      FindFirst(s, end, a, a + |v|);
    }
    assert s[a..a + |v|] == v;
    ExtractOfFinds(s, start, end, |pre|, a + |v|, v);
  }

  lemma ExtractOfFinds(s: string, start: string, end: string, m: nat, e: nat, v: string)
    requires Find(s, start, 0) == m && Find(s, end, m + |start|) == e
    requires m + |start| <= e <= |s| && s[m + |start|..e] == v
    ensures ExtractContent(s, start, end) == Ok(v)
  {
  }

  const EscapedNewline: string := "\\n"
  const EscapedQuote: string := "\\\""

  /** The tokens of the loop in `process_special_tokens`. */
  const Tokens: seq<string> := [CharacterToken, UserToken]

  /** `f"{{{{{token[1:-1]}}}}}"`: the token wrapped in a second pair of braces. */
  function Doubled(token: string): (r: string)
    requires |token| >= 2
    ensures |r| == |token| + 2
    ensures token[0] == '{' && token[|token| - 1] == '}' ==> r == "{" + token + "}"
  {
    "{{" + token[1..|token| - 1] + "}}"
  }

  /** The loop over `tokens`, replacing each token by its doubled form. */
  function WrapTokens(s: string, tokens: seq<string>): string
    requires forall t :: t in tokens ==> |t| >= 2
    decreases |tokens|
  {
    if |tokens| == 0 then s else WrapTokens(Replace(s, tokens[0], Doubled(tokens[0])), tokens[1..])
  }

  /** `process_special_tokens(s)`. */
  function ProcessSpecialTokens(s: string): string {
    var a := Replace(s, CharacterToken, CharMacro);
    var b := Replace(a, EscapedNewline, "\n");
    var c := Replace(b, EscapedQuote, "\"");
    WrapTokens(c, Tokens)
  }

  /** The loop in `process_special_tokens`, unrolled: its `{character}` pass finds
      nothing left to replace, so only `{user}` is rewritten, to `{{user}}`. */
  lemma WrapTokensAfterFirstPass(c: string)
    requires !Contains(c, CharacterToken)
    ensures WrapTokens(c, Tokens) == Replace(c, UserToken, UserMacro)
  {
    DoubledUserToken();
    ReplaceAbsent(c, CharacterToken, Doubled(CharacterToken));
    assert Tokens[1..] == [UserToken];
    assert WrapTokens(c, Tokens) == WrapTokens(c, [UserToken]);
    assert WrapTokens(c, [UserToken]) == WrapTokens(Replace(c, UserToken, UserMacro), []);
  }

  /** The loop's doubled `{user}` is `{{user}}`. */
  lemma DoubledUserToken()
    ensures Doubled(UserToken) == UserMacro
  {
    assert UserToken[1..|UserToken| - 1] == "user";
  }

  /** No `{character}` token survives `process_special_tokens`, and its loop
      amounts to the single rewrite of `{user}` into `{{user}}`. */
  lemma ProcessSpecialTokensRemovesCharacter(s: string)
    ensures ProcessSpecialTokens(s) == Replace(Replace(Replace(Replace(s, CharacterToken, CharMacro), EscapedNewline, "\n"), EscapedQuote, "\""), UserToken, UserMacro)
    ensures !Contains(ProcessSpecialTokens(s), CharacterToken)
  {
    var a := Replace(s, CharacterToken, CharMacro);
    var b := Replace(a, EscapedNewline, "\n");
    var c := Replace(b, EscapedQuote, "\"");
    CharMacroAvoidsToken();
    ReplaceAvoids(s, CharacterToken, CharMacro, CharacterToken);
    PlainAvoidsToken("\n");
    ReplaceAvoids(a, EscapedNewline, "\n", CharacterToken);
    PlainAvoidsToken("\"");
    ReplaceAvoids(b, EscapedQuote, "\"", CharacterToken);
    WrapTokensAfterFirstPass(c);
    UserMacroAvoidsToken();
    ReplaceAvoids(c, UserToken, UserMacro, CharacterToken);
  }

  /** The card as `aichar.create_character` receives it (the image path is not modelled). */
  datatype Character = Character(
    name: string,
    summary: string,
    personality: string,
    scenario: string,
    greetingMessage: string,
    exampleMessages: string)

  const Terminator: string := "2}"

  /** `get_character`, from the file contents already decoded as UTF-8 with replacement. */
  function GetCharacter(decoded: string): (r: Result<Character, ContentNotFound>)
    ensures r.Ok? ==> !Contains(r.value.summary, CharacterToken)
    ensures r.Ok? ==> !Contains(r.value.greetingMessage, CharacterToken)
    ensures r.Ok? ==> !Contains(r.value.exampleMessages, CharacterToken)
    ensures r.Ok? ==> r.value.personality == "" && r.value.scenario == ""
    ensures r.Ok? ==> var content := decoded + Terminator;
      && Ok(r.value.name) == ExtractContent(content, "aiName\":\"", "\",")
      && var persona := ExtractContent(content, "aiPersona\":\"", "\",\"basePrompt");
         persona.Ok? && r.value.summary == ProcessSpecialTokens(persona.value)
    ensures r.Ok? ==> var content := decoded + Terminator;
      && var greeting := ExtractContent(content, ",\"firstMessage\":\"", "\",\"grammar\"");
         greeting.Ok? && r.value.greetingMessage == ProcessSpecialTokens(greeting.value)
    ensures r.Ok? ==> var content := decoded + Terminator;
      && var dialogue := ExtractContent(content, ",\"customDialogue\":\"", "\",\"firstMessage\":");
         dialogue.Ok? && r.value.exampleMessages == ProcessSpecialTokens(dialogue.value)
    ensures r.Ok? <==> var content := decoded + Terminator;
      && ExtractContent(content, "aiName\":\"", "\",").Ok?
      && ExtractContent(content, "aiPersona\":\"", "\",\"basePrompt").Ok?
      && ExtractContent(content, ",\"firstMessage\":\"", "\",\"grammar\"").Ok?
      && ExtractContent(content, ",\"customDialogue\":\"", "\",\"firstMessage\":").Ok?
  {
    var content := decoded + Terminator;
    var name := ExtractContent(content, "aiName\":\"", "\",");
    var persona := ExtractContent(content, "aiPersona\":\"", "\",\"basePrompt");
    var greeting := ExtractContent(content, ",\"firstMessage\":\"", "\",\"grammar\"");
    var dialogue := ExtractContent(content, ",\"customDialogue\":\"", "\",\"firstMessage\":");
    if name.Err? || persona.Err? || greeting.Err? || dialogue.Err? then Err(ContentNotFound)
    else
      ProcessSpecialTokensRemovesCharacter(persona.value);
      ProcessSpecialTokensRemovesCharacter(greeting.value);
      ProcessSpecialTokensRemovesCharacter(dialogue.value);
      Ok(Character(
        name.value,
        ProcessSpecialTokens(persona.value),
        "",
        "",
        ProcessSpecialTokens(greeting.value),
        ProcessSpecialTokens(dialogue.value)))
  }
}
