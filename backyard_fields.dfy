/** The two field helpers of `BackyardToTavernConverter` (backyard_to_tavern.py):
    `parse_persona_field`, which picks the personality and scenario lines out
    of a persona text, and `sanitize_filename`. */
module BackyardFields {
  import opened Text

  // ---------------------------------------------------------------------
  // parse_persona_field
  // ---------------------------------------------------------------------

  /** The entries of `char_data` that `parse_persona_field` reads and writes. */
  datatype PersonaFields = PersonaFields(description: string, personality: string, scenario: string)

  const TriggerMarkers: seq<string> := ["personality:", "scenario:", "traits:"]
  const PersonalityKeywords: seq<string> := ["personality:", "traits:", "character:"]
  const ScenarioKeywords: seq<string> := ["scenario:", "setting:", "context:"]

  /** `any(keyword in s for keyword in keywords)`. */
  predicate MentionsAny(s: string, keywords: seq<string>) {
    exists i :: 0 <= i < |keywords| && Contains(s, keywords[i])
  }

  /** Lines are only looked at when the persona has a newline or mentions a marker. */
  predicate Structured(persona: string) {
    '\n' in persona || MentionsAny(Lower(persona), TriggerMarkers)
  }

  predicate PersonalityLine(line: string) {
    MentionsAny(Strip(Lower(line)), PersonalityKeywords)
  }

  predicate ScenarioLine(line: string) {
    !PersonalityLine(line) && MentionsAny(Strip(Lower(line)), ScenarioKeywords)
  }

  /** No line before index `k` is a personality line. */
  predicate NoPersonalityBefore(lines: seq<string>, k: nat) {
    forall j :: 0 <= j < k && j < |lines| ==> !PersonalityLine(lines[j])
  }

  /** No line before index `k` is a scenario line. */
  predicate NoScenarioBefore(lines: seq<string>, k: nat) {
    forall j :: 0 <= j < k && j < |lines| ==> !ScenarioLine(lines[j])
  }

  /** One pass of the line loop: an empty field takes the stripped line. */
  function PersonaLine(f: PersonaFields, line: string): PersonaFields {
    if PersonalityLine(line) then
      if f.personality == "" then f.(personality := Strip(line)) else f
    else if ScenarioLine(line) then
      if f.scenario == "" then f.(scenario := Strip(line)) else f
    else f
  }

  /** The line loop over `lines`. */
  function PersonaLines(f: PersonaFields, lines: seq<string>): PersonaFields
    decreases |lines|
  {
    if |lines| == 0 then f else PersonaLines(PersonaLine(f, lines[0]), lines[1..])
  }

  /** `parse_persona_field(persona, char_data)` on the three entries. */
  function ParsedPersona(persona: string, f: PersonaFields): PersonaFields {
    var g := if Structured(persona) then PersonaLines(f, Split(persona, '\n')) else f;
    if g.personality == "" && g.scenario == "" then g.(description := persona) else g
  }

  /** `parse_persona_field`, updating the entries line by line. */
  method ParsePersonaField(persona: string, f: PersonaFields) returns (r: PersonaFields)
    ensures r == ParsedPersona(persona, f)
  {
    r := f;
    if '\n' in persona || MentionsAny(Lower(persona), TriggerMarkers) {
      var lines := Split(persona, '\n');
      for i := 0 to |lines|
        invariant PersonaLines(f, lines) == PersonaLines(r, lines[i..])
      {
        assert lines[i..][0] == lines[i] && lines[i..][1..] == lines[i + 1..];
        var lineLower := Strip(Lower(lines[i]));
        if MentionsAny(lineLower, PersonalityKeywords) {
          if r.personality == "" {
            r := r.(personality := Strip(lines[i]));
          }
        } else if MentionsAny(lineLower, ScenarioKeywords) {
          if r.scenario == "" {
            r := r.(scenario := Strip(lines[i]));
          }
        }
      }
    }
    if r.personality == "" && r.scenario == "" {
      r := r.(description := persona);
    }
  }

  /** The loop over `a + b` is the loop over `a`, then over `b`. */
  lemma {:induction false} PersonaLinesAppend(f: PersonaFields, a: seq<string>, b: seq<string>)
    ensures PersonaLines(f, a + b) == PersonaLines(PersonaLines(f, a), b)
    decreases |a|
  {
    if |a| > 0 {
      assert (a + b)[0] == a[0] && (a + b)[1..] == a[1..] + b;
      PersonaLinesAppend(PersonaLine(f, a[0]), a[1..], b);
    } else {
      assert a + b == b;
    }
  }

  /** The loop, seen from line `k`: the lines before it, then line `k`, then the rest. */
  lemma PersonaLinesAround(f: PersonaFields, lines: seq<string>, k: nat)
    requires k < |lines|
    ensures PersonaLines(f, lines) == PersonaLines(PersonaLine(PersonaLines(f, lines[..k]), lines[k]), lines[k + 1..])
  {
    assert lines == lines[..k] + ([lines[k]] + lines[k + 1..]);
    PersonaLinesAppend(f, lines[..k], [lines[k]] + lines[k + 1..]);
    assert ([lines[k]] + lines[k + 1..])[1..] == lines[k + 1..];
  }

  /** The loop never overwrites a filled field, and leaves the description alone. */
  lemma {:induction false} PersonaLinesKeep(f: PersonaFields, lines: seq<string>)
    ensures PersonaLines(f, lines).description == f.description
    ensures f.personality != "" ==> PersonaLines(f, lines).personality == f.personality
    ensures f.scenario != "" ==> PersonaLines(f, lines).scenario == f.scenario
    decreases |lines|
  {
    if |lines| > 0 {
      PersonaLinesKeep(PersonaLine(f, lines[0]), lines[1..]);
    }
  }

  /** Lines that mention no keyword change nothing. */
  lemma {:induction false} PersonaLinesPlain(f: PersonaFields, lines: seq<string>)
    requires NoPersonalityBefore(lines, |lines|) && NoScenarioBefore(lines, |lines|)
    ensures PersonaLines(f, lines) == f
    decreases |lines|
  {
    if |lines| > 0 {
      PersonaLinesPlain(f, lines[1..]);
    }
  }

  /** Lower-casing turns no character into whitespace and no whitespace into anything else. */
  lemma LowerKeepsSpace(s: string, j: nat)
    requires j < |s|
    ensures IsSpace(Lower(s)[j]) <==> IsSpace(s[j])
  {
  }

  /** A text with a non-space character strips to a non-empty text. */
  lemma StripKeepsNonSpace(s: string, j: nat)
    requires j < |s| && !IsSpace(s[j])
    ensures Strip(s) != ""
  {
    var l := LStrip(s);
    assert |l| > 0 && !IsSpace(l[0]);
    assert |RStrip(l)| > 0;
  }

  /** A text that does not strip to nothing has a non-space character. */
  lemma StripWitness(s: string) returns (j: nat)
    requires Strip(s) != ""
    ensures j < |s| && !IsSpace(s[j])
  {
    var l := LStrip(s);
    var t := RStrip(l);
    j := |s| - |l| + |t| - 1;
    assert t[|t| - 1] == l[|t| - 1] == s[j];
  }

  /** Every keyword has at least one character. */
  predicate NoEmptyKeyword(keywords: seq<string>) {
    forall i :: 0 <= i < |keywords| ==> |keywords[i]| > 0
  }

  lemma KeywordListsNoEmpty()
    ensures NoEmptyKeyword(PersonalityKeywords) && NoEmptyKeyword(ScenarioKeywords)
  {
  }

  /** A line that mentions a keyword is not blank, so its stripped form is not empty. */
  lemma KeywordLineNotBlank(line: string, keywords: seq<string>)
    requires NoEmptyKeyword(keywords)
    requires MentionsAny(Strip(Lower(line)), keywords)
    ensures Strip(line) != ""
  {
    var i :| 0 <= i < |keywords| && Contains(Strip(Lower(line)), keywords[i]);
    var j := StripWitness(Lower(line));
    LowerKeepsSpace(line, j);
    StripKeepsNonSpace(line, j);
  }

  /** Over a list of lines, the personality becomes the first personality line,
      stripped, when it was empty. */
  lemma PersonaLinesFirstPersonality(f: PersonaFields, lines: seq<string>, k: nat)
    requires f.personality == ""
    requires k < |lines| && PersonalityLine(lines[k])
    requires NoPersonalityBefore(lines, k)
    ensures PersonaLines(f, lines).personality == Strip(lines[k])
  {
    PersonaLinesAround(f, lines, k);
    PersonaBeforeFirst(f, lines[..k]);
    KeywordListsNoEmpty();
    KeywordLineNotBlank(lines[k], PersonalityKeywords);
    PersonaLinesKeep(PersonaLine(PersonaLines(f, lines[..k]), lines[k]), lines[k + 1..]);
  }

  /** Before the first personality line the personality stays empty. */
  lemma {:induction false} PersonaBeforeFirst(f: PersonaFields, lines: seq<string>)
    requires f.personality == ""
    requires NoPersonalityBefore(lines, |lines|)
    ensures PersonaLines(f, lines).personality == ""
    decreases |lines|
  {
    if |lines| > 0 {
      PersonaBeforeFirst(PersonaLine(f, lines[0]), lines[1..]);
    }
  }

  /** Over a list of lines, the scenario becomes the first scenario line,
      stripped, when it was empty. */
  lemma PersonaLinesFirstScenario(f: PersonaFields, lines: seq<string>, k: nat)
    requires f.scenario == ""
    requires k < |lines| && ScenarioLine(lines[k])
    requires NoScenarioBefore(lines, k)
    ensures PersonaLines(f, lines).scenario == Strip(lines[k])
  {
    PersonaLinesAround(f, lines, k);
    ScenarioBeforeFirst(f, lines[..k]);
    KeywordListsNoEmpty();
    KeywordLineNotBlank(lines[k], ScenarioKeywords);
    PersonaLinesKeep(PersonaLine(PersonaLines(f, lines[..k]), lines[k]), lines[k + 1..]);
  }

  lemma {:induction false} ScenarioBeforeFirst(f: PersonaFields, lines: seq<string>)
    requires f.scenario == ""
    requires NoScenarioBefore(lines, |lines|)
    ensures PersonaLines(f, lines).scenario == ""
    decreases |lines|
  {
    if |lines| > 0 {
      ScenarioBeforeFirst(PersonaLine(f, lines[0]), lines[1..]);
    }
  }

  /** The personality becomes the first line of the persona mentioning
      `personality:`, `traits:` or `character:`, stripped, when it was empty;
      the description is then left alone. */
  lemma PersonaFirstPersonality(persona: string, f: PersonaFields, k: nat)
    requires Structured(persona) && f.personality == ""
    requires k < |Split(persona, '\n')| && PersonalityLine(Split(persona, '\n')[k])
    requires NoPersonalityBefore(Split(persona, '\n'), k)
    ensures ParsedPersona(persona, f).personality == Strip(Split(persona, '\n')[k])
    ensures ParsedPersona(persona, f).description == f.description
  {
    var lines := Split(persona, '\n');
    PersonaLinesFirstPersonality(f, lines, k);
    KeywordListsNoEmpty();
    KeywordLineNotBlank(lines[k], PersonalityKeywords);
    PersonaLinesKeep(f, lines);
  }

  /** The scenario becomes the first line of the persona mentioning `scenario:`,
      `setting:` or `context:` and no personality keyword, stripped, when it was
      empty; the description is then left alone. */
  lemma PersonaFirstScenario(persona: string, f: PersonaFields, k: nat)
    requires Structured(persona) && f.scenario == ""
    requires k < |Split(persona, '\n')| && ScenarioLine(Split(persona, '\n')[k])
    requires NoScenarioBefore(Split(persona, '\n'), k)
    ensures ParsedPersona(persona, f).scenario == Strip(Split(persona, '\n')[k])
    ensures ParsedPersona(persona, f).description == f.description
  {
    var lines := Split(persona, '\n');
    PersonaLinesFirstScenario(f, lines, k);
    KeywordListsNoEmpty();
    KeywordLineNotBlank(lines[k], ScenarioKeywords);
    PersonaLinesKeep(f, lines);
  }

  /** Filled fields are never overwritten. */
  lemma PersonaKeepsFilled(persona: string, f: PersonaFields)
    ensures f.personality != "" ==> ParsedPersona(persona, f).personality == f.personality
    ensures f.scenario != "" ==> ParsedPersona(persona, f).scenario == f.scenario
    ensures f.personality != "" || f.scenario != "" ==> ParsedPersona(persona, f).description == f.description
  {
    PersonaLinesKeep(f, Split(persona, '\n'));
  }

  /** With both fields empty and no line naming either, the whole persona
      becomes the description and nothing else changes. */
  lemma PersonaUnstructured(persona: string, f: PersonaFields)
    requires f.personality == "" && f.scenario == ""
    requires NoPersonalityBefore(Split(persona, '\n'), |Split(persona, '\n')|)
    requires NoScenarioBefore(Split(persona, '\n'), |Split(persona, '\n')|)
    ensures ParsedPersona(persona, f) == f.(description := persona)
  {
    PersonaLinesPlain(f, Split(persona, '\n'));
  }

  // ---------------------------------------------------------------------
  // sanitize_filename
  // ---------------------------------------------------------------------

  /** The characters a sanitized name is made of. */
  predicate FilenameSafe(c: char) {
    IsAsciiAlnum(c) || c == '-' || c == '_'
  }

  /** The comprehension's choice for one character: ASCII alphanumerics,
      space, `-` and `_` stay, anything else becomes `_`. */
  function KeptOrUnderscore(c: char): char {
    if IsAsciiAlnum(c) || c == ' ' || c == '-' || c == '_' then c else '_'
  }

  /** The generator expression joined into a string. */
  function KeptChars(s: string): (r: string)
    ensures |r| == |s| && forall i :: 0 <= i < |s| ==> r[i] == KeptOrUnderscore(s[i])
  {
    if |s| == 0 then [] else [KeptOrUnderscore(s[0])] + KeptChars(s[1..])
  }

  /** `sanitize_filename(name)`. */
  function SanitizeFilename(name: string): (r: string)
    ensures name == "" ==> r == "Unknown"
    ensures name != "" ==> |r| == |name|
    ensures forall i :: 0 <= i < |r| ==> FilenameSafe(r[i])
    ensures name != "" ==> forall i :: 0 <= i < |name| ==>
      (FilenameSafe(name[i]) ==> r[i] == name[i]) && (!FilenameSafe(name[i]) ==> r[i] == '_')
  {
    if name == "" then "Unknown"
    else
      var kept := KeptChars(name);
      ReplaceElem(kept, ' ', '_');
      var safe := Replace(kept, [' '], ['_']);
      if safe == "" then "Unknown" else safe
  }

  /** Sanitizing a sanitized name changes nothing. */
  lemma SanitizeFilenameIdempotent(name: string)
    ensures SanitizeFilename(SanitizeFilename(name)) == SanitizeFilename(name)
  {
    var r := SanitizeFilename(name);
    var rr := SanitizeFilename(r);
    assert r != "";
    forall i | 0 <= i < |r| ensures rr[i] == r[i] {
      assert FilenameSafe(r[i]);
    }
  }
}
