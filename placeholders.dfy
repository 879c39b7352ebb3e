/** The placeholder tokens of Faraday/Backyard cards (`{character}`, `{user}`)
    and of Tavern cards (`{{char}}`, `{{user}}`), with the facts that let the
    rewrites prove that no `{character}` token survives them. */
module Placeholders {
  import opened Text

  const CharacterToken: string := "{character}"
  const UserToken: string := "{user}"
  const CharMacro: string := "{{char}}"

  /** The five text fields of a TavernAI card whose placeholders the converters rewrite. */
  const TextKeys: seq<string> := ["description", "personality", "scenario", "first_mes", "mes_example"]
  const UserMacro: string := "{{user}}"

  /** `s.replace("{character}", "{{char}}").replace("{user}", "{{user}}")`. */
  function TranslateTokens(s: string): (r: string)
    ensures !Contains(r, CharacterToken)
  {
    var a := Replace(s, CharacterToken, CharMacro);
    CharMacroAvoidsToken();
    ReplaceAvoids(s, CharacterToken, CharMacro, CharacterToken);
    UserMacroAvoidsToken();
    ReplaceAvoids(a, UserToken, UserMacro, CharacterToken);
    Replace(a, UserToken, UserMacro)
  }

  /** `{{char}}` cannot be part of a `{character}` token. */
  lemma CharMacroAvoidsToken()
    ensures CharMacro[0] !in CharacterToken[1..]
    ensures NoStartInside(CharMacro, CharacterToken)
  {
    forall i: nat | i < |CharMacro| ensures !Overlaps(CharMacro, CharacterToken, i) {
      if i == 0 {
        assert CharMacro[1] != CharacterToken[1];
      } else if i == 1 {
        assert CharMacro[6] != CharacterToken[5];
      } else {
        assert CharMacro[i] != CharacterToken[0];
      }
    }
  }

  /** `{{user}}` cannot be part of a `{character}` token. */
  lemma UserMacroAvoidsToken()
    ensures UserMacro[0] !in CharacterToken[1..]
    ensures NoStartInside(UserMacro, CharacterToken)
  {
    forall i: nat | i < |UserMacro| ensures !Overlaps(UserMacro, CharacterToken, i) {
      if i == 0 {
        assert UserMacro[1] != CharacterToken[1];
      } else if i == 1 {
        assert UserMacro[2] != CharacterToken[1];
      } else {
        assert UserMacro[i] != CharacterToken[0];
      }
    }
  }

  /** A one-character replacement text outside the token cannot produce `{character}`. */
  lemma PlainAvoidsToken(q: string)
    requires |q| == 1 && q[0] !in CharacterToken
    ensures q[0] !in CharacterToken[1..]
    ensures NoStartInside(q, CharacterToken)
  {
    assert q[0] != CharacterToken[0];
    assert !Overlaps(q, CharacterToken, 0);
  }

  // Facts on how the four tokens can and cannot meet, used to show that
  // collapsing the doubled macros undoes `TranslateTokens`.

  /** `{user}` cannot appear inside or start within `{{char}}`. */
  lemma CharMacroPassesUser()
    ensures NoStartInside(CharMacro, UserToken)
  {
    forall i: nat | i < |CharMacro| ensures !Overlaps(CharMacro, UserToken, i) {
      if i == 0 {
        assert CharMacro[1] != UserToken[1];
      } else if i == 1 {
        assert CharMacro[2] != UserToken[1];
      } else {
        assert CharMacro[i] != UserToken[0];
      }
    }
  }

  /** `{{user}}` cannot start within `{character}`. */
  lemma CharacterPassesUserMacro()
    ensures NoStartInside(CharacterToken, UserMacro)
  {
    forall i: nat | i < |CharacterToken| ensures !Overlaps(CharacterToken, UserMacro, i) {
      if i == 0 {
        assert CharacterToken[1] != UserMacro[1];
      } else {
        assert CharacterToken[i] != UserMacro[0];
      }
    }
  }

  /** `{character}` cannot start within `{user}`. */
  lemma UserPassesCharacter()
    ensures NoStartInside(UserToken, CharacterToken)
  {
    forall i: nat | i < |UserToken| ensures !Overlaps(UserToken, CharacterToken, i) {
      if i == 0 {
        assert UserToken[1] != CharacterToken[1];
      } else {
        assert UserToken[i] != CharacterToken[0];
      }
    }
  }

  /** `{{char}}` cannot start within `{{user}}`. */
  lemma UserMacroPassesChar()
    ensures NoStartInside(UserMacro, CharMacro)
  {
    forall i: nat | i < |UserMacro| ensures !Overlaps(UserMacro, CharMacro, i) {
      if i == 0 {
        assert UserMacro[2] != CharMacro[2];
      } else if i == 1 {
        assert UserMacro[2] != CharMacro[1];
      } else {
        assert UserMacro[i] != CharMacro[0];
      }
    }
  }

  /** Neither rewrite that collapses the macros can produce `{{char}}`. */
  lemma CollapsedAvoidsCharMacro()
    ensures Unaligned(CharMacro[1..], CharacterToken) && NoStartInside(CharacterToken, CharMacro)
    ensures Unaligned(CharMacro[1..], UserToken) && NoStartInside(UserToken, CharMacro)
  {
    var w := CharMacro[1..];
    forall i | 0 <= i < |w| ensures !Overlaps(CharacterToken, w[i..], 0) && !Overlaps(UserToken, w[i..], 0) {
      if i == 0 {
        assert w[i..][5] != CharacterToken[5];
        assert w[i..][1] != UserToken[1];
      } else {
        assert w[i..][0] != CharacterToken[0];
      }
    }
    forall i: nat | i < |CharacterToken| ensures !Overlaps(CharacterToken, CharMacro, i) {
      if i == 0 {
        assert CharacterToken[1] != CharMacro[1];
      } else {
        assert CharacterToken[i] != CharMacro[0];
      }
    }
    forall i: nat | i < |UserToken| ensures !Overlaps(UserToken, CharMacro, i) {
      if i == 0 {
        assert UserToken[1] != CharMacro[1];
      } else {
        assert UserToken[i] != CharMacro[0];
      }
    }
  }

  /** A brace followed by `char}}` or `user}}` cannot be lined up with the
      first braces of any of the tokens it is compared with. */
  lemma BracedTailsUnaligned()
    ensures Unaligned("user}", CharMacro)
    ensures Unaligned("{char}}", CharMacro) && Unaligned("{char}}", UserMacro)
    ensures Unaligned("{user}}", CharMacro) && Unaligned("{user}}", UserMacro)
    ensures Unaligned("{user}}", CharacterToken)
  {
    UnalignedByHead("user}", CharMacro);
    var c: string := "{char}}";
    forall i | 0 <= i < |c| ensures !Overlaps(CharMacro, c[i..], 0) && !Overlaps(UserMacro, c[i..], 0) {
      if i == 0 {
        assert c[i..][1] != CharMacro[1];
      } else {
        assert c[i..][0] != CharMacro[0];
      }
    }
    var u: string := "{user}}";
    forall i | 0 <= i < |u| ensures !Overlaps(CharMacro, u[i..], 0) && !Overlaps(UserMacro, u[i..], 0) && !Overlaps(CharacterToken, u[i..], 0) {
      if i == 0 {
        assert u[i..][1] != CharMacro[1];
        assert u[i..][1] != CharacterToken[1];
      } else {
        assert u[i..][0] != CharMacro[0];
      }
    }
  }
}
