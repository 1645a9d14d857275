/** The placeholder substitution of the scaffolder (src/init.js): the table
    of tokens built by `initProject` and the loop of `replacePlaceholders`
    that applies it to a file's text, one token after the other. */
module Placeholders {
  import opened Text
  import opened Utils

  const NameToken: string := "{{PROJECT_NAME}}"
  const KebabToken: string := "{{PROJECT_NAME_KEBAB}}"
  const SnakeToken: string := "{{PROJECT_NAME_SNAKE}}"
  const PortToken: string := "{{PORT}}"

  /** The tokens, in the order the replacement object lists them. */
  const Tokens: seq<string> := [NameToken, KebabToken, SnakeToken, PortToken]

  /** One key of the replacement object and the text that replaces it. */
  datatype Entry = Entry(token: string, value: string)

  /** The replacement object `initProject` builds. */
  datatype Replacements = Replacements(name: string, kebab: string, snake: string, port: string) {
    /** `Object.entries(replacements)`: insertion order. */
    function Entries(): (es: seq<Entry>)
      ensures |es| == |Tokens| && TokensNonEmpty(es)
      ensures forall k :: 0 <= k < |es| ==> es[k].token == Tokens[k]
    {
      [Entry(NameToken, name), Entry(KebabToken, kebab), Entry(SnakeToken, snake), Entry(PortToken, port)]
    }
  }

  /** The object for a project: the name as given, its two spellings, and
      `port.toString()`, which `parseInt` reads back as the port. */
  function ForProject(name: string, port: int): (r: Replacements)
    ensures ParseInt(r.port) == Some(port)
  {
    ParseIntRoundTrip(port, []);
    assert IntToString(port) + [] == IntToString(port);
    Replacements(name, ToKebabCase(name), ToSnakeCase(name), IntToString(port))
  }

  predicate TokensNonEmpty(entries: seq<Entry>) {
    forall k :: 0 <= k < |entries| ==> entries[k].token != []
  }

  /** The text after each entry, in order, has replaced every occurrence of
      its token in what the entries before it left. */
  function ApplyAll(content: string, entries: seq<Entry>): string
    requires TokensNonEmpty(entries)
    decreases |entries|
  {
    if entries == [] then content
    else
      var last := entries[|entries| - 1];
      ReplaceAll(ApplyAll(content, entries[..|entries| - 1]), last.token, last.value)
  }

  /** `replacePlaceholders(content, replacements)`. */
  method ReplacePlaceholders(content: string, replacements: Replacements) returns (result: string)
    ensures result == ApplyAll(content, replacements.Entries())
  {
    var entries := replacements.Entries();
    result := content;
    for i := 0 to |entries|
      invariant result == ApplyAll(content, entries[..i])
    {
      assert entries[..i + 1][..i] == entries[..i];
      result := ReplaceAll(result, entries[i].token, entries[i].value);
    }
    assert entries[..|entries|] == entries;
  }

  // ---------------------------------------------------------------------
  // What the substitution does
  // ---------------------------------------------------------------------

  /** The tokens hold no lowercase letter and no digit. */
  lemma TokensAreUppercase(k: nat, i: nat)
    requires k < |Tokens| && i < |Tokens[k]|
    ensures !IsLower(Tokens[k][i]) && !IsDigit(Tokens[k][i])
    ensures Delimited(Tokens[k])
  {
  }

  /** A value that no token can absorb: no brace, and some character that
      occurs in none of the tokens. */
  predicate SafeValue(v: string) {
    BraceFree(v) && forall k :: 0 <= k < |Tokens| ==> HasCharOutside(v, Tokens[k])
  }

  lemma SafeWithLowerOrDigit(v: string)
    requires BraceFree(v) && HasLowerOrDigit(v)
    ensures SafeValue(v)
  {
    var i :| 0 <= i < |v| && (IsLower(v[i]) || IsDigit(v[i]));
    forall k | 0 <= k < |Tokens| ensures HasCharOutside(v, Tokens[k]) {
      forall j | 0 <= j < |Tokens[k]| ensures Tokens[k][j] != v[i] {
        TokensAreUppercase(k, j);
      }
    }
  }

  /** Text with none of the tokens comes back unchanged. */
  lemma {:induction false} ApplyAllWithoutTokens(content: string, entries: seq<Entry>)
    requires TokensNonEmpty(entries)
    requires forall k :: 0 <= k < |entries| ==> !Contains(content, entries[k].token)
    ensures ApplyAll(content, entries) == content
    decreases |entries|
  {
    if entries != [] {
      var last := entries[|entries| - 1];
      ApplyAllWithoutTokens(content, entries[..|entries| - 1]);
      ReplaceAllWithoutToken(content, last.token, last.value);
    }
  }

  /** `replacePlaceholders` leaves a file without placeholders as it is. */
  lemma NoPlaceholderNoChange(content: string, r: Replacements)
    requires forall k :: 0 <= k < |Tokens| ==> !Contains(content, Tokens[k])
    ensures ApplyAll(content, r.Entries()) == content
  {
    var entries := r.Entries();
    assert forall k :: 0 <= k < |entries| ==> entries[k].token == Tokens[k];
    ApplyAllWithoutTokens(content, entries);
  }

  /** One replacement clears its own token and keeps any other token away,
      when the value inserted cannot take part in an occurrence. */
  lemma ReplaceKeepsTokenAbsent(s: string, t: string, v: string, u: string)
    requires t != [] && Delimited(u) && BraceFree(v) && HasCharOutside(v, u)
    requires u == t || !Contains(s, u)
    ensures !Contains(ReplaceAll(s, t, v), u)
  {
    ReplaceAllLeavesNoOccurrence([], s, t, v, u);
    assert [] + s == s;
    assert [] + ReplaceAll(s, t, v) == ReplaceAll(s, t, v);
  }

  /** After the entries are applied, no token of theirs is left, when every
      value is one the token cannot absorb. */
  lemma {:induction false} ApplyAllLeavesNoToken(content: string, entries: seq<Entry>, u: string)
    requires TokensNonEmpty(entries) && Delimited(u)
    requires exists k :: 0 <= k < |entries| && entries[k].token == u
    requires forall k :: 0 <= k < |entries| ==> BraceFree(entries[k].value) && HasCharOutside(entries[k].value, u)
    ensures !Contains(ApplyAll(content, entries), u)
    decreases |entries|
  {
    var n := |entries|;
    var last := entries[n - 1];
    var init := entries[..n - 1];
    if last.token != u {
      var k :| 0 <= k < n && entries[k].token == u;
      assert init[k] == entries[k];
      ApplyAllLeavesNoToken(content, init, u);
    }
    ReplaceKeepsTokenAbsent(ApplyAll(content, init), last.token, last.value, u);
  }

  /** With values no token can absorb, no placeholder survives the substitution. */
  lemma NoTokenSurvives(content: string, r: Replacements)
    requires SafeValue(r.name) && SafeValue(r.kebab) && SafeValue(r.snake) && SafeValue(r.port)
    ensures forall k :: 0 <= k < |Tokens| ==> !Contains(ApplyAll(content, r.Entries()), Tokens[k])
  {
    var entries := r.Entries();
    forall k | 0 <= k < |Tokens| ensures !Contains(ApplyAll(content, entries), Tokens[k]) {
      TokensAreUppercase(k, 0);
      assert entries[k].token == Tokens[k];
      ApplyAllLeavesNoToken(content, entries, Tokens[k]);
    }
  }

  /** For a valid name with a lowercase letter or digit, whatever the port,
      no placeholder survives in any file. */
  lemma ValidNameLeavesNoToken(content: string, name: string, port: int)
    requires ValidateProjectName(name) == Valid && HasLowerOrDigit(name)
    ensures forall k :: 0 <= k < |Tokens| ==> !Contains(ApplyAll(content, ForProject(name, port).Entries()), Tokens[k])
  {
    var r := ForProject(name, port);
    ValidNameIsBraceFree(name);
    SafeWithLowerOrDigit(name);
    var i :| 0 <= i < |name| && (IsLower(name[i]) || IsDigit(name[i]));
    assert HasAlphanumeric(name);
    ConvertKeepsBraceFree(name, Kebab);
    ConvertKeepsAlphanumeric(name, Kebab);
    SafeWithLowerOrDigit(r.kebab);
    ConvertKeepsBraceFree(name, Snake);
    ConvertKeepsAlphanumeric(name, Snake);
    SafeWithLowerOrDigit(r.snake);
    SafeWithLowerOrDigit(r.port);
    NoTokenSurvives(content, r);
  }

  /** One more entry is one more global replace. */
  lemma ApplyAllStep(content: string, entries: seq<Entry>, i: nat)
    requires TokensNonEmpty(entries) && i < |entries|
    ensures ApplyAll(content, entries[..i + 1]) ==
            ReplaceAll(ApplyAll(content, entries[..i]), entries[i].token, entries[i].value)
  {
    assert entries[..i + 1][..i] == entries[..i];
  }

  /** Once no later token occurs in the text, the later entries leave it as it is. */
  lemma {:induction false} ApplyAllRestAbsent(content: string, entries: seq<Entry>, i: nat, s: string)
    requires TokensNonEmpty(entries) && i <= |entries|
    requires ApplyAll(content, entries[..i]) == s
    requires forall j :: i <= j < |entries| ==> !Contains(s, entries[j].token)
    ensures ApplyAll(content, entries) == s
    decreases |entries| - i
  {
    if i < |entries| {
      ApplyAllStep(content, entries, i);
      ReplaceAllWithoutToken(s, entries[i].token, entries[i].value);
      ApplyAllRestAbsent(content, entries, i + 1, s);
    } else {
      assert entries[..i] == entries;
    }
  }

  /** In `{{PROJECT_{{PROJECT_NAME}}}}` the only occurrence of the name token
      is the inner one. */
  lemma NestedNameToken(v: string)
    ensures ReplaceAll("{{PROJECT_" + NameToken + "}}", NameToken, v) == "{{PROJECT_" + v + "}}"
  {
    var x := "{{PROJECT_" + (NameToken + "}}");
    NestedPrefixClear();
    ReplaceAllSkipsClearPrefix("{{PROJECT_", NameToken + "}}", NameToken, v);
    ReplaceAllAtToken([], NameToken, "}}", v);
    assert [] + NameToken + "}}" == NameToken + "}}";
    assert ReplaceAll("}}", NameToken, v) == "}}";
    AppendAssoc("{{PROJECT_", NameToken, "}}");
    assert [] + v + "}}" == v + "}}";
    AppendAssoc("{{PROJECT_", v, "}}");
  }

  /** No occurrence of the name token starts in the outer `{{PROJECT_`. */
  lemma NestedPrefixClear()
    ensures ClearBefore("{{PROJECT_" + (NameToken + "}}"), NameToken, 10)
  {
    var x := "{{PROJECT_" + (NameToken + "}}");
    assert |x| == 28;
    assert x[10] == '{';
    MismatchAt(x, NameToken, 0, 10);
    assert x[2] == 'P';
    MismatchAt(x, NameToken, 1, 1);
    forall p | 2 <= p < 10 ensures !OccursAt(x, NameToken, p) {
      assert x[p] != '{';
      MismatchAt(x, NameToken, p, 0);
    }
  }

  /** The name token holds none of the other three. */
  lemma NameTokenHoldsNoOtherToken()
    ensures !Contains(NameToken, KebabToken) && !Contains(NameToken, SnakeToken)
    ensures !Contains(NameToken, PortToken)
  {
    assert |NameToken| == 16 && |KebabToken| == 22 && |SnakeToken| == 22;
    NameTokenHoldsNoPortToken();
  }

  lemma NameTokenHoldsNoPortToken()
    ensures !Contains(NameToken, PortToken)
  {
    assert |NameToken| == 16 && |PortToken| == 8;
    assert NameToken[3] == 'R' && NameToken[2] == 'P';
    MismatchAt(NameToken, PortToken, 0, 3);
    MismatchAt(NameToken, PortToken, 1, 1);
    forall p | 2 <= p <= 8 ensures !OccursAt(NameToken, PortToken, p) {
      assert NameToken[p] != '{';
      MismatchAt(NameToken, PortToken, p, 0);
    }
  }

  /** `{{PROJECT_NAME}}` occurs in neither of the longer tokens that start
      like it. */
  lemma NameTokenNotInLongerTokens()
    ensures !Contains(KebabToken, NameToken) && !Contains(SnakeToken, NameToken)
  {
    NameTokenNotIn(KebabToken);
    NameTokenNotIn(SnakeToken);
  }

  lemma NameTokenNotIn(x: string)
    requires x == KebabToken || x == SnakeToken
    ensures !Contains(x, NameToken)
  {
    assert |x| == 22 && |NameToken| == 16;
    var head := x[..15];
    assert head == "{{PROJECT_NAME_";
    forall p | 0 <= p <= |x| - |NameToken| ensures !OccursAt(x, NameToken, p) {
      if p == 0 {
        assert x[14] == head[14];
        MismatchAt(x, NameToken, 0, 14);
      } else if p == 1 {
        assert x[2] == head[2];
        MismatchAt(x, NameToken, 1, 1);
      } else {
        assert x[p] == head[p];
        MismatchAt(x, NameToken, p, 0);
      }
    }
  }

  /** The kebab placeholder gets the kebab spelling: the name step, which
      runs first, passes over it, and the later steps leave a brace-free
      value alone. */
  lemma KebabTokenGetsKebab(r: Replacements)
    requires BraceFree(r.kebab)
    ensures ApplyAll(KebabToken, r.Entries()) == r.kebab
  {
    var entries := r.Entries();
    NameTokenNotInLongerTokens();
    NameStep(KebabToken, r);
    ReplaceAllWithoutToken(KebabToken, NameToken, r.name);
    ReplaceAllOfToken(KebabToken, r.kebab);
    ApplyAllStep(KebabToken, entries, 1);
    BraceFreeHasNoToken(r.kebab, SnakeToken);
    BraceFreeHasNoToken(r.kebab, PortToken);
    ApplyAllRestAbsent(KebabToken, entries, 2, r.kebab);
  }

  /** The same for the snake placeholder, which the kebab step passes over
      too. */
  lemma SnakeTokenGetsSnake(r: Replacements)
    requires BraceFree(r.snake)
    ensures ApplyAll(SnakeToken, r.Entries()) == r.snake
  {
    var entries := r.Entries();
    NameTokenNotInLongerTokens();
    NameStep(SnakeToken, r);
    ReplaceAllWithoutToken(SnakeToken, NameToken, r.name);
    ApplyAllStep(SnakeToken, entries, 1);
    SnakeTokenWithoutKebab();
    ReplaceAllWithoutToken(SnakeToken, KebabToken, r.kebab);
    ReplaceAllOfToken(SnakeToken, r.snake);
    ApplyAllStep(SnakeToken, entries, 2);
    BraceFreeHasNoToken(r.snake, PortToken);
    ApplyAllRestAbsent(SnakeToken, entries, 3, r.snake);
  }

  /** A text that is exactly the token becomes exactly the value. */
  lemma ReplaceAllOfToken(t: string, v: string)
    requires t != []
    ensures ReplaceAll(t, t, v) == v
  {
    assert t[..|t|] == t && t[|t|..] == [];
    assert v + [] == v;
  }

  lemma SnakeTokenWithoutKebab()
    ensures !Contains(SnakeToken, KebabToken)
  {
    assert |SnakeToken| == |KebabToken| == 22;
    assert SnakeToken[15] != KebabToken[15];
    MismatchAt(SnakeToken, KebabToken, 0, 15);
  }

  /** The condition is needed: "NAME" is a valid name, and in a file holding
      `{{PROJECT_{{PROJECT_NAME}}}}` the inner token is replaced by "NAME",
      which completes a fresh `{{PROJECT_NAME}}` that the single pass does
      not revisit. */
  lemma UppercaseNameCanCompleteToken(r: Replacements)
    requires r.name == "NAME"
    ensures ValidateProjectName(r.name) == Valid
    ensures ApplyAll("{{PROJECT_" + NameToken + "}}", r.Entries()) == NameToken
  {
    UppercaseNameIsValid();
    var content := "{{PROJECT_" + NameToken + "}}";
    NameStep(content, r);
    NestedNameToken(r.name);
    NameCompletesToken();
    NameTokenHoldsNoOtherToken();
    LaterStepsKeep(content, r, NameToken);
  }

  lemma NameCompletesToken()
    ensures "{{PROJECT_" + "NAME" + "}}" == NameToken
  {
  }

  /** The first entry replaces the name token. */
  lemma NameStep(content: string, r: Replacements)
    ensures ApplyAll(content, r.Entries()[..1]) == ReplaceAll(content, NameToken, r.name)
  {
    var entries := r.Entries();
    ApplyAllStep(content, entries, 0);
    assert entries[..0] == [];
  }

  /** Text that the three later tokens do not occur in comes out of the
      later entries as it went in. */
  lemma LaterStepsKeep(content: string, r: Replacements, s: string)
    requires ApplyAll(content, r.Entries()[..1]) == s
    requires !Contains(s, KebabToken) && !Contains(s, SnakeToken) && !Contains(s, PortToken)
    ensures ApplyAll(content, r.Entries()) == s
  {
    var entries := r.Entries();
    assert entries[1].token == KebabToken && entries[2].token == SnakeToken && entries[3].token == PortToken;
    ApplyAllRestAbsent(content, entries, 1, s);
  }

  lemma UppercaseNameIsValid()
    ensures ValidateProjectName("NAME") == Valid
  {
    assert NameChars("NAME") && IsUpper("NAME"[0]);
    assert |Lower("NAME")| == 4;
    ValidNameShape("NAME");
  }

  /** Text without braces after the name step stays as it is. */
  lemma BraceFreeAfterNameStep(content: string, r: Replacements, s: string)
    requires ApplyAll(content, r.Entries()[..1]) == s && BraceFree(s)
    ensures ApplyAll(content, r.Entries()) == s
  {
    TokensAreUppercase(1, 0);
    TokensAreUppercase(2, 0);
    TokensAreUppercase(3, 0);
    BraceFreeHasNoToken(s, KebabToken);
    BraceFreeHasNoToken(s, SnakeToken);
    BraceFreeHasNoToken(s, PortToken);
    LaterStepsKeep(content, r, s);
  }

  /** The name placeholder opens once with `{{`, so it does not overlap itself. */
  lemma NameTokenOpensOnce()
    ensures OpensOnce(NameToken) && BorderFree(NameToken)
  {
    forall i | 2 <= i < |NameToken| ensures NameToken[i] != '{' {
    }
    OpensOnceBorderFree(NameToken);
  }

  /** The same for the kebab placeholder. */
  lemma KebabTokenOpensOnce()
    ensures OpensOnce(KebabToken) && BorderFree(KebabToken)
  {
    forall i | 2 <= i < |KebabToken| ensures KebabToken[i] != '{' {
    }
    OpensOnceBorderFree(KebabToken);
  }

  /** The kebab and the name placeholder part at index 14, so an
      occurrence of the name token cannot overlap a kebab token. */
  lemma KebabTokenApartFromName()
    ensures DistinctOpen(KebabToken, NameToken)
  {
    NameTokenOpensOnce();
    KebabTokenOpensOnce();
    assert KebabToken[14] != NameToken[14];
  }

  /** A value no placeholder can absorb cannot take part in a snake or a
      port placeholder. */
  lemma SafeValueInert(v: string)
    requires SafeValue(v)
    ensures Inert(v, SnakeToken) && Inert(v, PortToken)
  {
    TokensAreUppercase(2, 0);
    TokensAreUppercase(3, 0);
    assert Tokens[2] == SnakeToken && Tokens[3] == PortToken;
  }

  /** The kebab spelling of a valid name with a lowercase letter or a digit
      is a value no placeholder can absorb. */
  lemma KebabOfValidNameIsSafe(name: string)
    requires ValidateProjectName(name) == Valid && HasLowerOrDigit(name)
    ensures SafeValue(ToKebabCase(name))
  {
    ValidNameIsBraceFree(name);
    var i :| 0 <= i < |name| && (IsLower(name[i]) || IsDigit(name[i]));
    assert HasAlphanumeric(name);
    ConvertKeepsBraceFree(name, Kebab);
    ConvertKeepsAlphanumeric(name, Kebab);
    SafeWithLowerOrDigit(ToKebabCase(name));
  }

  /** Text in which none of the four placeholders occurs. */
  predicate TokenFree(s: string) {
    !Contains(s, NameToken) && !Contains(s, KebabToken) && !Contains(s, SnakeToken) && !Contains(s, PortToken)
  }

  /** The name step on pieces joined by the name token. */
  lemma NameStepOnJoin(parts: seq<string>, r: Replacements)
    requires forall k :: 0 <= k < |parts| ==> !Contains(parts[k], NameToken)
    ensures ApplyAll(Join(parts, NameToken), r.Entries()[..1]) == Join(parts, r.name)
  {
    NameStep(Join(parts, NameToken), r);
    NameTokenOpensOnce();
    ReplaceAllJoin(parts, NameToken, r.name);
  }

  /** A file whose only placeholder is `{{PROJECT_NAME}}` gets the name at
      every place and is otherwise untouched, whatever else the file holds,
      when the name cannot take part in a later placeholder. */
  lemma SingleNamePlaceholder(parts: seq<string>, r: Replacements)
    requires forall k :: 0 <= k < |parts| ==> TokenFree(parts[k])
    requires Inert(r.name, KebabToken) && Inert(r.name, SnakeToken) && Inert(r.name, PortToken)
    ensures ApplyAll(Join(parts, NameToken), r.Entries()) == Join(parts, r.name)
  {
    NameStepOnJoin(parts, r);
    var s := Join(parts, r.name);
    JoinHasNoToken(parts, r.name, KebabToken);
    JoinHasNoToken(parts, r.name, SnakeToken);
    JoinHasNoToken(parts, r.name, PortToken);
    LaterStepsKeep(Join(parts, NameToken), r, s);
  }

  /** The same when neither the pieces nor the name hold a brace: then no
      placeholder can form at all, whatever the name. */
  lemma SingleNamePlaceholderBraceFree(parts: seq<string>, r: Replacements)
    requires forall k :: 0 <= k < |parts| ==> BraceFree(parts[k])
    requires BraceFree(r.name)
    ensures ApplyAll(Join(parts, NameToken), r.Entries()) == Join(parts, r.name)
  {
    TokensAreUppercase(0, 0);
    forall k | 0 <= k < |parts| ensures !Contains(parts[k], NameToken) {
      BraceFreeHasNoToken(parts[k], NameToken);
    }
    NameStepOnJoin(parts, r);
    JoinBraceFree(parts, r.name);
    BraceFreeAfterNameStep(Join(parts, NameToken), r, Join(parts, r.name));
  }

  /** A file whose only placeholder is `{{PROJECT_NAME_KEBAB}}` gets the
      kebab spelling at every place and is otherwise untouched: the name
      step, which runs first, passes over every kebab token. */
  lemma SingleKebabPlaceholder(parts: seq<string>, r: Replacements)
    requires forall k :: 0 <= k < |parts| ==> TokenFree(parts[k])
    requires Inert(r.kebab, SnakeToken) && Inert(r.kebab, PortToken)
    ensures ApplyAll(Join(parts, KebabToken), r.Entries()) == Join(parts, r.kebab)
  {
    var entries := r.Entries();
    var content := Join(parts, KebabToken);
    var s := Join(parts, r.kebab);
    KebabTokenApartFromName();
    KebabTokenOpensOnce();
    JoinHasNoToken(parts, KebabToken, NameToken);
    NameStep(content, r);
    ReplaceAllWithoutToken(content, NameToken, r.name);
    KebabStep(content, r);
    ReplaceAllJoin(parts, KebabToken, r.kebab);
    JoinHasNoToken(parts, r.kebab, SnakeToken);
    JoinHasNoToken(parts, r.kebab, PortToken);
    StepsAfterKebabKeep(content, r, s);
  }

  /** The second entry replaces the kebab token. */
  lemma KebabStep(content: string, r: Replacements)
    ensures ApplyAll(content, r.Entries()[..2]) ==
            ReplaceAll(ApplyAll(content, r.Entries()[..1]), KebabToken, r.kebab)
  {
    ApplyAllStep(content, r.Entries(), 1);
  }

  /** Text that the snake and the port token do not occur in comes out of
      the last two entries as it went in. */
  lemma StepsAfterKebabKeep(content: string, r: Replacements, s: string)
    requires ApplyAll(content, r.Entries()[..2]) == s
    requires !Contains(s, SnakeToken) && !Contains(s, PortToken)
    ensures ApplyAll(content, r.Entries()) == s
  {
    var entries := r.Entries();
    assert entries[2].token == SnakeToken && entries[3].token == PortToken;
    ApplyAllRestAbsent(content, entries, 2, s);
  }

  /** What the template's manifest becomes: for a valid name with a
      lowercase letter or a digit, the text around the kebab placeholder is
      kept and the placeholder becomes `toKebabCase(name)`. */
  lemma ManifestGetsKebabName(before: string, after: string, name: string, port: int)
    requires TokenFree(before) && TokenFree(after)
    requires ValidateProjectName(name) == Valid && HasLowerOrDigit(name)
    ensures ApplyAll(before + KebabToken + after, ForProject(name, port).Entries()) ==
            before + ToKebabCase(name) + after
  {
    var r := ForProject(name, port);
    KebabOfValidNameIsSafe(name);
    SafeValueInert(r.kebab);
    KebabPlaceholderBetween(before, after, r);
  }

  /** One kebab placeholder between two placeholder-free texts. */
  lemma KebabPlaceholderBetween(before: string, after: string, r: Replacements)
    requires TokenFree(before) && TokenFree(after)
    requires Inert(r.kebab, SnakeToken) && Inert(r.kebab, PortToken)
    ensures ApplyAll(before + KebabToken + after, r.Entries()) == before + r.kebab + after
  {
    var parts := [before, after];
    JoinPair(before, after, KebabToken);
    JoinPair(before, after, r.kebab);
    forall k | 0 <= k < |parts| ensures TokenFree(parts[k]) {
    }
    SingleKebabPlaceholder(parts, r);
  }
}
