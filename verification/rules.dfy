/** One filter rule: parsing a filter line into a rule (NewRule), the
    option maps, and the per-rule matching decision (MatchURL). */
module Rules {
  import opened Outcomes
  import opened Strings
  import opened Domains
  import opened Translate

  /** A value of the request context, a Go map[string]interface{}: the
      engine only distinguishes booleans, strings and everything else. */
  datatype Value = Bool(b: bool) | Str(s: string) | Other

  type Context = map<string, Value>

  /** A parsed filter rule. `domainOptions` may be nil, which the engine
      distinguishes from an empty map. */
  datatype Rule = Rule(
    raw: string,
    text: string,
    regexString: string,
    isComment: bool,
    isHtmlRule: bool,
    isException: bool,
    options: map<string, bool>,
    domainOptions: Option<map<string, bool>>,
    rawOptions: seq<string>)

  /** The domain options, a nil map reading as the empty one. */
  function DomainMap(rule: Rule): map<string, bool> {
    if rule.domainOptions.Some? then rule.domainOptions.value else map[]
  }

  // ---------------------------------------------------------------------
  // Options

  /** The key an option token sets: the token without its leading tildes. */
  function FlagKey(token: string): string {
    TrimLeftChar(token, '~')
  }

  /** The value an option token sets: false for a negated (`~`) token. */
  function FlagValue(token: string): bool {
    !("~" <= token)
  }

  /** The loop that turns tokens into a flag map, one assignment per token
      in order, so a later token overrides an earlier one with the same key. */
  function FlagMap(tokens: seq<string>): (m: map<string, bool>)
    ensures forall k :: k in m <==> exists i :: 0 <= i < |tokens| && FlagKey(tokens[i]) == k
  {
    if |tokens| == 0 then map[]
    else
      var t := tokens[|tokens| - 1];
      var m := FlagMap(tokens[..|tokens| - 1]);
      assert forall i :: 0 <= i < |tokens| - 1 ==> tokens[..|tokens| - 1][i] == tokens[i];
      m[FlagKey(t) := FlagValue(t)]
  }

  /** The last token with a given key decides its value. */
  lemma {:induction false} FlagMapLastWins(tokens: seq<string>, i: nat)
    requires LastWithKey(tokens, i)
    ensures FlagKey(tokens[i]) in FlagMap(tokens)
    ensures FlagMap(tokens)[FlagKey(tokens[i])] == FlagValue(tokens[i])
  {
    if i < |tokens| - 1 {
      var init := tokens[..|tokens| - 1];
      assert init[i] == tokens[i];
      FlagMapLastWins(init, i);
    }
  }

  /** Folding a concatenation: the later tokens' map overrides the earlier. */
  lemma {:induction false} FlagMapAppend(a: seq<string>, b: seq<string>)
    ensures FlagMap(a + b) == FlagMap(a) + FlagMap(b)
    decreases |b|
  {
    if |b| == 0 {
      assert a + b == a;
    } else {
      var b' := b[..|b| - 1];
      var t := b[|b| - 1];
      assert (a + b)[..|a + b| - 1] == a + b';
      assert (a + b)[|a + b| - 1] == t;
      FlagMapAppend(a, b');
      UnionUpdate(FlagMap(a), FlagMap(b'), FlagKey(t), FlagValue(t));
    }
  }

  lemma {:induction false} UnionUpdate(m: map<string, bool>, n: map<string, bool>, k: string, v: bool)
    ensures (m + n)[k := v] == m + n[k := v]
  {
  }

  /** The domain list of a `domain=` option: both `,` and `|` separate,
      so there is one more domain than separators. */
  function DomainParts(domains: string): (parts: seq<string>)
    ensures |parts| == Count(domains, ',') + Count(domains, '|') + 1
    ensures forall i :: 0 <= i < |parts| ==> '|' !in parts[i] && ',' !in parts[i]
    ensures Join(parts, '|') == ReplaceAll(domains, ',', "|")
  {
    var s := ReplaceAll(domains, ',', "|");
    var parts := Split(s, '|');
    ReplaceAllCount(domains, ',', '|');
    assert forall i :: 0 <= i < |parts| ==> ',' !in parts[i] by {
      CountNone(s, ',');
      forall i | 0 <= i < |parts|
        ensures ',' !in parts[i]
      {
        SplitPartIn(s, '|', i, ',');
      }
    }
    JoinSplit(s, '|');
    parts
  }

  /** The last of the tokens with the key of token `i` is token `i`. */
  predicate LastWithKey(tokens: seq<string>, i: int) {
    0 <= i < |tokens| && forall j :: i < j < |tokens| ==> FlagKey(tokens[j]) != FlagKey(tokens[i])
  }

  /** parseDomainOption: the text after `domain=` as a flag map, each
      domain set by the last part naming it, to false when that part
      starts with `~`. */
  function ParseDomainOption(text: string): (m: map<string, bool>)
    requires |text| >= 7
    ensures |m| >= 1
    ensures forall k :: k in m <==>
      exists i :: 0 <= i < |DomainParts(text[7..])| && FlagKey(DomainParts(text[7..])[i]) == k
    ensures var parts := DomainParts(text[7..]);
      forall i :: LastWithKey(parts, i) ==> m[FlagKey(parts[i])] == FlagValue(parts[i])
  {
    var parts := DomainParts(text[7..]);
    var m := FlagMap(parts);
    assert FlagKey(parts[0]) in m;
    assert |m| >= 1 by { assert FlagKey(parts[0]) in m.Keys; }
    assert forall i :: LastWithKey(parts, i) ==> m[FlagKey(parts[i])] == FlagValue(parts[i]) by {
      forall i | LastWithKey(parts, i)
        ensures m[FlagKey(parts[i])] == FlagValue(parts[i])
      {
        FlagMapLastWins(parts, i);
      }
    }
    m
  }

  /** A comma and a pipe separate the domains of a `domain=` option alike,
      and the domains after the separator override the ones before it. */
  lemma {:induction false} DomainOptionSeparators(a: string, b: string)
    ensures ParseDomainOption("domain=" + a + "," + b) == ParseDomainOption("domain=" + a + "|" + b)
    ensures ParseDomainOption("domain=" + a + "|" + b)
         == ParseDomainOption("domain=" + a) + ParseDomainOption("domain=" + b)
  {
    assert ("domain=" + a + "," + b)[7..] == a + [','] + b;
    assert ("domain=" + a + "|" + b)[7..] == a + ['|'] + b;
    assert ("domain=" + a)[7..] == a;
    assert ("domain=" + b)[7..] == b;
    ReplaceAllAppend(a + [','], b, ',', "|");
    ReplaceAllAppend(a, [','], ',', "|");
    ReplaceAllAppend(a + ['|'], b, ',', "|");
    ReplaceAllAppend(a, ['|'], ',', "|");
    var ra := ReplaceAll(a, ',', "|");
    var rb := ReplaceAll(b, ',', "|");
    assert ReplaceAll([','], ',', "|") == "|";
    assert ReplaceAll(['|'], ',', "|") == "|";
    assert DomainParts(a + [','] + b) == Split(ra + ['|'] + rb, '|');
    assert DomainParts(a + ['|'] + b) == Split(ra + ['|'] + rb, '|');
    SplitAround(ra, rb, '|');
    FlagMapAppend(Split(ra, '|'), Split(rb, '|'));
  }

  /** A `domain=` option with nothing after it names the empty domain, as
      a required one. */
  lemma EmptyDomainOption()
    ensures ParseDomainOption("domain=") == map["" := true]
  {
    assert "domain="[7..] == "";
    assert DomainParts("") == [""];
    assert FlagKey("") == "" && FlagValue("");
  }

  /** The tokens that replace the domain options instead of setting a flag. */
  predicate IsDomainToken(token: string) {
    "domain=" <= token
  }

  /** What the option loop of NewRule builds. */
  datatype OptionMaps = OptionMaps(options: map<string, bool>, domainOptions: Option<map<string, bool>>)

  /** The option loop of NewRule, one token at a time in order: a `domain=`
      token replaces the domain options, any other token sets a flag. The
      domain options stay nil when no `domain=` token occurs. */
  function ApplyOptions(tokens: seq<string>): (p: OptionMaps)
    ensures p.domainOptions.Some? ==> |p.domainOptions.value| >= 1
  {
    if |tokens| == 0 then OptionMaps(map[], None)
    else
      var t := tokens[|tokens| - 1];
      var p := ApplyOptions(tokens[..|tokens| - 1]);
      if IsDomainToken(t) then p.(domainOptions := Some(ParseDomainOption(t)))
      else p.(options := p.options[FlagKey(t) := FlagValue(t)])
  }

  /** Token `i` is a flag token for key `k`. */
  ghost predicate SetsFlag(tokens: seq<string>, i: int, k: string) {
    0 <= i < |tokens| && !IsDomainToken(tokens[i]) && FlagKey(tokens[i]) == k
  }

  /** The flags set are exactly the keys of the tokens other than `domain=`. */
  lemma {:induction false} ApplyOptionsKeys(tokens: seq<string>, k: string)
    ensures k in ApplyOptions(tokens).options <==> exists i :: SetsFlag(tokens, i, k)
  {
    if |tokens| > 0 {
      var n := |tokens| - 1;
      ApplyOptionsKeys(tokens[..n], k);
      ApplyOptionsStep(tokens, k);
      if k in ApplyOptions(tokens).options && !SetsFlag(tokens, n, k) {
        var i :| SetsFlag(tokens[..n], i, k);
        SetsFlagGrow(tokens, i, k);
      }
      if exists i :: SetsFlag(tokens, i, k) {
        var i :| SetsFlag(tokens, i, k);
        if i < n {
          SetsFlagShrink(tokens, i, k);
        }
      }
    }
  }

  /** The last token adds its flag, or leaves the flags alone. */
  lemma ApplyOptionsStep(tokens: seq<string>, k: string)
    requires |tokens| > 0
    ensures var n := |tokens| - 1;
      k in ApplyOptions(tokens).options <==>
        k in ApplyOptions(tokens[..n]).options || SetsFlag(tokens, n, k)
  {
  }

  lemma SetsFlagGrow(tokens: seq<string>, i: int, k: string)
    requires |tokens| > 0 && SetsFlag(tokens[..|tokens| - 1], i, k)
    ensures SetsFlag(tokens, i, k)
  {
    assert tokens[..|tokens| - 1][i] == tokens[i];
  }

  lemma SetsFlagShrink(tokens: seq<string>, i: int, k: string)
    requires SetsFlag(tokens, i, k) && i < |tokens| - 1
    ensures SetsFlag(tokens[..|tokens| - 1], i, k)
  {
    assert tokens[..|tokens| - 1][i] == tokens[i];
  }

  /** The domain options stay nil exactly when no `domain=` token occurs. */
  lemma {:induction false} ApplyOptionsNilDomain(tokens: seq<string>)
    ensures ApplyOptions(tokens).domainOptions.None? <==>
      forall i :: 0 <= i < |tokens| ==> !IsDomainToken(tokens[i])
  {
    if |tokens| > 0 {
      var init := tokens[..|tokens| - 1];
      ApplyOptionsNilDomain(init);
      assert forall i :: 0 <= i < |init| ==> init[i] == tokens[i];
    }
  }

  /** The last `domain=` token alone decides the domain options. */
  lemma {:induction false} ApplyOptionsLastDomain(tokens: seq<string>, i: nat)
    requires i < |tokens| && IsDomainToken(tokens[i])
    requires forall j :: i < j < |tokens| ==> !IsDomainToken(tokens[j])
    ensures ApplyOptions(tokens).domainOptions == Some(ParseDomainOption(tokens[i]))
  {
    if i < |tokens| - 1 {
      var init := tokens[..|tokens| - 1];
      assert init[i] == tokens[i];
      ApplyOptionsLastDomain(init, i);
    }
  }

  /** The last flag token with a given key decides that flag. */
  lemma {:induction false} ApplyOptionsLastFlag(tokens: seq<string>, i: nat)
    requires i < |tokens| && !IsDomainToken(tokens[i])
    requires forall j :: i < j < |tokens| && !IsDomainToken(tokens[j]) ==>
      FlagKey(tokens[j]) != FlagKey(tokens[i])
    ensures FlagKey(tokens[i]) in ApplyOptions(tokens).options
    ensures ApplyOptions(tokens).options[FlagKey(tokens[i])] == FlagValue(tokens[i])
  {
    if i < |tokens| - 1 {
      var init := tokens[..|tokens| - 1];
      assert init[i] == tokens[i];
      ApplyOptionsLastFlag(init, i);
    }
  }

  // ---------------------------------------------------------------------
  // Parsing a filter line

  /** Comment lines: `!` comments and the `[Adblock ...]` header. */
  predicate IsCommentText(text: string) {
    HasAnyPrefix(text, ["!", "[Adblock"])
  }

  /** Element-hiding rules (`##`, and their exceptions `#@#`). */
  predicate IsHtmlText(text: string) {
    ContainsAny(text, ["##", "#@#"])
  }

  /** The trimmed line without its `@@` exception marker. */
  function RuleBody(line: string): string {
    var t := TrimSpace(line);
    if !IsCommentText(t) && "@@" <= t then t[2..] else t
  }

  /** The match text of a rule body: what precedes its first `$`. */
  function MatchText(body: string): string {
    if '$' in body then body[..IndexOf(body, '$')] else body
  }

  /** The option tokens of a rule body: what follows its first `$`, split
      at every comma (splitOptions). */
  function OptionTokens(body: string): seq<string> {
    if '$' in body then Split(body[IndexOf(body, '$') + 1..], ',') else []
  }

  /** The body is the match text, then `$` and the tokens joined by commas. */
  lemma OptionTokensJoin(body: string)
    requires '$' in body
    ensures '$' !in MatchText(body)
    ensures body == MatchText(body) + "$" + Join(OptionTokens(body), ',')
  {
    MatchTextHasNoDollar(body);
    OptionTokensRebuild(body);
  }

  lemma MatchTextHasNoDollar(body: string)
    requires '$' in body
    ensures '$' !in MatchText(body)
  {
  }

  lemma OptionTokensRebuild(body: string)
    requires '$' in body
    ensures body == MatchText(body) + "$" + Join(OptionTokens(body), ',')
  {
    var i := IndexOf(body, '$');
    JoinSplit(body[i + 1..], ',');
    SliceAround(body, i);
  }

  /** NewRule up to the translation step: classification, the `@@` strip,
      and the option list after the first `$`. */
  function ParseFields(line: string): (r: Rule)
    ensures r.raw == line && r.regexString == ""
  {
    var t := TrimSpace(line);
    var isComment := IsCommentText(t);
    var isHtml := !isComment && IsHtmlText(t);
    var isException := !isComment && "@@" <= t;
    var body := RuleBody(line);
    if !isComment && '$' in body then
      var tokens := OptionTokens(body);
      var p := ApplyOptions(tokens);
      Rule(line, MatchText(body), "", isComment, isHtml, isException, p.options, p.domainOptions, tokens)
    else
      Rule(line, body, "", isComment, isHtml, isException, map[], Some(map[]), [])
  }

  lemma {:induction false} CommentTextIff(t: string)
    ensures IsCommentText(t) <==> "!" <= t || "[Adblock" <= t
  {
    var ps := ["!", "[Adblock"];
    assert ps[0] == "!" && ps[1] == "[Adblock";
  }

  lemma {:induction false} HtmlTextIff(t: string)
    ensures IsHtmlText(t) <==> Contains(t, "##") || Contains(t, "#@#")
  {
    var ps := ["##", "#@#"];
    assert ps[0] == "##" && ps[1] == "#@#";
  }

  /** A line is a comment exactly when its trimmed text starts with `!` or
      `[Adblock`; a comment is neither an element-hiding rule nor an
      exception, keeps its trimmed text, and has no options. */
  lemma {:induction false} ParseFieldsComment(line: string)
    ensures var r := ParseFields(line); var t := TrimSpace(line);
      r.isComment <==> ("!" <= t || "[Adblock" <= t)
    ensures var r := ParseFields(line);
      r.isComment ==>
        && !r.isHtmlRule && !r.isException
        && r.text == TrimSpace(line)
        && r.options == map[] && r.domainOptions == Some(map[]) && r.rawOptions == []
  {
    CommentTextIff(TrimSpace(line));
  }

  /** Any other line is an exception exactly when it starts with `@@`, which
      is then removed, and an element-hiding rule exactly when it holds `##`
      or `#@#`. */
  lemma {:induction false} ParseFieldsClassify(line: string)
    requires !ParseFields(line).isComment
    ensures var r := ParseFields(line); var t := TrimSpace(line);
      && (r.isException <==> "@@" <= t)
      && (r.isHtmlRule <==> Contains(t, "##") || Contains(t, "#@#"))
      && RuleBody(line) == if r.isException then t[2..] else t
  {
    HtmlTextIff(TrimSpace(line));
  }

  /** The options after the first `$`: the stored text is what precedes it,
      and the raw tokens are the comma-free pieces whose join with commas
      gives back what follows it; the
      option maps are what the option loop builds from the tokens. Without
      a `$` the text is the whole body and the domain options are empty
      but not nil. */
  lemma {:induction false} ParseFieldsOptions(line: string)
    requires !ParseFields(line).isComment
    ensures var r := ParseFields(line); var body := RuleBody(line);
      '$' in body ==>
        && '$' !in r.text
        && body == r.text + "$" + Join(r.rawOptions, ',')
        && |r.rawOptions| >= 1 && (forall i :: 0 <= i < |r.rawOptions| ==> ',' !in r.rawOptions[i])
        && OptionMaps(r.options, r.domainOptions) == ApplyOptions(r.rawOptions)
    ensures var r := ParseFields(line); var body := RuleBody(line);
      '$' !in body ==>
        && r.text == body && r.rawOptions == []
        && r.options == map[] && r.domainOptions == Some(map[])
  {
    var body := RuleBody(line);
    if '$' in body {
      OptionTokensJoin(body);
    }
  }

  /** Options are split at every comma before any of them is read, so in
      `$domain=a,b` only `a` is a domain and `b` becomes a flag of its own. */
  lemma {:induction false} DomainListSplitsAtComma(t: string, a: string, b: string)
    requires '$' !in t && ',' !in a && ',' !in b && !IsDomainToken(b)
    ensures var tokens := OptionTokens(t + "$domain=" + a + "," + b);
      && tokens == ["domain=" + a, b]
      && ApplyOptions(tokens) == OptionMaps(map[FlagKey(b) := FlagValue(b)], Some(ParseDomainOption("domain=" + a)))
  {
    var rest := "domain=" + a + "," + b;
    var body := t + "$domain=" + a + "," + b;
    assert body == t + ("$" + rest);
    IndexOfAfterPrefix(t, "$" + rest, '$');
    assert body[|t| + 1..] == rest;
    var parts := ["domain=" + a, b];
    assert ',' !in "domain=";
    assert Join(parts, ',') == rest by {
      assert parts[1..] == [b];
    }
    SplitJoin(parts, ',');
    assert IsDomainToken(parts[0]);
    ApplyOptionsDomainThenFlag(parts[0], b);
  }

  /** A `domain=` token followed by a flag token. */
  lemma {:induction false} ApplyOptionsDomainThenFlag(d: string, f: string)
    requires IsDomainToken(d) && !IsDomainToken(f)
    ensures ApplyOptions([d, f]) == OptionMaps(map[FlagKey(f) := FlagValue(f)], Some(ParseDomainOption(d)))
  {
    ApplyOptionsOneDomain(d);
    ApplyOptionsThenFlag(d, f);
  }

  lemma {:induction false} ApplyOptionsOneDomain(d: string)
    requires IsDomainToken(d)
    ensures ApplyOptions([d]) == OptionMaps(map[], Some(ParseDomainOption(d)))
  {
    var none: seq<string> := [];
    assert ApplyOptions(none) == OptionMaps(map[], None);
    assert [d][..0] == none;
  }

  lemma {:induction false} ApplyOptionsThenFlag(d: string, f: string)
    requires !IsDomainToken(f)
    ensures ApplyOptions([d, f]).options == ApplyOptions([d]).options[FlagKey(f) := FlagValue(f)]
    ensures ApplyOptions([d, f]).domainOptions == ApplyOptions([d]).domainOptions
  {
    assert [d, f][..1] == [d];
  }

  /** NewRule: the parsed fields, with the regular expression of the match
      text; comments and element-hiding rules get none. */
  function NewRule(line: string): (r: Result<Rule, Panic>)
    ensures r.Ok? ==> r.value == ParseFields(line).(regexString := r.value.regexString)
    ensures var f := ParseFields(line);
      r.Err? <==> !f.isComment && !f.isHtmlRule && RuleToRegexp(f.text).Err?
    ensures var f := ParseFields(line);
      r.Ok? && !f.isComment && !f.isHtmlRule ==> r.value.regexString == RuleToRegexp(f.text).value
  {
    var f := ParseFields(line);
    if f.isComment || f.isHtmlRule then Ok(f)
    else
      match RuleToRegexp(f.text)
      case Ok(re) => Ok(f.(regexString := re))
      case Err(e) => Err(e)
  }

  /** A line fails to parse exactly when its match text is a single ASCII
      character that the rewriting leaves as it is, such as `a` or `|`. */
  lemma {:induction false} NewRuleFails(line: string)
    ensures var f := ParseFields(line);
      NewRule(line).Err? <==>
        && !f.isComment && !f.isHtmlRule
        && |f.text| == 1 && f.text[0] as int < 0x80 && IsPlain(f.text[0])
  {
    RuleToRegexpFails(ParseFields(line).text);
  }

  /** The translation of a match text is empty only for the regular
      expression literal `//`. */
  lemma {:induction false} RuleToRegexpEmpty(text: string)
    requires RuleToRegexp(text).Ok?
    ensures RuleToRegexp(text).value == "" <==> text == "//"
  {
    if text != "" && !IsRegexLiteral(text) {
      RuleToRegexpIsFinish(text);
      var p := EndAnchor(Expand(text));
      StartAnchorNonEmpty(p);
    }
  }

  lemma {:induction false} StartAnchorNonEmpty(p: string)
    requires |p| > 0
    ensures |EscapeInnerPipes(StartAnchor(p))| > 0
  {
  }

  /** A parsed rule has an empty regular expression exactly when it is a
      comment, an element-hiding rule, or has the match text `//`. */
  lemma {:induction false} NewRuleEmptyRegex(line: string)
    requires NewRule(line).Ok?
    ensures var r := NewRule(line).value;
      r.regexString == "" <==> r.isComment || r.isHtmlRule || r.text == "//"
  {
    var f := ParseFields(line);
    if !f.isComment && !f.isHtmlRule {
      RuleToRegexpEmpty(f.text);
    }
  }

  /** A rule line without `$` that is not a comment gets empty, non-nil
      domain options, so its option keys are exactly `domain`. */
  lemma {:induction false} PlainRuleKeys(line: string)
    requires !ParseFields(line).isComment && '$' !in RuleBody(line)
    ensures OptionsKeys(ParseFields(line)) == {"domain"}
  {
  }

  // ---------------------------------------------------------------------
  // Option keys and support

  /** OptionsKeys: the option names the rule depends on. `match-case` is
      not one; `domain` is one whenever the domain options are non-nil, the
      engine's emptiness test being one that always holds. */
  function OptionsKeys(rule: Rule): (keys: set<string>)
    ensures "match-case" !in keys
    ensures rule.domainOptions.Some? ==> "domain" in keys
  {
    (set k | k in rule.options && k != "match-case")
      + (if rule.domainOptions.Some? then {"domain"} else {})
  }

  /** HasOption, with the same always-true emptiness test for `domain`. */
  function HasOption(rule: Rule, key: string): (r: bool)
    ensures key == "domain" ==> (r <==> rule.domainOptions.Some?)
  {
    if key == "domain" then rule.domainOptions.Some? else key in rule.options
  }

  /** The option keys are the options HasOption reports, but `match-case`;
      a flag literally named `domain` is a key as well. */
  lemma {:induction false} OptionsKeysAreOptions(rule: Rule, key: string)
    ensures key != "domain" ==>
      (key in OptionsKeys(rule) <==> HasOption(rule, key) && key != "match-case")
    ensures "domain" in OptionsKeys(rule) <==> HasOption(rule, "domain") || "domain" in rule.options
  {
  }

  /** sliceToMap: every listed string as a key, mapped to true. */
  function SliceToMap(sl: seq<string>): (m: Context)
    ensures forall k :: k in m <==> k in sl
    ensures forall k :: k in m ==> m[k] == Bool(true)
  {
    if |sl| == 0 then map[] else SliceToMap(sl[..|sl| - 1])[sl[|sl| - 1] := Bool(true)]
  }

  /** The loop of isSuperSet: every string of `sr` is a key of `mr`. */
  function AllKeysIn(sr: seq<string>, mr: Context): (r: bool)
    ensures r <==> forall i :: 0 <= i < |sr| ==> sr[i] in mr
  {
    if |sr| == 0 then true
    else if sr[0] !in mr then false
    else AllKeysIn(sr[1..], mr)
  }

  /** isSuperSet(a, b, reverse). */
  function IsSuperSet(a: seq<string>, b: seq<string>, reverse: bool): (r: bool)
    ensures !reverse ==> (r <==> forall i :: 0 <= i < |a| ==> a[i] in b)
    ensures reverse ==> (r <==> forall i :: 0 <= i < |b| ==> b[i] in a)
  {
    if !reverse then AllKeysIn(a, SliceToMap(b)) else AllKeysIn(b, SliceToMap(a))
  }

  /** MatchingSupported: not a comment, not an element-hiding rule, and
      every option key of the rule is present in the context. */
  function MatchingSupported(rule: Rule, ctx: Context): (r: bool)
    ensures r ==> !rule.isComment && !rule.isHtmlRule
    ensures r && rule.domainOptions.Some? ==> "domain" in ctx
  {
    !rule.isComment && !rule.isHtmlRule && OptionsKeys(rule) <= ctx.Keys
  }

  /** The engine checks the keys as lists, in map order, through isSuperSet
      with `reverse` false; for any listing of the option keys and of the
      context keys that is the set inclusion above. */
  lemma {:induction false} MatchingSupportedIsSuperSet(rule: Rule, ctx: Context, a: seq<string>, b: seq<string>)
    requires forall k :: k in OptionsKeys(rule) <==> k in a
    requires forall k :: k in ctx <==> k in b
    ensures MatchingSupported(rule, ctx) <==>
      !rule.isComment && !rule.isHtmlRule && IsSuperSet(a, b, false)
  {
    if !rule.isComment && !rule.isHtmlRule && IsSuperSet(a, b, false) {
      forall k | k in OptionsKeys(rule)
        ensures k in ctx
      {
        var i :| 0 <= i < |a| && a[i] == k;
      }
    }
  }

  // ---------------------------------------------------------------------
  // Matching one rule

  /** One option of the rule is satisfied by the context: present there,
      and equal to the rule's value when the context holds a boolean. */
  predicate OptionAccepted(rule: Rule, ctx: Context, opt: string)
    requires opt in rule.options
  {
    opt in ctx && (ctx[opt].Bool? ==> ctx[opt].b == rule.options[opt])
  }

  /** The option loop of MatchURL: it rejects as soon as one option other
      than `match-case` is not satisfied, in whatever order it visits them. */
  predicate OptionsAccepted(rule: Rule, ctx: Context) {
    forall opt :: opt in rule.options && opt != "match-case" ==> OptionAccepted(rule, ctx, opt)
  }

  /** AnyTrueValue: some entry of the map is true. */
  function AnyTrueValue(m: map<string, bool>): (r: bool)
    ensures r <==> exists k :: k in m && m[k]
  {
    true in m.Values
  }

  /** The value under the first of `vs` that is a key of `m`, if any. */
  function LookupFirst(vs: seq<string>, m: map<string, bool>): (r: Option<bool>)
    ensures r.None? <==> forall i :: 0 <= i < |vs| ==> vs[i] !in m
    ensures r.Some? ==>
      exists i :: 0 <= i < |vs| && vs[i] in m && r.value == m[vs[i]] && (forall j :: 0 <= j < i ==> vs[j] !in m)
  {
    if |vs| == 0 then None
    else if vs[0] in m then Some(m[vs[0]])
    else
      var r := LookupFirst(vs[1..], m);
      assert forall i :: 1 <= i < |vs| ==> vs[1..][i - 1] == vs[i];
      r
  }

  /** domainMatches: the most specific suffix of the domain named in the
      domain options decides (the first named variant, most specific
      first); with none named, the rule applies exactly when no entry is
      true, that is unless it is restricted to some domains. */
  function DomainMatches(rule: Rule, domain: string): (r: bool)
    ensures var vs := DomainVariants(domain); var m := DomainMap(rule);
      forall i :: 0 <= i < |vs| && vs[i] in m && (forall j :: 0 <= j < i ==> vs[j] !in m) ==> r == m[vs[i]]
    ensures var vs := DomainVariants(domain); var m := DomainMap(rule);
      (forall j :: 0 <= j < |vs| ==> vs[j] !in m) ==> (r <==> forall k :: k in m ==> !m[k])
  {
    var m := DomainMap(rule);
    var vs := DomainVariants(domain);
    match LookupFirst(vs, m)
    case Some(b) =>
      assert forall i :: 0 <= i < |vs| && vs[i] in m && (forall j :: 0 <= j < i ==> vs[j] !in m) ==> b == m[vs[i]] by {
        forall i | 0 <= i < |vs| && vs[i] in m && (forall j :: 0 <= j < i ==> vs[j] !in m)
          ensures b == m[vs[i]]
        {
          var i' :| 0 <= i' < |vs| && vs[i'] in m && b == m[vs[i']] && (forall j :: 0 <= j < i' ==> vs[j] !in m);
          assert i' == i;
        }
      }
      b
    case None => !AnyTrueValue(m)
  }

  /** Subdomains inherit the decision of their parent domain unless they are
      named themselves. */
  lemma {:induction false} DomainMatchesSubdomain(rule: Rule, head: string, domain: string)
    requires '.' !in head
    ensures var d := head + "." + domain; var m := DomainMap(rule);
      DomainMatches(rule, d) == if d in m then m[d] else DomainMatches(rule, domain)
  {
    DomainVariantsOfSubdomain(head, domain);
    var d := head + "." + domain;
    var vs := DomainVariants(domain);
    assert ([d] + vs)[1..] == vs;
  }

  /** A domain named in the domain options (with a dot) gets its own value. */
  lemma {:induction false} DomainMatchesNamed(rule: Rule, domain: string)
    requires '.' in domain && domain in DomainMap(rule)
    ensures DomainMatches(rule, domain) == DomainMap(rule)[domain]
  {
    DomainVariantsUnfold(domain);
  }

  /** A rule whose domain options only exclude domains applies on every
      domain that is not excluded, and on none that is. */
  lemma {:induction false} DomainMatchesOnlyExcluded(rule: Rule, domain: string)
    requires forall k :: k in DomainMap(rule) ==> !DomainMap(rule)[k]
    ensures DomainMatches(rule, domain) <==>
      forall i :: 0 <= i < |DomainVariants(domain)| ==> DomainVariants(domain)[i] !in DomainMap(rule)
  {
  }

  /** A rule that requires some domain applies only where a suffix of the
      domain is named with the value true, the first such suffix named. */
  lemma {:induction false} DomainMatchesRequired(rule: Rule, domain: string)
    requires AnyTrueValue(DomainMap(rule))
    ensures DomainMatches(rule, domain) ==>
      exists i :: 0 <= i < |DomainVariants(domain)|
        && DomainVariants(domain)[i] in DomainMap(rule)
        && DomainMap(rule)[DomainVariants(domain)[i]]
  {
  }

  /** MatchURL, with `pcre` deciding whether a pattern matches the address.
      A context without `domain` for a rule with domain options, and a
      `domain` entry that is not a string, stop the engine with a panic. */
  function MatchURL(rule: Rule, url: string, ctx: Context, pcre: (string, string) -> bool)
    : (r: Result<bool, Panic>)
    ensures r == Err(MissingDomain) <==>
      OptionsAccepted(rule, ctx) && |DomainMap(rule)| > 0 && "domain" !in ctx
    ensures r == Err(DomainNotString) <==>
      OptionsAccepted(rule, ctx) && "domain" in ctx && !ctx["domain"].Str?
    ensures r.Err? ==> r.error == MissingDomain || r.error == DomainNotString
    ensures r == Ok(true) <==>
      && OptionsAccepted(rule, ctx)
      && (|DomainMap(rule)| > 0 ==> "domain" in ctx)
      && ("domain" in ctx ==> ctx["domain"].Str? && DomainMatches(rule, ctx["domain"].s))
      && pcre(rule.regexString, url)
  {
    if !OptionsAccepted(rule, ctx) then Ok(false)
    else if |DomainMap(rule)| > 0 && "domain" !in ctx then Err(MissingDomain)
    else if "domain" in ctx then
      match ctx["domain"]
      case Str(d) => if !DomainMatches(rule, d) then Ok(false) else Ok(pcre(rule.regexString, url))
      case _ => Err(DomainNotString)
    else Ok(pcre(rule.regexString, url))
  }

  /** An option missing from the context rejects the address. */
  lemma {:induction false} MatchURLMissingOption(rule: Rule, url: string, ctx: Context, pcre: (string, string) -> bool, opt: string)
    requires opt in rule.options && opt != "match-case" && opt !in ctx
    ensures MatchURL(rule, url, ctx, pcre) == Ok(false)
  {
  }

  /** A boolean in the context that differs from the rule's option value
      rejects the address. */
  lemma {:induction false} MatchURLOptionMismatch(rule: Rule, url: string, ctx: Context, pcre: (string, string) -> bool, opt: string)
    requires opt in rule.options && opt != "match-case"
    requires opt in ctx && ctx[opt] == Bool(!rule.options[opt])
    ensures MatchURL(rule, url, ctx, pcre) == Ok(false)
  {
  }

  /** Context values that are not booleans never reject: when every option
      is present with such a value, only the domain and the pattern decide. */
  lemma {:induction false} MatchURLNonBoolOptions(rule: Rule, url: string, ctx: Context, pcre: (string, string) -> bool)
    requires forall opt :: opt in rule.options && opt != "match-case" ==> opt in ctx && !ctx[opt].Bool?
    ensures OptionsAccepted(rule, ctx)
  {
  }

  /** With no `domain` entry, or a string one, MatchURL never panics on a
      rule whose option keys are all in the context. */
  lemma {:induction false} MatchURLTotal(rule: Rule, url: string, ctx: Context, pcre: (string, string) -> bool)
    requires MatchingSupported(rule, ctx)
    requires "domain" in ctx ==> ctx["domain"].Str?
    ensures MatchURL(rule, url, ctx, pcre).Ok?
  {
  }
}
