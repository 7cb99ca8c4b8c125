# adblock filter engine — a Dafny model

This project models the core of the Go package `adblock`, an Adblock Plus filter matcher. The core has two parts:

- **Compiling rules.** Each filter line becomes a `Rule`: a comment, an element-hiding (HTML) rule, or a URL rule. URL rules are either blocking rules or `@@` exceptions. Each rule keeps its `$` options and its `domain=` restrictions, and gets a regular expression translated from the Adblock pattern syntax.
- **Answering `ShouldBlock`.** A rule set splits its rules into:
  - basic rules, folded into one combined pattern per side;
  - rules restricted to some domains, indexed by domain;
  - the other rules with options.

  A URL is blocked when no exception matches it and some blocking rule does.

Modules, one per component of the source:

- `Outcomes` (outcomes.dfy): `Option`, `Result`, and the `Panic` values that stand for the package's run-time panics.
- `Strings` (strings.dfy): the standard-library string operations the package relies on:
  - `strings.TrimSpace`, `TrimLeft`, `Split`, `Join`, `Replace`;
  - the `createCheckStringSetFunc` family;
  - `reverseStrings`.
- `Domains` (domains.dfy): `DomainVariants`, the suffix chain of a host name.
- `Translate` (translate.dfy): `ruleToRegexp`, the translation of a filter pattern into a regular expression.
- `Rules` (rules.go and the option helpers of utils.go):
  - the `Rule` record;
  - `NewRule`, `OptionsKeys`, `HasOption`, `MatchingSupported`;
  - `domainMatches`, `MatchURL`;
  - `parseDomainOption`, `sliceToMap`, `isSuperSet`, `AnyTrueValue`.
- `RuleSets` (the `Rules` type of rules.go and the partition helpers of utils.go):
  - `NewRules`, `splitRuleData`, `splitBlackWhite`, `splitBlackWhiteDomain`, `domainIndex`;
  - `CombinedRegex`;
  - `matches`, `IsBlackListed`, `IsWhiteListed`, `ShouldBlock`.

Modelling choices:

- **Panics are values.** A Go panic becomes an `Err` outcome:
  - `PatternTooShort`: the two-character slice in `ruleToRegexp` on a one-character pattern.
  - `MissingDomain`: `MatchURL` on a domain-restricted rule with no `domain` in the context.
  - `DomainNotString`: the type assertion on a `domain` value that is not a string.
- **Regular-expression matching is a parameter.** `RegexEngines` carries two uninterpreted predicates:
  - `pcre`, for the per-rule expressions (the PCRE wrapper);
  - `combined`, for Go's `regexp`, which the combined patterns use.

  Nothing assumes the two engines agree.
- **The option context.** The `map[string]interface{}` context is a `map<string, Value>`, where a `Value` is a boolean, a string or anything else.
- **Nil and empty maps are kept apart.** A rule's `domainOptions` is an `Option` of a map. The difference matters because `len(m) >= 0` holds for every non-nil map: a rule without `$` has an empty but non-nil map, so it reports a `domain` option. A `$` rule without a `domain=` token has a nil map, so it does not.
- **Map order.** Go's map iteration order never changes a result of the core, so maps and sets are used throughout.
- **As-written behaviour.** The model follows the code as written, including its quirks, which appear below as proved properties:
  - in `ruleToRegexp`, an inner `|` swallows the character after it;
  - `"||"` alone translates to `^$`;
  - a later `domain=` token replaces an earlier one;
  - a rule whose only option is a flag named `domain` reports a `domain` key.

Main theorems:

- `RuleSets.IsBlackListedComplete` and `RuleSets.IsWhiteListedComplete`. These assume the check-only setting is off and the context's `domain`, if present, is a string. Under those assumptions, the decision is a hit of the combined pattern of every basic rule of that side, in input order, or a supported hit among every advanced rule of that side: the indexed search of `matches` answers exactly as such a scan would.
- `Translate.RuleToRegexpFails` gives the exact set of patterns that panic.
- `Rules.MatchURL` characterises each of its outcomes: the two panics, a match, and otherwise no match.
- `RuleSets.CompileAll` and `RuleSets.NewRules` state which lines make `NewRules` fail. On success, the kept rules are exactly the parsed rules that are supported and have an expression, in line order, and the rule set is the partition of that list.

## Model

| member | source | states |
|---|---|---|
| `Strings.TrimSpace` | rules.go:53 | the result is the input with a maximal run of white space removed at each end; it neither starts nor ends with white space |
| `Strings.TrimSpaceIdempotent` | rules.go:53 | trimming twice equals trimming once |
| `Strings.TrimLeftChar` | rules.go:83 | `strings.TrimLeft(s, "~")`: removes exactly the leading run of the character, so what remains does not start with it |
| `Strings.CheckStringSet` | utils.go:44-53 | the generated function is true iff the check holds for some member of the set |
| `Strings.HasAnyPrefix` | utils.go:13 | true iff some listed string is a prefix of the text |
| `Strings.ContainsAny` | utils.go:14 | true iff some listed string occurs in the text |
| `Strings.ContainsIff` | rules.go:67 | `strings.Contains` holds iff the substring occurs at some position |
| `Strings.Split` | utils.go:55-57 | `strings.Split` on a character gives at least one part, no part holds the separator, and there is one more part than separators |
| `Strings.JoinSplit` | utils.go:55-57 | joining the parts of `splitOptions` with the separator gives back the input exactly |
| `Strings.SplitJoin` | utils.go:55-57 | splitting a join of separator-free parts gives back the parts |
| `Strings.ReplaceAll` | utils.go:62 | `strings.Replace(.., -1)` grows the text by the replacement's extra length once per occurrence, and leaves no occurrence when the replacement lacks the character; a one-character replacement changes exactly the occurrences, position by position, and keeps every other character |
| `Strings.ReplaceAllCount` | utils.go:62 | replacing `,` by `\|` turns each comma into a pipe: the pipes of the result are the commas and pipes of the input, and no comma is left |
| `Strings.ReplaceAllJoinSplit` | utils.go:62 | replacing a character by a one-character string equals splitting at it and joining with the replacement |
| `Strings.Reverse` | utils.go:117-122 | `reverseStrings` puts the element at position i at position n-1-i |
| `Strings.ReverseReverse` | utils.go:117-122 | reversing twice gives back the list |
| `Domains.DomainVariants` | utils.go:107-115 | a domain with n labels (n-1 dots) has n-1 variants |
| `Domains.LabelSuffixesIndexed` | utils.go:110-113 | variant k joins labels k, k+1, ... with dots |
| `Domains.DomainVariantsUnfold` | utils.go:107-115 | a dot-free domain has no variants; otherwise the list is the domain followed by the variants of what follows its first dot |
| `Domains.DomainVariantsOfSubdomain` | utils.go:107-115 | the variants of `label.rest` are `label.rest` followed by the variants of `rest` |
| `Domains.DomainVariantsMembers` | utils.go:107-115 | v is a variant iff v holds a dot and is the domain itself or the text after one of its dots |
| `Domains.DomainVariantsChain` | utils.go:110-113 | each variant is the next one with one more label in front, so each is a suffix of the one before |
| `Domains.DomainVariantsEnds` | utils.go:107-115 | the first variant is the whole domain and every variant holds a dot |
| `Domains.DomainVariantsFourLabels` | utils_test.go:8-22 | for any four dot-free labels, `a.b.c.d` has exactly the variants `a.b.c.d`, `b.c.d`, `c.d` |
| `Translate.EscapeSpecial` | utils.go:83-85 | escaping only lengthens the text and introduces no `^` or `*` |
| `Translate.Rewrite` | utils.go:83-87 | escaping, then replacing `^` by the separator class and `*` by `.*`, is the per-character expansion `Expand` |
| `Translate.RewriteIsExpand` | utils.go:83-87 | the three whole-string rewrites compose into the per-character expansion, since neither substituted text contains the later-replaced character |
| `Translate.EscapeInnerPipes` | utils.go:102 | the final `(\|)[^$]` replacement keeps the length and a final `$` |
| `Translate.EscapeInnerPipesLeavesNoBarePipe` | utils.go:102 | after the replacement, every `|` is escaped, is last, or precedes `$` |
| `Translate.EscapeInnerPipesAfter` | utils.go:102 | a pipe-free prefix passes through the replacement unchanged |
| `Translate.RuleToRegexp` | utils.go:71-81 | the empty pattern gives `.*`, and a `/.../` pattern of length at least two gives its inside unchanged |
| `Translate.EndAnchor` | utils.go:89-92 | the trailing-pipe step keeps the length and every character but the last; the last becomes `$` exactly when it is `\|` |
| `Translate.StartAnchor` | utils.go:94-100 | the leading-anchor step never shortens the pattern, leaves a pattern without a leading `\|` unchanged, and otherwise (except `\|\|` alone) makes it start with `^` |
| `Translate.StartAnchorKeepsRest` | utils.go:94-100 | the step replaces the leading pipes it consumes (two for `\|\|` with more text, one for a single `\|`, none otherwise) by a pipe-free anchor and keeps the rest of the pattern |
| `Translate.Finish` | utils.go:94-102 | after the trailing-pipe step, the `rule[:2]` slice panics exactly on a one-character ASCII pattern, and the panic carries that pattern |
| `Translate.RuleToRegexpFails` | utils.go:89-100 | translation panics iff the pattern is one ASCII character that escaping and expansion leave one character long |
| `Translate.RuleToRegexpUnanchored` | utils.go:86-102 | a successful pattern not starting with `\|` is its expansion, end-anchored and pipe-escaped, with no start anchor |
| `Translate.RuleToRegexpHostAnchor` | utils.go:94-97 | a leading `\|\|` with more text becomes the fixed scheme-and-host prefix followed by the translated rest |
| `Translate.RuleToRegexpStartAnchor` | utils.go:98-100 | a single leading `\|` becomes `^` followed by the translated rest |
| `Translate.RuleToRegexpEndAnchor` | utils.go:89-92 | a trailing `\|` makes the expression end with `$` |
| `Translate.ExpandTrailingPipe` | utils.go:89-92 | the trailing `\|` is replaced by `$` and the rest is expanded |
| `Translate.DoublePipeAlone` | utils.go:94-97 | `\|\|` alone translates to `^$`, because the trailing pipe is turned into `$` first |
| `Translate.PlainTranslation` | utils.go:83-102 | a pattern of plain characters, not delimited by `/` or `\|`, is only pipe-escaped |
| `Translate.InnerPipeDropsNextChar` | utils.go:102 | `a\|b` translates to `a\|`: the replacement swallows the character after an inner pipe |
| `Rules.FlagMap` | rules.go:79-85 | the flag map has a key for exactly the `~`-stripped names of the tokens |
| `Rules.FlagMapLastWins` | rules.go:83 | the last token with a given name sets the value: true unless the token starts with `~` |
| `Rules.DomainParts` | utils.go:60-62 | the domain list splits into one more part than it has `,` and `\|` separators, no part holds either, and joining the parts with `\|` gives the list with every `,` turned into `\|` |
| `Rules.ParseDomainOption` | utils.go:59-68 | the map is non-empty, its keys are exactly the `~`-stripped parts, and each key is mapped by the last part naming it: false when that part starts with `~`, true otherwise |
| `Rules.DomainOptionSeparators` | utils.go:62 | `,` and `\|` separate alike, and a two-part list maps like the union of its parts, the later part winning |
| `Rules.EmptyDomainOption` | utils.go:59-68 | `domain=` alone maps the empty domain to true |
| `Rules.ApplyOptions` | rules.go:78-85 | when a `domain=` token occurs, the domain map is non-empty |
| `Rules.ApplyOptionsKeys` | rules.go:79-85 | a flag is set iff some non-`domain=` token names it |
| `Rules.ApplyOptionsNilDomain` | rules.go:78-85 | the domain map stays nil iff no token starts with `domain=` |
| `Rules.ApplyOptionsLastDomain` | rules.go:80-81 | the last `domain=` token alone decides the domain map |
| `Rules.ApplyOptionsLastFlag` | rules.go:82-83 | the last token naming a flag decides its value |
| `Rules.OptionTokensJoin` | rules.go:67-78 | the text before the first `$` holds no `$`, and it, `$` and the comma-joined tokens rebuild the body |
| `Rules.ParseFields` | rules.go:50-52 | the raw line is stored unchanged |
| `Rules.CommentTextIff` | rules.go:54 | a comment is text starting with `!` or `[Adblock` |
| `Rules.HtmlTextIff` | rules.go:59 | an HTML rule is text containing `##` or `#@#` |
| `Rules.ParseFieldsComment` | rules.go:53-57 | a rule is a comment iff its trimmed line starts with `!` or `[Adblock`; a comment is neither HTML nor an exception and has no options but a non-nil empty domain map |
| `Rules.ParseFieldsClassify` | rules.go:58-64 | a non-comment is an exception iff it starts with `@@`, which is then removed, and is HTML iff it contains `##` or `#@#` |
| `Rules.ParseFieldsOptions` | rules.go:66-92 | with a `$`, the text is the part before the first `$` and holds no `$`; the raw options are one or more comma-free pieces that, joined with commas, give back the rest after that `$`; the maps are what the option loop builds from those pieces; without a `$`, the text is the whole body, with no options and a non-nil empty domain map |
| `Rules.DomainListSplitsAtComma` | rules.go:78-85 | the options are split at every comma before any is read, so `$domain=a,b` gives the tokens `domain=a` and `b`: the domain options come from `a` alone and `b` becomes a flag of its own |
| `Rules.NewRule` | rules.go:50-105 | the rule is the parsed fields plus the expression; it fails iff a URL rule's text fails to translate; a URL rule gets the translation of its text |
| `Rules.NewRuleFails` | rules.go:94-102 | `NewRule` fails iff the line is a URL rule whose text is one plain ASCII character |
| `Rules.RuleToRegexpEmpty` | utils.go:71-105 | a successful translation is empty iff the pattern is `//` |
| `Rules.NewRuleEmptyRegex` | rules.go:94-102 | a rule's expression is empty iff it is a comment, an HTML rule, or the pattern `//` |
| `Rules.PlainRuleKeys` | rules.go:86-91 | a non-comment without `$` has the single option key `domain` |
| `Rules.OptionsKeys` | rules.go:25-36 | `match-case` is never a key, and `domain` is one whenever the domain map is non-nil |
| `Rules.HasOption` | rules.go:38-44 | `HasOption("domain")` holds iff the domain map is non-nil, empty or not |
| `Rules.OptionsKeysAreOptions` | rules.go:25-44 | a key other than `domain` is listed iff the rule has that flag and it is not `match-case`; `domain` is listed iff `HasOption("domain")` holds or a flag is named `domain` |
| `Rules.SliceToMap` | utils.go:124-130 | the map has exactly the listed keys, each mapped to true |
| `Rules.AllKeysIn` | utils.go:170-176 | true iff every listed key is in the map |
| `Rules.IsSuperSet` | utils.go:156-177 | without `reverse`, true iff every element of the first list is in the second; with it, the other way round |
| `Rules.MatchingSupported` | rules.go:107-123 | a supported rule is neither a comment nor HTML, and a rule with a domain map needs `domain` in the context |
| `Rules.MatchingSupportedIsSuperSet` | rules.go:117-118 | support is exactly "not a comment, not HTML, and every option key is a context key", which is `isSuperSet` with `reverse` false |
| `Rules.AnyTrueValue` | utils.go:214-221 | true iff some entry of the map is true |
| `Rules.LookupFirst` | rules.go:179-183 | the lookup finds the value of the first listed key present in the map, and nothing iff none is present |
| `Rules.DomainMatches` | rules.go:178-190 | the first variant named in the domain map decides; with none named, the rule matches iff no entry is true |
| `Rules.DomainMatchesSubdomain` | rules.go:178-190 | a subdomain not named itself inherits its parent domain's decision |
| `Rules.DomainMatchesNamed` | rules.go:179-183 | a dotted domain named in the map gets its own entry's value |
| `Rules.DomainMatchesOnlyExcluded` | rules.go:184-189 | with only `~` entries, the rule matches iff no variant is excluded |
| `Rules.DomainMatchesRequired` | rules.go:178-190 | a rule restricted to some domains matches only when some variant is mapped to true |
| `Rules.MatchURL` | rules.go:126-169 | it panics for a missing domain iff the options pass and the domain map is non-empty with no `domain` key; it panics on the type assertion iff the options pass and `domain` is not a string; it is true iff the options pass, the domain check passes and the expression matches; it panics in no other way, so in every other case it is false |
| `Rules.MatchURLMissingOption` | rules.go:132-136 | a rule flag other than `match-case` that is missing from the context rejects the URL |
| `Rules.MatchURLOptionMismatch` | rules.go:139-150 | a boolean context value that differs from the rule's flag rejects the URL |
| `Rules.MatchURLNonBoolOptions` | rules.go:139-150 | present non-boolean context values never reject |
| `Rules.MatchURLTotal` | rules.go:153-166 | for a supported rule and a string or absent `domain`, `MatchURL` does not panic |
| `RuleSets.DefaultSupportsHasDomain` | rules.go:249-251 | the default supported options include `domain` |
| `RuleSets.DefaultOptions` | utils.go:132-134 | the default context maps exactly the twenty binary options to true |
| `RuleSets.SplitRuleData` | utils.go:179-189 | every element of the first list satisfies the predicate, none of the second does, and together they are a permutation of the input |
| `RuleSets.SplitRuleDataMembers` | utils.go:179-195 | an element lands in the first list iff it is in the input and satisfies the predicate, and in the second iff it does not |
| `RuleSets.SplitRuleDataAppend` | utils.go:179-189 | splitting a concatenation concatenates the splits, so relative order is kept on both sides |
| `RuleSets.SplitBlackWhite` | utils.go:191-195 | the first list holds only blocking rules, the second only exceptions, and together they are a permutation of the input |
| `RuleSets.SplitBlackWhiteDomain` | utils.go:197-200 | the blocking index has an entry for a domain iff some blocking rule requires it, and that entry lists exactly the blocking rules that require it; the exception index does the same for the exceptions |
| `RuleSets.DomainIndexKeys` | utils.go:202-212 | the index has a key iff some of its rules requires that domain |
| `RuleSets.RulesRequiring` | utils.go:202-212 | the rules listed for a domain are exactly those whose domain map sends it to true |
| `RuleSets.DomainIndex` | utils.go:202-212 | the index has an entry for a domain iff some rule requires it, and that entry lists those rules in input order |
| `RuleSets.Patterns` | utils.go:137-140 | the pattern list has the rules' expressions, position by position |
| `RuleSets.CombinedRegex` | utils.go:136-146 | the combined pattern is never the empty string, and is nil exactly for no rules or a single rule with an empty expression (two empty expressions join to `\|`) |
| `RuleSets.CombinedRegexNil` | utils.go:136-146 | for rules with non-empty expressions, the combined pattern is nil iff there are no rules, and otherwise is their `\|`-join |
| `RuleSets.CompileAll` | rules.go:254-262 | it succeeds iff every line parses; on failure the error is that of the first failing line; on success the result is exactly the parsed rules that are supported and have a non-empty expression, in line order, so every such line's rule is present and every present rule comes from a line |
| `RuleSets.CompileAllSkips` | rules.go:259-261 | a line that parses but is not kept does not change the result |
| `RuleSets.ResolveOption` | rules.go:243-251 | a nil option becomes the default (check off), and missing supports become the binary options plus `domain`; given supports are kept |
| `RuleSets.NewRules` | rules.go:241-284 | it succeeds iff every line parses, and a failure carries the panic of the first line that does not; every parsed rule that is supported and has a non-empty expression is kept, and only those, in line order; the rule set is the partition of that list under the resolved option |
| `RuleSets.BuildPartition` | rules.go:264-281 | every kept rule lands in exactly one of the basic, domain-required and option-only groups, and within it on the blacklist or whitelist side by `isException` |
| `RuleSets.Build` | rules.go:264-283 | the rule set holds the given rules and option; its four lists and the domain-required rules together are a permutation of the rules; the blacklist is the basic blocking rules and the whitelist the basic exceptions, each in input order, and each combined pattern is built from its own list |
| `RuleSets.SplitRuleDataNested` | utils.go:179-195 | splitting the rejected half of a split again is the same as one split by the conjunction of the predicates, in order |
| `RuleSets.BuildIndex` | rules.go:271-281 | the two domain indexes list, per domain, the blocking or exception domain-required rules that require it |
| `RuleSets.PlainRuleNeedsDomainSupport` | rules.go:253-261 | a rule without `$` is dropped when `domain` is not a supported option |
| `RuleSets.PlainRuleKeptByDefault` | rules.go:249-261 | a URL rule without `$` and with a non-empty expression is kept under the default supports |
| `RuleSets.Gather` | rules.go:317-326 | the gathered rules are exactly those listed in the index under some variant |
| `RuleSets.FirstMatch` | rules.go:330-338 | the loop answers true iff some candidate is supported and matches; a panic comes from some supported candidate; with no panicking candidate it answers; it never reports a missing domain |
| `RuleSets.FirstMatchPanics` | rules.go:330-338 | a supported candidate whose match panics makes the loop panic when no earlier candidate is a hit |
| `RuleSets.FirstMatchHits` | rules.go:330-338 | a candidate that is a hit makes the loop answer true when no earlier supported candidate panics |
| `RuleSets.Matches` | rules.go:312-341 | a hit of the combined pattern answers true, and with the check-only setting only the combined pattern can |
| `RuleSets.MatchesTotal` | rules.go:312-341 | with an absent or string `domain`, `matches` does not panic |
| `RuleSets.IndexedRuleFound` | rules.go:318-326 | a domain-required rule that matches is found through the index under a variant of the context's domain |
| `RuleSets.CandidatesCover` | rules.go:317-328 | the candidates come from the two lists, and every matching rule of the two lists is a candidate |
| `RuleSets.MatchesComplete` | rules.go:312-341 | without the check-only setting, `matches` is the combined pattern's hit or some supported and matching rule from the index or the option list |
| `RuleSets.IsBlackListedComplete` | rules.go:264-341 | for a built set, the blacklist decision is a hit of the combined pattern of all basic blocking rules (in input order), or some blocking rule with options that is supported and matches |
| `RuleSets.IsWhiteListedComplete` | rules.go:264-341 | the same for the basic exceptions, the exceptions with options, and the whitelist |
| `RuleSets.IsWhiteListed` | rules.go:304-306 | a hit of the exceptions' combined pattern answers true, and in check-only mode it alone answers |
| `RuleSets.IsBlackListed` | rules.go:308-310 | a hit of the blocking rules' combined pattern answers true, and in check-only mode it alone answers |
| `RuleSets.ShouldBlock` | rules.go:294-302 | blocked iff not whitelisted and blacklisted; a whitelist hit never blocks; a whitelist panic is the answer before the blacklist is consulted; after a whitelist `false` the answer is the blacklist's, panic included |
| `RuleSets.ShouldBlockTotal` | rules.go:294-310 | with an absent or string `domain`, `ShouldBlock` does not panic |

## Left out

- File and stream input: `readLines` (utils.go:223-241) and `NewRulesFromFile` (rules.go:286-292). `NewRules` takes the lines directly.
- Regular-expression semantics. The PCRE wrapper (regexp/regexp.go) and Go's `regexp` are uninterpreted predicates. The lazy compile-and-cache in `urlMatches` (rules.go:171-176) is a plain call to the predicate.
- The panics of `MustCompile` on a malformed expression (rules.go:173, utils.go:145) are not modelled: compilation is assumed to succeed.
- Go's map iteration order (`mapKeys`, utils.go:148-154, and the loops over maps). `OptionsKeys` returns a set, and no property depends on order.
- The cached `optionsKeys` field (rules.go:22, rules.go:91). It is always equal to `OptionsKeys` of the finished rule, so the model recomputes it.
- `optionsSplitPat` and `optionsSplitRe` (utils.go:38-39): computed but never used.
- The getters (`Text`, `Raw`, `RegexString`, `Regex`, `IsComment`, `IsException`, `IsHTMLRule`, `DomainOptions`, `BlackList`, `WhiteList`): each is a field of the datatypes.
- `NewRules` stores its default supports into the caller's option record (rules.go:249-251). The model returns the resolved option in the rule set instead of mutating the argument.
- Strings are sequences of code points; Go slices bytes. The input is assumed to be valid UTF-8: a filter line holding a lone byte of 0x80 or above (one byte long in Go, so it panics at `rule[:2]`) has no counterpart in `seq<char>`. For valid UTF-8 the only observable difference is the two-byte slice at utils.go:94, which is modelled as a panic on one-character ASCII patterns (a single non-ASCII character is at least two bytes in Go and does not panic).
- The concrete scenarios of rules_test.go depend on the regular-expression engine, which is uninterpreted. `TestDomainVariants` (utils_test.go:8-22) is stated generically as `Domains.DomainVariantsFourLabels`.
- `Rules.MatchingSupported`: rules.go:118 calls `isSuperSet` with two arguments while utils.go:156 declares three (`a, b, reverse`), so rules.go:118 as published does not compile. The model reads the call as `reverse` false, which is the only reading under which every option key must be supported, and `Rules.MatchingSupportedIsSuperSet` states it that way.
- `Rules.ParseDomainOption`: requires at least seven characters. Its only caller passes tokens that start with `domain=`, so the slice panic for shorter text never arises.
- `RuleSets.Matches`: its own contract covers only the combined-pattern and check-only cases. The full answer for rule sets built by `NewRules` is `RuleSets.MatchesComplete` and the two `...Complete` lemmas, which assume the context's `domain` is absent or a string (with a non-string `domain` the index is skipped, and the first supported rule with options that gets past its option checks panics on that value unless an earlier candidate matches first, as `RuleSets.FirstMatchPanics` and `RuleSets.FirstMatchHits` state).
