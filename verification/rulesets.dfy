/** The rule set: compiling filter lines into partitioned rule lists and a
    domain index (NewRules), and the blocking decision (ShouldBlock). */
module RuleSets {
  import opened Outcomes
  import opened Strings
  import opened Domains
  import opened Rules

  /** The option names a rule may carry as flags. */
  const BinaryOptions: seq<string> := [
    "script", "image", "stylesheet", "object", "xmlhttprequest",
    "object-subrequest", "subdocument", "document", "elemhide", "other",
    "background", "xbl", "ping", "dtd", "media",
    "third-party", "match-case", "collapse", "donottrack", "popup"]

  /** The supported option keys when the caller gives none. */
  const DefaultSupports: seq<string> := BinaryOptions + ["domain"]

  lemma DefaultSupportsHasDomain()
    ensures "domain" in DefaultSupports
  {
    assert DefaultSupports[|BinaryOptions|] == "domain";
  }

  /** DefaultOptions: every flag name, set to true. */
  function DefaultOptions(): (ctx: Context)
    ensures forall k :: k in ctx ==> ctx[k] == Bool(true)
    ensures forall k :: k in ctx <==> k in BinaryOptions
  {
    SliceToMap(BinaryOptions)
  }

  /** The caller's settings; a nil `Supports` list is distinct from an
      empty one. */
  datatype RulesOption = RulesOption(supports: Option<seq<string>>, checkUnsupportedRules: bool)

  /** A compiled rule set: the kept rules, the settings in force, and the
      partitions the matcher consults. */
  datatype RuleSet = RuleSet(
    rules: seq<Rule>,
    opt: RulesOption,
    blacklist: seq<Rule>,
    whitelist: seq<Rule>,
    blacklistRe: Option<string>,
    whitelistRe: Option<string>,
    blacklistWithOptions: seq<Rule>,
    whitelistWithOptions: seq<Rule>,
    blacklistRequireDomain: map<string, seq<Rule>>,
    whitelistRequireDomain: map<string, seq<Rule>>)

  /** The two regular-expression engines: `pcre` for single rules and
      `combined` for the alternation of the basic rules. Each decides
      whether a pattern matches a subject; they need not agree. */
  datatype RegexEngines = RegexEngines(pcre: (string, string) -> bool, combined: (string, string) -> bool)

  // ---------------------------------------------------------------------
  // Partitions

  /** splitRuleData: the elements that satisfy `pred` and those that do
      not, each in input order. */
  function SplitRuleData<T(==)>(s: seq<T>, pred: T -> bool): (r: (seq<T>, seq<T>))
    ensures forall i :: 0 <= i < |r.0| ==> pred(r.0[i])
    ensures forall i :: 0 <= i < |r.1| ==> !pred(r.1[i])
    ensures multiset(r.0) + multiset(r.1) == multiset(s)
  {
    if |s| == 0 then ([], [])
    else
      var init := s[..|s| - 1];
      var x := s[|s| - 1];
      assert s == init + [x];
      var (yes, no) := SplitRuleData(init, pred);
      if pred(x) then (yes + [x], no) else (yes, no + [x])
  }

  /** Membership in the two halves. */
  lemma {:induction false} SplitRuleDataMembers<T>(s: seq<T>, pred: T -> bool, x: T)
    ensures x in SplitRuleData(s, pred).0 <==> x in s && pred(x)
    ensures x in SplitRuleData(s, pred).1 <==> x in s && !pred(x)
  {
    var r := SplitRuleData(s, pred);
    assert x in s <==> x in multiset(s);
    assert x in r.0 <==> x in multiset(r.0);
    assert x in r.1 <==> x in multiset(r.1);
  }

  /** The split is stable: splitting a concatenation concatenates the
      halves, so each half keeps the input order. */
  lemma {:induction false} SplitRuleDataAppend<T>(a: seq<T>, b: seq<T>, pred: T -> bool)
    ensures var ra := SplitRuleData(a, pred); var rb := SplitRuleData(b, pred);
      SplitRuleData(a + b, pred) == (ra.0 + rb.0, ra.1 + rb.1)
    decreases |b|
  {
    if |b| == 0 {
      assert a + b == a;
      var ra := SplitRuleData(a, pred);
      assert ra.0 + [] == ra.0 && ra.1 + [] == ra.1;
    } else {
      var b' := b[..|b| - 1];
      var x := b[|b| - 1];
      assert (a + b)[..|a + b| - 1] == a + b';
      assert (a + b)[|a + b| - 1] == x;
      SplitRuleDataAppend(a, b', pred);
      var ra := SplitRuleData(a, pred);
      var rb' := SplitRuleData(b', pred);
      if pred(x) {
        assert (ra.0 + rb'.0) + [x] == ra.0 + (rb'.0 + [x]);
      } else {
        assert (ra.1 + rb'.1) + [x] == ra.1 + (rb'.1 + [x]);
      }
    }
  }

  predicate IsBlack(rule: Rule) {
    !rule.isException
  }

  /** splitBlackWhite: blocking rules first, exception rules second. */
  function SplitBlackWhite(rules: seq<Rule>): (r: (seq<Rule>, seq<Rule>))
    ensures forall i :: 0 <= i < |r.0| ==> !r.0[i].isException
    ensures forall i :: 0 <= i < |r.1| ==> r.1[i].isException
    ensures multiset(r.0) + multiset(r.1) == multiset(rules)
  {
    SplitRuleData(rules, IsBlack)
  }

  /** A rule that carries options or non-empty domain options. */
  predicate IsAdvanced(rule: Rule) {
    |rule.options| > 0 || |DomainMap(rule)| > 0
  }

  /** A rule that applies only on the domains it names with the value true. */
  predicate RequiresDomain(rule: Rule) {
    HasOption(rule, "domain") && AnyTrueValue(DomainMap(rule))
  }

  /** Rule `r` names domain `d` as required. */
  predicate Requires(rule: Rule, d: string) {
    d in DomainMap(rule) && DomainMap(rule)[d]
  }

  /** The rules, in order, that require domain `d`. */
  function RulesRequiring(rules: seq<Rule>, d: string): (rs: seq<Rule>)
    ensures forall x :: x in rs <==> x in rules && Requires(x, d)
  {
    if |rules| == 0 then []
    else
      var init := rules[..|rules| - 1];
      var x := rules[|rules| - 1];
      assert rules == init + [x];
      RulesRequiring(init, d) + (if Requires(x, d) then [x] else [])
  }

  /** One rule added to the index: appended under every domain it requires. */
  function AddToIndex(index: map<string, seq<Rule>>, rule: Rule): map<string, seq<Rule>> {
    var m := DomainMap(rule);
    map d | d in index.Keys + (set k | k in m && m[k]) ::
      (if d in index then index[d] else []) + (if d in m && m[d] then [rule] else [])
  }

  /** domainIndex: an entry for a domain exactly when some rule requires
      it, listing the rules that require it, in input order. */
  function DomainIndex(rules: seq<Rule>): (idx: map<string, seq<Rule>>)
    ensures forall d :: d in idx <==> |RulesRequiring(rules, d)| > 0
    ensures forall d :: d in idx ==> idx[d] == RulesRequiring(rules, d)
  {
    if |rules| == 0 then map[]
    else AddToIndex(DomainIndex(rules[..|rules| - 1]), rules[|rules| - 1])
  }

  /** The index of some rules has a key exactly when one of them requires it. */
  lemma {:induction false} DomainIndexKeys(rules: seq<Rule>, d: string)
    ensures d in DomainIndex(rules) <==> exists x :: x in rules && Requires(x, d)
  {
    var rs := RulesRequiring(rules, d);
    if d in DomainIndex(rules) {
      assert rs[0] in rs;
    }
  }

  /** The index of one side of the rules: keyed by the domains that some
      rule of that side requires, each listing those rules. */
  lemma {:induction false} SideIndex(rules: seq<Rule>, side: seq<Rule>, exception: bool)
    requires forall x :: x in side <==> x in rules && x.isException == exception
    ensures forall d :: d in DomainIndex(side) <==> exists x :: x in rules && x.isException == exception && Requires(x, d)
    ensures forall d :: d in DomainIndex(side) ==>
      forall x :: x in DomainIndex(side)[d] <==> x in rules && x.isException == exception && Requires(x, d)
  {
    forall d
      ensures d in DomainIndex(side) <==> exists x :: x in rules && x.isException == exception && Requires(x, d)
    {
      DomainIndexKeys(side, d);
    }
  }

  /** splitBlackWhiteDomain: the index of the blocking rules and that of the
      exception rules. A side has an entry for a domain exactly when one
      of its rules requires that domain. */
  function SplitBlackWhiteDomain(rules: seq<Rule>): (r: (map<string, seq<Rule>>, map<string, seq<Rule>>))
    ensures forall d :: d in r.0 <==> exists x :: x in rules && !x.isException && Requires(x, d)
    ensures forall d :: d in r.1 <==> exists x :: x in rules && x.isException && Requires(x, d)
    ensures forall d :: d in r.0 ==> forall x :: x in r.0[d] <==> x in rules && !x.isException && Requires(x, d)
    ensures forall d :: d in r.1 ==> forall x :: x in r.1[d] <==> x in rules && x.isException && Requires(x, d)
  {
    var (black, white) := SplitBlackWhite(rules);
    assert forall x :: (x in black <==> x in rules && !x.isException) && (x in white <==> x in rules && x.isException) by {
      forall x
        ensures (x in black <==> x in rules && !x.isException) && (x in white <==> x in rules && x.isException)
      {
        SplitRuleDataMembers(rules, IsBlack, x);
      }
    }
    SideIndex(rules, black, false);
    SideIndex(rules, white, true);
    (DomainIndex(black), DomainIndex(white))
  }

  /** The patterns of the rules, in order. */
  function Patterns(rules: seq<Rule>): (ps: seq<string>)
    ensures |ps| == |rules|
    ensures forall i :: 0 <= i < |rules| ==> ps[i] == rules[i].regexString
  {
    if |rules| == 0 then [] else [rules[0].regexString] + Patterns(rules[1..])
  }

  /** CombinedRegex: the alternation of all the patterns, nil when that is
      the empty string. */
  function CombinedRegex(rules: seq<Rule>): (r: Option<string>)
    ensures r.Some? ==> r.value != ""
    ensures r.None? <==> |rules| == 0 || (|rules| == 1 && rules[0].regexString == "")
  {
    var rs := Join(Patterns(rules), '|');
    if rs == "" then None else Some(rs)
  }

  lemma {:induction false} JoinNonEmpty(ps: seq<string>, sep: char)
    requires |ps| > 0 && ps[0] != ""
    ensures Join(ps, sep) != ""
    ensures |Join(ps, sep)| >= |ps[0]|
  {
  }

  /** Over rules with non-empty patterns (all the kept ones), the combined
      pattern is nil exactly for the empty list, and otherwise is the
      patterns joined as alternatives. */
  lemma {:induction false} CombinedRegexNil(rules: seq<Rule>)
    requires forall i :: 0 <= i < |rules| ==> rules[i].regexString != ""
    ensures CombinedRegex(rules).None? <==> |rules| == 0
    ensures |rules| > 0 ==> CombinedRegex(rules) == Some(Join(Patterns(rules), '|'))
  {
    if |rules| > 0 {
      JoinNonEmpty(Patterns(rules), '|');
    }
  }

  // ---------------------------------------------------------------------
  // Building the rule set

  /** The rules NewRules keeps: with a pattern, and every option key among
      the supported ones. */
  predicate Kept(rule: Rule, params: Context) {
    rule.regexString != "" && MatchingSupported(rule, params)
  }

  /** The rule of every line, when every line parses. */
  function ParsedRules(parse: string -> Result<Rule, Panic>, lines: seq<string>): (rs: seq<Rule>)
    requires forall i :: 0 <= i < |lines| ==> parse(lines[i]).Ok?
    ensures |rs| == |lines|
    ensures forall i :: 0 <= i < |lines| ==> parse(lines[i]) == Ok(rs[i])
  {
    seq(|lines|, i requires 0 <= i < |lines| && parse(lines[i]).Ok? => parse(lines[i]).value)
  }

  lemma {:induction false} ParsedRulesCons(parse: string -> Result<Rule, Panic>, lines: seq<string>)
    requires |lines| > 0 && forall i :: 0 <= i < |lines| ==> parse(lines[i]).Ok?
    ensures ParsedRules(parse, lines) == [parse(lines[0]).value] + ParsedRules(parse, lines[1..])
  {
    var a := ParsedRules(parse, lines);
    var b := [parse(lines[0]).value] + ParsedRules(parse, lines[1..]);
    forall i | 0 <= i < |a|
      ensures a[i] == b[i]
    {
      if i > 0 {
        assert lines[1..][i - 1] == lines[i];
      }
    }
  }

  function KeepPredicate(params: Context): Rule -> bool {
    rule => Kept(rule, params)
  }

  /** The rules that NewRules keeps, in their order: the first half of
      splitRuleData with the keeping predicate. */
  function KeptRules(rules: seq<Rule>, params: Context): seq<Rule> {
    SplitRuleData(rules, KeepPredicate(params)).0
  }

  lemma {:induction false} KeptRulesCons(x: Rule, rest: seq<Rule>, params: Context)
    ensures KeptRules([x] + rest, params) == (if Kept(x, params) then [x] else []) + KeptRules(rest, params)
  {
    var pred := KeepPredicate(params);
    var none: seq<Rule> := [];
    assert SplitRuleData(none, pred) == ([], []);
    SplitRuleDataSnoc(none, x, pred);
    assert none + [x] == [x];
    SplitRuleDataAppend([x], rest, pred);
  }

  /** What the filter keeps: exactly the kept rules of the lines, each
      coming from some line. */
  lemma {:induction false} KeptRulesFacts(parse: string -> Result<Rule, Panic>, lines: seq<string>, params: Context)
    requires forall i :: 0 <= i < |lines| ==> parse(lines[i]).Ok?
    ensures var v := KeptRules(ParsedRules(parse, lines), params);
      && (forall i :: 0 <= i < |v| ==> Kept(v[i], params))
      && (forall x :: x in v ==> exists i :: 0 <= i < |lines| && parse(lines[i]) == Ok(x))
      && (forall i :: 0 <= i < |lines| && Kept(parse(lines[i]).value, params) ==> parse(lines[i]).value in v)
  {
    var ps := ParsedRules(parse, lines);
    var v := KeptRules(ps, params);
    forall x
      ensures x in v <==> x in ps && Kept(x, params)
    {
      SplitRuleDataMembers(ps, KeepPredicate(params), x);
    }
    forall x | x in v
      ensures exists i :: 0 <= i < |lines| && parse(lines[i]) == Ok(x)
    {
      var i :| 0 <= i < |ps| && ps[i] == x;
      assert parse(lines[i]) == Ok(x);
    }
    forall i | 0 <= i < |lines| && Kept(parse(lines[i]).value, params)
      ensures parse(lines[i]).value in v
    {
      assert ps[i] == parse(lines[i]).value;
    }
  }

  /** Line `k` is the first line that `parse` rejects. */
  ghost predicate FirstFailure(parse: string -> Result<Rule, Panic>, lines: seq<string>, k: int, e: Panic) {
    0 <= k < |lines| && parse(lines[k]) == Err(e)
      && forall j :: 0 <= j < k ==> parse(lines[j]).Ok?
  }

  /** The loop of NewRules over the lines, for the line parser `parse`:
      parse each line in order, stop at the first failure, keep the
      supported rules with a pattern, in line order. */
  function CompileAll(parse: string -> Result<Rule, Panic>, lines: seq<string>, params: Context)
    : (r: Result<seq<Rule>, Panic>)
    ensures r.Ok? <==> forall i :: 0 <= i < |lines| ==> parse(lines[i]).Ok?
    ensures r.Ok? ==> forall i :: 0 <= i < |r.value| ==> Kept(r.value[i], params)
    ensures r.Ok? ==> forall x :: x in r.value ==> exists i :: 0 <= i < |lines| && parse(lines[i]) == Ok(x)
    ensures r.Err? ==> exists k :: FirstFailure(parse, lines, k, r.error)
    ensures r.Ok? ==> forall i :: 0 <= i < |lines| && Kept(parse(lines[i]).value, params) ==>
      parse(lines[i]).value in r.value
    ensures r.Ok? ==> r.value == KeptRules(ParsedRules(parse, lines), params)
  {
    if |lines| == 0 then Ok([])
    else
      match parse(lines[0])
      case Err(e) =>
        assert FirstFailure(parse, lines, 0, e);
        Err(e)
      case Ok(rule) =>
        var rest := CompileAll(parse, lines[1..], params);
        assert forall i :: 1 <= i < |lines| ==> lines[1..][i - 1] == lines[i];
        if rest.Err? then
          assert exists k :: FirstFailure(parse, lines, k, rest.error) by {
            var k :| FirstFailure(parse, lines[1..], k, rest.error);
            assert FirstFailure(parse, lines, k + 1, rest.error);
          }
          Err(rest.error)
        else
          var v := if Kept(rule, params) then [rule] + rest.value else rest.value;
          ParsedRulesCons(parse, lines);
          KeptRulesCons(rule, ParsedRules(parse, lines[1..]), params);
          assert v == KeptRules(ParsedRules(parse, lines), params);
          KeptRulesFacts(parse, lines, params);
          Ok(v)
  }

  /** A line that parses to a rule NewRules does not keep (a comment, an
      element-hiding rule, an unsupported one) can be removed. */
  lemma {:induction false} CompileAllSkips(parse: string -> Result<Rule, Panic>, a: seq<string>, line: string,
                                           b: seq<string>, params: Context)
    requires parse(line).Ok? && !Kept(parse(line).value, params)
    ensures CompileAll(parse, a + [line] + b, params) == CompileAll(parse, a + b, params)
  {
    if |a| == 0 {
      assert a + [line] + b == [line] + b;
      assert a + b == b;
      CompileAllSkipsHead(parse, line, b, params);
    } else {
      assert (a + [line] + b)[1..] == a[1..] + [line] + b;
      assert (a + b)[1..] == a[1..] + b;
      assert (a + [line] + b)[0] == a[0] == (a + b)[0];
      CompileAllSkips(parse, a[1..], line, b, params);
      CompileAllSameTail(parse, a + [line] + b, a + b, params);
    }
  }

  lemma {:induction false} CompileAllSameTail(parse: string -> Result<Rule, Panic>, x: seq<string>, y: seq<string>,
                                              params: Context)
    requires |x| > 0 && |y| > 0 && x[0] == y[0]
    requires CompileAll(parse, x[1..], params) == CompileAll(parse, y[1..], params)
    ensures CompileAll(parse, x, params) == CompileAll(parse, y, params)
  {
  }

  lemma {:induction false} CompileAllSkipsHead(parse: string -> Result<Rule, Panic>, line: string, b: seq<string>,
                                               params: Context)
    requires parse(line).Ok? && !Kept(parse(line).value, params)
    ensures CompileAll(parse, [line] + b, params) == CompileAll(parse, b, params)
  {
    assert ([line] + b)[0] == line;
    assert ([line] + b)[1..] == b;
  }

  /** The settings NewRules works with: defaults for a nil option record
      and for a nil Supports list. */
  function ResolveOption(opt: Option<RulesOption>): (o: RulesOption)
    ensures o.supports.Some?
    ensures opt.Some? && opt.value.supports.Some? ==> o == opt.value
    ensures opt.Some? ==> o.checkUnsupportedRules == opt.value.checkUnsupportedRules
    ensures opt.None? ==> !o.checkUnsupportedRules
    ensures (opt.None? || opt.value.supports.None?) ==> o.supports == Some(DefaultSupports)
  {
    var o := if opt.None? then RulesOption(None, false) else opt.value;
    if o.supports.None? then o.(supports := Some(DefaultSupports)) else o
  }

  /** The kinds of kept rule the matcher tells apart. */
  datatype Category = Basic | DomainRequired | OptionOnly

  function CategoryOf(rule: Rule): Category {
    if !IsAdvanced(rule) then Basic
    else if RequiresDomain(rule) then DomainRequired
    else OptionOnly
  }

  /** The advanced rules that require a domain. */
  function DomainRequiredRules(rules: seq<Rule>): seq<Rule> {
    SplitRuleData(SplitRuleData(rules, IsAdvanced).0, RequiresDomain).0
  }

  /** One more element at the end goes to the end of its half. */
  lemma {:induction false} SplitRuleDataSnoc<T>(s: seq<T>, x: T, pred: T -> bool)
    ensures var r := SplitRuleData(s, pred);
      SplitRuleData(s + [x], pred) == if pred(x) then (r.0 + [x], r.1) else (r.0, r.1 + [x])
  {
    assert (s + [x])[..|s + [x]| - 1] == s;
    assert (s + [x])[|s + [x]| - 1] == x;
  }

  /** Splitting the rejected half of one split again is one split by the
      conjunction: in both halves, the order of the input is kept. */
  lemma {:induction false} SplitRuleDataNested<T>(s: seq<T>, p: T -> bool, q: T -> bool, pq: T -> bool, pnq: T -> bool)
    requires forall x :: pq(x) == (!p(x) && q(x))
    requires forall x :: pnq(x) == (!p(x) && !q(x))
    ensures SplitRuleData(SplitRuleData(s, p).1, q).0 == SplitRuleData(s, pq).0
    ensures SplitRuleData(SplitRuleData(s, p).1, q).1 == SplitRuleData(s, pnq).0
  {
    if |s| > 0 {
      var init := s[..|s| - 1];
      var x := s[|s| - 1];
      assert s == init + [x];
      SplitRuleDataNested(init, p, q, pq, pnq);
      SplitRuleDataSnoc(init, x, p);
      SplitRuleDataSnoc(init, x, pq);
      SplitRuleDataSnoc(init, x, pnq);
      SplitRuleDataSnoc(SplitRuleData(init, p).1, x, q);
    }
  }

  /** A basic rule: no options and no non-empty domain options. */
  predicate IsBasicBlocking(rule: Rule) {
    !rule.isException && !IsAdvanced(rule)
  }

  predicate IsBasicException(rule: Rule) {
    rule.isException && !IsAdvanced(rule)
  }

  /** The partitioning steps of NewRules. No rule is lost or duplicated:
      the four lists and the domain-required rules together are the rules.
      The basic lists are the basic blocking and basic exception rules in
      input order, and each combined pattern is built from its own list. */
  function Build(rules: seq<Rule>, opt: RulesOption): (rs: RuleSet)
    ensures rs.rules == rules && rs.opt == opt
    ensures multiset(rules) ==
      multiset(rs.blacklist) + multiset(rs.whitelist)
      + multiset(rs.blacklistWithOptions) + multiset(rs.whitelistWithOptions)
      + multiset(DomainRequiredRules(rules))
    ensures rs.blacklist == SplitRuleData(rules, IsBasicBlocking).0
    ensures rs.whitelist == SplitRuleData(rules, IsBasicException).0
    ensures rs.blacklistRe == CombinedRegex(rs.blacklist) && rs.whitelistRe == CombinedRegex(rs.whitelist)
  {
    var (advanced, basic) := SplitRuleData(rules, IsAdvanced);
    var (domainRequired, nonDomain) := SplitRuleData(advanced, RequiresDomain);
    var (black, white) := SplitBlackWhite(basic);
    var (blackOpts, whiteOpts) := SplitBlackWhite(nonDomain);
    var (blackIndex, whiteIndex) := SplitBlackWhiteDomain(domainRequired);
    SplitRuleDataNested(rules, IsAdvanced, IsBlack, IsBasicBlocking, IsBasicException);
    RuleSet(rules, opt, black, white, CombinedRegex(black), CombinedRegex(white),
            blackOpts, whiteOpts, blackIndex, whiteIndex)
  }

  /** NewRules: compile every line, then partition the kept rules. */
  function NewRules(lines: seq<string>, opt: Option<RulesOption>): (r: Result<RuleSet, Panic>)
    ensures r.Ok? <==> forall i :: 0 <= i < |lines| ==> NewRule(lines[i]).Ok?
    ensures r.Ok? ==> r.value.opt == ResolveOption(opt)
    ensures r.Ok? ==> forall i :: 0 <= i < |r.value.rules| ==>
      Kept(r.value.rules[i], SliceToMap(ResolveOption(opt).supports.value))
    ensures r.Ok? ==> forall i :: 0 <= i < |lines| && Kept(NewRule(lines[i]).value, SliceToMap(ResolveOption(opt).supports.value)) ==>
      NewRule(lines[i]).value in r.value.rules
    ensures r.Ok? ==> r.value == Build(KeptRules(ParsedRules(NewRule, lines), SliceToMap(ResolveOption(opt).supports.value)),
                                       ResolveOption(opt))
    ensures r.Err? ==> exists k :: FirstFailure(NewRule, lines, k, r.error)
  {
    var o := ResolveOption(opt);
    match CompileAll(NewRule, lines, SliceToMap(o.supports.value))
    case Err(e) => Err(e)
    case Ok(rules) => Ok(Build(rules, o))
  }

  /** Every kept rule lands in exactly one list: by category (basic,
      domain-required, option-only) and then by blocking versus exception.
      The four lists and the domain-required rules together are the rules. */
  lemma {:induction false} BuildPartition(rules: seq<Rule>, opt: RulesOption, x: Rule)
    ensures var rs := Build(rules, opt);
      && (x in rs.blacklist <==> x in rules && CategoryOf(x) == Basic && !x.isException)
      && (x in rs.whitelist <==> x in rules && CategoryOf(x) == Basic && x.isException)
      && (x in rs.blacklistWithOptions <==> x in rules && CategoryOf(x) == OptionOnly && !x.isException)
      && (x in rs.whitelistWithOptions <==> x in rules && CategoryOf(x) == OptionOnly && x.isException)
      && (x in DomainRequiredRules(rules) <==> x in rules && CategoryOf(x) == DomainRequired)
  {
    var (advanced, basic) := SplitRuleData(rules, IsAdvanced);
    var (domainRequired, nonDomain) := SplitRuleData(advanced, RequiresDomain);
    SplitRuleDataMembers(rules, IsAdvanced, x);
    SplitRuleDataMembers(advanced, RequiresDomain, x);
    SplitRuleDataMembers(basic, IsBlack, x);
    SplitRuleDataMembers(nonDomain, IsBlack, x);
  }

  /** The domain indexes list, under each domain, exactly the domain-required
      rules of their side that require it, in input order. */
  lemma {:induction false} BuildIndex(rules: seq<Rule>, opt: RulesOption, d: string)
    ensures var rs := Build(rules, opt); var dr := DomainRequiredRules(rules);
      var (black, white) := SplitBlackWhite(dr);
      && (d in rs.blacklistRequireDomain <==> |RulesRequiring(black, d)| > 0)
      && (d in rs.blacklistRequireDomain ==> rs.blacklistRequireDomain[d] == RulesRequiring(black, d))
      && (d in rs.whitelistRequireDomain <==> |RulesRequiring(white, d)| > 0)
      && (d in rs.whitelistRequireDomain ==> rs.whitelistRequireDomain[d] == RulesRequiring(white, d))
  {
    var (black, white) := SplitBlackWhite(DomainRequiredRules(rules));
  }

  /** A rule line without `$` has `domain` as an option key, so it is
      dropped when `domain` is not among the supported keys. */
  lemma {:induction false} PlainRuleNeedsDomainSupport(line: string, supports: seq<string>)
    requires NewRule(line).Ok? && !ParseFields(line).isComment && '$' !in RuleBody(line)
    requires "domain" !in supports
    ensures !Kept(NewRule(line).value, SliceToMap(supports))
  {
    PlainRuleKeys(line);
    assert OptionsKeys(NewRule(line).value) == OptionsKeys(ParseFields(line));
  }

  /** With the default settings such a line is kept whenever it has a
      pattern and is not an element-hiding rule. */
  lemma {:induction false} PlainRuleKeptByDefault(line: string)
    requires NewRule(line).Ok? && !ParseFields(line).isComment && '$' !in RuleBody(line)
    requires NewRule(line).value.regexString != "" && !ParseFields(line).isHtmlRule
    ensures Kept(NewRule(line).value, SliceToMap(DefaultSupports))
  {
    PlainRuleKeys(line);
    DefaultSupportsHasDomain();
    assert OptionsKeys(NewRule(line).value) == OptionsKeys(ParseFields(line));
  }

  // ---------------------------------------------------------------------
  // Matching

  /** The rules listed in the index under any of the domain variants, in
      variant order. */
  function Gather(variants: seq<string>, index: map<string, seq<Rule>>): (rs: seq<Rule>)
    ensures forall x :: x in rs <==>
      exists i :: 0 <= i < |variants| && variants[i] in index && x in index[variants[i]]
  {
    if |variants| == 0 then []
    else
      var rest := Gather(variants[1..], index);
      assert forall i :: 1 <= i < |variants| ==> variants[1..][i - 1] == variants[i];
      (if variants[0] in index then index[variants[0]] else []) + rest
  }

  /** The rules `matches` tries one by one: those the index lists under the
      context's domain (when it is a string and the index is not empty),
      then the option-only rules. */
  function Candidates(ctx: Context, index: map<string, seq<Rule>>, withOptions: seq<Rule>): seq<Rule> {
    var fromIndex :=
      if "domain" in ctx && ctx["domain"].Str? && |index| > 0
      then Gather(DomainVariants(ctx["domain"].s), index) else [];
    fromIndex + withOptions
  }

  /** A rule that is supported in the context and matches the address. */
  predicate Hit(rule: Rule, url: string, ctx: Context, pcre: (string, string) -> bool) {
    MatchingSupported(rule, ctx) && MatchURL(rule, url, ctx, pcre) == Ok(true)
  }

  /** The loop of `matches` over the candidates: the first hit answers true;
      a panic in MatchURL stops the loop. */
  function FirstMatch(rules: seq<Rule>, url: string, ctx: Context, pcre: (string, string) -> bool)
    : (r: Result<bool, Panic>)
    ensures r.Ok? ==> (r.value <==> exists i :: 0 <= i < |rules| && Hit(rules[i], url, ctx, pcre))
    ensures r.Err? ==>
      exists i :: 0 <= i < |rules| && MatchingSupported(rules[i], ctx) && MatchURL(rules[i], url, ctx, pcre) == Err(r.error)
    ensures (forall i :: 0 <= i < |rules| && MatchingSupported(rules[i], ctx) ==>
      MatchURL(rules[i], url, ctx, pcre).Ok?) ==> r.Ok?
    ensures r != Err(MissingDomain)
  {
    if |rules| == 0 then Ok(false)
    else
      assert forall i :: 1 <= i < |rules| ==> rules[1..][i - 1] == rules[i];
      if !MatchingSupported(rules[0], ctx) then FirstMatch(rules[1..], url, ctx, pcre)
      else
        match MatchURL(rules[0], url, ctx, pcre)
        case Err(e) => Err(e)
        case Ok(hit) => if hit then Ok(true) else FirstMatch(rules[1..], url, ctx, pcre)
  }

  /** A supported candidate whose MatchURL panics makes the loop panic,
      unless an earlier candidate matches first. */
  lemma {:induction false} FirstMatchPanics(rules: seq<Rule>, url: string, ctx: Context, pcre: (string, string) -> bool, i: int)
    requires 0 <= i < |rules| && MatchingSupported(rules[i], ctx) && MatchURL(rules[i], url, ctx, pcre).Err?
    requires forall j :: 0 <= j < i ==> !Hit(rules[j], url, ctx, pcre)
    ensures FirstMatch(rules, url, ctx, pcre).Err?
    decreases i
  {
    if i > 0 && (!MatchingSupported(rules[0], ctx) || MatchURL(rules[0], url, ctx, pcre) == Ok(false)) {
      assert !Hit(rules[0], url, ctx, pcre);
      assert rules[1..][i - 1] == rules[i];
      assert forall j :: 0 <= j < i - 1 ==> rules[1..][j] == rules[j + 1];
      FirstMatchPanics(rules[1..], url, ctx, pcre, i - 1);
    }
  }

  /** A candidate that matches makes the loop answer true, unless an
      earlier supported candidate panics first. */
  lemma {:induction false} FirstMatchHits(rules: seq<Rule>, url: string, ctx: Context, pcre: (string, string) -> bool, i: int)
    requires 0 <= i < |rules| && Hit(rules[i], url, ctx, pcre)
    requires forall j :: 0 <= j < i && MatchingSupported(rules[j], ctx) ==> MatchURL(rules[j], url, ctx, pcre).Ok?
    ensures FirstMatch(rules, url, ctx, pcre) == Ok(true)
    decreases i
  {
    if i > 0 && (!MatchingSupported(rules[0], ctx) || MatchURL(rules[0], url, ctx, pcre) == Ok(false)) {
      assert rules[1..][i - 1] == rules[i];
      assert forall j :: 0 <= j < i - 1 ==> rules[1..][j] == rules[j + 1];
      FirstMatchHits(rules[1..], url, ctx, pcre, i - 1);
    }
  }

  /** `matches`: the combined pattern first; then, unless unsupported
      rules are only checked, the candidates one by one. */
  function Matches(url: string, ctx: Context, generalRe: Option<string>, index: map<string, seq<Rule>>,
                   withOptions: seq<Rule>, checkUnsupportedRules: bool, engines: RegexEngines)
    : (r: Result<bool, Panic>)
    ensures generalRe.Some? && engines.combined(generalRe.value, url) ==> r == Ok(true)
    ensures checkUnsupportedRules ==> r == Ok(generalRe.Some? && engines.combined(generalRe.value, url))
  {
    if generalRe.Some? && engines.combined(generalRe.value, url) then Ok(true)
    else if checkUnsupportedRules then Ok(false)
    else FirstMatch(Candidates(ctx, index, withOptions), url, ctx, engines.pcre)
  }

  /** isWhiteListed: `matches` over the exception rules. A hit of their
      combined pattern answers true, and in check-only mode it alone
      answers; IsWhiteListedComplete gives the whole answer. */
  function IsWhiteListed(rs: RuleSet, url: string, ctx: Context, engines: RegexEngines): (r: Result<bool, Panic>)
    ensures rs.whitelistRe.Some? && engines.combined(rs.whitelistRe.value, url) ==> r == Ok(true)
    ensures rs.opt.checkUnsupportedRules ==>
      r == Ok(rs.whitelistRe.Some? && engines.combined(rs.whitelistRe.value, url))
  {
    Matches(url, ctx, rs.whitelistRe, rs.whitelistRequireDomain, rs.whitelistWithOptions,
            rs.opt.checkUnsupportedRules, engines)
  }

  /** isBlackListed: `matches` over the blocking rules, likewise. */
  function IsBlackListed(rs: RuleSet, url: string, ctx: Context, engines: RegexEngines): (r: Result<bool, Panic>)
    ensures rs.blacklistRe.Some? && engines.combined(rs.blacklistRe.value, url) ==> r == Ok(true)
    ensures rs.opt.checkUnsupportedRules ==>
      r == Ok(rs.blacklistRe.Some? && engines.combined(rs.blacklistRe.value, url))
  {
    Matches(url, ctx, rs.blacklistRe, rs.blacklistRequireDomain, rs.blacklistWithOptions,
            rs.opt.checkUnsupportedRules, engines)
  }

  /** ShouldBlock: blocked when not whitelisted and blacklisted; the
      whitelist is consulted first, so its panic wins. */
  function ShouldBlock(rs: RuleSet, url: string, ctx: Context, engines: RegexEngines): (r: Result<bool, Panic>)
    ensures r == Ok(true) <==>
      IsWhiteListed(rs, url, ctx, engines) == Ok(false) && IsBlackListed(rs, url, ctx, engines) == Ok(true)
    ensures IsWhiteListed(rs, url, ctx, engines).Ok? && IsBlackListed(rs, url, ctx, engines).Ok? ==>
      r == Ok(!IsWhiteListed(rs, url, ctx, engines).value && IsBlackListed(rs, url, ctx, engines).value)
    ensures IsWhiteListed(rs, url, ctx, engines) == Ok(true) ==> r == Ok(false)
    ensures IsWhiteListed(rs, url, ctx, engines).Err? ==> r == IsWhiteListed(rs, url, ctx, engines)
    ensures IsWhiteListed(rs, url, ctx, engines) == Ok(false) ==> r == IsBlackListed(rs, url, ctx, engines)
  {
    match IsWhiteListed(rs, url, ctx, engines)
    case Err(e) => Err(e)
    case Ok(white) =>
      if white then Ok(false)
      else IsBlackListed(rs, url, ctx, engines)
  }

  /** Without a `domain` entry, or with a string one, the matcher never
      panics. */
  lemma {:induction false} MatchesTotal(url: string, ctx: Context, generalRe: Option<string>, index: map<string, seq<Rule>>,
                     withOptions: seq<Rule>, check: bool, engines: RegexEngines)
    requires "domain" in ctx ==> ctx["domain"].Str?
    ensures Matches(url, ctx, generalRe, index, withOptions, check, engines).Ok?
  {
    var rules := Candidates(ctx, index, withOptions);
    forall i | 0 <= i < |rules| && MatchingSupported(rules[i], ctx)
      ensures MatchURL(rules[i], url, ctx, engines.pcre).Ok?
    {
      MatchURLTotal(rules[i], url, ctx, engines.pcre);
    }
  }

  lemma {:induction false} ShouldBlockTotal(rs: RuleSet, url: string, ctx: Context, engines: RegexEngines)
    requires "domain" in ctx ==> ctx["domain"].Str?
    ensures ShouldBlock(rs, url, ctx, engines).Ok?
  {
    MatchesTotal(url, ctx, rs.whitelistRe, rs.whitelistRequireDomain, rs.whitelistWithOptions,
                 rs.opt.checkUnsupportedRules, engines);
    MatchesTotal(url, ctx, rs.blacklistRe, rs.blacklistRequireDomain, rs.blacklistWithOptions,
                 rs.opt.checkUnsupportedRules, engines);
  }

  /** A domain-required rule that matches was listed in the index under a
      variant of the context's domain, so the indexed search finds it. */
  lemma {:induction false} IndexedRuleFound(x: Rule, dr: seq<Rule>, url: string, ctx: Context, pcre: (string, string) -> bool)
    requires x in dr && RequiresDomain(x) && Hit(x, url, ctx, pcre)
    ensures "domain" in ctx && ctx["domain"].Str?
    ensures x in Gather(DomainVariants(ctx["domain"].s), DomainIndex(dr))
    ensures |DomainIndex(dr)| > 0
  {
    var d := ctx["domain"].s;
    DomainMatchesRequired(x, d);
    var vs := DomainVariants(d);
    var i :| 0 <= i < |vs| && vs[i] in DomainMap(x) && DomainMap(x)[vs[i]];
    assert Requires(x, vs[i]);
    var idx := DomainIndex(dr);
    assert x in RulesRequiring(dr, vs[i]);
    assert vs[i] in idx && x in idx[vs[i]];
    assert vs[i] in idx.Keys;
  }

  /** The candidates are drawn from the two lists, and every matching rule
      of the two lists is among them. */
  lemma {:induction false} CandidatesCover(url: string, ctx: Context, dr: seq<Rule>, others: seq<Rule>, pcre: (string, string) -> bool)
    requires forall x :: x in dr ==> RequiresDomain(x)
    requires "domain" in ctx ==> ctx["domain"].Str?
    ensures forall x :: x in Candidates(ctx, DomainIndex(dr), others) ==> x in dr + others
    ensures forall x :: x in dr + others && Hit(x, url, ctx, pcre) ==> x in Candidates(ctx, DomainIndex(dr), others)
  {
    var index := DomainIndex(dr);
    var cs := Candidates(ctx, index, others);
    forall x | x in cs
      ensures x in dr + others
    {
      if x !in others {
        var vs := DomainVariants(ctx["domain"].s);
        var i :| 0 <= i < |vs| && vs[i] in index && x in index[vs[i]];
        }
    }
    forall x | x in dr + others && Hit(x, url, ctx, pcre)
      ensures x in cs
    {
      if x !in others {
        IndexedRuleFound(x, dr, url, ctx, pcre);
      }
    }
  }

  /** Without the check-only setting and with no `domain` entry or a string
      one, `matches` over an index of domain-required rules and a list of
      other rules answers as a scan of all of them would: the combined
      pattern, or some rule of either list that is supported and matches. */
  lemma {:induction false} MatchesComplete(url: string, ctx: Context, generalRe: Option<string>, dr: seq<Rule>, others: seq<Rule>,
                        engines: RegexEngines)
    requires forall x :: x in dr ==> RequiresDomain(x)
    requires "domain" in ctx ==> ctx["domain"].Str?
    ensures Matches(url, ctx, generalRe, DomainIndex(dr), others, false, engines)
         == Ok((generalRe.Some? && engines.combined(generalRe.value, url))
               || exists x :: x in dr + others && Hit(x, url, ctx, engines.pcre))
  {
    CandidatesCover(url, ctx, dr, others, engines.pcre);
    MatchesOverCover(url, ctx, generalRe, DomainIndex(dr), others, dr + others, engines);
  }

  /** `matches` over candidates that are drawn from `all` and include every
      matching rule of `all` answers as a scan of `all`. */
  lemma {:induction false} MatchesOverCover(url: string, ctx: Context, generalRe: Option<string>,
                                            index: map<string, seq<Rule>>, others: seq<Rule>, all: seq<Rule>,
                                            engines: RegexEngines)
    requires "domain" in ctx ==> ctx["domain"].Str?
    requires forall x :: x in Candidates(ctx, index, others) ==> x in all
    requires forall x :: x in all && Hit(x, url, ctx, engines.pcre) ==> x in Candidates(ctx, index, others)
    ensures Matches(url, ctx, generalRe, index, others, false, engines)
         == Ok((generalRe.Some? && engines.combined(generalRe.value, url))
               || exists x :: x in all && Hit(x, url, ctx, engines.pcre))
  {
    if !(generalRe.Some? && engines.combined(generalRe.value, url)) {
      var cs := Candidates(ctx, index, others);
      MatchesTotal(url, ctx, generalRe, index, others, false, engines);
      assert Matches(url, ctx, generalRe, index, others, false, engines) == FirstMatch(cs, url, ctx, engines.pcre);
      HitsAgree(cs, all, url, ctx, engines.pcre);
    }
  }

  /** Two lists with the same matching rules, one drawn from the other,
      agree on whether some rule matches. */
  lemma HitsAgree(cs: seq<Rule>, all: seq<Rule>, url: string, ctx: Context, pcre: (string, string) -> bool)
    requires forall x :: x in cs ==> x in all
    requires forall x :: x in all && Hit(x, url, ctx, pcre) ==> x in cs
    ensures (exists i :: 0 <= i < |cs| && Hit(cs[i], url, ctx, pcre))
        <==> exists x :: x in all && Hit(x, url, ctx, pcre)
  {
    if exists x :: x in all && Hit(x, url, ctx, pcre) {
      var x :| x in all && Hit(x, url, ctx, pcre);
      var i :| 0 <= i < |cs| && cs[i] == x;
    }
  }

  /** The domain-required rules of one side, each with a true domain. */
  lemma {:induction false} DomainRequiredSide(rules: seq<Rule>, black: bool, x: Rule)
    ensures var (b, w) := SplitBlackWhite(DomainRequiredRules(rules));
      x in (if black then b else w) <==>
        x in rules && CategoryOf(x) == DomainRequired && x.isException != black
  {
    var dr := DomainRequiredRules(rules);
    BuildPartition(rules, RulesOption(None, false), x);
    SplitRuleDataMembers(dr, IsBlack, x);
  }

  /** The blacklist decision of a built rule set, with unsupported rules
      matched and no non-string `domain` entry: the combined pattern of the
      basic blocking rules (in input order) hits, or some supported blocking
      rule with options matches, however the index is consulted. */
  lemma {:induction false} IsBlackListedComplete(rules: seq<Rule>, opt: RulesOption, url: string, ctx: Context, engines: RegexEngines)
    requires !opt.checkUnsupportedRules
    requires "domain" in ctx ==> ctx["domain"].Str?
    ensures var re := CombinedRegex(SplitRuleData(rules, IsBasicBlocking).0);
      IsBlackListed(Build(rules, opt), url, ctx, engines) == Ok(
        (re.Some? && engines.combined(re.value, url))
        || exists x :: x in rules && !x.isException && IsAdvanced(x) && Hit(x, url, ctx, engines.pcre))
  {
    var rs := Build(rules, opt);
    var (dr, _) := SplitBlackWhite(DomainRequiredRules(rules));
    forall x | x in dr
      ensures RequiresDomain(x)
    {
      DomainRequiredSide(rules, true, x);
    }
    MatchesComplete(url, ctx, rs.blacklistRe, dr, rs.blacklistWithOptions, engines);
    forall x
      ensures x in dr + rs.blacklistWithOptions <==> x in rules && !x.isException && IsAdvanced(x)
    {
      DomainRequiredSide(rules, true, x);
      BuildPartition(rules, opt, x);
    }
  }

  /** The whitelist decision likewise, over the exception rules. */
  lemma {:induction false} IsWhiteListedComplete(rules: seq<Rule>, opt: RulesOption, url: string, ctx: Context, engines: RegexEngines)
    requires !opt.checkUnsupportedRules
    requires "domain" in ctx ==> ctx["domain"].Str?
    ensures var re := CombinedRegex(SplitRuleData(rules, IsBasicException).0);
      IsWhiteListed(Build(rules, opt), url, ctx, engines) == Ok(
        (re.Some? && engines.combined(re.value, url))
        || exists x :: x in rules && x.isException && IsAdvanced(x) && Hit(x, url, ctx, engines.pcre))
  {
    var rs := Build(rules, opt);
    var (_, dr) := SplitBlackWhite(DomainRequiredRules(rules));
    forall x | x in dr
      ensures RequiresDomain(x)
    {
      DomainRequiredSide(rules, false, x);
    }
    MatchesComplete(url, ctx, rs.whitelistRe, dr, rs.whitelistWithOptions, engines);
    forall x
      ensures x in dr + rs.whitelistWithOptions <==> x in rules && x.isException && IsAdvanced(x)
    {
      DomainRequiredSide(rules, false, x);
      BuildPartition(rules, opt, x);
    }
  }
}
