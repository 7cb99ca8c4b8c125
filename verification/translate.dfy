/** The pattern translator (ruleToRegexp): turns the match text of one
    filter rule into a regular expression string. */
module Translate {
  import opened Outcomes
  import opened Strings

  /** What `^` becomes: one separator character (anything but a letter,
      digit, `_`, `-`, `.` or `%`) or the end of the address. */
  const SeparatorPattern := @"(?:[^\\w\\d_\\\-.%]|$)"

  /** What a leading `||` becomes: an optional scheme, then optionally `//`
      and any subdomain labels, so the rest matches at the start of the host. */
  const HostAnchorPattern := @"^(?:[^:/?#]+:)?(?://(?:[^/?#]*\\.)?)?"

  lemma SeparatorPatternHasNoStar()
    ensures '*' !in SeparatorPattern
  {
  }

  lemma HostAnchorPatternHasNoPipe()
    ensures '|' !in HostAnchorPattern
  {
  }

  /** The characters the translator escapes with a backslash. */
  predicate IsSpecial(c: char) {
    || c == '.' || c == '$' || c == '+' || c == '?' || c == '{' || c == '}'
    || c == '(' || c == ')' || c == '[' || c == ']' || c == '\\'
  }

  /** Text of the form `/.../`, taken as a regular expression already. */
  predicate IsRegexLiteral(text: string) {
    |text| >= 2 && text[0] == '/' && text[|text| - 1] == '/'
  }

  /** The escaping step: a backslash before every special character. */
  function EscapeSpecial(s: string): (r: string)
    ensures |r| >= |s|
    ensures '^' in r ==> '^' in s
    ensures '*' in r ==> '*' in s
  {
    if |s| == 0 then ""
    else EscapeChar(s[0]) + EscapeSpecial(s[1..])
  }

  /** Reference for the character-level rewriting: what each single
      character of the match text turns into. */
  function ExpandChar(c: char): string {
    if IsSpecial(c) then ['\\', c]
    else if c == '^' then SeparatorPattern
    else if c == '*' then ".*"
    else [c]
  }

  function Expand(s: string): (r: string)
    ensures |r| >= |s|
  {
    if |s| == 0 then "" else ExpandChar(s[0]) + Expand(s[1..])
  }

  lemma {:induction false} ExpandAppend(a: string, b: string)
    ensures Expand(a + b) == Expand(a) + Expand(b)
  {
    if |a| == 0 {
      assert a + b == b;
    } else {
      assert (a + b)[1..] == a[1..] + b;
      ExpandAppend(a[1..], b);
    }
  }

  /** The three rewriting passes of the translator, in order: escape the
      special characters, then replace `^`, then replace `*`. They act on
      each character independently, exactly as `ExpandChar` says. */
  function Rewrite(text: string): (r: string)
    ensures r == Expand(text)
  {
    RewriteIsExpand(text);
    ReplaceAll(ReplaceAll(EscapeSpecial(text), '^', SeparatorPattern), '*', ".*")
  }

  /** The escaping step on one character. */
  function EscapeChar(c: char): string {
    if IsSpecial(c) then ['\\', c] else [c]
  }

  /** The three passes agree with `ExpandChar` on a single character. */
  lemma {:induction false} RewriteChar(c: char)
    ensures ReplaceAll(ReplaceAll(EscapeChar(c), '^', SeparatorPattern), '*', ".*") == ExpandChar(c)
  {
    if c == '^' {
      assert ReplaceAll(EscapeChar(c), '^', SeparatorPattern) == SeparatorPattern;
      SeparatorPatternHasNoStar();
      ReplaceAllAbsent(SeparatorPattern, '*', ".*");
    } else if c == '*' {
      assert ReplaceAll(EscapeChar(c), '^', SeparatorPattern) == "*";
    } else if IsSpecial(c) {
      var e := EscapeChar(c);
      assert ReplaceAll(e[1..], '^', SeparatorPattern) == e[1..];
      assert ReplaceAll(e, '^', SeparatorPattern) == e;
      assert ReplaceAll(e[1..], '*', ".*") == e[1..];
    } else {
      assert ReplaceAll(EscapeChar(c), '^', SeparatorPattern) == [c];
    }
  }

  lemma {:induction false} RewriteIsExpand(s: string)
    ensures ReplaceAll(ReplaceAll(EscapeSpecial(s), '^', SeparatorPattern), '*', ".*") == Expand(s)
  {
    if |s| > 0 {
      var head := EscapeChar(s[0]);
      var tail := EscapeSpecial(s[1..]);
      assert EscapeSpecial(s) == head + tail;
      ReplaceAllAppend(head, tail, '^', SeparatorPattern);
      var mid := ReplaceAll(head, '^', SeparatorPattern);
      ReplaceAllAppend(mid, ReplaceAll(tail, '^', SeparatorPattern), '*', ".*");
      RewriteIsExpand(s[1..]);
      RewriteChar(s[0]);
    }
  }

  /** The trailing-pipe step: a final `|` becomes the end anchor `$`. */
  function EndAnchor(s: string): (r: string)
    ensures |r| == |s|
    ensures forall i :: 0 <= i < |s| - 1 ==> r[i] == s[i]
    ensures |s| > 0 ==> r[|s| - 1] == if s[|s| - 1] == '|' then '$' else s[|s| - 1]
  {
    if |s| > 0 && s[|s| - 1] == '|' then s[..|s| - 1] + "$" else s
  }

  /** The last pass, the regular expression `(\|)[^$]` replaced by `\|` left to
      right: a pipe followed by anything but `$` becomes an escaped pipe, and
      the character after it is dropped. */
  function EscapeInnerPipes(s: string): (r: string)
    ensures |r| == |s|
    ensures |s| > 0 && s[|s| - 1] == '$' ==> r[|r| - 1] == '$'
  {
    if |s| >= 2 && s[0] == '|' && s[1] != '$' then @"\|" + EscapeInnerPipes(s[2..])
    else if |s| == 0 then ""
    else [s[0]] + EscapeInnerPipes(s[1..])
  }

  /** Every pipe the last pass leaves is escaped, the last character, or
      followed by `$`. */
  lemma {:induction false} EscapeInnerPipesLeavesNoBarePipe(s: string, i: nat)
    requires i < |EscapeInnerPipes(s)| && EscapeInnerPipes(s)[i] == '|'
    ensures var r := EscapeInnerPipes(s);
      (0 < i && r[i - 1] == '\\') || i == |r| - 1 || r[i + 1] == '$'
  {
    var r := EscapeInnerPipes(s);
    if |s| >= 2 && s[0] == '|' && s[1] != '$' {
      if i >= 2 {
        EscapeInnerPipesLeavesNoBarePipe(s[2..], i - 2);
      }
    } else if i >= 1 {
      EscapeInnerPipesLeavesNoBarePipe(s[1..], i - 1);
    }
  }

  lemma {:induction false} EscapeInnerPipesAfter(a: string, b: string)
    requires '|' !in a
    ensures EscapeInnerPipes(a + b) == a + EscapeInnerPipes(b)
  {
    if |a| > 0 {
      assert (a + b)[0] == a[0];
      assert (a + b)[1..] == a[1..] + b;
      EscapeInnerPipesAfter(a[1..], b);
    } else {
      assert a + b == b;
    }
  }

  /** ruleToRegexp. A Go slice `rule[:2]` reads two bytes, so it panics on
      an intermediate pattern of one character that UTF-8 encodes in one
      byte (an ASCII character); a wider character reads as two bytes and
      is compared, harmlessly. */
  function RuleToRegexp(text: string): (r: Result<string, Panic>)
    ensures text == "" ==> r == Ok(".*")
    ensures IsRegexLiteral(text) ==> r == Ok(text[1..|text| - 1])
  {
    if text == "" then Ok(".*")
    else if IsRegexLiteral(text) then Ok(text[1..|text| - 1])
    else
      Finish(EndAnchor(Rewrite(text)))
  }

  /** The steps after the trailing-pipe step: the `rule[:2]` slice, the
      leading anchors, and the pipe escaping. */
  function Finish(rule: string): (r: Result<string, Panic>)
    requires |rule| > 0
    ensures r.Err? <==> |rule| == 1 && rule[0] as int < 0x80
    ensures r.Err? ==> r.error == PatternTooShort(rule)
  {
    if |rule| < 2 && rule[0] as int < 0x80 then Err(PatternTooShort(rule))
    else Ok(EscapeInnerPipes(StartAnchor(rule)))
  }

  lemma {:induction false} RuleToRegexpIsFinish(text: string)
    requires text != "" && !IsRegexLiteral(text)
    ensures RuleToRegexp(text) == Finish(EndAnchor(Expand(text)))
  {
  }

  lemma {:induction false} EndAnchorAfter(a: string, b: string)
    requires |b| > 0
    ensures EndAnchor(a + b) == a + EndAnchor(b)
  {
    assert (a + b)[|a + b| - 1] == b[|b| - 1];
    if b[|b| - 1] == '|' {
      assert (a + b)[..|a + b| - 1] == a + b[..|b| - 1];
    }
  }

  /** How many leading pipes the leading-anchor step replaces: two for a
      `||` with more text, one for a single `|`, none otherwise. */
  function AnchorLength(rule: string): (n: nat)
    requires |rule| > 0
    ensures n <= |rule|
  {
    if |rule| > 2 && rule[0] == '|' && rule[1] == '|' then 2
    else if rule[0] == '|' && (|rule| == 1 || rule[1] != '|') then 1
    else 0
  }

  /** The leading-anchor step: `||` followed by more text becomes the host
      anchor, otherwise a single leading `|` becomes `^`. */
  function StartAnchor(rule: string): (r: string)
    requires |rule| > 0
    ensures |r| >= |rule|
    ensures rule[0] != '|' ==> r == rule
    ensures rule[0] == '|' && rule != "||" ==> r[0] == '^'
  {
    if |rule| >= 2 && rule[0] == '|' && rule[1] == '|' then
      (if |rule| > 2 then HostAnchorPattern + rule[2..] else rule)
    else if rule[0] == '|' then "^" + rule[1..]
    else rule
  }

  /** The leading-anchor step replaces the leading pipes it consumes by a
      pipe-free anchor and keeps the rest of the pattern. */
  lemma {:induction false} StartAnchorKeepsRest(rule: string)
    requires |rule| > 0
    ensures var r := StartAnchor(rule); var n := AnchorLength(rule); var k := |r| - (|rule| - n);
      0 <= k <= |r| && r[k..] == rule[n..] && '|' !in r[..k]
  {
    var r := StartAnchor(rule);
    var n := AnchorLength(rule);
    if n == 2 {
      HostAnchorPatternHasNoPipe();
      assert r[..|HostAnchorPattern|] == HostAnchorPattern;
    } else if n == 1 {
      assert r[..1] == "^";
    }
  }

  /** A character the rewriting passes leave as it is. */
  predicate IsPlain(c: char) {
    !IsSpecial(c) && c != '^' && c != '*'
  }

  /** The translation fails exactly on a one-character match text whose
      character is ASCII and is not rewritten to something longer. */
  lemma {:induction false} RuleToRegexpFails(text: string)
    ensures RuleToRegexp(text).Err? <==>
      |text| == 1 && text[0] as int < 0x80 && IsPlain(text[0])
  {
    if text != "" && !IsRegexLiteral(text) {
      if |text| == 1 {
        assert Expand(text) == ExpandChar(text[0]);
      }
    }
  }

  lemma ExpandCharPipe()
    ensures ExpandChar('|') == "|"
  {
    assert !IsSpecial('|');
  }

  lemma {:induction false} ExpandCons(text: string)
    requires |text| > 0
    ensures Expand(text) == ExpandChar(text[0]) + Expand(text[1..])
    ensures |ExpandChar(text[0])| > 0
    ensures Expand(text)[0] == '|' <==> text[0] == '|'
  {
    var c := text[0];
    assert Expand(text) == ExpandChar(c) + Expand(text[1..]);
    if IsSpecial(c) {
      assert ExpandChar(c)[0] == '\\';
    } else if c == '^' {
      SeparatorPatternStart();
    } else if c == '*' {
      assert ExpandChar(c) == ".*";
    } else {
      assert ExpandChar(c) == [c];
    }
  }

  lemma SeparatorPatternStart()
    ensures |SeparatorPattern| > 0 && SeparatorPattern[0] == '('
  {
  }

  /** A final pipe becomes the end anchor. */
  lemma {:induction false} EndAnchorPipe(x: string)
    ensures EndAnchor(x + "|") == x + "$"
  {
    var s := x + "|";
    assert s[..|s| - 1] == x;
  }

  /** An end-anchored pattern keeps its first character unless it is one
      character long. */
  lemma {:induction false} EndAnchorFirst(e: string)
    requires |e| >= 2
    ensures EndAnchor(e)[0] == e[0]
  {
  }

  lemma {:induction false} FinishUnanchored(p: string)
    requires |p| > 0 && p[0] != '|' && Finish(p).Ok?
    ensures Finish(p) == Ok(EscapeInnerPipes(p))
  {
  }

  lemma {:induction false} FinishHostAnchor(p: string)
    requires |p| > 2 && p[0] == '|' && p[1] == '|'
    ensures Finish(p) == Ok(HostAnchorPattern + EscapeInnerPipes(p[2..]))
  {
    HostAnchorPatternHasNoPipe();
    EscapeInnerPipesAfter(HostAnchorPattern, p[2..]);
  }

  lemma {:induction false} FinishStartAnchor(p: string)
    requires |p| >= 2 && p[0] == '|' && p[1] != '|'
    ensures Finish(p) == Ok("^" + EscapeInnerPipes(p[1..]))
  {
    EscapeInnerPipesAfter("^", p[1..]);
  }

  lemma {:induction false} FinishEndsWithDollar(p: string)
    requires |p| >= 2 && p[|p| - 1] == '$'
    ensures Finish(p).Ok? && |Finish(p).value| > 0
    ensures Finish(p).value[|Finish(p).value| - 1] == '$'
  {
    var q := StartAnchor(p);
    if p[0] == '|' && p[1] == '|' {
      assert |p| > 2;
      assert q == HostAnchorPattern + p[2..];
      assert q[|q| - 1] == p[|p| - 1];
    } else if p[0] == '|' {
      assert q == "^" + p[1..];
    }
    assert |q| > 0 && q[|q| - 1] == '$';
  }

  /** Text that does not start with a pipe: the rewritten characters, with
      the end anchor, and the inner pipes escaped. */
  lemma {:induction false} RuleToRegexpUnanchored(text: string)
    requires text != "" && !IsRegexLiteral(text) && text[0] != '|'
    requires RuleToRegexp(text).Ok?
    ensures RuleToRegexp(text).value == EscapeInnerPipes(EndAnchor(Expand(text)))
  {
    RuleToRegexpIsFinish(text);
    var e := Expand(text);
    ExpandCons(text);
    if |e| >= 2 {
      EndAnchorFirst(e);
    }
    FinishUnanchored(EndAnchor(e));
  }

  lemma {:induction false} ExpandAfterPipes(text: string, n: nat)
    requires n <= |text| && forall i :: 0 <= i < n ==> text[i] == '|'
    ensures Expand(text) == text[..n] + Expand(text[n..])
  {
    var pre := text[..n];
    assert forall i :: 0 <= i < |pre| ==> pre[i] == '|';
    PipesExpandToThemselves(pre);
    assert text == pre + text[n..];
    ExpandAppend(pre, text[n..]);
  }

  lemma {:induction false} PlainExpandsToItself(s: string)
    requires forall i :: 0 <= i < |s| ==> IsPlain(s[i])
    ensures Expand(s) == s
  {
    if |s| > 0 {
      PlainExpandsToItself(s[1..]);
    }
  }

  lemma {:induction false} PipesExpandToThemselves(s: string)
    requires forall i :: 0 <= i < |s| ==> s[i] == '|'
    ensures Expand(s) == s
  {
    if |s| > 0 {
      ExpandCharPipe();
      PipesExpandToThemselves(s[1..]);
    }
  }

  /** A leading `||` with more text after it becomes the host-anchor prefix
      in front of the translation of the rest. */
  lemma {:induction false} RuleToRegexpHostAnchor(text: string)
    requires "||" <= text && |text| > 2
    ensures RuleToRegexp(text)
         == Ok(HostAnchorPattern + EscapeInnerPipes(EndAnchor(Expand(text[2..]))))
  {
    RuleToRegexpIsFinish(text);
    ExpandAfterPipes(text, 2);
    assert text[..2] == "||";
    var rest := Expand(text[2..]);
    EndAnchorAfter("||", rest);
    var p := "||" + EndAnchor(rest);
    assert EndAnchor(Expand(text)) == p;
    assert p[2..] == EndAnchor(rest);
    FinishHostAnchor(p);
  }

  /** A single leading `|` becomes the start anchor `^`. */
  lemma {:induction false} RuleToRegexpStartAnchor(text: string)
    requires |text| >= 2 && text[0] == '|' && text[1] != '|'
    ensures RuleToRegexp(text) == Ok("^" + EscapeInnerPipes(EndAnchor(Expand(text[1..]))))
  {
    RuleToRegexpIsFinish(text);
    ExpandAfterPipes(text, 1);
    var rest := Expand(text[1..]);
    ExpandCons(text[1..]);
    EndAnchorAfter("|", rest);
    if |rest| >= 2 {
      EndAnchorFirst(rest);
    }
    var p := "|" + EndAnchor(rest);
    assert p[1..] == EndAnchor(rest);
    FinishStartAnchor(p);
  }

  lemma {:induction false} ExpandTrailingPipe(text: string)
    requires |text| > 0 && text[|text| - 1] == '|'
    ensures EndAnchor(Expand(text)) == Expand(text[..|text| - 1]) + "$"
  {
    var init := text[..|text| - 1];
    assert text == init + "|";
    ExpandAppend(init, "|");
    PipesExpandToThemselves("|");
    assert Expand(text) == Expand(init) + "|";
    EndAnchorPipe(Expand(init));
  }

  /** A trailing `|` becomes the end anchor: the pattern ends with `$`. */
  lemma {:induction false} RuleToRegexpEndAnchor(text: string)
    requires text != "" && !IsRegexLiteral(text) && text[|text| - 1] == '|'
    requires RuleToRegexp(text).Ok?
    ensures var p := RuleToRegexp(text).value; |p| > 0 && p[|p| - 1] == '$'
  {
    RuleToRegexpIsFinish(text);
    ExpandTrailingPipe(text);
    var p := EndAnchor(Expand(text));
    assert p == Expand(text[..|text| - 1]) + "$";
    FinishKeepsDollar(p);
  }

  lemma {:induction false} FinishKeepsDollar(p: string)
    requires |p| > 0 && p[|p| - 1] == '$' && Finish(p).Ok?
    ensures |Finish(p).value| > 0 && Finish(p).value[|Finish(p).value| - 1] == '$'
  {
    if |p| >= 2 {
      FinishEndsWithDollar(p);
    }
  }

  /** A bare double pipe is not a host anchor: it becomes `|$` at the end
      step and then `^$`, which matches only the empty address. */
  lemma DoublePipeAlone()
    ensures RuleToRegexp("||") == Ok("^$")
  {
    RuleToRegexpIsFinish("||");
    PipesExpandToThemselves("||");
    assert EndAnchor("||") == "|$";
    FinishStartAnchor("|$");
    assert "|$"[1..] == "$";
    assert EscapeInnerPipes("$") == "$";
    assert "^" + "$" == "^$";
  }

  /** Text of plain characters and pipes, at least two long, with no pipe
      at either end, only goes through the inner-pipe pass. */
  lemma {:induction false} PlainTranslation(t: string)
    requires |t| >= 2 && t[0] != '|' && t[|t| - 1] != '|' && t[0] != '/'
    requires forall i :: 0 <= i < |t| ==> IsPlain(t[i])
    ensures RuleToRegexp(t) == Ok(EscapeInnerPipes(t))
  {
    PlainFinish(t);
    RuleToRegexpIsFinish(t);
  }

  lemma {:induction false} PlainFinish(t: string)
    requires |t| >= 2 && t[0] != '|' && t[|t| - 1] != '|'
    requires forall i :: 0 <= i < |t| ==> IsPlain(t[i])
    ensures Finish(EndAnchor(Expand(t))) == Ok(EscapeInnerPipes(t))
  {
    PlainExpandsToItself(t);
    FinishUnpiped(t);
  }

  lemma {:induction false} FinishUnpiped(t: string)
    requires |t| >= 2 && t[0] != '|' && t[|t| - 1] != '|'
    ensures Finish(EndAnchor(t)) == Ok(EscapeInnerPipes(t))
  {
    EndAnchorWithoutPipe(t);
    FinishUnpipedStart(t);
  }

  lemma {:induction false} EndAnchorWithoutPipe(t: string)
    requires |t| > 0 && t[|t| - 1] != '|'
    ensures EndAnchor(t) == t
  {
  }

  lemma {:induction false} FinishUnpipedStart(t: string)
    requires |t| >= 2 && t[0] != '|'
    ensures Finish(t) == Ok(EscapeInnerPipes(t))
  {
  }

  /** The inner-pipe pass swallows the character after an inner pipe:
      `a|b` translates to `a\|`, which no longer mentions `b`. */
  lemma InnerPipeDropsNextChar()
    ensures RuleToRegexp("a|b") == Ok(@"a\|")
  {
    var t := "a|b";
    assert IsPlain(t[0]) && IsPlain(t[1]) && IsPlain(t[2]);
    PlainTranslation(t);
    assert t[1..] == "|b" && "|b"[2..] == "";
    assert EscapeInnerPipes("|b") == @"\|";
    assert EscapeInnerPipes(t) == "a" + @"\|";
    assert "a" + @"\|" == @"a\|";
  }
}
