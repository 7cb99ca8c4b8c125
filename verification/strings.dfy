/** The pieces of Go's `strings` package the filter engine is built on
    (TrimSpace, TrimLeft, Contains, HasPrefix, Index, Split, Join, Replace),
    over strings as sequences of characters. Prefix tests use Dafny's
    sequence-prefix operator: `p <= s` is `strings.HasPrefix(s, p)`. */
module Strings {

  /** unicode.IsSpace: the characters strings.TrimSpace removes. */
  predicate IsSpace(c: char) {
    || c == ' ' || c == '\t' || c == '\n' || c == '\r'
    || c == '\U{B}' || c == '\U{C}' || c == '\U{85}' || c == '\U{A0}'
    || c == '\U{1680}' || ('\U{2000}' <= c <= '\U{200A}')
    || c == '\U{2028}' || c == '\U{2029}' || c == '\U{202F}'
    || c == '\U{205F}' || c == '\U{3000}'
  }

  function TrimLeftSpace(s: string): (r: string)
    ensures |r| <= |s| && r == s[|s| - |r|..]
    ensures forall k :: 0 <= k < |s| - |r| ==> IsSpace(s[k])
    ensures |r| > 0 ==> !IsSpace(r[0])
  {
    if |s| > 0 && IsSpace(s[0]) then TrimLeftSpace(s[1..]) else s
  }

  function TrimRightSpace(s: string): (r: string)
    ensures |r| <= |s| && r == s[..|r|]
    ensures forall k :: |r| <= k < |s| ==> IsSpace(s[k])
    ensures |r| > 0 ==> !IsSpace(r[|r| - 1])
  {
    if |s| > 0 && IsSpace(s[|s| - 1]) then TrimRightSpace(s[..|s| - 1]) else s
  }

  /** strings.TrimSpace: the longest infix of `s` that neither starts nor
      ends with white space, found by dropping white space from both ends. */
  function TrimSpace(s: string): (r: string)
    ensures |r| == 0 || (!IsSpace(r[0]) && !IsSpace(r[|r| - 1]))
    ensures var lead := |s| - |TrimLeftSpace(s)|;
      && lead + |r| <= |s|
      && r == s[lead..lead + |r|]
      && (forall k :: 0 <= k < lead ==> IsSpace(s[k]))
      && (forall k :: lead + |r| <= k < |s| ==> IsSpace(s[k]))
  {
    TrimRightSpace(TrimLeftSpace(s))
  }

  /** Trimming is idempotent: a trimmed string is left as it is. */
  lemma {:induction false} TrimSpaceIdempotent(s: string)
    ensures TrimSpace(TrimSpace(s)) == TrimSpace(s)
  {
    var t := TrimSpace(s);
    if |t| > 0 {
      assert TrimLeftSpace(t) == t;
      assert TrimRightSpace(t) == t;
    }
  }

  /** strings.TrimLeft(s, [c]): drops every leading copy of `c`. */
  function TrimLeftChar(s: string, c: char): (r: string)
    ensures |r| <= |s| && r == s[|s| - |r|..]
    ensures forall k :: 0 <= k < |s| - |r| ==> s[k] == c
    ensures |r| > 0 ==> r[0] != c
  {
    if |s| > 0 && s[0] == c then TrimLeftChar(s[1..], c) else s
  }

  /** strings.Contains: `sub` occurs somewhere in `s`. */
  predicate Contains(s: string, sub: string)
    decreases |s|
  {
    sub <= s || (|s| > 0 && Contains(s[1..], sub))
  }

  /** `sub` occurs in `s` starting at position `i`. */
  ghost predicate OccursAt(s: string, sub: string, i: int) {
    0 <= i && i + |sub| <= |s| && s[i..i + |sub|] == sub
  }

  lemma {:induction false} ContainsAt(s: string, sub: string, i: nat)
    requires OccursAt(s, sub, i)
    ensures Contains(s, sub)
    decreases i
  {
    if i == 0 {
      assert s[..|sub|] == sub;
    } else {
      assert s[1..][i - 1..i - 1 + |sub|] == s[i..i + |sub|];
      ContainsAt(s[1..], sub, i - 1);
    }
  }

  /** Contains means an occurrence at some position, in both directions. */
  lemma {:induction false} ContainsIff(s: string, sub: string)
    ensures Contains(s, sub) <==> exists i :: OccursAt(s, sub, i)
    decreases |s|
  {
    if Contains(s, sub) {
      if sub <= s {
        assert s[0..0 + |sub|] == sub;
        assert OccursAt(s, sub, 0);
      } else {
        ContainsIff(s[1..], sub);
        var i :| OccursAt(s[1..], sub, i);
        assert s[i + 1..i + 1 + |sub|] == s[1..][i..i + |sub|];
        assert OccursAt(s, sub, i + 1);
      }
    } else {
      forall i | OccursAt(s, sub, i)
        ensures false
      {
        ContainsAt(s, sub, i);
      }
    }
  }

  /** createCheckStringSetFunc: `check(s, x)` holds for some `x` of the set,
      tried in order. */
  function CheckStringSet(check: (string, string) -> bool, s: string, sets: seq<string>): (r: bool)
    ensures r <==> exists i :: 0 <= i < |sets| && check(s, sets[i])
  {
    if |sets| == 0 then false
    else if check(s, sets[0]) then true
    else CheckStringSet(check, s, sets[1..])
  }

  predicate PrefixOf(s: string, prefix: string) {
    prefix <= s
  }

  /** HasAnyPrefix: `s` starts with one of `prefixes`. */
  function HasAnyPrefix(s: string, prefixes: seq<string>): (r: bool)
    ensures r <==> exists i :: 0 <= i < |prefixes| && prefixes[i] <= s
  {
    CheckStringSet(PrefixOf, s, prefixes)
  }

  /** ContainsAny: one of `subs` occurs in `s`. */
  function ContainsAny(s: string, subs: seq<string>): (r: bool)
    ensures r <==> exists i :: 0 <= i < |subs| && Contains(s, subs[i])
  {
    CheckStringSet(Contains, s, subs)
  }

  /** strings.Index for a one-character separator that occurs. */
  function IndexOf(s: string, c: char): (i: nat)
    requires c in s
    ensures i < |s| && s[i] == c && c !in s[..i]
  {
    if s[0] == c then 0 else 1 + IndexOf(s[1..], c)
  }

  /** Number of occurrences of `c` in `s`. */
  function Count(s: string, c: char): nat {
    if |s| == 0 then 0 else (if s[0] == c then 1 else 0) + Count(s[1..], c)
  }

  lemma {:induction false} CountAppend(a: string, b: string, c: char)
    ensures Count(a + b, c) == Count(a, c) + Count(b, c)
  {
    if |a| == 0 {
      assert a + b == b;
    } else {
      assert (a + b)[1..] == a[1..] + b;
      CountAppend(a[1..], b, c);
    }
  }

  lemma {:induction false} CountAbsent(s: string, c: char)
    requires c !in s
    ensures Count(s, c) == 0
  {
    if |s| > 0 {
      CountAbsent(s[1..], c);
    }
  }

  lemma {:induction false} CountNone(s: string, c: char)
    requires Count(s, c) == 0
    ensures c !in s
  {
    if |s| > 0 {
      CountNone(s[1..], c);
      assert s == [s[0]] + s[1..];
    }
  }

  /** strings.Split with a one-character separator: the pieces between
      consecutive separators; never empty, and no piece holds the separator. */
  function Split(s: string, sep: char): (parts: seq<string>)
    ensures |parts| >= 1
    ensures forall i :: 0 <= i < |parts| ==> sep !in parts[i]
    ensures |parts| == Count(s, sep) + 1
    decreases |s|
  {
    if sep in s then
      var i := IndexOf(s, sep);
      CountAppend(s[..i], s[i..], sep);
      CountAbsent(s[..i], sep);
      assert s == s[..i] + s[i..];
      assert s[i..][1..] == s[i + 1..];
      [s[..i]] + Split(s[i + 1..], sep)
    else
      CountAbsent(s, sep);
      [s]
  }

  /** strings.Join with a one-character separator. */
  function Join(parts: seq<string>, sep: char): string {
    if |parts| == 0 then ""
    else if |parts| == 1 then parts[0]
    else parts[0] + [sep] + Join(parts[1..], sep)
  }

  /** Joining the pieces of a split gives the original string back. */
  lemma {:induction false} JoinSplit(s: string, sep: char)
    ensures Join(Split(s, sep), sep) == s
    decreases |s|
  {
    if sep in s {
      var i := IndexOf(s, sep);
      JoinSplit(s[i + 1..], sep);
      assert Split(s, sep)[1..] == Split(s[i + 1..], sep);
      assert s == s[..i] + [sep] + s[i + 1..];
    }
  }

  /** Splitting a join of separator-free pieces gives the pieces back. */
  lemma {:induction false} SplitJoin(parts: seq<string>, sep: char)
    requires |parts| >= 1
    requires forall i :: 0 <= i < |parts| ==> sep !in parts[i]
    ensures Split(Join(parts, sep), sep) == parts
  {
    if |parts| > 1 {
      var s := Join(parts, sep);
      var rest := Join(parts[1..], sep);
      assert s == parts[0] + [sep] + rest;
      assert sep in s by { assert s[|parts[0]|] == sep; }
      IndexOfAfterPrefix(parts[0], [sep] + rest, sep);
      assert s[|parts[0]| + 1..] == rest;
      assert s[..|parts[0]|] == parts[0];
      SplitJoin(parts[1..], sep);
    }
  }

  lemma {:induction false} IndexOfAfterPrefix(a: string, b: string, c: char)
    requires c !in a && |b| > 0 && b[0] == c
    ensures c in a + b && IndexOf(a + b, c) == |a|
  {
    assert (a + b)[|a|] == c;
    if |a| > 0 {
      assert (a + b)[1..] == a[1..] + b;
      IndexOfAfterPrefix(a[1..], b, c);
    }
  }

  /** The first piece of a split is the text before the first separator. */
  lemma {:induction false} SplitFirst(s: string, sep: char)
    requires sep in s
    ensures Split(s, sep)[0] == s[..IndexOf(s, sep)]
    ensures Split(s, sep)[1..] == Split(s[IndexOf(s, sep) + 1..], sep)
  {
  }

  /** A character absent from `s` is absent from every piece of its split. */
  lemma SplitPartIn(s: string, sep: char, i: nat, c: char)
    requires c !in s && i < |Split(s, sep)|
    ensures c !in Split(s, sep)[i]
  {
    JoinSplit(s, sep);
    JoinPartIn(Split(s, sep), sep, i, c);
  }

  /** A character absent from a join is absent from each joined part. */
  lemma {:induction false} JoinPartIn(parts: seq<string>, sep: char, i: nat, c: char)
    requires c !in Join(parts, sep) && i < |parts|
    ensures c !in parts[i]
  {
    if |parts| > 1 {
      var j := Join(parts, sep);
      assert j == parts[0] + ([sep] + Join(parts[1..], sep));
      if i == 0 {
        AbsentFromSlice(j, c, 0, |parts[0]|);
        assert j[..|parts[0]|] == parts[0];
      } else {
        AbsentFromSlice(j, c, |parts[0]| + 1, |j|);
        assert j[|parts[0]| + 1..] == Join(parts[1..], sep);
        JoinPartIn(parts[1..], sep, i - 1, c);
      }
    }
  }

  lemma {:induction false} AbsentFromSlice(s: string, c: char, a: nat, b: nat)
    requires c !in s && a <= b <= |s|
    ensures c !in s[a..b]
  {
    assert forall k | 0 <= k < b - a :: s[a..b][k] == s[a + k];
  }

  /** A sequence is what precedes position `i`, the element there, and
      what follows. */
  lemma SliceAround<T>(s: seq<T>, i: nat)
    requires i < |s|
    ensures s == s[..i] + [s[i]] + s[i + 1..]
  {
  }

  /** Joining a concatenation of two non-empty lists puts one separator
      between the two joins. */
  lemma {:induction false} JoinAppend(p: seq<string>, q: seq<string>, sep: char)
    requires |p| >= 1 && |q| >= 1
    ensures Join(p + q, sep) == Join(p, sep) + [sep] + Join(q, sep)
  {
    if |p| > 1 {
      assert (p + q)[1..] == p[1..] + q;
      JoinAppend(p[1..], q, sep);
    } else {
      assert (p + q)[1..] == q;
    }
  }

  /** Splitting at a separator distributes over the text around it. */
  lemma {:induction false} SplitAround(a: string, b: string, sep: char)
    ensures Split(a + [sep] + b, sep) == Split(a, sep) + Split(b, sep)
  {
    var pa := Split(a, sep);
    var pb := Split(b, sep);
    JoinSplit(a, sep);
    JoinSplit(b, sep);
    JoinAppend(pa, pb, sep);
    SplitJoin(pa + pb, sep);
  }

  /** strings.Replace(s, [c], by, -1): every `c` of `s` becomes `by`,
      scanning the original text only. */
  function ReplaceAll(s: string, c: char, with: string): (r: string)
    ensures c !in with ==> c !in r
    ensures |r| == |s| + Count(s, c) * (|with| - 1)
    ensures |with| == 1 ==> forall i :: 0 <= i < |s| ==> r[i] == if s[i] == c then with[0] else s[i]
  {
    if |s| == 0 then ""
    else
      var rest := ReplaceAll(s[1..], c, with);
      assert (Count(s[1..], c) + 1) * (|with| - 1) == Count(s[1..], c) * (|with| - 1) + |with| - 1;
      assert forall i :: 1 <= i < |s| ==> s[1..][i - 1] == s[i];
      (if s[0] == c then with else [s[0]]) + rest
  }

  lemma {:induction false} ReplaceAllAppend(a: string, b: string, c: char, with: string)
    ensures ReplaceAll(a + b, c, with) == ReplaceAll(a, c, with) + ReplaceAll(b, c, with)
  {
    if |a| == 0 {
      assert a + b == b;
    } else {
      assert (a + b)[1..] == a[1..] + b;
      ReplaceAllAppend(a[1..], b, c, with);
    }
  }

  lemma {:induction false} ReplaceAllAbsent(s: string, c: char, with: string)
    requires c !in s
    ensures ReplaceAll(s, c, with) == s
  {
    if |s| > 0 {
      ReplaceAllAbsent(s[1..], c, with);
    }
  }

  /** Replacing `c` by another character `d` turns each occurrence of `c`
      into one of `d`, on top of the ones already there. */
  lemma {:induction false} ReplaceAllCount(s: string, c: char, d: char)
    requires c != d
    ensures Count(ReplaceAll(s, c, [d]), d) == Count(s, c) + Count(s, d)
    ensures Count(ReplaceAll(s, c, [d]), c) == 0
  {
    if |s| > 0 {
      ReplaceAllCount(s[1..], c, d);
      var head := if s[0] == c then [d] else [s[0]];
      CountAppend(head, ReplaceAll(s[1..], c, [d]), d);
      CountAppend(head, ReplaceAll(s[1..], c, [d]), c);
      assert head[1..] == [];
    }
  }

  /** Replacing a character by a one-character string is splitting at it
      and joining with the replacement. */
  lemma {:induction false} ReplaceAllJoinSplit(s: string, c: char, d: char)
    ensures ReplaceAll(s, c, [d]) == Join(Split(s, c), d)
    decreases |s|
  {
    if c in s {
      var i := IndexOf(s, c);
      var a, b := s[..i], s[i + 1..];
      var ps := Split(b, c);
      SplitFirst(s, c);
      assert Split(s, c) == [a] + ps;
      assert Join([a] + ps, d) == a + [d] + Join(ps, d) by {
        assert ([a] + ps)[1..] == ps;
      }
      ReplaceAllJoinSplit(b, c, d);
      SliceAround(s, i);
      ReplaceAllAppend(a + [c], b, c, [d]);
      ReplaceAllAppend(a, [c], c, [d]);
      ReplaceAllAbsent(a, c, [d]);
      assert ReplaceAll([c], c, [d]) == [d];
    } else {
      ReplaceAllAbsent(s, c, [d]);
    }
  }

  /** reverseStrings: the list back to front, built by appending the head
      after the reversed tail. */
  function Reverse<T>(xs: seq<T>): (r: seq<T>)
    ensures |r| == |xs|
    ensures forall i :: 0 <= i < |xs| ==> r[i] == xs[|xs| - 1 - i]
  {
    if |xs| == 0 then xs else Reverse(xs[1..]) + [xs[0]]
  }

  /** Reversing twice gives back the list. */
  lemma {:induction false} ReverseReverse<T>(xs: seq<T>)
    ensures Reverse(Reverse(xs)) == xs
  {
    var r := Reverse(Reverse(xs));
    assert forall i | 0 <= i < |xs| :: r[i] == xs[i];
  }
}
