/** Domain suffix chains (DomainVariants): a host name is looked up in the
    rule tables under itself and under every parent domain, most specific
    first, down to the last two labels. */
module Domains {
  import opened Strings

  /** The loop of DomainVariants over the labels: one entry per label but
      the last, the k-th joining labels k, k+1, ... with dots. */
  function LabelSuffixes(labels: seq<string>): (vs: seq<string>)
    ensures |vs| == if |labels| == 0 then 0 else |labels| - 1
  {
    if |labels| <= 1 then [] else [Join(labels, '.')] + LabelSuffixes(labels[1..])
  }

  /** The k-th entry joins labels k, k+1, ... (the index form of the loop). */
  lemma {:induction false} LabelSuffixesIndexed(labels: seq<string>, k: nat)
    requires k < |LabelSuffixes(labels)|
    ensures LabelSuffixes(labels)[k] == Join(labels[k..], '.')
  {
    if k > 0 {
      LabelSuffixesIndexed(labels[1..], k - 1);
      assert labels[1..][k - 1..] == labels[k..];
    }
  }

  /** The suffix chain of `domain`: the whole domain first, then each
      parent domain that still has a dot; a single label gives nothing. */
  function DomainVariants(domain: string): (vs: seq<string>)
    ensures |vs| == Count(domain, '.')
  {
    LabelSuffixes(Split(domain, '.'))
  }

  /** One step of the chain: the whole domain, then the chain of what
      follows its first dot; a dot-free domain has an empty chain. */
  lemma {:induction false} DomainVariantsUnfold(domain: string)
    ensures '.' !in domain ==> DomainVariants(domain) == []
    ensures '.' in domain ==>
      DomainVariants(domain) == [domain] + DomainVariants(domain[IndexOf(domain, '.') + 1..])
  {
    if '.' in domain {
      var i := IndexOf(domain, '.');
      var labels := Split(domain, '.');
      SplitFirst(domain, '.');
      JoinSplit(domain, '.');
      assert labels[1..] == Split(domain[i + 1..], '.');
      assert |labels| >= 2 by {
        CountAppend(domain[..i + 1], domain[i + 1..], '.');
        assert domain[..i + 1] == domain[..i] + ['.'];
        CountAppend(domain[..i], ['.'], '.');
        assert domain == domain[..i + 1] + domain[i + 1..];
      }
    } else {
      CountAbsent(domain, '.');
    }
  }

  /** The chain of `head.rest` is `head.rest` followed by the chain of `rest`. */
  lemma {:induction false} DomainVariantsOfSubdomain(head: string, rest: string)
    requires '.' !in head
    ensures DomainVariants(head + "." + rest) == [head + "." + rest] + DomainVariants(rest)
  {
    var d := head + "." + rest;
    IndexOfAfterPrefix(head, "." + rest, '.');
    assert d == head + ("." + rest);
    assert d[|head| + 1..] == rest;
    DomainVariantsUnfold(d);
  }

  /** `v` is `d` itself or the text after one of the dots of `d`: it ends
      `d`, and whatever comes before it ends with a dot. */
  predicate IsDomainSuffix(d: string, v: string) {
    |v| <= |d| && d[|d| - |v|..] == v && (|v| == |d| || d[|d| - |v| - 1] == '.')
  }

  /** The entries of the chain are exactly the suffixes of the domain, at
      the whole domain or after a dot, that still contain a dot. */
  lemma DomainVariantsMembers(d: string, v: string)
    ensures v in DomainVariants(d) <==> '.' in v && IsDomainSuffix(d, v)
  {
    if v in DomainVariants(d) {
      DomainVariantsSound(d, v);
    }
    if '.' in v && IsDomainSuffix(d, v) {
      DomainVariantsComplete(d, v);
    }
  }

  lemma {:induction false} DomainVariantsSound(d: string, v: string)
    requires v in DomainVariants(d)
    ensures '.' in v && IsDomainSuffix(d, v)
    decreases |d|
  {
    DomainVariantsUnfold(d);
    if v != d {
      var j := IndexOf(d, '.');
      DomainVariantsSound(d[j + 1..], v);
      SuffixOfRest(d, j, v);
    }
  }

  lemma {:induction false} DomainVariantsComplete(d: string, v: string)
    requires '.' in v && IsDomainSuffix(d, v)
    ensures v in DomainVariants(d)
    decreases |d|
  {
    DomainVariantsUnfold(d);
    if v != d {
      RestOfSuffix(d, v);
      DomainVariantsComplete(d[IndexOf(d, '.') + 1..], v);
    }
  }

  /** A suffix of the text after a dot is a suffix of the whole. */
  lemma SuffixOfRest(d: string, j: nat, v: string)
    requires j < |d| && d[j] == '.' && IsDomainSuffix(d[j + 1..], v)
    ensures IsDomainSuffix(d, v)
  {
    var rest := d[j + 1..];
    assert d[|d| - |v|..] == rest[|rest| - |v|..];
    if |v| < |rest| {
      assert d[|d| - |v| - 1] == rest[|rest| - |v| - 1];
    }
  }

  /** A proper suffix after a dot is a suffix of the text after the first
      dot. */
  lemma RestOfSuffix(d: string, v: string)
    requires IsDomainSuffix(d, v) && v != d
    ensures '.' in d && IsDomainSuffix(d[IndexOf(d, '.') + 1..], v)
  {
    var i := |d| - |v| - 1;
    IndexOfFirst(d, '.', i);
    var rest := d[IndexOf(d, '.') + 1..];
    assert rest[|rest| - |v|..] == d[|d| - |v|..];
    if |v| < |rest| {
      assert rest[|rest| - |v| - 1] == d[i];
    }
  }

  lemma {:induction false} IndexOfFirst(s: string, c: char, i: nat)
    requires i < |s| && s[i] == c
    ensures c in s && IndexOf(s, c) <= i
  {
    assert c in s;
  }

  /** Each entry extends the next by one label and a dot, so each entry is a
      proper suffix of the one before it. */
  lemma {:induction false} DomainVariantsChain(domain: string, k: nat)
    requires k + 1 < |DomainVariants(domain)|
    ensures var vs := DomainVariants(domain);
      vs[k] == Split(domain, '.')[k] + "." + vs[k + 1]
  {
    var labels := Split(domain, '.');
    LabelSuffixesIndexed(labels, k);
    LabelSuffixesIndexed(labels, k + 1);
    assert labels[k..][1..] == labels[k + 1..];
  }

  /** The first entry is the domain itself, and every entry holds a dot. */
  lemma {:induction false} DomainVariantsEnds(domain: string)
    ensures var vs := DomainVariants(domain);
      && (|vs| > 0 ==> vs[0] == domain)
      && (forall k :: 0 <= k < |vs| ==> '.' in vs[k])
  {
    var vs := DomainVariants(domain);
    forall k | 0 <= k < |vs|
      ensures '.' in vs[k]
    {
      DomainVariantsMembers(domain, vs[k]);
    }
    if |vs| > 0 {
      DomainVariantsUnfold(domain);
    }
  }


  lemma {:induction false} DomainVariantsTwoLabels(c: string, d: string)
    requires '.' !in c && '.' !in d
    ensures DomainVariants(c + "." + d) == [c + "." + d]
  {
    DomainVariantsUnfold(d);
    DomainVariantsOfSubdomain(c, d);
  }

  lemma {:induction false} DomainVariantsThreeLabels(b: string, c: string, d: string)
    requires '.' !in b && '.' !in c && '.' !in d
    ensures DomainVariants(b + "." + (c + "." + d)) == [b + "." + (c + "." + d), c + "." + d]
  {
    DomainVariantsTwoLabels(c, d);
    DomainVariantsOfSubdomain(b, c + "." + d);
  }

  /** The shape of the package's own test ("foo.bar.example.com"), for any
      four dot-free labels: three entries, from the whole name down to the
      last two labels. */
  lemma {:induction false} DomainVariantsFourLabels(a: string, b: string, c: string, d: string)
    requires '.' !in a && '.' !in b && '.' !in c && '.' !in d
    ensures var cd := c + "." + d; var bcd := b + "." + cd;
      DomainVariants(a + "." + bcd) == [a + "." + bcd, bcd, cd]
  {
    DomainVariantsThreeLabels(b, c, d);
    DomainVariantsOfSubdomain(a, b + "." + (c + "." + d));
  }
}
