/** Domain names as strings and as sequences of dot-separated labels
    (cmd/dns/internal/dns/matcher.go). */
module Labels {

  /** Trim one trailing dot, as strings.TrimSuffix(s, ".") does. */
  function TrimDot(s: string): string {
    if s != "" && s[|s| - 1] == '.' then s[..|s| - 1] else s
  }

  predicate EndsInDot(s: string) {
    s != "" && s[|s| - 1] == '.'
  }

  /** What is needed of lower-casing: once is enough, and dots at the end are not its business. */
  ghost predicate LowerCases(lower: string -> string) {
    && (forall s :: lower(lower(s)) == lower(s))
    && (forall s :: lower(TrimDot(s)) == TrimDot(lower(s)))
    && (forall s :: EndsInDot(lower(s)) <==> EndsInDot(s))
  }

  /** Exactly one dot at the end goes, if there is one. */
  lemma TrimDotIs(s: string)
    ensures TrimDot(s + ".") == s
    ensures !EndsInDot(s) ==> TrimDot(s) == s
  {
  }

  /** strings.Split(s, "."): the empty string has one empty piece. */
  function Split(s: string): (r: seq<string>)
    ensures |r| >= 1
  {
    if s == "" then [""]
    else
      var rest := Split(s[1..]);
      if s[0] == '.' then [""] + rest else [[s[0]] + rest[0]] + rest[1..]
  }

  /** splitLabels: no labels at all for the empty name. */
  function SplitLabels(domain: string): seq<string> {
    if domain == "" then [] else Split(domain)
  }

  function Join(labels: seq<string>): string
    requires labels != []
  {
    if |labels| == 1 then labels[0] else labels[0] + "." + Join(labels[1..])
  }

  /** No information is lost by splitting. */
  lemma {:induction false} JoinSplit(s: string)
    ensures Join(Split(s)) == s
  {
    if s != "" {
      JoinSplit(s[1..]);
      var rest := Split(s[1..]);
      if s[0] == '.' {
        assert Split(s)[1..] == rest;
      } else if |rest| > 1 {
        assert Split(s)[1..] == rest[1..];
      }
    }
  }

  lemma SplitInjective(a: string, b: string)
    requires Split(a) == Split(b)
    ensures a == b
  {
    JoinSplit(a);
    JoinSplit(b);
  }

  /** The test a reader expects of a domain-suffix rule, on plain strings. */
  predicate HasSuffix(domain: string, rule: string) {
    domain == rule || (|rule| < |domain| && domain[|domain| - |rule| - 1..] == "." + rule)
  }

  /** x is a tail of y. */
  predicate TailOf<T(==)>(x: seq<T>, y: seq<T>) {
    |x| <= |y| && y[|y| - |x|..] == x
  }

  lemma {:induction false} SplitConcat(x: string, r: string)
    ensures Split(x + "." + r) == Split(x) + Split(r)
  {
    var s := x + "." + r;
    if x == "" {
      assert s[1..] == r;
    } else {
      assert s[1..] == x[1..] + "." + r;
      SplitConcat(x[1..], r);
    }
  }

  lemma {:induction false} JoinConcat(a: seq<string>, b: seq<string>)
    requires a != [] && b != []
    ensures Join(a + b) == Join(a) + "." + Join(b)
  {
    if |a| > 1 {
      JoinConcat(a[1..], b);
      assert (a + b)[1..] == a[1..] + b;
    } else {
      assert (a + b)[1..] == b;
    }
  }

  lemma SuffixGivesTail(domain: string, rule: string)
    requires rule != "" && HasSuffix(domain, rule)
    ensures TailOf(Split(rule), Split(domain))
  {
    if domain != rule {
      var x := domain[..|domain| - |rule| - 1];
      assert domain == x + ("." + rule) == x + "." + rule;
      SplitConcat(x, rule);
    }
  }

  lemma ConcatHasSuffix(x: string, rule: string)
    ensures HasSuffix(x + "." + rule, rule)
  {
    var d := x + "." + rule;
    assert d == x + ("." + rule);
    assert d[|x|..] == "." + rule;
  }

  lemma TailGivesSuffix(domain: string, rule: string)
    requires TailOf(Split(rule), Split(domain))
    ensures HasSuffix(domain, rule)
  {
    var ds, rs := Split(domain), Split(rule);
    var a := ds[..|ds| - |rs|];
    assert ds == a + rs;
    if a == [] {
      assert ds == rs;
      SplitInjective(domain, rule);
    } else {
      JoinSplit(domain);
      JoinSplit(rule);
      JoinConcat(a, rs);
      ConcatHasSuffix(Join(a), rule);
    }
  }

  /** Walking labels from the right is the string test "equal, or ends with a dot and the rule",
      empty labels included. */
  lemma SuffixIsLabelTail(domain: string, rule: string)
    requires rule != ""
    ensures HasSuffix(domain, rule) <==> TailOf(SplitLabels(rule), SplitLabels(domain))
  {
    if HasSuffix(domain, rule) {
      SuffixGivesTail(domain, rule);
    }
    if domain != "" && TailOf(Split(rule), Split(domain)) {
      TailGivesSuffix(domain, rule);
    }
  }
}
