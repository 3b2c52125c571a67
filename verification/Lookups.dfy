/** What a lookup means for the names people write: dots at the end, upper case, and names below a listed
    one (cmd/dns/internal/dns/matcher.go). */
module Lookups {
  import opened Labels
  import opened Rules

  function LookedUp(env: Env, log: seq<Rule>, name: string): MatchResult {
    FlatScan(env, log, env.Norm(name))
  }

  /** A dot at the end makes no difference. */
  lemma DotMakesNoDifference(env: Env, log: seq<Rule>, name: string)
    requires !EndsInDot(name)
    ensures LookedUp(env, log, name + ".") == LookedUp(env, log, name)
  {
    TrimDotIs(name);
  }

  /** Neither does case. */
  lemma CaseMakesNoDifference(env: Env, log: seq<Rule>, name: string, other: string)
    requires LowerCases(env.lower) && env.lower(name) == env.lower(other)
    ensures LookedUp(env, log, name) == LookedUp(env, log, other)
  {
    assert env.lower(TrimDot(name)) == TrimDot(env.lower(name)) == TrimDot(env.lower(other)) == env.lower(TrimDot(other));
  }

  /** s occurs in d. */
  lemma ContainsIs(d: string, s: string)
    ensures Contains(d, s) <==> exists x, y :: d == x + s + y
  {
    if Contains(d, s) {
      var i :| 0 <= i <= |d| && OccursAt(d, s, i);
      assert d == d[..i] + s + d[i + |s|..];
    }
    if x, y :| d == x + s + y {
      assert d[|x|..|x| + |s|] == s;
      assert OccursAt(d, s, |x|);
    }
  }

  /** Whatever else was added: a rule that applies gets its rank at least. */
  lemma RuleApplies(env: Env, log: seq<Rule>, r: Rule, name: string)
    requires AllAccepted(log) && r in log && Matches(env, r, env.Norm(name)) && ActionRank(r.action) > 0
    ensures var w := LookedUp(env, log, name); w.matched && ActionRank(w.action) >= ActionRank(r.action)
  {
    NothingOutranks(env, log, env.Norm(name));
  }

  ghost predicate AtLeast(env: Env, log: seq<Rule>, name: string, action: string) {
    var w := LookedUp(env, log, name);
    w.matched && ActionRank(w.action) >= ActionRank(action)
  }

  /** After AddFull(d) with a known action, d is matched, with or without a dot at the end. */
  lemma FullIsFound(env: Env, log: seq<Rule>, d: string, action: string, tag: string, source: string)
    requires AllAccepted(log) && !EndsInDot(d) && ActionRank(action) > 0
    requires Rule(Full, env.lower(d), action, tag, source) in log
    ensures AtLeast(env, log, d, action) && AtLeast(env, log, d + ".", action)
  {
    TrimDotIs(d);
    RuleApplies(env, log, Rule(Full, env.lower(d), action, tag, source), d);
    DotMakesNoDifference(env, log, d);
  }

  /** Lower-casing does not look across dots. */
  ghost predicate LowersParts(lower: string -> string) {
    forall x, y :: lower(x + "." + y) == lower(x) + "." + lower(y)
  }

  /** After AddSuffix(d), so are d and every name below it. */
  lemma SuffixIsFound(env: Env, log: seq<Rule>, d: string, action: string, tag: string, source: string, x: string)
    requires LowersParts(env.lower) && AllAccepted(log) && d != "" && !EndsInDot(d) && ActionRank(action) > 0
    requires Rule(Suffix, env.lower(d), action, tag, source) in log
    ensures AtLeast(env, log, d, action) && AtLeast(env, log, d + ".", action)
    ensures AtLeast(env, log, x + "." + d, action) && AtLeast(env, log, x + "." + d + ".", action)
  {
    var r, below := Rule(Suffix, env.lower(d), action, tag, source), x + "." + d;
    TrimDotIs(d);
    RuleApplies(env, log, r, d);
    DotMakesNoDifference(env, log, d);
    assert below[|below| - 1] == d[|d| - 1];
    TrimDotIs(below);
    ConcatHasSuffix(env.lower(x), env.lower(d));
    RuleApplies(env, log, r, below);
    DotMakesNoDifference(env, log, below);
  }

  /** After AddKeyword(v), so is every name in which v occurs. */
  lemma KeywordIsFound(env: Env, log: seq<Rule>, v: string, action: string, tag: string, source: string,
                       name: string, x: string, y: string)
    requires AllAccepted(log) && ActionRank(action) > 0 && Rule(Keyword, env.lower(v), action, tag, source) in log
    requires !EndsInDot(name) && env.lower(name) == x + env.lower(v) + y
    ensures AtLeast(env, log, name, action) && AtLeast(env, log, name + ".", action)
  {
    TrimDotIs(name);
    ContainsIs(env.lower(name), env.lower(v));
    RuleApplies(env, log, Rule(Keyword, env.lower(v), action, tag, source), name);
    DotMakesNoDifference(env, log, name);
  }

  /** After AddRegex(p), so is every name that, lower-cased, the pattern matches. */
  lemma RegexIsFound(env: Env, log: seq<Rule>, p: string, action: string, tag: string, source: string, name: string)
    requires AllAccepted(log) && ActionRank(action) > 0 && Rule(Regex, p, action, tag, source) in log
    requires !EndsInDot(name) && env.regex(p, env.lower(name))
    ensures AtLeast(env, log, name, action) && AtLeast(env, log, name + ".", action)
  {
    TrimDotIs(name);
    RuleApplies(env, log, Rule(Regex, p, action, tag, source), name);
    DotMakesNoDifference(env, log, name);
  }

  /** The rule's value is the name, is a domain above it, occurs in it, or is a pattern that matches it. */
  ghost predicate Fits(env: Env, r: Rule, d: string) {
    match r.kind
    case Full => d == r.value
    case Suffix => d == r.value || exists x :: d == x + "." + r.value
    case Keyword => exists x, y :: d == x + r.value + y
    case Regex => env.regex(r.value, d)
  }

  lemma FitsIsMatches(env: Env, r: Rule, d: string)
    ensures Fits(env, r, d) <==> Matches(env, r, d)
  {
    match r.kind {
      case Suffix => SuffixIs(d, r.value);
      case Keyword => ContainsIs(d, r.value);
      case _ =>
    }
  }

  lemma SuffixIs(d: string, s: string)
    ensures HasSuffix(d, s) <==> d == s || exists x :: d == x + "." + s
  {
    if HasSuffix(d, s) && d != s {
      assert d == d[..|d| - |s| - 1] + ("." + s) == d[..|d| - |s| - 1] + "." + s;
    }
    if x :| d == x + "." + s {
      ConcatHasSuffix(x, s);
    }
  }

  /** And nothing else is found: a match comes from a rule that fits. */
  lemma FoundIsJustified(env: Env, log: seq<Rule>, name: string)
    requires AllAccepted(log) && !EndsInDot(name) && LookedUp(env, log, name).matched
    ensures var w := LookedUp(env, log, name);
      exists r <- log :: r.action == w.action && r.tag == w.tag && r.source == w.source && Fits(env, r, env.lower(name))
  {
    hide Fits, Matches, FlatScan;
    TrimDotIs(name);
    NothingOutranks(env, log, env.lower(name));
    var r :| r in log && Matches(env, r, env.lower(name)) && LookedUp(env, log, name) == ResultOf(r);
    FitsIsMatches(env, r, env.lower(name));
  }

  /** Block wins over fakeip, fakeip over direct, and any of them over an action that is not known. */
  lemma RanksAre(action: string)
    ensures ActionRank("block") > ActionRank("fakeip") > ActionRank("direct") > 0
    ensures ActionRank(action) == 0 <==> action != "block" && action != "fakeip" && action != "direct"
  {
  }

  /** Of two matches of equal rank, the one added first wins, unless the other is of a kind that comes
      before (exact name, suffix, keyword, pattern) or is a shorter suffix. */
  predicate FirstWins(first: Rule, second: Rule) {
    match first.kind
    case Full => true
    case Suffix => second.kind != Full && (second.kind == Suffix ==> |first.value| <= |second.value|)
    case Keyword => second.kind != Full && second.kind != Suffix
    case Regex => second.kind == Regex
  }

  lemma TiesAreBroken(env: Env, first: Rule, second: Rule, d: string)
    requires Accepted(first) && Accepted(second) && Fits(env, first, d) && Fits(env, second, d)
    requires ActionRank(first.action) == ActionRank(second.action) > 0
    ensures var win := if FirstWins(first, second) then first else second;
      FlatScan(env, [first, second], d) == MatchResult(win.action, win.tag, win.source, true)
  {
    var log := [first, second];
    hide FlatOrder, Fits, Matches, ActionRank;
    FitsIsMatches(env, first, d);
    FitsIsMatches(env, second, d);
    FlatScanIsBest(env, log, d);
    NothingOutranks(env, log, d);
    assert log[0] in log && log[1] in log;
    var i :| Leads(log, MatchesName(env, d), i) && FlatScan(env, log, d) == ResultOf(log[i]);
    assert Beats(log, i, 0) && Beats(log, i, 1);
  }
}
