/** What a matcher means: rules, their ranks, and the flat scan that a lookup must agree with
    (cmd/dns/internal/dns/matcher.go). */
module Rules {
  import opened Labels

  /** Library functions the model leaves uninterpreted: lower-casing, white-space trimming, and
      compiling and running a regular expression. */
  datatype Env = Env(
    lower: string -> string,
    trim: string -> string,
    compiles: string -> bool,
    regex: (string, string) -> bool)
  {
    function Norm(name: string): string {
      lower(TrimDot(name))
    }
  }

  datatype Kind = Full | Suffix | Keyword | Regex

  /** An accepted rule; value is already normalised. */
  datatype Rule = Rule(kind: Kind, value: string, action: string, tag: string, source: string)

  datatype MatchResult = MatchResult(action: string, tag: string, source: string, matched: bool)

  const NO_MATCH := MatchResult("", "", "", false)

  function ActionRank(action: string): nat {
    if action == "block" then 3
    else if action == "fakeip" then 2
    else if action == "direct" then 1
    else 0
  }

  function ResultOf(r: Rule): MatchResult {
    MatchResult(r.action, r.tag, r.source, true)
  }

  /** Keep `a` unless `b` ranks strictly higher. */
  function Better(a: MatchResult, b: MatchResult): MatchResult {
    if ActionRank(b.action) > ActionRank(a.action) then b else a
  }

  /** One pass over a list of rules, replacing the best so far only by a strictly higher rank. */
  function Champion(rs: seq<Rule>): (w: MatchResult)
    ensures w.matched <==> ActionRank(w.action) > 0
    ensures !w.matched ==> w == NO_MATCH
  {
    if rs == [] then NO_MATCH
    else Better(Champion(rs[..|rs| - 1]), ResultOf(rs[|rs| - 1]))
  }

  function Select(rs: seq<Rule>, p: Rule -> bool): seq<Rule> {
    if rs == [] then []
    else
      var rest := Select(rs[..|rs| - 1], p);
      if p(rs[|rs| - 1]) then rest + [rs[|rs| - 1]] else rest
  }

  predicate OccursAt(s: string, part: string, i: nat) {
    i + |part| <= |s| && s[i..i + |part|] == part
  }

  predicate Contains(s: string, part: string) {
    exists i :: 0 <= i <= |s| && OccursAt(s, part, i)
  }

  /** Does the rule apply to the (normalised) name? */
  predicate Matches(env: Env, r: Rule, d: string) {
    match r.kind
    case Full => d == r.value
    case Suffix => HasSuffix(d, r.value)
    case Keyword => Contains(d, r.value)
    case Regex => env.regex(r.value, d)
  }

  function IsKind(kind: Kind): Rule -> bool {
    (r: Rule) => r.kind == kind
  }

  /** Rules of one kind with exactly this value. */
  function IsExactly(kind: Kind, value: string): Rule -> bool {
    (r: Rule) => r.kind == kind && r.value == value
  }

  /** Suffix rules filed under one trie path. */
  function IsAt(path: seq<string>): Rule -> bool {
    (r: Rule) => r.kind == Suffix && SplitLabels(r.value) == path
  }

  function IsHit(env: Env, kind: Kind, d: string): Rule -> bool {
    (r: Rule) => r.kind == kind && Matches(env, r, d)
  }

  /** Does a rule value that equals d[s..] count as a suffix of d? */
  predicate Boundary(d: string, s: nat)
    requires s <= |d|
  {
    s == 0 || d[s - 1] == '.'
  }

  /** Matching suffix rules that start at s or later in d, shortest value first, then by insertion. */
  function SuffixScan(rs: seq<Rule>, d: string, s: nat): seq<Rule>
    requires s <= |d|
    decreases |d| - s
  {
    if s == |d| then []
    else SuffixScan(rs, d, s + 1) + (if Boundary(d, s) then Select(rs, IsExactly(Suffix, d[s..])) else [])
  }

  /** All rules that match d in the order in which ties are broken: exact names, then suffixes from
      short to long, then keywords, then regexes, each by insertion. */
  function FlatOrder(env: Env, rs: seq<Rule>, d: string): seq<Rule> {
    Select(rs, IsExactly(Full, d)) + SuffixScan(rs, d, 0)
    + Select(rs, IsHit(env, Keyword, d)) + Select(rs, IsHit(env, Regex, d))
  }

  function FlatScan(env: Env, rs: seq<Rule>, d: string): MatchResult {
    Champion(FlatOrder(env, rs, d))
  }

  // ---------------------------------------------------------------- lists of rules

  lemma SelectSnoc(rs: seq<Rule>, r: Rule, p: Rule -> bool)
    ensures Select(rs + [r], p) == Select(rs, p) + (if p(r) then [r] else [])
  {
    assert (rs + [r])[..|rs|] == rs;
  }

  lemma {:induction false} SelectSame(rs: seq<Rule>, p: Rule -> bool, q: Rule -> bool)
    requires forall r <- rs :: p(r) == q(r)
    ensures Select(rs, p) == Select(rs, q)
  {
    if rs != [] {
      SelectSame(rs[..|rs| - 1], p, q);
    }
  }

  lemma {:induction false} SelectMembers(rs: seq<Rule>, p: Rule -> bool, r: Rule)
    ensures r in Select(rs, p) <==> r in rs && p(r)
  {
    if rs != [] {
      assert rs == rs[..|rs| - 1] + [rs[|rs| - 1]];
      SelectMembers(rs[..|rs| - 1], p, r);
    }
  }

  lemma SelectNone(rs: seq<Rule>, p: Rule -> bool)
    requires forall r <- rs :: !p(r)
    ensures Select(rs, p) == []
  {
    if Select(rs, p) != [] {
      SelectMembers(rs, p, Select(rs, p)[0]);
    }
  }

  lemma {:induction false} SelectTwice(rs: seq<Rule>, p: Rule -> bool, q: Rule -> bool)
    requires forall r <- rs :: q(r) ==> p(r)
    ensures Select(Select(rs, p), q) == Select(rs, q)
  {
    if rs != [] {
      var rs', r := rs[..|rs| - 1], rs[|rs| - 1];
      SelectTwice(rs', p, q);
      if p(r) {
        SelectSnoc(Select(rs', p), r, q);
      }
    }
  }

  lemma ChampionSnoc(rs: seq<Rule>, r: Rule)
    ensures Champion(rs + [r]) == Better(Champion(rs), ResultOf(r))
  {
    assert (rs + [r])[..|rs|] == rs;
  }

  lemma {:induction false} ChampionConcat(a: seq<Rule>, b: seq<Rule>)
    ensures Champion(a + b) == Better(Champion(a), Champion(b))
  {
    if b == [] {
      assert a + b == a;
    } else {
      var b', r := b[..|b| - 1], b[|b| - 1];
      assert a + b == (a + b') + [r];
      ChampionSnoc(a + b', r);
      ChampionConcat(a, b');
    }
  }

  predicate Accepted(r: Rule) {
    r.kind == Regex || r.value != ""
  }

  ghost predicate AllAccepted(rs: seq<Rule>) {
    forall r <- rs :: Accepted(r)
  }

  /** One step of a loop that offers the selected rules in turn. */
  lemma ScanStep(base: seq<Rule>, rs: seq<Rule>, k: nat, p: Rule -> bool)
    requires k < |rs|
    ensures Champion(base + Select(rs[..k + 1], p)) ==
      (var best := Champion(base + Select(rs[..k], p)); if p(rs[k]) then Better(best, ResultOf(rs[k])) else best)
  {
    assert rs[..k + 1] == rs[..k] + [rs[k]];
    SelectSnoc(rs[..k], rs[k], p);
    if p(rs[k]) {
      assert base + (Select(rs[..k], p) + [rs[k]]) == (base + Select(rs[..k], p)) + [rs[k]];
      ChampionSnoc(base + Select(rs[..k], p), rs[k]);
    }
  }

  // ---------------------------------------------------------------- the winner, by index

  function Class(kind: Kind): nat {
    match kind
    case Full => 0
    case Suffix => 1
    case Keyword => 2
    case Regex => 3
  }

  /** Only suffix rules compete by length. */
  function Span(r: Rule): nat {
    if r.kind == Suffix then |r.value| else 0
  }

  /** Higher rank first; then exact, suffix, keyword, regex; then the shorter suffix; then the rule
      that was added first. */
  predicate Beats(rs: seq<Rule>, i: int, j: int)
    requires 0 <= i < |rs| && 0 <= j < |rs|
  {
    var a, b := rs[i], rs[j];
    var ra, rb := ActionRank(a.action), ActionRank(b.action);
    ra > rb || (ra == rb &&
      (Class(a.kind) < Class(b.kind) || (a.kind == b.kind &&
        (Span(a) < Span(b) || (Span(a) == Span(b) && i <= j)))))
  }

  /** Rule i is the best of those selected by p. */
  ghost predicate Leads(rs: seq<Rule>, p: Rule -> bool, i: int) {
    0 <= i < |rs| && p(rs[i]) && ActionRank(rs[i].action) > 0 &&
    forall j :: 0 <= j < |rs| && p(rs[j]) ==> Beats(rs, i, j)
  }

  /** w is the best of those selected by p, or there is none above rank none. */
  ghost predicate IsBest(rs: seq<Rule>, p: Rule -> bool, w: MatchResult) {
    if w.matched then exists i :: Leads(rs, p, i) && w == ResultOf(rs[i])
    else w == NO_MATCH && forall r <- rs :: p(r) ==> ActionRank(r.action) == 0
  }

  function HitFrom(d: string, s: nat): Rule -> bool
    requires s <= |d|
  {
    (r: Rule) => r.kind == Suffix && r.value != "" && |r.value| <= |d| - s && HasSuffix(d, r.value)
  }

  function MatchesName(env: Env, d: string): Rule -> bool {
    (r: Rule) => Matches(env, r, d)
  }

  /** Within one kind and one length, the scan's winner is the first added of maximal rank. */
  lemma {:induction false} SelectionBest(rs: seq<Rule>, p: Rule -> bool)
    requires forall a, b :: a in rs && b in rs && p(a) && p(b) ==> a.kind == b.kind && Span(a) == Span(b)
    ensures IsBest(rs, p, Champion(Select(rs, p)))
  {
    assert ActionRank("") == 0;
    hide ActionRank;
    if rs != [] {
      var rs', r := rs[..|rs| - 1], rs[|rs| - 1];
      assert rs == rs' + [r];
      SelectionBest(rs', p);
      LastRule(rs', r, p, Champion(Select(rs', p)));
      if p(r) {
        ChampionSnoc(Select(rs', p), r);
      }
    }
  }

  lemma LastRule(rs: seq<Rule>, r: Rule, p: Rule -> bool, w: MatchResult)
    requires IsBest(rs, p, w)
    requires forall a <- rs :: p(a) && p(r) ==> a.kind == r.kind && Span(a) == Span(r)
    ensures IsBest(rs + [r], p, if p(r) then Better(w, ResultOf(r)) else w)
  {
    assert ActionRank("") == 0;
    hide ActionRank;
    var rs' := rs + [r];
    if p(r) && ActionRank(r.action) > ActionRank(w.action) {
      forall j | 0 <= j < |rs'| && p(rs'[j]) ensures Beats(rs', |rs|, j) {
        if j < |rs| {
          AtMost(rs, p, w, j);
        }
      }
      assert Leads(rs', p, |rs|);
    } else if w.matched {
      var i :| Leads(rs, p, i) && w == ResultOf(rs[i]);
      forall j | 0 <= j < |rs'| && p(rs'[j]) ensures Beats(rs', i, j) {
        assert j < |rs| ==> Beats(rs, i, j);
      }
      assert Leads(rs', p, i);
    } else {
      assert forall a <- rs' :: a in rs || a == r;
    }
  }

  /** The best of a group and the best of a later group give the best of both. */
  lemma MergeBest(rs: seq<Rule>, p: Rule -> bool, q: Rule -> bool, both: Rule -> bool, w: MatchResult, v: MatchResult)
    requires IsBest(rs, p, w) && IsBest(rs, q, v)
    requires forall r <- rs :: both(r) <==> p(r) || q(r)
    requires forall a, b :: a in rs && b in rs && p(a) && q(b) ==>
      Class(a.kind) < Class(b.kind) || (a.kind == b.kind && Span(a) < Span(b))
    ensures IsBest(rs, both, Better(w, v))
  {
    assert ActionRank("") == 0;
    hide ActionRank;
    if ActionRank(v.action) > ActionRank(w.action) {
      var k :| Leads(rs, q, k) && v == ResultOf(rs[k]);
      forall j | 0 <= j < |rs| && both(rs[j]) ensures Beats(rs, k, j) {
        AtMost(rs, p, w, j);
      }
      assert Leads(rs, both, k);
    } else if w.matched {
      var i :| Leads(rs, p, i) && w == ResultOf(rs[i]);
      forall j | 0 <= j < |rs| && both(rs[j]) ensures Beats(rs, i, j) {
        AtMost(rs, q, v, j);
      }
      assert Leads(rs, both, i);
    }
  }

  lemma AtMost(rs: seq<Rule>, p: Rule -> bool, w: MatchResult, j: nat)
    requires IsBest(rs, p, w) && j < |rs|
    ensures p(rs[j]) ==> ActionRank(rs[j].action) <= ActionRank(w.action)
  {
    if w.matched && p(rs[j]) {
      var i :| Leads(rs, p, i) && w == ResultOf(rs[i]);
      assert Beats(rs, i, j);
    }
  }

  /** Suffixes that start at s or later start at s exactly, or later. */
  lemma HitHereOrLater(d: string, s: nat, r: Rule)
    requires s < |d|
    ensures HitFrom(d, s)(r) <==> HitFrom(d, s + 1)(r) || (Boundary(d, s) && IsExactly(Suffix, d[s..])(r))
  {
    if |r.value| == |d| - s {
      if s > 0 {
        assert d[s - 1..] == [d[s - 1]] + d[s..];
      } else {
        assert d[s..] == d;
      }
    }
  }

  lemma {:induction false} SuffixScanBest(rs: seq<Rule>, d: string, s: nat)
    requires s <= |d|
    ensures IsBest(rs, HitFrom(d, s), Champion(SuffixScan(rs, d, s)))
    decreases |d| - s
  {
    if s < |d| {
      SuffixScanBest(rs, d, s + 1);
      var here := IsExactly(Suffix, d[s..]);
      ChampionConcat(SuffixScan(rs, d, s + 1), if Boundary(d, s) then Select(rs, here) else []);
      forall r | r in rs ensures HitFrom(d, s)(r) <==> HitFrom(d, s + 1)(r) || (Boundary(d, s) && here(r)) {
        HitHereOrLater(d, s, r);
      }
      hide ActionRank, HasSuffix, Leads, IsBest;
      if Boundary(d, s) {
        SelectionBest(rs, here);
        MergeBest(rs, HitFrom(d, s + 1), here, HitFrom(d, s), Champion(SuffixScan(rs, d, s + 1)), Champion(Select(rs, here)));
      } else {
        SameBest(rs, HitFrom(d, s + 1), HitFrom(d, s), Champion(SuffixScan(rs, d, s + 1)));
      }
    }
  }

  lemma SameBest(rs: seq<Rule>, p: Rule -> bool, q: Rule -> bool, w: MatchResult)
    requires IsBest(rs, p, w)
    requires forall r <- rs :: p(r) == q(r)
    ensures IsBest(rs, q, w)
  {
    if w.matched {
      var i :| Leads(rs, p, i) && w == ResultOf(rs[i]);
      assert Leads(rs, q, i);
    }
  }

  /** Selects rules of a class below k, and only those that match the name. */
  function MatchesBelow(env: Env, d: string, k: nat): Rule -> bool {
    (r: Rule) => Class(r.kind) < k && Matches(env, r, d)
  }

  lemma KeywordsAndRegexes(env: Env, rs: seq<Rule>, d: string, w: MatchResult)
    requires IsBest(rs, MatchesBelow(env, d, 2), w)
    ensures IsBest(rs, MatchesBelow(env, d, 4),
      Better(Better(w, Champion(Select(rs, IsHit(env, Keyword, d)))), Champion(Select(rs, IsHit(env, Regex, d)))))
  {
    assert ActionRank("") == 0;
    hide ActionRank, SuffixScan, HasSuffix, Contains;
    var k, x := IsHit(env, Keyword, d), IsHit(env, Regex, d);
    var ck, cx := Champion(Select(rs, k)), Champion(Select(rs, x));
    SelectionBest(rs, k);
    SelectionBest(rs, x);
    MergeBest(rs, MatchesBelow(env, d, 2), k, MatchesBelow(env, d, 3), w, ck);
    MergeBest(rs, MatchesBelow(env, d, 3), x, MatchesBelow(env, d, 4), Better(w, ck), cx);
  }

  lemma NamesAndSuffixes(env: Env, rs: seq<Rule>, d: string)
    requires AllAccepted(rs)
    ensures IsBest(rs, MatchesBelow(env, d, 2),
      Better(Champion(Select(rs, IsExactly(Full, d))), Champion(SuffixScan(rs, d, 0))))
  {
    assert ActionRank("") == 0;
    hide ActionRank, Contains;
    var f, s := IsExactly(Full, d), HitFrom(d, 0);
    SelectionBest(rs, f);
    SuffixScanBest(rs, d, 0);
    MergeBest(rs, f, s, MatchesBelow(env, d, 2), Champion(Select(rs, f)), Champion(SuffixScan(rs, d, 0)));
  }

  /** The flat scan's result, told without any scan: the rule, if any, that beats every other rule
      matching the name. */
  lemma FlatScanIsBest(env: Env, rs: seq<Rule>, d: string)
    requires AllAccepted(rs)
    ensures IsBest(rs, MatchesName(env, d), FlatScan(env, rs, d))
  {
    assert ActionRank("") == 0;
    hide ActionRank, Matches, SuffixScan;
    var fs, ss := Select(rs, IsExactly(Full, d)), SuffixScan(rs, d, 0);
    var ks, xs := Select(rs, IsHit(env, Keyword, d)), Select(rs, IsHit(env, Regex, d));
    ChampionConcat(fs, ss);
    ChampionConcat(fs + ss, ks);
    ChampionConcat(fs + ss + ks, xs);
    NamesAndSuffixes(env, rs, d);
    KeywordsAndRegexes(env, rs, d, Better(Champion(fs), Champion(ss)));
    SameBest(rs, MatchesBelow(env, d, 4), MatchesName(env, d), FlatScan(env, rs, d));
  }

  /** Nothing that matches outranks the winner. */
  lemma NothingOutranks(env: Env, rs: seq<Rule>, d: string)
    requires AllAccepted(rs)
    ensures var w := FlatScan(env, rs, d);
      && (forall r <- rs :: Matches(env, r, d) ==> ActionRank(r.action) <= ActionRank(w.action))
      && (w.matched ==> ActionRank(w.action) > 0 && exists r <- rs :: Matches(env, r, d) && w == ResultOf(r))
      && (!w.matched ==> w == NO_MATCH)
  {
    hide FlatOrder, Matches;
    var w := FlatScan(env, rs, d);
    FlatScanIsBest(env, rs, d);
    forall r | r in rs && Matches(env, r, d) ensures ActionRank(r.action) <= ActionRank(w.action) {
      var j :| 0 <= j < |rs| && rs[j] == r;
      AtMost(rs, MatchesName(env, d), w, j);
    }
  }

  /** Rules of rank none have no say in the action. */
  lemma RankedRulesDecide(env: Env, rs1: seq<Rule>, rs2: seq<Rule>, d: string)
    requires AllAccepted(rs1) && AllAccepted(rs2)
    requires forall r: Rule :: ActionRank(r.action) > 0 ==> (r in rs1 <==> r in rs2)
    ensures FlatScan(env, rs1, d).action == FlatScan(env, rs2, d).action
    ensures FlatScan(env, rs1, d).matched == FlatScan(env, rs2, d).matched
  {
    NothingOutranks(env, rs1, d);
    NothingOutranks(env, rs2, d);
  }

  /** The winning action depends only on which rules were added, not on their order or number. */
  lemma ActionIsOrderIndependent(env: Env, rs1: seq<Rule>, rs2: seq<Rule>, d: string)
    requires AllAccepted(rs1)
    requires forall r: Rule :: r in rs1 <==> r in rs2
    ensures FlatScan(env, rs1, d).action == FlatScan(env, rs2, d).action
    ensures FlatScan(env, rs1, d).matched == FlatScan(env, rs2, d).matched
  {
    NothingOutranks(env, rs1, d);
    NothingOutranks(env, rs2, d);
  }

  /** Adding rules never lowers the rank of the winner. */
  lemma RankNeverDrops(env: Env, rs: seq<Rule>, more: seq<Rule>, d: string)
    requires AllAccepted(rs) && AllAccepted(rs + more)
    ensures ActionRank(FlatScan(env, rs, d).action) <= ActionRank(FlatScan(env, rs + more, d).action)
  {
    NothingOutranks(env, rs, d);
    NothingOutranks(env, rs + more, d);
  }

  // ---------------------------------------------------------------- the label walk

  /** What descending the trie along a label sequence, right to left, should collect. */
  function Walk(rs: seq<Rule>, labels: seq<string>): MatchResult {
    if labels == [] then NO_MATCH
    else Better(Walk(rs, labels[1..]), Champion(Select(rs, IsAt(labels))))
  }

  /** The labels still to visit when the scan of d stands at s. */
  function LabelsFrom(d: string, s: nat): seq<string>
    requires s <= |d|
  {
    if Boundary(d, s) then Split(d[s..]) else Split(d[s..])[1..]
  }

  lemma AtPathIsExactly(rs: seq<Rule>, t: string)
    requires t != "" && AllAccepted(rs)
    ensures Select(rs, IsAt(Split(t))) == Select(rs, IsExactly(Suffix, t))
  {
    forall r | r in rs ensures IsAt(Split(t))(r) == IsExactly(Suffix, t)(r) {
      if r.kind == Suffix && Split(r.value) == Split(t) {
        SplitInjective(r.value, t);
      }
    }
    SelectSame(rs, IsAt(Split(t)), IsExactly(Suffix, t));
  }

  lemma {:induction false} WalkFromIsScanFrom(rs: seq<Rule>, d: string, s: nat)
    requires s <= |d| && AllAccepted(rs)
    ensures Walk(rs, LabelsFrom(d, s)) == Champion(SuffixScan(rs, d, s))
    decreases |d| - s
  {
    assert ActionRank("") == 0;
    hide ActionRank;
    if s == |d| {
      forall r | r in rs ensures !IsAt([""])(r) {
        if r.kind == Suffix && Split(r.value) == [""] {
          SplitInjective(r.value, "");
        }
      }
      SelectNone(rs, IsAt([""]));
    } else {
      WalkFromIsScanFrom(rs, d, s + 1);
      var t := d[s..];
      assert t[1..] == d[s + 1..];
      assert Split(t)[1..] == LabelsFrom(d, s + 1);
      if Boundary(d, s) {
        ChampionConcat(SuffixScan(rs, d, s + 1), Select(rs, IsExactly(Suffix, t)));
        AtPathIsExactly(rs, t);
      } else {
        assert SuffixScan(rs, d, s) == SuffixScan(rs, d, s + 1);
      }
    }
  }

  /** The right-to-left walk over labels finds what the string scan finds. */
  lemma WalkIsSuffixScan(rs: seq<Rule>, d: string)
    requires AllAccepted(rs)
    ensures Walk(rs, SplitLabels(d)) == Champion(SuffixScan(rs, d, 0))
  {
    if d != "" {
      WalkFromIsScanFrom(rs, d, 0);
      assert d[0..] == d;
    }
  }

  /** Once a path has no rules below it, the rest of the walk changes nothing. */
  lemma {:induction false} WalkStops(rs: seq<Rule>, labels: seq<string>, i: nat)
    requires i <= |labels|
    requires forall j :: 0 <= j < i ==> Select(rs, IsAt(labels[j..])) == []
    ensures Walk(rs, labels) == Walk(rs, labels[i..])
  {
    if i > 0 {
      assert Select(rs, IsAt(labels[0..])) == [] && labels[0..] == labels;
      forall j | 0 <= j < i - 1 ensures Select(rs, IsAt(labels[1..][j..])) == [] {
        assert labels[1..][j..] == labels[j + 1..];
      }
      WalkStops(rs, labels[1..], i - 1);
      assert labels[1..][i - 1..] == labels[i..];
    }
  }
}
