/** The matcher as it is built in memory: a trie of domain labels read from the right, a map of exact
    names, and lists of keywords and regexes (cmd/dns/internal/dns/matcher.go). */
module Matching {
  import opened Labels
  import opened Rules

  class SuffixNode {
    var children: map<string, SuffixNode>
    var action: string
    var tag: string
    var source: string
    /** The labels that lead here, leftmost label deepest. */
    ghost const path: seq<string>

    constructor (ghost path: seq<string>)
      ensures children == map[] && Payload() == NO_MATCH && this.path == path
    {
      children, action, tag, source := map[], "", "", "";
      this.path := path;
    }

    function Payload(): MatchResult
      reads `action, `tag, `source
    {
      MatchResult(action, tag, source, action != "")
    }

    /** Only a strictly higher rank replaces what is there. */
    method Offer(action: string, tag: string, source: string)
      modifies `action, `tag, `source
      ensures Payload() == Better(old(Payload()), MatchResult(action, tag, source, true))
    {
      if ActionRank(action) > ActionRank(this.action) {
        this.action, this.tag, this.source := action, tag, source;
      }
    }
  }

  // ---------------------------------------------------------------- the trie

  /** Every node of a trie, under the labels that lead to it. */
  type Nodes = map<seq<string>, SuffixNode>

  /** The node at p hangs off the node at p[1..], and its children are where they should be. */
  ghost predicate Placed(nodes: Nodes, p: seq<string>)
    reads nodes.Values`children
  {
    && p in nodes && nodes[p].path == p
    && (p != [] ==> p[1..] in nodes && p[0] in nodes[p[1..]].children)
    && (forall l <- nodes[p].children :: [l] + p in nodes && nodes[p].children[l] == nodes[[l] + p])
  }

  /** The nodes reachable from the root are exactly `nodes`, and they form a tree. */
  ghost predicate Shape(nodes: Nodes, root: SuffixNode)
    reads nodes.Values`children
  {
    && [] in nodes && nodes[[]] == root
    && forall p {:trigger Placed(nodes, p)} :: p in nodes ==> Placed(nodes, p)
  }

  /** Each node holds the first of the highest-ranked rules filed at its path. */
  ghost predicate Filled(nodes: Nodes, log: seq<Rule>)
    reads nodes.Values`action, nodes.Values`tag, nodes.Values`source
  {
    && (forall p <- nodes :: nodes[p].Payload() == Champion(Select(log, IsAt(p))))
    && Filed(nodes.Keys, log)
  }

  ghost predicate Filed(paths: set<seq<string>>, log: seq<Rule>) {
    forall r <- log :: r.kind == Suffix ==> SplitLabels(r.value) in paths
  }

  /** Nodes were only added, and those are new objects. */
  twostate predicate Grown(before: Nodes, new after: Nodes) {
    && before.Keys <= after.Keys
    && forall q <- after :: if q in before then after[q] == before[q] else fresh(after[q])
  }

  /** Hang a new empty node below the node at p. */
  method Attach(ghost nodes: Nodes, ghost root: SuffixNode, ghost p: seq<string>, node: SuffixNode, piece: string)
    returns (next: SuffixNode)
    requires Shape(nodes, root) && p in nodes && nodes[p] == node && piece !in node.children
    modifies node`children
    ensures fresh(next) && next.Payload() == NO_MATCH
    ensures [piece] + p !in nodes && Shape(nodes[[piece] + p := next], root)
  {
    ghost var q := [piece] + p;
    assert q[1..] == p && q[0] == piece;
    assert Placed(nodes, p);
    assert q in nodes ==> Placed(nodes, q);
    next := new SuffixNode(q);
    node.children := node.children[piece := next];
    ghost var nodes' := nodes[q := next];
    forall r | r in nodes' ensures Placed(nodes', r) {
      if r != q {
        assert old(Placed(nodes, r));
        assert r != p ==> nodes[r].children == old(nodes[r].children);
      }
    }
  }

  /** The child of `node` for one label, created empty if it is missing. */
  method Child(ghost nodes: Nodes, ghost log: seq<Rule>, ghost root: SuffixNode,
               ghost p: seq<string>, node: SuffixNode, piece: string)
    returns (next: SuffixNode, ghost nodes': Nodes)
    requires Shape(nodes, root) && Filled(nodes, log) && p in nodes && nodes[p] == node
    modifies node`children
    ensures Shape(nodes', root) && Filled(nodes', log) && Grown(nodes, nodes')
    ensures [piece] + p in nodes' && nodes'[[piece] + p] == next
  {
    hide Filled;
    if piece in node.children {
      assert Placed(nodes, p);
      next := node.children[piece];
      nodes' := nodes;
    } else {
      hide Shape;
      next := Attach(nodes, root, p, node, piece);
      nodes' := nodes[[piece] + p := next];
      FilledGrows(nodes, log, [piece] + p, next);
    }
  }

  lemma RootIsHere(nodes: Nodes, root: SuffixNode)
    requires Shape(nodes, root)
    ensures [] in nodes && nodes[[]] == root
  {
  }

  /** No rule is filed at a path without a node. */
  lemma FilledGrows(nodes: Nodes, log: seq<Rule>, q: seq<string>, next: SuffixNode)
    requires Filled(nodes, log) && q !in nodes && next.Payload() == NO_MATCH
    ensures Filled(nodes[q := next], log)
  {
    SelectNone(log, IsAt(q));
  }

  /** Walk down to the node for these labels, creating the missing ones. */
  method Descend(ghost nodes: Nodes, ghost log: seq<Rule>, root: SuffixNode, labels: seq<string>)
    returns (node: SuffixNode, ghost nodes': Nodes)
    requires Shape(nodes, root) && Filled(nodes, log)
    modifies nodes.Values
    ensures Shape(nodes', root) && Filled(nodes', log) && Grown(nodes, nodes')
    ensures labels in nodes' && nodes'[labels] == node
  {
    hide Shape, Filled;
    RootIsHere(nodes, root);
    node, nodes' := root, nodes;
    var i := |labels|;
    ghost var p: seq<string> := [];
    while i > 0
      invariant 0 <= i <= |labels| && p == labels[i..]
      invariant Shape(nodes', root) && Filled(nodes', log) && Grown(nodes, nodes')
      invariant p in nodes' && nodes'[p] == node
    {
      assert p in nodes ==> node in nodes.Values;
      node, nodes' := Child(nodes', log, root, p, node, labels[i - 1]);
      i := i - 1;
      p := [labels[i]] + p;
    }
  }

  /** Offer a rule to its node. */
  method File(ghost nodes: Nodes, ghost log: seq<Rule>, ghost root: SuffixNode, node: SuffixNode, r: Rule)
    requires Shape(nodes, root) && Filled(nodes, log) && r.kind == Suffix
    requires SplitLabels(r.value) in nodes && nodes[SplitLabels(r.value)] == node
    modifies node`action, node`tag, node`source
    ensures Shape(nodes, root) && Filled(nodes, log + [r])
  {
    hide ActionRank, Better, SplitLabels, Champion, Select, Shape, Filed;
    DistinctNodes(nodes, root, SplitLabels(r.value));
    ghost var before := map p <- nodes :: nodes[p].Payload();
    node.Offer(r.action, r.tag, r.source);
    Refilled(nodes, log, before, r);
  }

  /** When only the node of r changed, as r demands, every node again holds its champion. */
  lemma Refilled(nodes: Nodes, log: seq<Rule>, before: map<seq<string>, MatchResult>, r: Rule)
    requires r.kind == Suffix && Filed(nodes.Keys, log) && SplitLabels(r.value) in nodes
    requires before.Keys == nodes.Keys && forall p <- nodes :: before[p] == Champion(Select(log, IsAt(p)))
    requires forall p <- nodes :: p != SplitLabels(r.value) ==> nodes[p].Payload() == before[p]
    requires nodes[SplitLabels(r.value)].Payload() == Better(before[SplitLabels(r.value)], ResultOf(r))
    ensures Filled(nodes, log + [r])
  {
    hide ActionRank, Champion, Select, SplitLabels;
    forall p | p in nodes ensures nodes[p].Payload() == Champion(Select(log + [r], IsAt(p))) {
      PathFollows(log, r, p);
    }
  }

  lemma DistinctNodes(nodes: Nodes, root: SuffixNode, path: seq<string>)
    requires Shape(nodes, root) && path in nodes
    ensures forall p <- nodes :: p != path ==> nodes[p] != nodes[path]
  {
    assert Placed(nodes, path);
    forall p | p in nodes && p != path ensures nodes[p] != nodes[path] {
      assert Placed(nodes, p);
    }
  }

  lemma PathFollows(log: seq<Rule>, r: Rule, p: seq<string>)
    requires r.kind == Suffix
    ensures var was := Champion(Select(log, IsAt(p)));
      Champion(Select(log + [r], IsAt(p))) == if p == SplitLabels(r.value) then Better(was, ResultOf(r)) else was
  {
    SelectSnoc(log, r, IsAt(p));
    ChampionSnoc(Select(log, IsAt(p)), r);
  }

  /** Trie nodes below a missing one are missing too, so no rule is filed there. */
  lemma NothingBelow(nodes: Nodes, root: SuffixNode, log: seq<Rule>, labels: seq<string>, i: nat)
    requires Shape(nodes, root) && Filled(nodes, log) && i <= |labels| && labels[i..] !in nodes
    ensures forall j :: 0 <= j <= i ==> Select(log, IsAt(labels[j..])) == []
  {
    forall j | 0 <= j <= i ensures Select(log, IsAt(labels[j..])) == [] {
      MissingBelow(nodes, root, labels, i, j);
      SelectNone(log, IsAt(labels[j..]));
    }
  }

  lemma {:induction false} MissingBelow(nodes: Nodes, root: SuffixNode, labels: seq<string>, i: nat, j: nat)
    requires Shape(nodes, root) && j <= i <= |labels| && labels[i..] !in nodes
    ensures labels[j..] !in nodes
    decreases i - j
  {
    if j < i {
      MissingBelow(nodes, root, labels, i, j + 1);
      assert labels[j..][1..] == labels[j + 1..];
      assert labels[j..] in nodes ==> Placed(nodes, labels[j..]);
    }
  }

  /** Rules of the other kinds leave the trie alone. */
  lemma FilledFollows(nodes: Nodes, log: seq<Rule>, r: Rule)
    requires Filled(nodes, log) && r.kind != Suffix
    ensures Filled(nodes, log + [r])
  {
    forall p | p in nodes ensures nodes[p].Payload() == Champion(Select(log + [r], IsAt(p))) {
      SelectSnoc(log, r, IsAt(p));
    }
  }

  // ---------------------------------------------------------------- the matcher

  class Matcher {
    const env: Env
    var suffixes: SuffixNode
    var full: map<string, MatchResult>
    var keywords: seq<Rule>
    var regexps: seq<Rule>
    var stats: map<string, nat>

    ghost var nodes: Nodes
    /** The rules accepted so far, in the order of the Add calls. */
    ghost var log: seq<Rule>

    ghost predicate Valid()
      reads this, nodes.Values
    {
      Shape(nodes, suffixes) && Filled(nodes, log) && PartsAgree(log, full, keywords, regexps, stats)
    }

    constructor (env: Env)
      ensures Valid() && fresh(nodes.Values) && log == [] && this.env == env
    {
      this.env := env;
      full, keywords, regexps, stats := map[], [], [], map[];
      log := [];
      suffixes := new SuffixNode([]);
      new;
      nodes := map[[] := suffixes];
    }

    /** Count one more accepted rule under its tag. */
    method Bump(tag: string)
      modifies `stats
      ensures stats == Bumped(old(stats), tag)
    {
      stats := stats[tag := (if tag in stats then stats[tag] else 0) + 1];
    }

    method AddSuffix(domain: string, action: string, tag: string, source: string)
      requires Valid()
      modifies this, nodes.Values
      ensures Valid() && Grown(old(nodes), nodes)
      ensures log == old(log) + Accept(env, Suffix, domain, action, tag, source)
      ensures log == old(log) + if env.lower(TrimDot(domain)) != "" then [Rule(Suffix, env.lower(TrimDot(domain)), action, tag, source)] else []
    {
      hide Shape, Filled, PartsAgree, Bumped, SplitLabels;
      var value := env.Norm(domain);
      if value != "" {
        var r := Rule(Suffix, value, action, tag, source);
        PartsFollow(log, r, full, keywords, regexps, stats);
        var node;
        node, nodes := Descend(nodes, log, suffixes, SplitLabels(value));
        assert node in nodes.Values;
        File(nodes, log, suffixes, node, r);
        log := log + [r];
        Bump(tag);
      }
    }

    method AddFull(domain: string, action: string, tag: string, source: string)
      requires Valid()
      modifies this, nodes.Values
      ensures Valid() && Grown(old(nodes), nodes)
      ensures log == old(log) + Accept(env, Full, domain, action, tag, source)
      ensures log == old(log) + if env.lower(TrimDot(domain)) != "" then [Rule(Full, env.lower(TrimDot(domain)), action, tag, source)] else []
    {
      hide Shape, Filled, PartsAgree, Bumped;
      var value := env.Norm(domain);
      if value != "" {
        ghost var r := Rule(Full, value, action, tag, source);
        PartsFollow(log, r, full, keywords, regexps, stats);
        FilledFollows(nodes, log, r);
        if value !in full || ActionRank(action) > ActionRank(full[value].action) {
          full := full[value := MatchResult(action, tag, source, true)];
        }
        log := log + [r];
        Bump(tag);
      }
    }

    method AddKeyword(raw: string, action: string, tag: string, source: string)
      requires Valid()
      modifies this, nodes.Values
      ensures Valid() && Grown(old(nodes), nodes)
      ensures log == old(log) + Accept(env, Keyword, raw, action, tag, source)
      ensures log == old(log) + if env.lower(raw) != "" then [Rule(Keyword, env.lower(raw), action, tag, source)] else []
    {
      hide Shape, Filled, PartsAgree, Bumped;
      var value := env.lower(raw);
      if value != "" {
        var r := Rule(Keyword, value, action, tag, source);
        PartsFollow(log, r, full, keywords, regexps, stats);
        FilledFollows(nodes, log, r);
        keywords := keywords + [r];
        log := log + [r];
        Bump(tag);
      }
    }

    /** Reports whether the pattern compiled. */
    method AddRegex(pattern: string, action: string, tag: string, source: string) returns (ok: bool)
      requires Valid()
      modifies this, nodes.Values
      ensures Valid() && Grown(old(nodes), nodes)
      ensures log == old(log) + Accept(env, Regex, pattern, action, tag, source)
      ensures log == old(log) + if env.compiles(pattern) then [Rule(Regex, pattern, action, tag, source)] else []
      ensures ok == env.compiles(pattern)
    {
      hide Shape, Filled, PartsAgree, Bumped;
      ok := env.compiles(pattern);
      if ok {
        var r := Rule(Regex, pattern, action, tag, source);
        PartsFollow(log, r, full, keywords, regexps, stats);
        FilledFollows(nodes, log, r);
        regexps := regexps + [r];
        log := log + [r];
        Bump(tag);
      }
    }

    /** The best rank met while descending the trie along the name's labels. */
    method LookupSuffix(domain: string) returns (best: MatchResult, matched: bool)
      requires Valid()
      ensures best == Champion(SuffixScan(log, domain, 0)) && matched == best.matched
    {
      hide Champion, Select, PartsAgree;
      var labels := SplitLabels(domain);
      var node, i := suffixes, |labels|;
      best, matched := NO_MATCH, false;
      assert labels[i..] == [];
      while i > 0
        invariant 0 <= i <= |labels|
        invariant labels[i..] in nodes && nodes[labels[i..]] == node
        invariant best == Walk(log, labels[i..]) && matched == best.matched
      {
        ghost var here := labels[i - 1..];
        assert here == [labels[i - 1]] + labels[i..] && here[1..] == labels[i..];
        assert Placed(nodes, labels[i..]);
        if labels[i - 1] !in node.children {
          assert here in nodes ==> Placed(nodes, here);
          NothingBelow(nodes, suffixes, log, labels, i - 1);
          WalkStops(log, labels, i);
          break;
        }
        node := node.children[labels[i - 1]];
        assert node.Payload() == Champion(Select(log, IsAt(here)));
        if node.action != "" && ActionRank(node.action) > ActionRank(best.action) {
          best := MatchResult(node.action, node.tag, node.source, true);
          matched := true;
        }
        i := i - 1;
      }
      assert i == 0 ==> labels[0..] == labels;
      assert AllAccepted(log) by {
        PartsAccepted(log, full, keywords, regexps, stats);
      }
      WalkIsSuffixScan(log, domain);
    }

    /** Exact names and suffixes. */
    method LookupNames(domain: string) returns (best: MatchResult)
      requires Valid()
      ensures best == Champion(Select(log, IsExactly(Full, domain)) + SuffixScan(log, domain, 0))
    {
      best := NO_MATCH;
      if domain in full && ActionRank(full[domain].action) > ActionRank(best.action) {
        best := full[domain];
      }
      if domain !in full {
        SelectNone(log, IsExactly(Full, domain));
      }
      assert best == Champion(Select(log, IsExactly(Full, domain)));
      var result, ok := LookupSuffix(domain);
      if ok && ActionRank(result.action) > ActionRank(best.action) {
        best := result;
      }
      ChampionConcat(Select(log, IsExactly(Full, domain)), SuffixScan(log, domain, 0));
    }

    /** The highest-priority action for the name: what the flat scan over all added rules finds. */
    method Lookup(fqdn: string) returns (best: MatchResult)
      requires Valid()
      ensures best == FlatScan(env, log, env.Norm(fqdn))
      ensures IsBest(log, MatchesName(env, env.Norm(fqdn)), best)
      ensures if best.matched
        then exists r <- log :: r.action == best.action && r.tag == best.tag && r.source == best.source && Matches(env, r, env.lower(TrimDot(fqdn)))
        else best == MatchResult("", "", "", false)
    {
      hide Shape, Filled, FullAgrees, StatsAgree, Champion, Select, SuffixScan, ActionRank, IsBest;
      var domain := env.Norm(fqdn);
      best := LookupNames(domain);
      ghost var base := Select(log, IsExactly(Full, domain)) + SuffixScan(log, domain, 0);
      ghost var p := IsHit(env, Keyword, domain);
      EmptyScan(base, keywords, p);
      for k := 0 to |keywords|
        invariant best == Champion(base + Select(keywords[..k], p))
      {
        ScanStep(base, keywords, k, p);
        AllOfKind(log, keywords, Keyword);
        var keyword := keywords[k];
        if !Contains(domain, keyword.value) {
          continue;
        }
        if ActionRank(keyword.action) > ActionRank(best.action) {
          best := MatchResult(keyword.action, keyword.tag, keyword.source, true);
        }
      }
      SelectTwice(log, IsKind(Keyword), p);
      assert keywords[..|keywords|] == keywords;
      base := base + Select(log, p);
      ghost var q := IsHit(env, Regex, domain);
      EmptyScan(base, regexps, q);
      for k := 0 to |regexps|
        invariant best == Champion(base + Select(regexps[..k], q))
      {
        ScanStep(base, regexps, k, q);
        AllOfKind(log, regexps, Regex);
        var rule := regexps[k];
        if !env.regex(rule.value, domain) {
          continue;
        }
        if ActionRank(rule.action) > ActionRank(best.action) {
          best := MatchResult(rule.action, rule.tag, rule.source, true);
        }
      }
      SelectTwice(log, IsKind(Regex), q);
      assert regexps[..|regexps|] == regexps;
      FlatScanIsBest(env, log, domain);
      NothingOutranks(env, log, domain);
    }

    /** A snapshot of the number of accepted rules per tag. */
    method Stats() returns (out: map<string, nat>)
      requires Valid()
      ensures forall t: string :: (if t in out then out[t] else 0) == |Select(log, HasTag(t))|
    {
      out := stats;
      forall t: string | t !in stats ensures Select(log, HasTag(t)) == [] {
        SelectNone(log, HasTag(t));
      }
    }
  }

  lemma PartsAccepted(log: seq<Rule>, full: map<string, MatchResult>,
                      keywords: seq<Rule>, regexps: seq<Rule>, stats: map<string, nat>)
    requires PartsAgree(log, full, keywords, regexps, stats)
    ensures AllAccepted(log)
  {
  }

  lemma EmptyScan(base: seq<Rule>, rs: seq<Rule>, p: Rule -> bool)
    ensures Champion(base + Select(rs[..0], p)) == Champion(base)
  {
    assert base + Select(rs[..0], p) == base;
  }

  lemma AllOfKind(log: seq<Rule>, rs: seq<Rule>, kind: Kind)
    requires rs == Select(log, IsKind(kind))
    ensures forall r <- rs :: r.kind == kind
  {
    forall r | r in rs ensures r.kind == kind {
      SelectMembers(log, IsKind(kind), r);
    }
  }

  // ---------------------------------------------------------------- the other parts, as values

  function HasTag(tag: string): Rule -> bool {
    (r: Rule) => r.tag == tag
  }

  /** The exact-name map holds, per name, the first rule of maximal rank (or an unranked one). */
  ghost predicate FullAgrees(log: seq<Rule>, full: map<string, MatchResult>) {
    && (forall d <- full :: Better(NO_MATCH, full[d]) == Champion(Select(log, IsExactly(Full, d))))
    && (forall r <- log :: r.kind == Full ==> r.value in full)
  }

  ghost predicate ListsAgree(log: seq<Rule>, keywords: seq<Rule>, regexps: seq<Rule>) {
    AllAccepted(log) && keywords == Select(log, IsKind(Keyword)) && regexps == Select(log, IsKind(Regex))
  }

  ghost predicate StatsAgree(log: seq<Rule>, stats: map<string, nat>) {
    && (forall t <- stats :: stats[t] == |Select(log, HasTag(t))|)
    && (forall r <- log :: r.tag in stats)
  }

  function Bumped(stats: map<string, nat>, tag: string): map<string, nat> {
    stats[tag := (if tag in stats then stats[tag] else 0) + 1]
  }

  ghost predicate PartsAgree(log: seq<Rule>, full: map<string, MatchResult>,
                             keywords: seq<Rule>, regexps: seq<Rule>, stats: map<string, nat>) {
    FullAgrees(log, full) && ListsAgree(log, keywords, regexps) && StatsAgree(log, stats)
  }

  function Offered(full: map<string, MatchResult>, r: Rule): map<string, MatchResult> {
    if r.value !in full || ActionRank(r.action) > ActionRank(full[r.value].action) then full[r.value := ResultOf(r)]
    else full
  }

  /** How the parts other than the trie follow the log. */
  lemma PartsFollow(log: seq<Rule>, r: Rule, full: map<string, MatchResult>,
                    keywords: seq<Rule>, regexps: seq<Rule>, stats: map<string, nat>)
    requires PartsAgree(log, full, keywords, regexps, stats) && Accepted(r)
    ensures PartsAgree(log + [r],
      if r.kind == Full then Offered(full, r) else full,
      if r.kind == Keyword then keywords + [r] else keywords,
      if r.kind == Regex then regexps + [r] else regexps,
      Bumped(stats, r.tag))
  {
    SelectSnoc(log, r, IsKind(Keyword));
    SelectSnoc(log, r, IsKind(Regex));
    FullFollows(log, r, full);
    StatsFollow(log, r, stats);
  }

  lemma FullFollows(log: seq<Rule>, r: Rule, full: map<string, MatchResult>)
    requires FullAgrees(log, full)
    ensures FullAgrees(log + [r], if r.kind == Full then Offered(full, r) else full)
  {
    if r.kind == Full {
      NameFollows(log, r, full);
    }
    hide ActionRank, Champion;
    var full' := if r.kind == Full then Offered(full, r) else full;
    forall d | d in full' ensures Better(NO_MATCH, full'[d]) == Champion(Select(log + [r], IsExactly(Full, d))) {
      SelectSnoc(log, r, IsExactly(Full, d));
    }
  }

  lemma NameFollows(log: seq<Rule>, r: Rule, full: map<string, MatchResult>)
    requires FullAgrees(log, full) && r.kind == Full
    ensures Better(NO_MATCH, Offered(full, r)[r.value]) == Champion(Select(log + [r], IsExactly(Full, r.value)))
  {
    assert ActionRank("") == 0;
    hide ActionRank;
    var named := Select(log, IsExactly(Full, r.value));
    SelectSnoc(log, r, IsExactly(Full, r.value));
    ChampionSnoc(named, r);
    if r.value !in full {
      SelectNone(log, IsExactly(Full, r.value));
    }
    hide Select, Champion;
    assert r.value in full ==> Better(NO_MATCH, full[r.value]) == Champion(named);
  }

  lemma StatsFollow(log: seq<Rule>, r: Rule, stats: map<string, nat>)
    requires StatsAgree(log, stats)
    ensures StatsAgree(log + [r], Bumped(stats, r.tag))
  {
    forall t | t in Bumped(stats, r.tag)
      ensures Bumped(stats, r.tag)[t] == |Select(log + [r], HasTag(t))|
    {
      SelectSnoc(log, r, HasTag(t));
      if t !in stats {
        SelectNone(log, HasTag(t));
      }
    }
  }

  /** What an Add call appends to the log: nothing when the value is empty after normalisation. */
  function Accept(env: Env, kind: Kind, raw: string, action: string, tag: string, source: string): seq<Rule> {
    match kind
    case Full =>
      if env.Norm(raw) == "" then [] else [Rule(Full, env.Norm(raw), action, tag, source)]
    case Suffix =>
      if env.Norm(raw) == "" then [] else [Rule(Suffix, env.Norm(raw), action, tag, source)]
    case Keyword =>
      if env.lower(raw) == "" then [] else [Rule(Keyword, env.lower(raw), action, tag, source)]
    case Regex =>
      if env.compiles(raw) then [Rule(Regex, raw, action, tag, source)] else []
  }
}
