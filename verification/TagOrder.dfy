/** When the order of a ruleset's tag mappings decides an action
    (cmd/dns/internal/dns/ruleset.go). */
module TagOrder {
  import opened Labels
  import opened Rules
  import opened Matching
  import opened Rulesets

  // ---------------------------------------------------------------- the index

  /** No name is mapped to two different actions. */
  ghost predicate Consistent(env: Env, tags: seq<TagAction>) {
    forall t <- tags, u <- tags :: env.lower(t.name) == env.lower(u.name) ==> t.action == u.action
  }

  lemma {:induction false} IndexIsLast(env: Env, tags: seq<TagAction>)
    ensures forall k <- TagIndex(env, tags) :: exists t <- tags :: env.lower(t.name) == k && t.action == TagIndex(env, tags)[k]
    ensures forall t <- tags :: env.lower(t.name) in TagIndex(env, tags)
  {
    if tags != [] {
      assert tags == tags[..|tags| - 1] + [tags[|tags| - 1]];
      IndexIsLast(env, tags[..|tags| - 1]);
    }
  }

  lemma SameIndexOf(env: Env, tags: seq<TagAction>, other: seq<TagAction>)
    requires Consistent(env, tags) && multiset(other) == multiset(tags)
    ensures TagIndex(env, other) == TagIndex(env, tags)
  {
    hide TagIndex;
    SameMappings(tags, other);
    IndexIsLast(env, tags);
    IndexIsLast(env, other);
  }

  /** Reordering tag mappings keeps the index exactly when no name is mapped to two actions. */
  lemma IndexOrderExactly(env: Env, tags: seq<TagAction>)
    ensures Consistent(env, tags) <==>
      forall other: seq<TagAction> :: multiset(other) == multiset(tags) ==> TagIndex(env, other) == TagIndex(env, tags)
  {
    if Consistent(env, tags) {
      forall other: seq<TagAction> | multiset(other) == multiset(tags) ensures TagIndex(env, other) == TagIndex(env, tags) {
        SameIndexOf(env, tags, other);
      }
    } else {
      var t, u :| t in tags && u in tags && env.lower(t.name) == env.lower(u.name) && t.action != u.action;
      var a := MovedLast(env, tags, t);
      var b := MovedLast(env, tags, u);
      assert TagIndex(env, a) != TagIndex(env, b);
    }
  }

  lemma MovedLast(env: Env, tags: seq<TagAction>, t: TagAction) returns (other: seq<TagAction>)
    requires t in tags
    ensures multiset(other) == multiset(tags)
    ensures env.lower(t.name) in TagIndex(env, other) && TagIndex(env, other)[env.lower(t.name)] == t.action
  {
    var i :| 0 <= i < |tags| && tags[i] == t;
    other := tags[..i] + tags[i + 1..] + [t];
    assert tags == tags[..i] + [t] + tags[i + 1..];
    assert other[|other| - 1] == t;
  }

  // ---------------------------------------------------------------- the actions

  /** The action of a name under a configuration, one of whose rulesets has these tag mappings. */
  function ActionWith(env: Env, before: seq<Loaded>, after: seq<Loaded>, url: string, tags: seq<TagAction>,
                      sites: seq<Site>, name: string): string
  {
    FlatScan(env, RulesOfAll(env, before + [Loaded(RulesetEntry(url, tags), sites)] + after), env.Norm(name)).action
  }

  predicate SameEffect(a: string, b: string) {
    a == b || (ActionRank(a) == 0 && ActionRank(b) == 0)
  }

  /** Mappings of one name give it the same action, or actions that all mean nothing. */
  ghost predicate Harmless(env: Env, tags: seq<TagAction>) {
    forall t <- tags, u <- tags :: env.lower(t.name) == env.lower(u.name) ==> SameEffect(t.action, u.action)
  }

  ghost predicate SameEffects(x: map<string, string>, y: map<string, string>) {
    x.Keys == y.Keys && forall k <- x :: SameEffect(x[k], y[k])
  }

  lemma ReorderedIndex(env: Env, tags: seq<TagAction>, other: seq<TagAction>)
    requires Harmless(env, tags) && multiset(other) == multiset(tags)
    ensures SameEffects(TagIndex(env, tags), TagIndex(env, other))
  {
    hide SameEffect, TagIndex;
    SameMappings(tags, other);
    IndexIsLast(env, tags);
    IndexIsLast(env, other);
    var x, y := TagIndex(env, tags), TagIndex(env, other);
    forall k | k in x ensures k in y && SameEffect(x[k], y[k]) {
      var t :| t in tags && env.lower(t.name) == k && t.action == x[k];
      assert t in other;
      var u :| u in other && env.lower(u.name) == k && u.action == y[k];
    }
    forall k | k in y ensures k in x {
      var u :| u in other && env.lower(u.name) == k && u.action == y[k];
      assert u in tags;
    }
  }

  lemma SameMappings(tags: seq<TagAction>, other: seq<TagAction>)
    requires multiset(other) == multiset(tags)
    ensures forall t :: t in tags <==> t in other
  {
    forall t ensures t in tags <==> t in other {
      assert t in tags <==> t in multiset(tags);
    }
  }

  lemma LastCounts(env: Env, tags: seq<TagAction>, t: TagAction)
    ensures env.lower(t.name) in TagIndex(env, tags + [t]) && TagIndex(env, tags + [t])[env.lower(t.name)] == t.action
  {
  }

  lemma RuleCarriesAction(env: Env, d: Domain, action: string, tag: string, source: string, r: Rule)
    requires r in RuleOf(env, d, action, tag, source)
    ensures r.action == action
  {
  }

  /** Replacing one ruleset's mappings by others of the same effect keeps every ranked rule. */
  lemma RankedRulesStay(env: Env, a: seq<Loaded>, b: seq<Loaded>, r: Rule)
    requires |a| == |b| && forall i :: 0 <= i < |a| ==>
      && a[i].entry.url == b[i].entry.url && a[i].sites == b[i].sites
      && SameEffects(TagIndex(env, a[i].entry.tags), TagIndex(env, b[i].entry.tags))
    requires ActionRank(r.action) > 0 && r in RulesOfAll(env, a)
    ensures r in RulesOfAll(env, b)
  {
    hide RuleOf, TagIndex, ActionRank;
    AllRules(env, a, r);
    var l, s, d :| l in a && s in l.sites && d in s.domains && Contributes(env, l, s, d, r);
    var i :| 0 <= i < |a| && a[i] == l;
    var code := env.lower(s.code);
    var x, y := TagIndex(env, l.entry.tags), TagIndex(env, b[i].entry.tags);
    RuleCarriesAction(env, d, x[code], code, l.entry.url, r);
    assert x[code] == y[code];
    assert b[i] in b && Contributes(env, b[i], s, d, r);
    AllRules(env, b, r);
  }

  lemma SameIndex(x: map<string, string>)
    ensures SameEffects(x, x)
  {
  }

  lemma FlippedEffects(x: map<string, string>, y: map<string, string>)
    requires SameEffects(x, y)
    ensures SameEffects(y, x)
  {
  }

  lemma HarmlessOrder(env: Env, before: seq<Loaded>, after: seq<Loaded>, url: string, tags: seq<TagAction>,
                      other: seq<TagAction>, sites: seq<Site>, name: string)
    requires Harmless(env, tags) && multiset(other) == multiset(tags)
    ensures ActionWith(env, before, after, url, tags, sites, name) == ActionWith(env, before, after, url, other, sites, name)
  {
    var l, l' := Loaded(RulesetEntry(url, tags), sites), Loaded(RulesetEntry(url, other), sites);
    var a, b := before + [l] + after, before + [l'] + after;
    ReorderedIndex(env, tags, other);
    FlippedEffects(TagIndex(env, tags), TagIndex(env, other));
    hide TagIndex, SameEffects, ActionRank, FlatScan, RulesOfAll;
    forall i | 0 <= i < |a| && i != |before| ensures a[i] == b[i] {
    }
    forall i | 0 <= i < |a|
      ensures SameEffects(TagIndex(env, a[i].entry.tags), TagIndex(env, b[i].entry.tags))
      ensures SameEffects(TagIndex(env, b[i].entry.tags), TagIndex(env, a[i].entry.tags))
    {
      SameIndex(TagIndex(env, a[i].entry.tags));
    }
    forall r: Rule | ActionRank(r.action) > 0 ensures r in RulesOfAll(env, a) <==> r in RulesOfAll(env, b) {
      if r in RulesOfAll(env, a) {
        RankedRulesStay(env, a, b, r);
      } else if r in RulesOfAll(env, b) {
        RankedRulesStay(env, b, a, r);
      }
    }
    AllAreAccepted(env, a);
    AllAreAccepted(env, b);
    RankedRulesDecide(env, RulesOfAll(env, a), RulesOfAll(env, b), env.Norm(name));
  }

  /** One exact-name entry under a tag: its action is what the index says. */
  lemma OneEntry(env: Env, url: string, tags: seq<TagAction>, code: string, v: string)
    requires env.trim(v) != "" && env.Norm(env.trim(v)) != ""
    requires env.lower(code) in TagIndex(env, tags)
    ensures var action := TagIndex(env, tags)[env.lower(code)];
      ActionWith(env, [], [], url, tags, [Site(code, [Domain(FullDomain, v)])], env.trim(v))
        == if ActionRank(action) > 0 then action else ""
  {
    var d, dom := env.Norm(env.trim(v)), Domain(FullDomain, v);
    var sites := [Site(code, [dom])];
    var l := Loaded(RulesetEntry(url, tags), sites);
    var action := TagIndex(env, tags)[env.lower(code)];
    var rule := Rule(Full, d, action, env.lower(code), url);
    assert [] + [l] + [] == [l];
    assert RuleOf(env, dom, action, env.lower(code), url) == [rule];
    OnlyRule(env, l, sites[0], dom, rule);
    hide RuleOf, TagIndex;
    AllAreAccepted(env, [l]);
    NothingOutranks(env, RulesOfAll(env, [l]), d);
  }

  lemma OnlyRule(env: Env, l: Loaded, s: Site, dom: Domain, rule: Rule)
    requires l.sites == [s] && s.domains == [dom] && env.lower(s.code) in TagIndex(env, l.entry.tags)
    requires RuleOf(env, dom, TagIndex(env, l.entry.tags)[env.lower(s.code)], env.lower(s.code), l.entry.url) == [rule]
    ensures forall r: Rule :: r in RulesOfAll(env, [l]) <==> r == rule
  {
    hide RuleOf, TagIndex;
    forall r: Rule ensures r in RulesOfAll(env, [l]) <==> r == rule {
      AllRules(env, [l], r);
      if r == rule {
        assert l in [l] && s in l.sites && dom in s.domains && Contributes(env, l, s, dom, r);
      }
    }
  }

  /** Two mappings of one name with different effects: moving either to the end changes an action. */
  lemma ConflictShows(env: Env, url: string, tags: seq<TagAction>, t: TagAction, u: TagAction, v: string)
    returns (other: seq<TagAction>, sites: seq<Site>)
    requires t in tags && u in tags && env.lower(t.name) == env.lower(u.name) && !SameEffect(t.action, u.action)
    requires env.trim(v) != "" && env.Norm(env.trim(v)) != ""
    ensures multiset(other) == multiset(tags)
    ensures ActionWith(env, [], [], url, other, sites, env.trim(v)) != ActionWith(env, [], [], url, tags, sites, env.trim(v))
  {
    var a := MovedLast(env, tags, t);
    var b := MovedLast(env, tags, u);
    sites := [Site(t.name, [Domain(FullDomain, v)])];
    OneEntry(env, url, a, t.name, v);
    OneEntry(env, url, b, t.name, v);
    hide TagIndex, ActionWith;
    var base := ActionWith(env, [], [], url, tags, sites, env.trim(v));
    other := if ActionWith(env, [], [], url, a, sites, env.trim(v)) != base then a else b;
  }

  /** Reordering a ruleset's tag mappings leaves every name's action as it is, in every configuration the
      ruleset can be part of and for every list it may load, if and only if no name is mapped to actions
      of different effect. (Some value must survive trimming and normalisation for a rule to exist.) */
  lemma TagOrderMattersOnlyForConflicts(env: Env, url: string, tags: seq<TagAction>, v: string)
    requires env.trim(v) != "" && env.Norm(env.trim(v)) != ""
    ensures Harmless(env, tags) <==>
      forall other: seq<TagAction>, before, after, sites, name :: multiset(other) == multiset(tags) ==>
        ActionWith(env, before, after, url, other, sites, name) == ActionWith(env, before, after, url, tags, sites, name)
  {
    hide ActionWith, SameEffect;
    if Harmless(env, tags) {
      forall other: seq<TagAction>, before, after, sites, name | multiset(other) == multiset(tags)
        ensures ActionWith(env, before, after, url, other, sites, name) == ActionWith(env, before, after, url, tags, sites, name)
      {
        HarmlessOrder(env, before, after, url, tags, other, sites, name);
      }
    } else {
      var t, u :| t in tags && u in tags && env.lower(t.name) == env.lower(u.name) && !SameEffect(t.action, u.action);
      var other, sites := ConflictShows(env, url, tags, t, u, v);
    }
  }

  /** A list that maps one tag to block and to direct blocks the name in one order only. */
  lemma ConflictingTags(env: Env, url: string, v: string)
    requires env.trim(v) != "" && env.Norm(env.trim(v)) != ""
    ensures var block, direct := TagAction("ads", "block"), TagAction("ads", "direct");
      var sites := [Site("ads", [Domain(FullDomain, v)])];
      && ActionWith(env, [], [], url, [direct, block], sites, env.trim(v)) == "block"
      && ActionWith(env, [], [], url, [block, direct], sites, env.trim(v)) == "direct"
  {
    var block, direct := TagAction("ads", "block"), TagAction("ads", "direct");
    hide TagIndex, ActionWith;
    LastCounts(env, [direct], block);
    LastCounts(env, [block], direct);
    assert [direct] + [block] == [direct, block] && [block] + [direct] == [block, direct];
    OneEntry(env, url, [direct, block], "ads", v);
    OneEntry(env, url, [block, direct], "ads", v);
  }
}
