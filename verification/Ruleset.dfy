/** Turning decoded rule files into a matcher (cmd/dns/internal/dns/ruleset.go). */
module Rulesets {
  import opened Labels
  import opened Rules
  import opened Matching
  import opened Lookups

  datatype DomainType = Plain | RegexDomain | RootDomain | FullDomain | OtherType

  datatype Domain = Domain(dtype: DomainType, value: string)
  datatype Site = Site(code: string, domains: seq<Domain>)
  datatype TagAction = TagAction(name: string, action: string)
  datatype RulesetEntry = RulesetEntry(url: string, tags: seq<TagAction>)

  /** A configured ruleset with the site list decoded from its file. */
  datatype Loaded = Loaded(entry: RulesetEntry, sites: seq<Site>)

  /** The tag index: of several mappings for one name, the last one counts. */
  function TagIndex(env: Env, tags: seq<TagAction>): map<string, string> {
    if tags == [] then map[]
    else
      var last := tags[|tags| - 1];
      TagIndex(env, tags[..|tags| - 1])[env.lower(last.name) := last.action]
  }

  /** What one domain entry adds. */
  function RuleOf(env: Env, d: Domain, action: string, tag: string, source: string): seq<Rule> {
    var value := env.trim(d.value);
    if value == "" then []
    else
      match d.dtype
      case RootDomain => Accept(env, Suffix, value, action, tag, source)
      case FullDomain => Accept(env, Full, value, action, tag, source)
      case Plain => Accept(env, Keyword, value, action, tag, source)
      case RegexDomain => Accept(env, Regex, value, action, tag, source)
      case OtherType => []
  }

  function RulesOfDomains(env: Env, ds: seq<Domain>, action: string, tag: string, source: string): seq<Rule> {
    if ds == [] then []
    else RulesOfDomains(env, ds[..|ds| - 1], action, tag, source) + RuleOf(env, ds[|ds| - 1], action, tag, source)
  }

  function RulesOfSite(env: Env, index: map<string, string>, site: Site, source: string): seq<Rule> {
    var code := env.lower(site.code);
    if code in index then RulesOfDomains(env, site.domains, index[code], code, source) else []
  }

  function RulesOfSites(env: Env, index: map<string, string>, sites: seq<Site>, source: string): seq<Rule> {
    if sites == [] then []
    else RulesOfSites(env, index, sites[..|sites| - 1], source) + RulesOfSite(env, index, sites[|sites| - 1], source)
  }

  function RulesOfLoaded(env: Env, l: Loaded): seq<Rule> {
    RulesOfSites(env, TagIndex(env, l.entry.tags), l.sites, l.entry.url)
  }

  /** The rules of a whole configuration, ruleset by ruleset. */
  function RulesOfAll(env: Env, ls: seq<Loaded>): seq<Rule> {
    if ls == [] then [] else RulesOfAll(env, ls[..|ls| - 1]) + RulesOfLoaded(env, ls[|ls| - 1])
  }

  // ---------------------------------------------------------------- which rules those are

  /** The last mapping of this lower-cased name gives it this action. */
  ghost predicate MapsTo(env: Env, tags: seq<TagAction>, code: string, action: string) {
    exists i :: MappedAt(env, tags, i, code, action)
  }

  ghost predicate MappedAt(env: Env, tags: seq<TagAction>, i: int, code: string, action: string) {
    && 0 <= i < |tags| && env.lower(tags[i].name) == code && tags[i].action == action
    && forall j :: i < j < |tags| ==> env.lower(tags[j].name) != code
  }

  /** What kind of rule an entry becomes, and with what value. */
  ghost predicate Becomes(env: Env, d: Domain, kind: Kind, value: string) {
    var v := env.trim(d.value);
    v != "" &&
    match d.dtype
    case RootDomain => kind == Suffix && value == env.lower(TrimDot(v)) != ""
    case FullDomain => kind == Full && value == env.lower(TrimDot(v)) != ""
    case Plain => kind == Keyword && value == env.lower(v) != ""
    case RegexDomain => kind == Regex && value == v && env.compiles(v)
    case OtherType => false
  }

  /** Entry d of site s, in the list of ruleset e, makes r a rule. */
  ghost predicate Listed(env: Env, e: RulesetEntry, s: Site, d: Domain, r: Rule) {
    && MapsTo(env, e.tags, env.lower(s.code), r.action)
    && r.tag == env.lower(s.code) && r.source == e.url
    && Becomes(env, d, r.kind, r.value)
  }

  ghost predicate ListedIn(env: Env, e: RulesetEntry, sites: seq<Site>, r: Rule) {
    exists s <- sites, d <- s.domains :: Listed(env, e, s, d, r)
  }

  lemma {:induction false} IndexMaps(env: Env, tags: seq<TagAction>, code: string, action: string)
    ensures MapsTo(env, tags, code, action) <==> code in TagIndex(env, tags) && TagIndex(env, tags)[code] == action
  {
    if tags != [] {
      var rest, last := tags[..|tags| - 1], tags[|tags| - 1];
      IndexMaps(env, rest, code, action);
      MapsOn(env, rest, last, code, action);
      assert tags == rest + [last];
      hide MapsTo;
    }
  }

  lemma MapsOn(env: Env, rest: seq<TagAction>, last: TagAction, code: string, action: string)
    ensures MapsTo(env, rest + [last], code, action) <==>
      if env.lower(last.name) == code then last.action == action else MapsTo(env, rest, code, action)
  {
    var tags := rest + [last];
    assert tags[|rest|] == last;
    if env.lower(last.name) == code {
      assert last.action == action ==> MappedAt(env, tags, |rest|, code, action);
      if i :| MappedAt(env, tags, i, code, action) {
        assert i == |rest|;
      }
    } else {
      hide MappedAt;
      forall i ensures MappedAt(env, tags, i, code, action) <==> MappedAt(env, rest, i, code, action) {
        MapsAtOn(env, rest, last, i, code, action);
      }
    }
  }

  lemma MapsAtOn(env: Env, rest: seq<TagAction>, last: TagAction, i: int, code: string, action: string)
    requires env.lower(last.name) != code
    ensures MappedAt(env, rest + [last], i, code, action) <==> MappedAt(env, rest, i, code, action)
  {
    var tags := rest + [last];
    assert tags[|rest|] == last;
    if 0 <= i < |rest| {
      assert tags[i] == rest[i];
      forall j | i < j < |rest| ensures tags[j] == rest[j] {
      }
      if MappedAt(env, rest, i, code, action) {
        forall j | i < j < |tags| ensures env.lower(tags[j].name) != code {
          assert j < |rest| ==> tags[j] == rest[j];
        }
      }
      if MappedAt(env, tags, i, code, action) {
        forall j | i < j < |rest| ensures env.lower(rest[j].name) != code {
          assert env.lower(tags[j].name) != code;
        }
      }
    }
  }

  lemma RuleBecomes(env: Env, d: Domain, action: string, tag: string, source: string, r: Rule)
    ensures r in RuleOf(env, d, action, tag, source) <==>
      Becomes(env, d, r.kind, r.value) && r.action == action && r.tag == tag && r.source == source
  {
  }

  lemma ListedIsContributed(env: Env, l: Loaded, s: Site, d: Domain, r: Rule)
    ensures Contributes(env, l, s, d, r) <==> Listed(env, l.entry, s, d, r)
  {
    hide Becomes, RuleOf, MapsTo, TagIndex;
    var index, code := TagIndex(env, l.entry.tags), env.lower(s.code);
    IndexMaps(env, l.entry.tags, code, r.action);
    if code in index {
      RuleBecomes(env, d, index[code], code, l.entry.url, r);
    }
  }

  lemma LoadedIsListed(env: Env, l: Loaded, r: Rule)
    ensures r in RulesOfLoaded(env, l) <==> ListedIn(env, l.entry, l.sites, r)
  {
    SiteRules(env, l, l.sites, r);
    hide Contributes, Listed, RulesOfSites, TagIndex;
    forall s, d ensures Contributes(env, l, s, d, r) <==> Listed(env, l.entry, s, d, r) {
      ListedIsContributed(env, l, s, d, r);
    }
  }

  /** Membership written out: a rule is there exactly if a configured ruleset lists it. */
  lemma RulesAreListed(env: Env, ls: seq<Loaded>, r: Rule)
    ensures r in RulesOfAll(env, ls) <==> exists l <- ls :: ListedIn(env, l.entry, l.sites, r)
  {
    AllRules(env, ls, r);
    hide Contributes, Listed;
    forall l: Loaded, s, d ensures Contributes(env, l, s, d, r) <==> Listed(env, l.entry, s, d, r) {
      ListedIsContributed(env, l, s, d, r);
    }
  }

  /** Every file that decodes counts, and no other. */
  lemma {:induction false} ReadableIs(entries: seq<RulesetEntry>, files: map<string, File>, l: Loaded)
    ensures l in Readable(entries, files) <==>
      l.entry in entries && l.entry.url in files && files[l.entry.url] == Decoded(l.sites)
  {
    if entries != [] {
      assert entries == entries[..|entries| - 1] + [entries[|entries| - 1]];
      ReadableIs(entries[..|entries| - 1], files, l);
    }
  }

  ghost predicate ListedInFiles(env: Env, entries: seq<RulesetEntry>, files: map<string, File>, r: Rule) {
    exists e <- entries :: e.url in files && files[e.url].Decoded? && ListedIn(env, e, files[e.url].sites, r)
  }

  lemma FilesAreListed(env: Env, entries: seq<RulesetEntry>, files: map<string, File>, r: Rule)
    ensures r in RulesOfAll(env, Readable(entries, files)) <==> ListedInFiles(env, entries, files, r)
  {
    hide ListedIn, RulesOfAll, Readable;
    var ls := Readable(entries, files);
    RulesAreListed(env, ls, r);
    if l :| l in ls && ListedIn(env, l.entry, l.sites, r) {
      ReadableIs(entries, files, l);
    }
    if e :| e in entries && e.url in files && files[e.url].Decoded? && ListedIn(env, e, files[e.url].sites, r) {
      ReadableIs(entries, files, Loaded(e, files[e.url].sites));
    }
  }

  /** A name at or under a listed root domain, with or without a dot at the end, gets at least the action
      of its tag. */
  lemma ListedRootIsFound(env: Env, ls: seq<Loaded>, l: Loaded, s: Site, d: Domain, root: string, action: string, x: string)
    requires LowersParts(env.lower) && root != "" && !EndsInDot(root) && env.lower(root) != ""
    requires l in ls && s in l.sites && d in s.domains && d.dtype == RootDomain && env.trim(d.value) == root
    requires MapsTo(env, l.entry.tags, env.lower(s.code), action) && ActionRank(action) > 0
    ensures var log := RulesOfAll(env, ls);
      && AtLeast(env, log, root, action) && AtLeast(env, log, root + ".", action)
      && AtLeast(env, log, x + "." + root, action) && AtLeast(env, log, x + "." + root + ".", action)
  {
    var r := Rule(Suffix, env.lower(root), action, env.lower(s.code), l.entry.url);
    TrimDotIs(root);
    ListedRule(env, ls, l, s, d, r);
    hide AtLeast;
    SuffixIsFound(env, RulesOfAll(env, ls), root, action, r.tag, r.source, x);
  }

  lemma ListedRule(env: Env, ls: seq<Loaded>, l: Loaded, s: Site, d: Domain, r: Rule)
    requires l in ls && s in l.sites && d in s.domains && Listed(env, l.entry, s, d, r)
    ensures r in RulesOfAll(env, ls) && AllAccepted(RulesOfAll(env, ls))
  {
    hide Listed;
    assert ListedIn(env, l.entry, l.sites, r);
    RulesAreListed(env, ls, r);
    AllAreAccepted(env, ls);
  }

  /** A listed full name gets at least the action of its tag. */
  lemma ListedNameIsFound(env: Env, ls: seq<Loaded>, l: Loaded, s: Site, d: Domain, name: string, action: string)
    requires !EndsInDot(name) && env.lower(name) != "" && name != ""
    requires l in ls && s in l.sites && d in s.domains && d.dtype == FullDomain && env.trim(d.value) == name
    requires MapsTo(env, l.entry.tags, env.lower(s.code), action) && ActionRank(action) > 0
    ensures AtLeast(env, RulesOfAll(env, ls), name, action) && AtLeast(env, RulesOfAll(env, ls), name + ".", action)
  {
    TrimDotIs(name);
    ListedRule(env, ls, l, s, d, Rule(Full, env.lower(name), action, env.lower(s.code), l.entry.url));
    FullIsFound(env, RulesOfAll(env, ls), name, action, env.lower(s.code), l.entry.url);
  }

  /** So does every name in which a listed keyword occurs. */
  lemma ListedKeywordIsFound(env: Env, ls: seq<Loaded>, l: Loaded, s: Site, d: Domain, word: string, action: string,
                             name: string, x: string, y: string)
    requires env.lower(word) != "" && word != "" && !EndsInDot(name) && env.lower(name) == x + env.lower(word) + y
    requires l in ls && s in l.sites && d in s.domains && d.dtype == Plain && env.trim(d.value) == word
    requires MapsTo(env, l.entry.tags, env.lower(s.code), action) && ActionRank(action) > 0
    ensures AtLeast(env, RulesOfAll(env, ls), name, action)
  {
    ListedRule(env, ls, l, s, d, Rule(Keyword, env.lower(word), action, env.lower(s.code), l.entry.url));
    KeywordIsFound(env, RulesOfAll(env, ls), word, action, env.lower(s.code), l.entry.url, name, x, y);
  }

  /** And every name a listed pattern matches. */
  lemma ListedPatternIsFound(env: Env, ls: seq<Loaded>, l: Loaded, s: Site, d: Domain, pattern: string, action: string, name: string)
    requires pattern != "" && env.compiles(pattern) && !EndsInDot(name) && env.regex(pattern, env.lower(name))
    requires l in ls && s in l.sites && d in s.domains && d.dtype == RegexDomain && env.trim(d.value) == pattern
    requires MapsTo(env, l.entry.tags, env.lower(s.code), action) && ActionRank(action) > 0
    ensures AtLeast(env, RulesOfAll(env, ls), name, action)
  {
    ListedRule(env, ls, l, s, d, Rule(Regex, pattern, action, env.lower(s.code), l.entry.url));
    RegexIsFound(env, RulesOfAll(env, ls), pattern, action, env.lower(s.code), l.entry.url, name);
  }

  // ---------------------------------------------------------------- the methods

  /** addRule: a pattern that does not compile is skipped. */
  method AddRule(m: Matcher, dtype: DomainType, value: string, action: string, tag: string, source: string)
    requires m.Valid() && value != ""
    modifies m, m.nodes.Values
    ensures m.Valid() && Grown(old(m.nodes), m.nodes)
    ensures dtype == RootDomain ==> m.log == old(m.log) + Accept(m.env, Suffix, value, action, tag, source)
    ensures dtype == FullDomain ==> m.log == old(m.log) + Accept(m.env, Full, value, action, tag, source)
    ensures dtype == Plain ==> m.log == old(m.log) + Accept(m.env, Keyword, value, action, tag, source)
    ensures dtype == RegexDomain ==> m.log == old(m.log) + Accept(m.env, Regex, value, action, tag, source)
    ensures dtype == OtherType ==> m.log == old(m.log)
  {
    hide Shape, Filled, PartsAgree, Accept;
    match dtype {
      case RootDomain => m.AddSuffix(value, action, tag, source);
      case FullDomain => m.AddFull(value, action, tag, source);
      case Plain => m.AddKeyword(value, action, tag, source);
      case RegexDomain => var ok := m.AddRegex(value, action, tag, source);
      case OtherType =>
    }
  }

  method ApplyDomains(m: Matcher, domains: seq<Domain>, action: string, code: string, url: string)
    requires m.Valid()
    modifies m, m.nodes.Values
    ensures m.Valid() && Grown(old(m.nodes), m.nodes)
    ensures m.log == old(m.log) + RulesOfDomains(m.env, domains, action, code, url)
  {
    hide Shape, Filled, PartsAgree, Accept;
    for k := 0 to |domains|
      invariant m.Valid() && Grown(old(m.nodes), m.nodes)
      invariant m.log == old(m.log) + RulesOfDomains(m.env, domains[..k], action, code, url)
    {
      assert domains[..k + 1][..k] == domains[..k];
      var value := m.env.trim(domains[k].value);
      if value == "" {
        continue;
      }
      AddRule(m, domains[k].dtype, value, action, code, url);
    }
    assert domains[..|domains|] == domains;
  }

  method BuildIndex(env: Env, tags: seq<TagAction>) returns (tagIndex: map<string, string>)
    ensures tagIndex == TagIndex(env, tags)
  {
    tagIndex := map[];
    for k := 0 to |tags|
      invariant tagIndex == TagIndex(env, tags[..k])
    {
      assert tags[..k + 1][..k] == tags[..k];
      tagIndex := tagIndex[env.lower(tags[k].name) := tags[k].action];
    }
    assert tags[..|tags|] == tags;
  }

  method ApplyRuleset(m: Matcher, sites: seq<Site>, entry: RulesetEntry)
    requires m.Valid()
    modifies m, m.nodes.Values
    ensures m.Valid() && Grown(old(m.nodes), m.nodes)
    ensures m.log == old(m.log) + RulesOfLoaded(m.env, Loaded(entry, sites))
    ensures forall r: Rule :: r in m.log <==> r in old(m.log) || ListedIn(m.env, entry, sites, r)
  {
    hide Shape, Filled, PartsAgree, RulesOfDomains, RulesOfSites, TagIndex;
    var tagIndex := BuildIndex(m.env, entry.tags);
    NoSites(m.env, tagIndex, sites, entry.url);
    for k := 0 to |sites|
      invariant m.Valid() && Grown(old(m.nodes), m.nodes)
      invariant m.log == old(m.log) + RulesOfSites(m.env, tagIndex, sites[..k], entry.url)
    {
      OneMoreSite(m.env, tagIndex, sites, k, entry.url);
      var code := m.env.lower(sites[k].code);
      if code !in tagIndex {
        continue;
      }
      ApplyDomains(m, sites[k].domains, tagIndex[code], code, entry.url);
    }
    assert sites[..|sites|] == sites;
    hide ListedIn, RulesOfLoaded;
    forall r: Rule ensures r in RulesOfLoaded(m.env, Loaded(entry, sites)) <==> ListedIn(m.env, entry, sites, r) {
      LoadedIsListed(m.env, Loaded(entry, sites), r);
    }
  }

  lemma NoSites(env: Env, index: map<string, string>, sites: seq<Site>, source: string)
    ensures RulesOfSites(env, index, sites[..0], source) == []
  {
  }

  lemma OneMoreSite(env: Env, index: map<string, string>, sites: seq<Site>, k: nat, source: string)
    requires k < |sites|
    ensures RulesOfSites(env, index, sites[..k + 1], source) ==
      RulesOfSites(env, index, sites[..k], source) + RulesOfSite(env, index, sites[k], source)
  {
    assert sites[..k + 1][..k] == sites[..k];
  }

  /** What is on disk for one ruleset: nothing readable, bytes that do not decode, or a site list. */
  datatype File = Unreadable | Garbled | Decoded(sites: seq<Site>)

  /** The rulesets that contribute, in configuration order. */
  function Readable(entries: seq<RulesetEntry>, files: map<string, File>): seq<Loaded> {
    if entries == [] then []
    else
      var e := entries[|entries| - 1];
      Readable(entries[..|entries| - 1], files)
      + (if e.url in files && files[e.url].Decoded? then [Loaded(e, files[e.url].sites)] else [])
  }

  /** A fresh matcher over all rule files; unreadable or garbled ones contribute nothing. */
  method RebuildMatcher(env: Env, entries: seq<RulesetEntry>, files: map<string, File>) returns (m: Matcher)
    ensures fresh(m) && m.Valid() && m.env == env
    ensures m.log == RulesOfAll(env, Readable(entries, files))
    ensures forall r: Rule :: r in m.log <==> ListedInFiles(env, entries, files, r)
  {
    hide Shape, Filled, PartsAgree, RulesOfLoaded, ListedIn, ListedInFiles;
    m := new Matcher(env);
    for k := 0 to |entries|
      invariant fresh(m) && m.Valid() && m.env == env && fresh(m.nodes.Values)
      invariant m.log == RulesOfAll(env, Readable(entries[..k], files))
    {
      assert entries[..k + 1][..k] == entries[..k];
      var e := entries[k];
      assert Readable(entries[..k], files) + [] == Readable(entries[..k], files);
      if e.url !in files || files[e.url].Unreadable? {
        continue;
      }
      if files[e.url].Garbled? {
        continue;
      }
      ApplyRuleset(m, files[e.url].sites, e);
      var now, l := Readable(entries[..k], files), Loaded(e, files[e.url].sites);
      assert Readable(entries[..k + 1], files) == now + [l] && (now + [l])[..|now|] == now;
    }
    assert entries[..|entries|] == entries;
    forall r: Rule ensures r in RulesOfAll(env, Readable(entries, files)) <==> ListedInFiles(env, entries, files, r) {
      FilesAreListed(env, entries, files, r);
    }
  }

  // ---------------------------------------------------------------- order does not matter

  ghost predicate Contributes(env: Env, l: Loaded, s: Site, d: Domain, r: Rule) {
    var index, code := TagIndex(env, l.entry.tags), env.lower(s.code);
    code in index && r in RuleOf(env, d, index[code], code, l.entry.url)
  }

  lemma {:induction false} DomainRules(env: Env, ds: seq<Domain>, action: string, tag: string, source: string, r: Rule)
    ensures r in RulesOfDomains(env, ds, action, tag, source) <==> exists d <- ds :: r in RuleOf(env, d, action, tag, source)
  {
    if ds != [] {
      assert ds == ds[..|ds| - 1] + [ds[|ds| - 1]];
      DomainRules(env, ds[..|ds| - 1], action, tag, source, r);
    }
  }

  lemma {:induction false} SiteRules(env: Env, l: Loaded, sites: seq<Site>, r: Rule)
    ensures r in RulesOfSites(env, TagIndex(env, l.entry.tags), sites, l.entry.url) <==>
      exists s <- sites, d <- s.domains :: Contributes(env, l, s, d, r)
  {
    if sites != [] {
      var last := sites[|sites| - 1];
      assert sites == sites[..|sites| - 1] + [last];
      SiteRules(env, l, sites[..|sites| - 1], r);
      var index, code := TagIndex(env, l.entry.tags), env.lower(last.code);
      if code in index {
        DomainRules(env, last.domains, index[code], code, l.entry.url, r);
        assert forall d <- last.domains :: Contributes(env, l, last, d, r) <==> r in RuleOf(env, d, index[code], code, l.entry.url);
      }
    }
  }

  /** Some ruleset with this entry lists this domain entry in a site of this code. */
  ghost predicate HasFact(ls: seq<Loaded>, entry: RulesetEntry, code: string, d: Domain) {
    exists l <- ls, s <- l.sites :: l.entry == entry && s.code == code && d in s.domains
  }

  ghost predicate SameFacts(a: seq<Loaded>, b: seq<Loaded>) {
    forall entry, code, d :: HasFact(a, entry, code, d) <==> HasFact(b, entry, code, d)
  }

  lemma {:induction false} AllRules(env: Env, ls: seq<Loaded>, r: Rule)
    ensures r in RulesOfAll(env, ls) <==> exists l <- ls, s <- l.sites, d <- s.domains :: Contributes(env, l, s, d, r)
  {
    if ls != [] {
      var last := ls[|ls| - 1];
      assert ls == ls[..|ls| - 1] + [last];
      AllRules(env, ls[..|ls| - 1], r);
      SiteRules(env, last, last.sites, r);
    }
  }

  lemma FactsGiveRules(env: Env, a: seq<Loaded>, b: seq<Loaded>, r: Rule)
    requires SameFacts(a, b) && r in RulesOfAll(env, a)
    ensures r in RulesOfAll(env, b)
  {
    AllRules(env, a, r);
    var l, s, d :| l in a && s in l.sites && d in s.domains && Contributes(env, l, s, d, r);
    assert HasFact(a, l.entry, s.code, d) && HasFact(b, l.entry, s.code, d);
    var l', s' :| l' in b && s' in l'.sites && l'.entry == l.entry && s'.code == s.code && d in s'.domains;
    assert Contributes(env, l', s', d, r);
    AllRules(env, b, r);
  }

  lemma AllAreAccepted(env: Env, ls: seq<Loaded>)
    ensures AllAccepted(RulesOfAll(env, ls))
  {
    hide RuleOf, Accepted;
    forall r | r in RulesOfAll(env, ls) ensures Accepted(r) {
      AllRules(env, ls, r);
      var l, s, d :| l in ls && s in l.sites && d in s.domains && Contributes(env, l, s, d, r);
      RuleIsAccepted(env, d, TagIndex(env, l.entry.tags)[env.lower(s.code)], env.lower(s.code), l.entry.url, r);
    }
  }

  lemma RuleIsAccepted(env: Env, d: Domain, action: string, tag: string, source: string, r: Rule)
    requires r in RuleOf(env, d, action, tag, source)
    ensures Accepted(r)
  {
  }

  /** Two configurations that state the same facts give every name the same action. */
  lemma SameFactsSameActions(env: Env, a: seq<Loaded>, b: seq<Loaded>, name: string)
    requires SameFacts(a, b)
    ensures FlatScan(env, RulesOfAll(env, a), name).action == FlatScan(env, RulesOfAll(env, b), name).action
    ensures FlatScan(env, RulesOfAll(env, a), name).matched == FlatScan(env, RulesOfAll(env, b), name).matched
  {
    AllAreAccepted(env, a);
    forall r: Rule ensures r in RulesOfAll(env, a) <==> r in RulesOfAll(env, b) {
      if r in RulesOfAll(env, a) {
        FactsGiveRules(env, a, b, r);
      }
      if r in RulesOfAll(env, b) {
        FactsGiveRules(env, b, a, r);
      }
    }
    ActionIsOrderIndependent(env, RulesOfAll(env, a), RulesOfAll(env, b), name);
  }

  /** Permuting the rulesets keeps the facts. */
  lemma PermutedRulesets(a: seq<Loaded>, b: seq<Loaded>)
    requires multiset(a) == multiset(b)
    ensures SameFacts(a, b)
  {
    assert forall l :: l in a <==> l in multiset(a);
    assert forall l :: l in b <==> l in multiset(b);
  }

  /** Permuting the sites of one ruleset keeps the facts. */
  lemma PermutedSites(a: seq<Loaded>, i: nat, sites: seq<Site>)
    requires i < |a| && multiset(sites) == multiset(a[i].sites)
    ensures SameFacts(a, a[i := Loaded(a[i].entry, sites)])
  {
    forall s ensures s in sites <==> s in a[i].sites {
      assert s in sites <==> s in multiset(sites);
      assert s in a[i].sites <==> s in multiset(a[i].sites);
    }
    SitesReplaced(a, i, sites);
  }

  /** Permuting the domain entries of one site keeps the facts. */
  lemma PermutedDomains(a: seq<Loaded>, i: nat, j: nat, domains: seq<Domain>)
    requires i < |a| && j < |a[i].sites| && multiset(domains) == multiset(a[i].sites[j].domains)
    ensures SameFacts(a, a[i := Loaded(a[i].entry, a[i].sites[j := Site(a[i].sites[j].code, domains)])])
  {
    var sites := a[i].sites;
    var sites' := sites[j := Site(sites[j].code, domains)];
    forall d ensures d in domains <==> d in sites[j].domains {
      assert d in domains <==> d in multiset(domains);
      assert d in sites[j].domains <==> d in multiset(sites[j].domains);
    }
    CoveredSwap(sites, sites', j);
    CoveredSwap(sites', sites, j);
    SitesReplaced(a, i, sites');
  }

  lemma SitesReplaced(a: seq<Loaded>, i: nat, sites: seq<Site>)
    requires i < |a| && CoveredSites(a[i].sites, sites) && CoveredSites(sites, a[i].sites)
    ensures SameFacts(a, a[i := Loaded(a[i].entry, sites)])
  {
    var b := a[i := Loaded(a[i].entry, sites)];
    CoveredFacts(a, b);
    CoveredFacts(b, a);
  }

  ghost predicate CoveredSites(a: seq<Site>, b: seq<Site>) {
    forall s <- a, d <- s.domains :: exists t <- b :: t.code == s.code && d in t.domains
  }

  lemma CoveredSwap(a: seq<Site>, b: seq<Site>, j: nat)
    requires j < |a| == |b| && a[j].code == b[j].code
    requires forall d <- a[j].domains :: d in b[j].domains
    requires forall k :: 0 <= k < |a| && k != j ==> a[k] == b[k]
    ensures CoveredSites(a, b)
  {
    forall s, d | s in a && d in s.domains ensures exists t <- b :: t.code == s.code && d in t.domains {
      var k :| 0 <= k < |a| && a[k] == s;
      assert b[k] in b;
    }
  }

  lemma CoveredFacts(a: seq<Loaded>, b: seq<Loaded>)
    requires |a| == |b|
    requires forall i :: 0 <= i < |a| ==> a[i].entry == b[i].entry && CoveredSites(a[i].sites, b[i].sites)
    ensures forall entry, code, d :: HasFact(a, entry, code, d) ==> HasFact(b, entry, code, d)
  {
  }

  // ---------------------------------------------------------------- order of the configured rulesets

  lemma {:induction false} ReadableConcat(a: seq<RulesetEntry>, b: seq<RulesetEntry>, files: map<string, File>)
    ensures Readable(a + b, files) == Readable(a, files) + Readable(b, files)
  {
    if b == [] {
      assert a + b == a;
    } else {
      assert (a + b)[..|a + b| - 1] == a + b[..|b| - 1];
      ReadableConcat(a, b[..|b| - 1], files);
    }
  }

  lemma InsertedEntry(x: seq<RulesetEntry>, e: RulesetEntry, y: seq<RulesetEntry>, files: map<string, File>)
    ensures multiset(Readable(x + [e] + y, files)) == multiset(Readable(x + y, files)) + multiset(Readable([e], files))
  {
    ReadableConcat(x + [e], y, files);
    ReadableConcat(x, [e], files);
    ReadableConcat(x, y, files);
    hide Readable;
  }

  lemma WithoutOne(rest: seq<RulesetEntry>, e: RulesetEntry, x: seq<RulesetEntry>, y: seq<RulesetEntry>)
    requires multiset(rest + [e]) == multiset(x + [e] + y)
    ensures multiset(rest) == multiset(x + y)
  {
    assert multiset(rest) == multiset(rest + [e]) - multiset{e};
    assert multiset(x + y) == multiset(x + [e] + y) - multiset{e};
  }

  /** Permuting the configured rulesets permutes those that contribute. */
  lemma {:induction false} PermutedEntries(a: seq<RulesetEntry>, b: seq<RulesetEntry>, files: map<string, File>)
    requires multiset(a) == multiset(b)
    ensures multiset(Readable(a, files)) == multiset(Readable(b, files))
  {
    hide Readable;
    if a == [] {
      assert |multiset(b)| == 0;
    } else {
      var rest, e := a[..|a| - 1], a[|a| - 1];
      assert a == rest + [e] + [] && rest + [] == rest;
      assert e in multiset(a);
      var i :| 0 <= i < |b| && b[i] == e;
      var x, y := b[..i], b[i + 1..];
      assert b == x + [e] + y;
      WithoutOne(rest, e, x, y);
      PermutedEntries(rest, x + y, files);
      InsertedEntry(rest, e, [], files);
      InsertedEntry(x, e, y, files);
    }
  }

  /** The order in which rulesets are configured decides no action. */
  lemma EntryOrderKeepsActions(env: Env, a: seq<RulesetEntry>, b: seq<RulesetEntry>, files: map<string, File>, name: string)
    requires multiset(a) == multiset(b)
    ensures FlatScan(env, RulesOfAll(env, Readable(a, files)), name).action
      == FlatScan(env, RulesOfAll(env, Readable(b, files)), name).action
  {
    PermutedEntries(a, b, files);
    PermutedRulesets(Readable(a, files), Readable(b, files));
    SameFactsSameActions(env, Readable(a, files), Readable(b, files), name);
  }
}
