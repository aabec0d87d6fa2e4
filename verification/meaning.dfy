// From the text of the rules to the verdict on a packet.

module Meaning {
  import opened Numbers
  import opened Options
  import opened Policies
  import opened Prefixes
  import opened Rules
  import opened Compiler
  import opened Filter

  // ---- Installing routes in a user's table ----

  predicate Installable(routes: seq<Route>) {
    forall r :: r in routes ==> |r.values| == MAX_POLICIES
  }

  function Table(routes: seq<Route>): (t: RouteTable)
    requires Installable(routes)
  {
    if routes == [] then map[]
    else
      var last := routes[|routes| - 1];
      Table(routes[..|routes| - 1])[last.key := last.values]
  }

  method AddRoutes(table: RouteTable, rules: seq<Route>) returns (result: RouteTable)
    requires Installable(rules)
    ensures result == table + Table(rules)
  {
    result := table;
    assert rules[..0] == [];
    for i := 0 to |rules|
      invariant result == table + Table(rules[..i])
    {
      assert rules[..i + 1][..i] == rules[..i] && rules[i] in rules;
      result := result[rules[i].key := rules[i].values];
    }
    assert rules[..|rules|] == rules;
  }

  // The table holds each route of a list with distinct prefixes, and nothing else.
  lemma {:induction false} TableHolds(routes: seq<Route>)
    requires Installable(routes)
    requires forall i, j :: 0 <= i < j < |routes| ==> routes[i].key != routes[j].key
    ensures forall i :: 0 <= i < |routes| ==>
      routes[i].key in Table(routes) && Table(routes)[routes[i].key] == routes[i].values
    ensures forall k :: k in Table(routes) ==> exists i :: 0 <= i < |routes| && routes[i].key == k
  {
    if routes != [] {
      var front := routes[..|routes| - 1];
      assert forall i :: 0 <= i < |front| ==> front[i] == routes[i];
      TableHolds(front);
      forall k | k in Table(routes) ensures exists i :: 0 <= i < |routes| && routes[i].key == k {
        if k == routes[|routes| - 1].key {
        } else {
          var i :| 0 <= i < |front| && front[i].key == k;
          assert routes[i].key == k;
        }
      }
    }
  }

  // ---- The direct reading of the rules ----

  function KeysOf(rules: seq<SourceRule>): (keys: set<RouteKey>)
    ensures forall r :: r in rules ==> r.key in keys
    ensures forall k :: k in keys ==> exists r :: r in rules && r.key == k
  {
    set r | r in rules :: r.key
  }

  predicate RuleAdmits(r: SourceRule, proto: int, port: int) {
    exists s :: s in r.services && Admits(s, proto, port)
  }

  // Only the rules on the most specific prefix covering the destination count. Something must match,
  // no matching rule may deny, and a matching mfa rule asks for a live session.
  ghost predicate SourceVerdict(rules: seq<SourceRule>, address: u32, proto: int, port: int, live: bool) {
    exists key :: (
      && IsLongest(KeysOf(rules), address, key)
      && (exists r :: r in rules && r.key == key && RuleAdmits(r, proto, port))
      && (forall r :: r in rules && r.key == key && RuleAdmits(r, proto, port) ==> r.effect != Deny)
      && ((exists r :: r in rules && r.key == key && RuleAdmits(r, proto, port) && r.effect == Mfa) ==> live))
  }

  // Every written port keeps its meaning in 16 bits.
  predicate PortsStorable(rules: seq<SourceRule>) {
    forall r, s :: r in rules && s in r.services ==> Storable(s)
  }

  predicate PortsOrdered(rules: seq<SourceRule>) {
    forall r, s :: r in rules && s in r.services ==> Ordered(s)
  }

  // ---- One bucket says what its rules say ----

  lemma {:induction false} BucketMembers(rules: seq<SourceRule>, key: RouteKey, p: Policy)
    ensures p in Bucket(rules, key) <==>
      exists r, s :: r in rules && s in r.services && r.key == key && p == ToPolicy(r.effect, s)
  {
    if rules != [] {
      var front, last := rules[..|rules| - 1], rules[|rules| - 1];
      assert rules == front + [last];
      BucketMembers(front, key, p);
      if p in ToPolicies(last) {
        var i :| 0 <= i < |last.services| && ToPolicies(last)[i] == p;
        assert last.services[i] in last.services;
      }
      forall s | s in last.services && p == ToPolicy(last.effect, s) ensures p in ToPolicies(last) {
        var i :| 0 <= i < |last.services| && last.services[i] == s;
        assert ToPolicies(last)[i] == p;
      }
    }
  }

  lemma BucketMeaning(rules: seq<SourceRule>, key: RouteKey, proto: u8, port: u16, live: bool)
    requires PortsStorable(rules) && PortsOrdered(rules)
    ensures Permits((set p | p in Bucket(rules, key)), proto, port, live) <==>
      && (exists r :: r in rules && r.key == key && RuleAdmits(r, proto, port))
      && (forall r :: r in rules && r.key == key && RuleAdmits(r, proto, port) ==> r.effect != Deny)
      && ((exists r :: r in rules && r.key == key && RuleAdmits(r, proto, port) && r.effect == Mfa) ==> live)
  {
    forall r | r in rules && r.key == key && RuleAdmits(r, proto, port)
      ensures exists p :: (p in Bucket(rules, key) && Matches(p, proto, port)
        && (IsDeny(p) <==> r.effect == Deny) && (IsMfa(p) <==> r.effect == Mfa))
    {
      var s :| s in r.services && Admits(s, proto, port);
      var p := ToPolicy(r.effect, s);
      BucketMembers(rules, key, p);
      StorableExactly(r.effect, s);
      PolicyFlags(r.effect, s);
      assert Matches(p, proto, port);
    }
    forall p | p in Bucket(rules, key) && Matches(p, proto, port)
      ensures exists r :: (r in rules && r.key == key && RuleAdmits(r, proto, port)
        && (IsDeny(p) <==> r.effect == Deny) && (IsMfa(p) <==> r.effect == Mfa))
    {
      BucketMembers(rules, key, p);
      var r, s :| r in rules && s in r.services && r.key == key && p == ToPolicy(r.effect, s);
      StorableExactly(r.effect, s);
      PolicyFlags(r.effect, s);
      assert Admits(s, proto, port);
    }
  }

  // ---- The compiled table ----

  // The rules a user's three lists contain; unreadable ones are reported and skipped.
  function SortedRules(resolve: Resolver, mfa: seq<string>, public: seq<string>, deny: seq<string>): seq<SourceRule> {
    AllRules(resolve, Text.SortStrings(mfa), Text.SortStrings(public), Text.SortStrings(deny))
  }

  lemma CompiledIsInstallable(resolve: Resolver, mfa: seq<string>, public: seq<string>, deny: seq<string>)
    ensures Installable(CompileSorted(resolve, mfa, public, deny).0)
  {
    hide AllRules, Collected;
    var routes := CompileSorted(resolve, mfa, public, deny).0;
    forall r | r in routes ensures |r.values| == MAX_POLICIES {
      var i :| 0 <= i < |routes| && routes[i] == r;
    }
  }

  function CompiledTable(resolve: Resolver, mfa: seq<string>, public: seq<string>, deny: seq<string>): RouteTable {
    CompiledIsInstallable(resolve, mfa, public, deny);
    Table(CompileSorted(resolve, mfa, public, deny).0)
  }

  predicate EveryBucketFits(rules: seq<SourceRule>) {
    forall key :: key in KeysOf(rules) ==> |Bucket(rules, key)| <= MAX_POLICIES
  }

  // If every bucket fits, the table has one entry for each prefix: its bucket, padded. Otherwise the
  // table is empty.
  lemma CompiledTableHolds(resolve: Resolver, mfa: seq<string>, public: seq<string>, deny: seq<string>)
    ensures var rules, t := SortedRules(resolve, mfa, public, deny), CompiledTable(resolve, mfa, public, deny);
      if EveryBucketFits(rules) then
        && t.Keys == KeysOf(rules)
        && forall key :: key in t ==> |Bucket(rules, key)| <= MAX_POLICIES && t[key] == Pad(Bucket(rules, key))
      else t == map[]
  {
    hide AllRules, Bucket, Collected, FirstKeys, Padded, Table, Pad, KeysOf, Fits;
    var rules := SortedRules(resolve, mfa, public, deny);
    var routes := Collected(rules);
    FitsMeans(rules);
    var t := CompiledTable(resolve, mfa, public, deny);
    if Fits(routes) {
      assert t == Table(Padded(routes));
      PaddedTableHolds(rules);
    } else {
      EmptyTable();
    }
  }

  lemma EmptyTable()
    ensures Table([]) == map[]
  {}

  lemma PaddedTableHolds(rules: seq<SourceRule>)
    requires Fits(Collected(rules)) && Installable(Padded(Collected(rules)))
    ensures var t := Table(Padded(Collected(rules)));
      && t.Keys == KeysOf(rules)
      && forall key :: key in t ==> |Bucket(rules, key)| <= MAX_POLICIES && t[key] == Pad(Bucket(rules, key))
  {
    hide Bucket, FirstKeys, Table, Collected, Padded, Pad, KeysOf, Fits;
    var routes := Padded(Collected(rules));
    var keys := FirstKeys(rules);
    TableHolds(routes);
    FitsMeans(rules);
    var t := Table(routes);
    forall key ensures key in t <==> key in KeysOf(rules) {
      if key in KeysOf(rules) {
        var i :| 0 <= i < |keys| && keys[i] == key;
        assert routes[i].key == key;
      }
      if key in t {
        var i :| 0 <= i < |routes| && routes[i].key == key;
        assert keys[i] in keys;
        var rule :| rule in rules && rule.key == key;
      }
    }
    forall key | key in t ensures t[key] == Pad(Bucket(rules, key)) {
      var i :| 0 <= i < |routes| && routes[i].key == key;
      assert Collected(rules)[i] == Route(key, Bucket(rules, key));
    }
  }

  lemma FitsMeans(rules: seq<SourceRule>)
    ensures Fits(Collected(rules)) <==> EveryBucketFits(rules)
  {
    hide Bucket;
    var routes, keys := Collected(rules), FirstKeys(rules);
    if Fits(routes) {
      forall key | key in KeysOf(rules) ensures |Bucket(rules, key)| <= MAX_POLICIES {
        var i :| 0 <= i < |keys| && keys[i] == key;
        assert routes[i] in routes;
      }
    }
    forall r | r in routes ensures exists key :: key in KeysOf(rules) && r.values == Bucket(rules, key) {
      var i :| 0 <= i < |routes| && routes[i] == r;
      assert keys[i] in keys;
      var rule :| rule in rules && rule.key == keys[i];
      assert keys[i] in KeysOf(rules);
    }
  }

  // Before the first stop, a padded bucket reads as the bucket; a full bucket has no stop.
  lemma PaddedReads(rules: seq<SourceRule>, key: RouteKey)
    requires |Bucket(rules, key)| <= MAX_POLICIES
    ensures Meant(Pad(Bucket(rules, key))) == Bucket(rules, key)
  {
    hide Bucket;
    var values := Bucket(rules, key);
    BucketHasNoStop(rules, key);
    assert Pad(values)[..|values|] == values;
    if |values| < MAX_POLICIES {
      MeantIs(Pad(values), |values|);
    } else {
      assert Pad(values) == values;
      NoStop(values);
    }
  }

  // ---- The main result ----

  ghost predicate DecidingBucketEnds(rules: seq<SourceRule>, address: u32) {
    forall key :: IsLongest(KeysOf(rules), address, key) ==> |Bucket(rules, key)| < MAX_POLICIES
  }

  lemma VerdictIsBucket(rules: seq<SourceRule>, address: u32, key: RouteKey, proto: u8, port: u16, live: bool)
    requires PortsStorable(rules) && PortsOrdered(rules)
    requires forall k :: IsLongest(KeysOf(rules), address, k) <==> k == key
    ensures SourceVerdict(rules, address, proto, port, live) <==>
      Permits((set p | p in Bucket(rules, key)), proto, port, live)
  {
    hide IsLongest, Permits, Bucket, KeysOf, RuleAdmits;
    BucketMeaning(rules, key, proto, port, live);
    assert IsLongest(KeysOf(rules), address, key);
  }

  lemma NoVerdict(rules: seq<SourceRule>, address: u32, proto: u8, port: u16, live: bool)
    requires forall key :: !IsLongest(KeysOf(rules), address, key)
    ensures !SourceVerdict(rules, address, proto, port, live)
  {}

  lemma SortedRulesAreOrdered(resolve: Resolver, mfa: seq<string>, public: seq<string>, deny: seq<string>)
    ensures PortsOrdered(SortedRules(resolve, mfa, public, deny))
  {}

  // What a user's table says of one address, port and session.
  ghost predicate TablePasses(table: RouteTable, address: u32, proto: int, port: int, live: bool) {
    match Lookup(table.Keys, address)
    case None => false
    case Some(key) => BucketPasses(table[key], proto, port, live)
  }

  lemma PassesByTable(t: Tables, ip: IpInfo, now: u64, device: u32, other: u32, port: u16)
    requires Endpoint(t, ip) == Some((device, other, port))
    requires t.devices[device].userId in t.accountLocked && t.devices[device].userId in t.policies
    ensures Passes(t, ip, now) <==>
      TablePasses(t.policies[t.devices[device].userId], other, ip.proto, port, SessionLive(t, t.devices[device], now))
  {
    hide Lookup, BucketPasses, SessionLive;
  }

  // The compiled table says what the rules say, cut off by the two limits of the fixed array.
  lemma CompiledTableVerdict(resolve: Resolver, mfa: seq<string>, public: seq<string>, deny: seq<string>,
                             address: u32, proto: u8, port: u16, live: bool)
    requires PortsStorable(SortedRules(resolve, mfa, public, deny))
    ensures var rules := SortedRules(resolve, mfa, public, deny);
      TablePasses(CompiledTable(resolve, mfa, public, deny), address, proto, port, live) <==>
        EveryBucketFits(rules) && DecidingBucketEnds(rules, address) && SourceVerdict(rules, address, proto, port, live)
  {
    hide CompiledTable, SortedRules, EveryBucketFits, Bucket, Lookup, PortsStorable, PortsOrdered, Covers;
    hide Permits, SourceVerdict, KeysOf, Meant, Pad;
    var rules := SortedRules(resolve, mfa, public, deny);
    var table := CompiledTable(resolve, mfa, public, deny);
    SortedRulesAreOrdered(resolve, mfa, public, deny);
    CompiledTableHolds(resolve, mfa, public, deny);
    if EveryBucketFits(rules) {
      match Lookup(table.Keys, address)
      case None =>
        forall key ensures !IsLongest(KeysOf(rules), address, key) { LookupIsLongest(KeysOf(rules), address, key); }
        NoVerdict(rules, address, proto, port, live);
      case Some(key) =>
        forall k ensures IsLongest(KeysOf(rules), address, k) <==> k == key
        { LookupIsLongest(KeysOf(rules), address, k); }
        PaddedReads(rules, key);
        VerdictIsBucket(rules, address, key, proto, port, live);
    } else {
      assert Lookup(table.Keys, address).None?;
    }
  }

  // For a known device of a known user whose table is the compiled lists, the filter's verdict on a
  // packet is the direct reading of the rules, cut off by the two limits of the fixed array: a prefix
  // with more than 128 policies anywhere empties the table, and one with exactly 128 lets nothing pass.
  lemma CompiledVerdict(resolve: Resolver, mfa: seq<string>, public: seq<string>, deny: seq<string>,
                        t: Tables, ip: IpInfo, now: u64, device: u32, other: u32, port: u16)
    requires Endpoint(t, ip) == Some((device, other, port))
    requires t.devices[device].userId in t.accountLocked && t.devices[device].userId in t.policies
    requires t.policies[t.devices[device].userId] == CompiledTable(resolve, mfa, public, deny)
    requires PortsStorable(SortedRules(resolve, mfa, public, deny))
    ensures var rules := SortedRules(resolve, mfa, public, deny);
      Passes(t, ip, now) <==>
        && EveryBucketFits(rules)
        && DecidingBucketEnds(rules, other)
        && SourceVerdict(rules, other, ip.proto, port, SessionLive(t, t.devices[device], now))
  {
    PassesByTable(t, ip, now, device, other, port);
    hide *;
    CompiledTableVerdict(resolve, mfa, public, deny, other, ip.proto, port, SessionLive(t, t.devices[device], now));
  }

  // With every bucket below the limit the filter does what the rules say.
  lemma CompilationPreservesMeaning(resolve: Resolver, mfa: seq<string>, public: seq<string>, deny: seq<string>,
                                    t: Tables, ip: IpInfo, now: u64, device: u32, other: u32, port: u16)
    requires Endpoint(t, ip) == Some((device, other, port))
    requires t.devices[device].userId in t.accountLocked && t.devices[device].userId in t.policies
    requires t.policies[t.devices[device].userId] == CompiledTable(resolve, mfa, public, deny)
    requires PortsStorable(SortedRules(resolve, mfa, public, deny))
    requires forall key :: key in KeysOf(SortedRules(resolve, mfa, public, deny)) ==>
      |Bucket(SortedRules(resolve, mfa, public, deny), key)| < MAX_POLICIES
    ensures Passes(t, ip, now) <==>
      SourceVerdict(AllRules(resolve, mfa, public, deny), other, ip.proto, port, SessionLive(t, t.devices[device], now))
  {
    hide Passes, SourceVerdict, SortedRules, AllRules, CompiledTable, Bucket, SessionLive;
    CompiledVerdict(resolve, mfa, public, deny, t, ip, now, device, other, port);
    SortedReading(resolve, mfa, public, deny, other, ip.proto, port, SessionLive(t, t.devices[device], now));
  }

  // A prefix with exactly 128 policies is accepted, and then drops everything it should decide.
  lemma FullBucketDrops(resolve: Resolver, mfa: seq<string>, public: seq<string>, deny: seq<string>,
                        t: Tables, ip: IpInfo, now: u64, device: u32, other: u32, port: u16, key: RouteKey)
    requires Endpoint(t, ip) == Some((device, other, port))
    requires t.devices[device].userId in t.accountLocked && t.devices[device].userId in t.policies
    requires t.policies[t.devices[device].userId] == CompiledTable(resolve, mfa, public, deny)
    requires IsLongest(KeysOf(SortedRules(resolve, mfa, public, deny)), other, key)
    requires |Bucket(SortedRules(resolve, mfa, public, deny), key)| == MAX_POLICIES
    ensures !Passes(t, ip, now)
  {
    hide CompiledTable, SortedRules, Bucket, Lookup, SessionLive, Covers, Permits;
    var rules := SortedRules(resolve, mfa, public, deny);
    var table := t.policies[t.devices[device].userId];
    CompiledTableHolds(resolve, mfa, public, deny);
    LookupIsLongest(table.Keys, other, key);
    if table != map[] {
      PaddedReads(rules, key);
    }
  }

  // ---- What is reported ----

  lemma {:induction false} UnreadableMembers(resolve: Resolver, effect: Effect, texts: seq<string>, e: RuleError)
    ensures e in Unreadable(resolve, effect, texts) <==>
      exists text :: text in texts && ReadRule(resolve, effect, text) == Err(e)
  {
    hide ReadRule;
    if texts != [] {
      var front, last := texts[..|texts| - 1], texts[|texts| - 1];
      assert texts == front + [last];
      UnreadableMembers(resolve, effect, front, e);
    }
  }

  predicate Reads(resolve: Resolver, effect: Effect, texts: seq<string>) {
    forall text :: text in texts ==> ReadRule(resolve, effect, text).Ok?
  }

  lemma ReadsWithoutError(resolve: Resolver, effect: Effect, texts: seq<string>)
    ensures Unreadable(resolve, effect, Text.SortStrings(texts)) == [] <==> Reads(resolve, effect, texts)
  {
    hide ReadRule, Unreadable, Text.SortStrings;
    var sorted := Text.SortStrings(texts);
    SortedMembers(texts);
    forall text | text in texts && ReadRule(resolve, effect, text).Err?
      ensures Unreadable(resolve, effect, sorted) != []
    {
      UnreadableMembers(resolve, effect, sorted, ReadRule(resolve, effect, text).error);
    }
    if Unreadable(resolve, effect, sorted) != [] {
      UnreadableMembers(resolve, effect, sorted, Unreadable(resolve, effect, sorted)[0]);
    }
  }

  // Lists are accepted exactly when every text in them reads and every bucket fits. A text that does not
  // read is reported with its own error, and a bucket that does not fit as such.
  lemma AcceptedExactly(resolve: Resolver, mfa: seq<string>, public: seq<string>, deny: seq<string>)
    ensures CompileSorted(resolve, mfa, public, deny).1 == [] <==>
      && Reads(resolve, Mfa, mfa) && Reads(resolve, Allow, public) && Reads(resolve, Deny, deny)
      && EveryBucketFits(SortedRules(resolve, mfa, public, deny))
    ensures !EveryBucketFits(SortedRules(resolve, mfa, public, deny)) ==>
      CompileSorted(resolve, mfa, public, deny) == ([], SortedErrors(resolve, mfa, public, deny) + [TooManyPolicies])
    ensures EveryBucketFits(SortedRules(resolve, mfa, public, deny)) ==>
      CompileSorted(resolve, mfa, public, deny).1 == SortedErrors(resolve, mfa, public, deny)
  {
    hide Reads, EveryBucketFits, Unreadable, Collected, Fits, Padded, Text.SortStrings, AllRules;
    ReadsWithoutError(resolve, Mfa, mfa);
    ReadsWithoutError(resolve, Allow, public);
    ReadsWithoutError(resolve, Deny, deny);
    FitsMeans(SortedRules(resolve, mfa, public, deny));
  }

  function SortedErrors(resolve: Resolver, mfa: seq<string>, public: seq<string>, deny: seq<string>): seq<RuleError> {
    AllErrors(resolve, Text.SortStrings(mfa), Text.SortStrings(public), Text.SortStrings(deny))
  }

  lemma ErrorMembers(resolve: Resolver, mfa: seq<string>, public: seq<string>, deny: seq<string>, e: RuleError)
    ensures e in SortedErrors(resolve, mfa, public, deny) <==>
      || (exists text :: text in mfa && ReadRule(resolve, Mfa, text) == Err(e))
      || (exists text :: text in public && ReadRule(resolve, Allow, text) == Err(e))
      || (exists text :: text in deny && ReadRule(resolve, Deny, text) == Err(e))
  {
    hide ReadRule, Unreadable, Text.SortStrings;
    SortedMembers(mfa);
    SortedMembers(public);
    SortedMembers(deny);
    UnreadableMembers(resolve, Mfa, Text.SortStrings(mfa), e);
    UnreadableMembers(resolve, Allow, Text.SortStrings(public), e);
    UnreadableMembers(resolve, Deny, Text.SortStrings(deny), e);
  }

  // ---- One rule on its own ----

  function OneRule(key: RouteKey, services: seq<Service>): SourceRule {
    SourceRule(Allow, key, if services == [] then [Everything] else services)
  }

  lemma OneRuleRead(resolve: Resolver, address: string, key: RouteKey, services: seq<Service>)
    requires Text.Word(address) && resolve(address) == Some(key) && forall s :: s in services ==> Writable(s)
    ensures AllRules(resolve, [], [WriteRule(address, services)], []) == [OneRule(key, services)]
    ensures SortedRules(resolve, [], [WriteRule(address, services)], []) == [OneRule(key, services)]
  {
    hide WriteRule, ReadRule;
    var text := WriteRule(address, services);
    ReadWrittenRule(resolve, Allow, address, services);
    assert Text.SortStrings([text]) == [text] && Text.SortStrings([]) == [];
    assert [text][..0] == [];
    assert Readable(resolve, Allow, [text]) == [OneRule(key, services)];
  }

  lemma OneBucket(rule: SourceRule, key: RouteKey)
    ensures Bucket([rule], key) == if key == rule.key then ToPolicies(rule) else []
  {
    assert [rule][..0] == [];
    assert [] + ToPolicies(rule) == ToPolicies(rule);
  }

  lemma AllowedByOne(rule: SourceRule, address: u32, proto: int, port: int, live: bool)
    requires rule.effect == Allow && Covers(rule.key, address) && RuleAdmits(rule, proto, port)
    ensures IsLongest(KeysOf([rule]), address, rule.key) && SourceVerdict([rule], address, proto, port, live)
  {
    assert IsLongest(KeysOf([rule]), address, rule.key);
  }

  lemma FullRuleIsLimited(rule: SourceRule, address: u32)
    requires |rule.services| >= MAX_POLICIES && IsLongest(KeysOf([rule]), address, rule.key)
    ensures !EveryBucketFits([rule]) || !DecidingBucketEnds([rule], address)
  {
    OneBucket(rule, rule.key);
    hide Bucket, IsLongest, ToPolicies;
    assert |Bucket([rule], rule.key)| == |rule.services|;
    assert rule.key in KeysOf([rule]);
  }

  lemma OneRuleStorable(rule: SourceRule)
    requires forall s :: s in rule.services ==> Storable(s)
    ensures PortsStorable([rule])
  {}

  // One allow rule with 128 services or more is enough: the rule as written lets packets pass that the
  // compiled table drops.
  lemma FullRuleDrops(resolve: Resolver, text: string, key: RouteKey, services: seq<Service>,
                      address: u32, proto: u8, port: u16, live: bool)
    requires Text.Word(text) && resolve(text) == Some(key) && Covers(key, address)
    requires |services| >= MAX_POLICIES && forall s :: s in services ==> Writable(s) && Storable(s)
    requires exists s :: s in services && Admits(s, proto, port)
    ensures SourceVerdict(AllRules(resolve, [], [WriteRule(text, services)], []), address, proto, port, live)
    ensures !TablePasses(CompiledTable(resolve, [], [WriteRule(text, services)], []), address, proto, port, live)
  {
    var rule := OneRule(key, services);
    OneRuleRead(resolve, text, key, services);
    AllowedByOne(rule, address, proto, port, live);
    FullRuleIsLimited(rule, address);
    OneRuleStorable(rule);
    hide SourceVerdict, CompiledTable, TablePasses, IsLongest, EveryBucketFits, DecidingBucketEnds;
    hide PortsStorable, AllRules, SortedRules, WriteRule, Storable, Admits, Covers;
    CompiledTableVerdict(resolve, [], [WriteRule(text, services)], [], address, proto, port, live);
  }

  // ---- The reading depends only on which rules are written ----

  lemma {:induction false} ReadableMembers(resolve: Resolver, effect: Effect, texts: seq<string>, r: SourceRule)
    ensures r in Readable(resolve, effect, texts) <==>
      exists text :: text in texts && ReadRule(resolve, effect, text) == Ok(r)
  {
    hide ReadRule;
    if texts != [] {
      var front, last := texts[..|texts| - 1], texts[|texts| - 1];
      assert texts == front + [last];
      ReadableMembers(resolve, effect, front, r);
    }
  }

  lemma SameRules(resolve: Resolver, mfa: seq<string>, public: seq<string>, deny: seq<string>,
                  mfa': seq<string>, public': seq<string>, deny': seq<string>, r: SourceRule)
    requires forall text :: text in mfa <==> text in mfa'
    requires forall text :: text in public <==> text in public'
    requires forall text :: text in deny <==> text in deny'
    ensures r in AllRules(resolve, mfa, public, deny) <==> r in AllRules(resolve, mfa', public', deny')
  {
    hide ReadRule, Readable;
    ReadableMembers(resolve, Mfa, mfa, r);
    ReadableMembers(resolve, Mfa, mfa', r);
    ReadableMembers(resolve, Allow, public, r);
    ReadableMembers(resolve, Allow, public', r);
    ReadableMembers(resolve, Deny, deny, r);
    ReadableMembers(resolve, Deny, deny', r);
  }

  lemma VerdictOfMembers(rules: seq<SourceRule>, rules': seq<SourceRule>,
                         address: u32, proto: int, port: int, live: bool)
    requires forall r :: r in rules <==> r in rules'
    ensures SourceVerdict(rules, address, proto, port, live) <==> SourceVerdict(rules', address, proto, port, live)
  {
    assert KeysOf(rules) == KeysOf(rules');
  }

  // Neither the order nor the repetition of the rules matters to what they say.
  lemma ReadingIsOfSets(resolve: Resolver, mfa: seq<string>, public: seq<string>, deny: seq<string>,
                        mfa': seq<string>, public': seq<string>, deny': seq<string>,
                        address: u32, proto: int, port: int, live: bool)
    requires forall text :: text in mfa <==> text in mfa'
    requires forall text :: text in public <==> text in public'
    requires forall text :: text in deny <==> text in deny'
    ensures SourceVerdict(AllRules(resolve, mfa, public, deny), address, proto, port, live) <==>
      SourceVerdict(AllRules(resolve, mfa', public', deny'), address, proto, port, live)
  {
    hide SourceVerdict, AllRules;
    forall r ensures r in AllRules(resolve, mfa, public, deny) <==> r in AllRules(resolve, mfa', public', deny') {
      SameRules(resolve, mfa, public, deny, mfa', public', deny', r);
    }
    VerdictOfMembers(AllRules(resolve, mfa, public, deny), AllRules(resolve, mfa', public', deny'),
                     address, proto, port, live);
  }

  lemma SortedReading(resolve: Resolver, mfa: seq<string>, public: seq<string>, deny: seq<string>,
                      address: u32, proto: int, port: int, live: bool)
    ensures SourceVerdict(SortedRules(resolve, mfa, public, deny), address, proto, port, live) <==>
      SourceVerdict(AllRules(resolve, mfa, public, deny), address, proto, port, live)
  {
    hide SourceVerdict, AllRules, Text.SortStrings;
    SortedMembers(mfa);
    SortedMembers(public);
    SortedMembers(deny);
    ReadingIsOfSets(resolve, mfa, public, deny,
                    Text.SortStrings(mfa), Text.SortStrings(public), Text.SortStrings(deny),
                    address, proto, port, live);
  }

  lemma SortedMembers(texts: seq<string>)
    ensures forall text :: text in texts <==> text in Text.SortStrings(texts)
  {
    forall text ensures text in texts <==> text in Text.SortStrings(texts) {
      assert text in texts <==> text in multiset(texts);
      assert text in Text.SortStrings(texts) <==> text in multiset(Text.SortStrings(texts));
    }
  }
}
