// The examples of the rule documentation, read from their text.

module Documented {
  import opened Numbers
  import opened Options
  import opened Policies
  import opened Prefixes
  import opened Rules
  import opened Compiler
  import opened Meaning
  import opened Text

  // 10.0.0.0/16, 10.0.0.0/24, 10.0.1.1/32 and 10.0.0.5/32
  function Block(prefixlen: nat): (k: RouteKey)
    requires prefixlen == 16 || prefixlen == 24
    ensures k == Key(prefixlen, 0x0A00_0000)
  {
    BlockSizes();
    CanonicalExactly(Key(prefixlen, 0x0A00_0000));
    Key(prefixlen, 0x0A00_0000)
  }

  function Host(ip: u32): (k: RouteKey)
    ensures k == Key(32, ip)
  {
    Key(32, ip)
  }

  lemma BlockSizes()
    ensures Pow2(0) == 1 && Pow2(8) == 0x100 && Pow2(16) == 0x1_0000
  {
    assert Pow2(2) == 4 && Pow2(4) == 16 && Pow2(6) == 64;
    assert Pow2(10) == 1024 && Pow2(12) == 4096 && Pow2(14) == 16384;
  }

  lemma Numerals()
    ensures Show(22) == "22" && Show(443) == "443"
  {
    assert Show(2) == ['2'] && Show(4) == ['4'];
    assert Show(44) == Show(4) + ['4'];
  }

  // A rule for an address alone, and a rule for one TCP port.
  lemma ReadsAlone(resolve: Resolver, effect: Effect, address: string, key: RouteKey)
    requires Word(address) && resolve(address) == Some(key)
    ensures ReadRule(resolve, effect, address) == Ok(SourceRule(effect, key, [Everything]))
  {
    ReadWrittenRule(resolve, effect, address, []);
    assert [address] + WriteServices([]) == [address];
  }

  lemma ReadsPort(resolve: Resolver, effect: Effect, address: string, key: RouteKey, port: nat)
    requires Word(address) && resolve(address) == Some(key) && port <= 65535
    ensures ReadRule(resolve, effect, address + " " + (Show(port) + "/tcp")) ==
      Ok(SourceRule(effect, key, [Port(port, Tcp)]))
  {
    var services := [Port(port, Tcp)];
    ReadWrittenRule(resolve, effect, address, services);
    hide ReadRule, Show;
    var word := Show(port) + "/tcp";
    assert Show(port) + "/" + "tcp" == word;
    assert WriteServices([]) == [] && services[1..] == [];
    assert WriteServices(services) == [word] + [];
    TwoWords(address, word);
    assert [address] + ([word] + []) == [address, word];
    assert WriteRule(address, services) == address + " " + word;
  }

  lemma TwoWords(a: string, b: string)
    ensures Join([a, b]) == a + " " + b
  {
    assert [a, b][1..] == [b];
    assert Join([b]) == b;
  }

  // ---- Rules on one destination are composed, with mfa rules taking preference ----

  function Composed(): (seq<string>, seq<string>) {
    (["10.0.0.0/16", "10.0.1.1/32 22/tcp"], ["10.0.1.1/32 443/tcp"])
  }

  function ComposedRules(): seq<SourceRule> {
    [SourceRule(Mfa, Block(16), [Everything]), SourceRule(Mfa, Host(0x0A00_0101), [Port(22, Tcp)]),
     SourceRule(Allow, Host(0x0A00_0101), [Port(443, Tcp)])]
  }

  lemma ComposedReads(resolve: Resolver)
    requires resolve("10.0.0.0/16") == Some(Block(16)) && resolve("10.0.1.1/32") == Some(Host(0x0A00_0101))
    ensures AllRules(resolve, Composed().0, Composed().1, []) == ComposedRules()
  {
    hide ReadRule, Show, Readable, Block, Host, Word;
    Addresses();
    Numerals();
    ReadsAlone(resolve, Mfa, "10.0.0.0/16", Block(16));
    ReadsPort(resolve, Mfa, "10.0.1.1/32", Host(0x0A00_0101), 22);
    ReadsPort(resolve, Allow, "10.0.1.1/32", Host(0x0A00_0101), 443);
    assert "10.0.1.1/32" + " " + ("22" + "/tcp") == "10.0.1.1/32 22/tcp";
    assert "10.0.1.1/32" + " " + ("443" + "/tcp") == "10.0.1.1/32 443/tcp";
    var rules := ComposedRules();
    ReadableNext(resolve, Mfa, [], "10.0.0.0/16", rules[0]);
    ReadableNext(resolve, Mfa, ["10.0.0.0/16"], "10.0.1.1/32 22/tcp", rules[1]);
    ReadableNext(resolve, Allow, [], "10.0.1.1/32 443/tcp", rules[2]);
    assert Composed().0 == [] + ["10.0.0.0/16"] + ["10.0.1.1/32 22/tcp"];
    assert Composed().1 == [] + ["10.0.1.1/32 443/tcp"];
    assert [] + ["10.0.0.0/16"] == ["10.0.0.0/16"];
    NothingToRead(resolve);
  }

  lemma Addresses()
    ensures Word("10.0.0.0/16") && Word("10.0.1.1/32") && Word("10.0.0.0/24") && Word("10.0.0.5/32")
  {}

  lemma ReadableNext(resolve: Resolver, effect: Effect, texts: seq<string>, text: string, rule: SourceRule)
    requires ReadRule(resolve, effect, text) == Ok(rule)
    ensures Readable(resolve, effect, texts + [text]) == Readable(resolve, effect, texts) + [rule]
  {
    hide ReadRule;
    assert (texts + [text])[..|texts|] == texts;
  }

  lemma NothingToRead(resolve: Resolver)
    ensures forall effect :: Readable(resolve, effect, []) == []
  {}

  // One rule for everything, or for one TCP port.
  lemma AdmitsAll(rule: SourceRule, proto: int, port: int)
    requires rule.services == [Everything]
    ensures RuleAdmits(rule, proto, port)
  {
    assert Everything in rule.services;
  }

  lemma AdmitsPort(rule: SourceRule, n: nat, proto: int, port: int)
    requires rule.services == [Port(n, Tcp)] && n > 0
    ensures RuleAdmits(rule, proto, port) <==> proto == 6 && port == n
  {
    assert Port(n, Tcp) in rule.services;
  }

  // The longest covering key, if one covers the address.
  ghost predicate Longest(rules: seq<SourceRule>, address: u32, key: Option<RouteKey>) {
    forall k :: IsLongest(KeysOf(rules), address, k) <==> key == Some(k)
  }

  lemma NothingOn(rules: seq<SourceRule>, address: u32, proto: u8, port: u16, live: bool)
    requires Longest(rules, address, None)
    ensures !SourceVerdict(rules, address, proto, port, live)
  {
    NoVerdict(rules, address, proto, port, live);
  }

  // When one key is the longest, the rules on it decide.
  lemma VerdictOn(rules: seq<SourceRule>, address: u32, key: RouteKey, proto: int, port: int, live: bool)
    requires Longest(rules, address, Some(key))
    ensures SourceVerdict(rules, address, proto, port, live) <==>
      && (exists r :: r in rules && r.key == key && RuleAdmits(r, proto, port))
      && (forall r :: r in rules && r.key == key && RuleAdmits(r, proto, port) ==> r.effect != Deny)
      && ((exists r :: r in rules && r.key == key && RuleAdmits(r, proto, port) && r.effect == Mfa) ==> live)
  {
    hide IsLongest, RuleAdmits, KeysOf;
    assert IsLongest(KeysOf(rules), address, key);
  }

  lemma ComposedLongest(address: u32)
    ensures Longest(ComposedRules(), address,
      if address == 0x0A00_0101 then Some(Host(0x0A00_0101))
      else if 0x0A00_0000 <= address <= 0x0A00_FFFF then Some(Block(16))
      else None)
  {
    BlockSizes();
    CoversExactly(Block(16), address);
    CoversExactly(Host(0x0A00_0101), address);
    hide Covers, Pow2;
    var rules := ComposedRules();
    assert rules[0] in rules && rules[1] in rules;
    assert KeysOf(rules) == {Block(16), Host(0x0A00_0101)};
  }

  // On 10.0.1.1, port 443 is open to all and port 22 to an authorised device, over TCP; nothing else is.
  // Elsewhere in 10.0.0.0/16 an authorised device may do anything.
  lemma ComposedVerdict(resolve: Resolver, address: u32, proto: u8, port: u16, live: bool)
    requires resolve("10.0.0.0/16") == Some(Block(16)) && resolve("10.0.1.1/32") == Some(Host(0x0A00_0101))
    ensures SourceVerdict(AllRules(resolve, Composed().0, Composed().1, []), address, proto, port, live) <==>
      if address == 0x0A00_0101 then proto == 6 && (port == 443 || (port == 22 && live))
      else 0x0A00_0000 <= address <= 0x0A00_FFFF && live
  {
    hide AllRules, RuleAdmits, Longest, SourceVerdict, Composed, Block, Host;
    ComposedReads(resolve);
    ComposedLongest(address);
    var rules := ComposedRules();
    AdmitsAll(rules[0], proto, port);
    AdmitsPort(rules[1], 22, proto, port);
    AdmitsPort(rules[2], 443, proto, port);
    assert rules[0] in rules && rules[1] in rules && rules[2] in rules;
    if address == 0x0A00_0101 {
      VerdictOn(rules, address, Host(0x0A00_0101), proto, port, live);
    } else if 0x0A00_0000 <= address <= 0x0A00_FFFF {
      VerdictOn(rules, address, Block(16), proto, port, live);
    } else {
      NothingOn(rules, address, proto, port, live);
    }
  }

  // ---- The most specific prefix makes a bucket of its own ----

  function Shadowed(): (seq<string>, seq<string>) {
    (["10.0.0.0/24 443/tcp"], ["10.0.0.5/32 22/tcp"])
  }

  function ShadowedRules(): seq<SourceRule> {
    [SourceRule(Allow, Block(24), [Port(443, Tcp)]), SourceRule(Deny, Host(0x0A00_0005), [Port(22, Tcp)])]
  }

  lemma ShadowedReads(resolve: Resolver)
    requires resolve("10.0.0.0/24") == Some(Block(24)) && resolve("10.0.0.5/32") == Some(Host(0x0A00_0005))
    ensures AllRules(resolve, [], Shadowed().0, Shadowed().1) == ShadowedRules()
  {
    hide ReadRule, Show, Readable, Block, Host, Word;
    Addresses();
    Numerals();
    ReadsPort(resolve, Allow, "10.0.0.0/24", Block(24), 443);
    ReadsPort(resolve, Deny, "10.0.0.5/32", Host(0x0A00_0005), 22);
    assert "10.0.0.0/24" + " " + ("443" + "/tcp") == "10.0.0.0/24 443/tcp";
    assert "10.0.0.5/32" + " " + ("22" + "/tcp") == "10.0.0.5/32 22/tcp";
    ReadableNext(resolve, Allow, [], "10.0.0.0/24 443/tcp", ShadowedRules()[0]);
    ReadableNext(resolve, Deny, [], "10.0.0.5/32 22/tcp", ShadowedRules()[1]);
    assert Shadowed().0 == [] + ["10.0.0.0/24 443/tcp"] && Shadowed().1 == [] + ["10.0.0.5/32 22/tcp"];
    NothingToRead(resolve);
  }

  lemma ShadowedLongest(address: u32)
    ensures Longest(ShadowedRules(), address,
      if address == 0x0A00_0005 then Some(Host(0x0A00_0005))
      else if 0x0A00_0000 <= address <= 0x0A00_00FF then Some(Block(24))
      else None)
  {
    BlockSizes();
    CoversExactly(Block(24), address);
    CoversExactly(Host(0x0A00_0005), address);
    hide Covers, Pow2;
    var rules := ShadowedRules();
    assert rules[0] in rules && rules[1] in rules;
    assert KeysOf(rules) == {Block(24), Host(0x0A00_0005)};
  }

  // Port 443 is open on 10.0.0.0/24 except on 10.0.0.5, where nothing is.
  lemma ShadowedVerdict(resolve: Resolver, address: u32, proto: u8, port: u16, live: bool)
    requires resolve("10.0.0.0/24") == Some(Block(24)) && resolve("10.0.0.5/32") == Some(Host(0x0A00_0005))
    ensures SourceVerdict(AllRules(resolve, [], Shadowed().0, Shadowed().1), address, proto, port, live) <==>
      0x0A00_0000 <= address <= 0x0A00_00FF && address != 0x0A00_0005 && proto == 6 && port == 443
  {
    hide AllRules, RuleAdmits, Longest, SourceVerdict, Shadowed, Block, Host;
    ShadowedReads(resolve);
    ShadowedLongest(address);
    var rules := ShadowedRules();
    AdmitsPort(rules[0], 443, proto, port);
    AdmitsPort(rules[1], 22, proto, port);
    assert rules[0] in rules && rules[1] in rules;
    if address == 0x0A00_0005 {
      VerdictOn(rules, address, Host(0x0A00_0005), proto, port, live);
    } else if 0x0A00_0000 <= address <= 0x0A00_00FF {
      VerdictOn(rules, address, Block(24), proto, port, live);
    } else {
      NothingOn(rules, address, proto, port, live);
    }
  }
}
