// Collecting rules into buckets: one route for each prefix, its policies in rule order, padded to a
// fixed array; behind a cache of earlier results.

module Compiler {
  import opened Policies
  import opened Prefixes
  import opened Rules
  import opened Text

  datatype Route = Route(key: RouteKey, values: seq<Policy>)

  // ---- What a list of rules compiles to ----

  function Readable(resolve: Resolver, effect: Effect, texts: seq<string>): (rules: seq<SourceRule>)
    ensures forall r, s :: r in rules && s in r.services ==> Ordered(s)
  {
    if texts == [] then []
    else
      Readable(resolve, effect, texts[..|texts| - 1]) +
      match ReadRule(resolve, effect, texts[|texts| - 1])
      case Ok(r) => [r]
      case Err(_) => []
  }

  function Unreadable(resolve: Resolver, effect: Effect, texts: seq<string>): seq<RuleError> {
    if texts == [] then []
    else
      Unreadable(resolve, effect, texts[..|texts| - 1]) +
      match ReadRule(resolve, effect, texts[|texts| - 1])
      case Ok(_) => []
      case Err(e) => [e]
  }

  // The policies of every rule on one prefix, in rule order.
  function Bucket(rules: seq<SourceRule>, key: RouteKey): seq<Policy> {
    if rules == [] then []
    else
      var last := rules[|rules| - 1];
      Bucket(rules[..|rules| - 1], key) + if last.key == key then ToPolicies(last) else []
  }

  // The prefixes in the order they first appear.
  function FirstKeys(rules: seq<SourceRule>): (keys: seq<RouteKey>)
    ensures forall i, j :: 0 <= i < j < |keys| ==> keys[i] != keys[j]
    ensures forall r :: r in rules ==> r.key in keys
    ensures forall k :: k in keys ==> exists r :: r in rules && r.key == k
  {
    if rules == [] then []
    else
      var keys := FirstKeys(rules[..|rules| - 1]);
      var last := rules[|rules| - 1];
      assert rules == rules[..|rules| - 1] + [last];
      if last.key in keys then keys else keys + [last.key]
  }

  function Collected(rules: seq<SourceRule>): (routes: seq<Route>)
    ensures |routes| == |FirstKeys(rules)|
    ensures forall i :: 0 <= i < |routes| ==>
      routes[i] == Route(FirstKeys(rules)[i], Bucket(rules, FirstKeys(rules)[i]))
  {
    var keys := FirstKeys(rules);
    seq(|keys|, i requires 0 <= i < |keys| => Route(keys[i], Bucket(rules, keys[i])))
  }

  function Pad(values: seq<Policy>): (slots: seq<Policy>)
    requires |values| <= MAX_POLICIES
    ensures |slots| == MAX_POLICIES && values <= slots
    ensures forall i :: |values| <= i < MAX_POLICIES ==> slots[i] == EMPTY_SLOT
  {
    values + seq(MAX_POLICIES - |values|, _ => EMPTY_SLOT)
  }

  predicate Fits(routes: seq<Route>) {
    forall r :: r in routes ==> |r.values| <= MAX_POLICIES
  }

  function Padded(routes: seq<Route>): (slots: seq<Route>)
    requires Fits(routes)
    ensures |slots| == |routes|
    ensures forall i :: 0 <= i < |slots| ==> slots[i] == Route(routes[i].key, Pad(routes[i].values))
  {
    seq(|routes|, i requires 0 <= i < |routes| => Route(routes[i].key, Pad(routes[i].values)))
  }

  function AllRules(resolve: Resolver, mfa: seq<string>, public: seq<string>, deny: seq<string>): seq<SourceRule> {
    Readable(resolve, Mfa, mfa) + Readable(resolve, Allow, public) + Readable(resolve, Deny, deny)
  }

  function AllErrors(resolve: Resolver, mfa: seq<string>, public: seq<string>, deny: seq<string>): seq<RuleError> {
    Unreadable(resolve, Mfa, mfa) + Unreadable(resolve, Allow, public) + Unreadable(resolve, Deny, deny)
  }

  function Compile(resolve: Resolver, mfa: seq<string>, public: seq<string>, deny: seq<string>):
    (r: (seq<Route>, seq<RuleError>))
  {
    var routes := Collected(AllRules(resolve, mfa, public, deny));
    var errors := AllErrors(resolve, mfa, public, deny);
    if Fits(routes) then (Padded(routes), errors) else ([], errors + [TooManyPolicies])
  }

  // The result a caller sees whatever order the lists are given in.
  function CompileSorted(resolve: Resolver, mfa: seq<string>, public: seq<string>, deny: seq<string>):
    (seq<Route>, seq<RuleError>)
  {
    Compile(resolve, SortStrings(mfa), SortStrings(public), SortStrings(deny))
  }

  lemma CompileIgnoresOrder(resolve: Resolver,
                            mfa: seq<string>, public: seq<string>, deny: seq<string>,
                            mfa': seq<string>, public': seq<string>, deny': seq<string>)
    requires multiset(mfa) == multiset(mfa') && multiset(public) == multiset(public')
    requires multiset(deny) == multiset(deny')
    ensures CompileSorted(resolve, mfa, public, deny) == CompileSorted(resolve, mfa', public', deny')
  {
    SortIgnoresOrder(mfa, mfa');
    SortIgnoresOrder(public, public');
    SortIgnoresOrder(deny, deny');
  }

  // ---- One more rule ----

  lemma BucketEmpty(rules: seq<SourceRule>, key: RouteKey)
    requires forall r :: r in rules ==> r.key != key
    ensures Bucket(rules, key) == []
  {}

  lemma AppendRule(rules: seq<SourceRule>, r: SourceRule)
    ensures FirstKeys(rules + [r]) ==
      if r.key in FirstKeys(rules) then FirstKeys(rules) else FirstKeys(rules) + [r.key]
    ensures forall k :: Bucket(rules + [r], k) == Bucket(rules, k) + if r.key == k then ToPolicies(r) else []
  {
    var next := rules + [r];
    assert next[..|next| - 1] == rules && next[|next| - 1] == r;
  }

  lemma CollectedOldKey(rules: seq<SourceRule>, r: SourceRule, i: nat)
    requires i < |Collected(rules)| && Collected(rules)[i].key == r.key
    ensures Collected(rules + [r]) ==
      Collected(rules)[i := Route(r.key, Collected(rules)[i].values + ToPolicies(r))]
  {
    AppendRule(rules, r);
    var keys := FirstKeys(rules);
    assert keys[i] == r.key;
    forall j | 0 <= j < |keys| && j != i ensures Bucket(rules + [r], keys[j]) == Bucket(rules, keys[j]) {
      assert keys[j] != r.key;
    }
  }

  lemma FirstKeysNewKey(rules: seq<SourceRule>, r: SourceRule)
    requires forall other :: other in rules ==> other.key != r.key
    ensures FirstKeys(rules + [r]) == FirstKeys(rules) + [r.key]
  {
    AppendRule(rules, r);
    assert r.key !in FirstKeys(rules);
  }

  lemma BucketNewKey(rules: seq<SourceRule>, r: SourceRule, key: RouteKey)
    requires forall other :: other in rules ==> other.key != r.key
    ensures Bucket(rules + [r], key) == if key == r.key then ToPolicies(r) else Bucket(rules, key)
  {
    AppendRule(rules, r);
    BucketEmpty(rules, r.key);
    assert [] + ToPolicies(r) == ToPolicies(r);
  }

  lemma CollectedNewKey(rules: seq<SourceRule>, r: SourceRule)
    requires forall i :: 0 <= i < |Collected(rules)| ==> Collected(rules)[i].key != r.key
    ensures Collected(rules + [r]) == Collected(rules) + [Route(r.key, ToPolicies(r))]
  {
    hide FirstKeys, Bucket, Collected, ToPolicies;
    var keys := FirstKeys(rules);
    forall other | other in rules ensures other.key != r.key {
      var j :| 0 <= j < |keys| && keys[j] == other.key;
      assert Collected(rules)[j].key == keys[j];
    }
    FirstKeysNewKey(rules, r);
    forall j | 0 <= j < |keys| + 1
      ensures Collected(rules + [r])[j] == (Collected(rules) + [Route(r.key, ToPolicies(r))])[j]
    {
      BucketNewKey(rules, r, FirstKeys(rules + [r])[j]);
      if j < |keys| { assert Collected(rules)[j].key == keys[j]; }
    }
  }

  // No compiled policy reads as the end of a bucket.
  lemma {:induction false} BucketHasNoStop(rules: seq<SourceRule>, key: RouteKey)
    ensures forall p :: p in Bucket(rules, key) ==> p.policyType != STOP
  {
    if rules != [] {
      BucketHasNoStop(rules[..|rules| - 1], key);
      var last := rules[|rules| - 1];
      forall p | p in ToPolicies(last) ensures p.policyType != STOP {
        var i :| 0 <= i < |ToPolicies(last)| && ToPolicies(last)[i] == p;
        PolicyFlags(last.effect, last.services[i]);
      }
    }
  }

  // ---- The compiler, with its cache of whole results ----

  class RuleCompiler {
    const resolve: Resolver
    // Filed under the three sorted lists, of which the program keeps the SHA-1 hash.
    var globalCache: map<(seq<string>, seq<string>, seq<string>), seq<Route>>

    ghost predicate Valid()
      reads this
    {
      forall k :: k in globalCache ==> Compile(resolve, k.0, k.1, k.2) == (globalCache[k], [])
    }

    constructor (resolve: Resolver)
      ensures Valid() && this.resolve == resolve && globalCache == map[]
    {
      this.resolve := resolve;
      globalCache := map[];
    }

    method ParseRules(mfa: seq<string>, public: seq<string>, deny: seq<string>)
      returns (result: seq<Route>, errs: seq<RuleError>)
      requires Valid()
      modifies this`globalCache
      ensures Valid()
      ensures (result, errs) == CompileSorted(resolve, mfa, public, deny)
      ensures globalCache == if errs != [] then old(globalCache)
        else old(globalCache)[(SortStrings(mfa), SortStrings(public), SortStrings(deny)) := result]
    {
      hide Readable, Unreadable, Collected, Indexed, SortStrings, Fits, Padded, AllRules, AllErrors;
      var parseKey := (SortStrings(mfa), SortStrings(public), SortStrings(deny));
      if parseKey in globalCache {
        return globalCache[parseKey], [];
      }

      var cache: map<string, nat> := map[];
      result, errs := [], [];
      NothingFiled();
      ghost var rules0 := [] + Readable(resolve, Mfa, parseKey.0);
      ghost var rules1 := rules0 + Readable(resolve, Allow, parseKey.1);
      result, cache, errs := FileRules(Mfa, parseKey.0, result, cache, errs, []);
      result, cache, errs := FileRules(Allow, parseKey.1, result, cache, errs, rules0);
      result, cache, errs := FileRules(Deny, parseKey.2, result, cache, errs, rules1);
      ListsTogether(parseKey.0, parseKey.1, parseKey.2);
      assert result == Collected(AllRules(resolve, parseKey.0, parseKey.1, parseKey.2));
      ghost var errors := errs;
      var fits: bool;
      result, fits := PadAll(result);
      if !fits {
        return [], errs + [TooManyPolicies];
      }
      if errs == [] {
        globalCache := globalCache[parseKey := result];
      }
    }

    // The loop that pads every bucket, up to the first that is too long.
    method PadAll(routes: seq<Route>) returns (result: seq<Route>, fits: bool)
      ensures fits <==> Fits(routes)
      ensures fits ==> result == Padded(routes)
    {
      result := routes;
      for i := 0 to |result|
        invariant |result| == |routes|
        invariant forall j :: 0 <= j < i ==>
          |routes[j].values| <= MAX_POLICIES && result[j] == Route(routes[j].key, Pad(routes[j].values))
        invariant forall j :: i <= j < |result| ==> result[j] == routes[j]
      {
        if |result[i].values| > MAX_POLICIES {
          assert routes[i] in routes;
          return result, false;
        }
        result := result[i := Route(result[i].key, Pad(result[i].values))];
      }
      fits := true;
    }

    ghost predicate Indexed(result: seq<Route>, cache: map<string, nat>) {
      && (forall i :: 0 <= i < |result| ==> KeyString(result[i].key) in cache && cache[KeyString(result[i].key)] == i)
      && (forall s :: s in cache ==> cache[s] < |result| && KeyString(result[cache[s]].key) == s)
    }

    // The loop over one of the three lists; the program writes it out three times.
    method FileRules(effect: Effect, texts: seq<string>,
                     result0: seq<Route>, cache0: map<string, nat>, errs0: seq<RuleError>,
                     ghost before: seq<SourceRule>)
      returns (result: seq<Route>, cache: map<string, nat>, errs: seq<RuleError>)
      requires result0 == Collected(before) && Indexed(result0, cache0)
      ensures result == Collected(before + Readable(resolve, effect, texts)) && Indexed(result, cache)
      ensures errs == errs0 + Unreadable(resolve, effect, texts)
    {
      hide ReadRule, Readable, Unreadable, Collected, Indexed;
      result, cache, errs := result0, cache0, errs0;
      ghost var rules := before;
      NothingRead(effect, before, errs0);
      assert texts[..0] == [];
      for n := 0 to |texts|
        invariant rules == before + Readable(resolve, effect, texts[..n])
        invariant result == Collected(rules) && Indexed(result, cache)
        invariant errs == errs0 + Unreadable(resolve, effect, texts[..n])
      {
        ReadNext(effect, texts, n, before, errs0);
        match ReadRule(resolve, effect, texts[n]) {
          case Err(e) =>
            errs := errs + [e];
          case Ok(r) =>
            result, cache := FileRule(r, result, cache, rules);
            rules := rules + [r];
        }
      }
      assert texts[..|texts|] == texts;
    }

    lemma ListsTogether(mfa: seq<string>, public: seq<string>, deny: seq<string>)
      ensures [] + Readable(resolve, Mfa, mfa) + Readable(resolve, Allow, public) + Readable(resolve, Deny, deny)
        == AllRules(resolve, mfa, public, deny)
      ensures [] + Unreadable(resolve, Mfa, mfa) + Unreadable(resolve, Allow, public) + Unreadable(resolve, Deny, deny)
        == AllErrors(resolve, mfa, public, deny)
    {
      hide Readable, Unreadable;
      assert [] + Readable(resolve, Mfa, mfa) == Readable(resolve, Mfa, mfa);
      assert [] + Unreadable(resolve, Mfa, mfa) == Unreadable(resolve, Mfa, mfa);
    }

    lemma NothingFiled()
      ensures Collected([]) == [] && Indexed([], map[])
    {}

    lemma NothingRead(effect: Effect, before: seq<SourceRule>, errs: seq<RuleError>)
      ensures before + Readable(resolve, effect, []) == before
      ensures errs + Unreadable(resolve, effect, []) == errs
    {}

    lemma ReadNext(effect: Effect, texts: seq<string>, n: nat, before: seq<SourceRule>, errs: seq<RuleError>)
      requires n < |texts|
      ensures match ReadRule(resolve, effect, texts[n])
        case Ok(r) =>
          && before + Readable(resolve, effect, texts[..n + 1]) == before + Readable(resolve, effect, texts[..n]) + [r]
          && Unreadable(resolve, effect, texts[..n + 1]) == Unreadable(resolve, effect, texts[..n])
        case Err(e) =>
          && Readable(resolve, effect, texts[..n + 1]) == Readable(resolve, effect, texts[..n])
          && errs + Unreadable(resolve, effect, texts[..n + 1]) == errs + Unreadable(resolve, effect, texts[..n]) + [e]
    {
      var prefix := texts[..n + 1];
      assert prefix[..|prefix| - 1] == texts[..n] && prefix[|prefix| - 1] == texts[n];
    }

    method FileRule(r: SourceRule, result0: seq<Route>, cache0: map<string, nat>, ghost rules: seq<SourceRule>)
      returns (result: seq<Route>, cache: map<string, nat>)
      requires result0 == Collected(rules) && Indexed(result0, cache0)
      ensures result == Collected(rules + [r]) && Indexed(result, cache)
    {
      hide KeyString, Collected, Bucket, FirstKeys, ToPolicies;
      result, cache := result0, cache0;
      var name := KeyString(r.key);
      if name in cache {
        var index := cache[name];
        KeyStringInjective(result[index].key, r.key);
        CollectedOldKey(rules, r, index);
        result := result[index := Route(r.key, result[index].values + ToPolicies(r))];
      } else {
        CollectedNewKey(rules, r);
        result := result + [Route(r.key, ToPolicies(r))];
        cache := cache[name := |result| - 1];
      }
    }
  }
}
