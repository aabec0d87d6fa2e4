// The rules that apply to a user: the default policy, the user's own, those of the user's groups, the
// DNS servers, and the server itself; merged, without duplicates, in order.

module EffectiveAcls {
  import opened Text
  import opened Router

  // The stored policies by name, the groups of each user, the DNS servers and the server's address.
  datatype PolicyStore = PolicyStore(acls: map<string, Acl>, membership: map<string, seq<string>>,
                                     dns: seq<string>, serverAddress: string)

  // The policies that apply to the user.
  ghost predicate Applies(s: PolicyStore, user: string, acl: Acl) {
    exists name :: name in s.acls && s.acls[name] == acl
      && (name == "*" || name == user || (user in s.membership && name in s.membership[user]))
  }

  ghost predicate Allowed(s: PolicyStore, user: string, rule: string) {
    || rule == s.serverAddress + "/32"
    || (exists acl :: Applies(s, user, acl) && rule in acl.allow)
    || (exists server :: server in s.dns && rule == server + " 53/any")
  }

  ghost predicate Guarded(s: PolicyStore, user: string, rule: string) {
    exists acl :: Applies(s, user, acl) && rule in acl.mfa
  }

  ghost predicate Denied(s: PolicyStore, user: string, rule: string) {
    exists acl :: Applies(s, user, acl) && rule in acl.deny
  }

  predicate Distinct(s: seq<string>) {
    forall i, j :: 0 <= i < j < |s| ==> s[i] != s[j]
  }

  // In order, without duplicates, and with exactly the rules that apply.
  ghost predicate IsEffective(s: PolicyStore, user: string, acl: Acl) {
    && Sorted(acl.allow) && Sorted(acl.mfa) && Sorted(acl.deny)
    && Distinct(acl.allow) && Distinct(acl.mfa) && Distinct(acl.deny)
    && (forall rule :: rule in acl.allow <==> Allowed(s, user, rule))
    && (forall rule :: rule in acl.mfa <==> Guarded(s, user, rule))
    && (forall rule :: rule in acl.deny <==> Denied(s, user, rule))
  }

  // insertMap
  method Insert(into: set<string>, values: seq<string>) returns (r: set<string>)
    ensures forall v :: v in r <==> v in into || v in values
  {
    r := into;
    for i := 0 to |values|
      invariant forall v :: v in r <==> v in into || v in values[..i]
    {
      r := r + {values[i]};
    }
    assert values[..|values|] == values;
  }

  // The keys of a set in whatever order they come, then sorted.
  method SortedKeys(rules: set<string>) returns (r: seq<string>)
    ensures Sorted(r) && Distinct(r) && forall rule :: rule in r <==> rule in rules
  {
    var keys: seq<string> := [];
    var todo := rules;
    while todo != {}
      invariant todo <= rules && Distinct(keys)
      invariant forall rule :: rule in keys <==> rule in rules - todo
      decreases todo
    {
      var rule :| rule in todo;
      assert rule !in keys;
      keys := keys + [rule];
      todo := todo - {rule};
    }
    r := SortStrings(keys);
    KeepsDistinct(keys, r);
  }

  lemma KeepsDistinct(a: seq<string>, b: seq<string>)
    requires Distinct(a) && multiset(a) == multiset(b)
    ensures Distinct(b) && forall x :: x in a <==> x in b
  {
    forall x ensures x in a <==> x in b {
      assert x in a <==> x in multiset(a);
      assert x in b <==> x in multiset(b);
    }
    forall i, j | 0 <= i < j < |b| ensures b[i] != b[j] {
      CountOfDistinct(a, b[i]);
      if b[i] == b[j] { CountedTwice(b, i, j); }
    }
  }

  lemma CountedTwice(s: seq<string>, i: nat, j: nat)
    requires i < j < |s| && s[i] == s[j]
    ensures multiset(s)[s[i]] >= 2
  {
    assert s == s[..j] + [s[j]] + s[j + 1..];
    assert s[..j][i] == s[i];
    assert s[i] in multiset(s[..j]);
  }

  datatype RuleSets = RuleSets(allow: set<string>, mfa: set<string>, deny: set<string>)

  method AddAcl(into: RuleSets, acl: Acl) returns (r: RuleSets)
    ensures forall v :: v in r.allow <==> v in into.allow || v in acl.allow
    ensures forall v :: v in r.mfa <==> v in into.mfa || v in acl.mfa
    ensures forall v :: v in r.deny <==> v in into.deny || v in acl.deny
  {
    var allow := Insert(into.allow, acl.allow);
    var mfa := Insert(into.mfa, acl.mfa);
    var deny := Insert(into.deny, acl.deny);
    r := RuleSets(allow, mfa, deny);
  }

  ghost predicate Named(s: PolicyStore, names: seq<string>, acl: Acl) {
    exists name :: name in names && name in s.acls && s.acls[name] == acl
  }

  // The policies of a list of names, where they exist.
  method AddNamed(s: PolicyStore, into: RuleSets, names: seq<string>) returns (r: RuleSets)
    ensures forall v :: v in r.allow <==> v in into.allow || exists acl :: Named(s, names, acl) && v in acl.allow
    ensures forall v :: v in r.mfa <==> v in into.mfa || exists acl :: Named(s, names, acl) && v in acl.mfa
    ensures forall v :: v in r.deny <==> v in into.deny || exists acl :: Named(s, names, acl) && v in acl.deny
  {
    r := into;
    for i := 0 to |names|
      invariant forall v :: v in r.allow <==>
        v in into.allow || exists acl :: Named(s, names[..i], acl) && v in acl.allow
      invariant forall v :: v in r.mfa <==> v in into.mfa || exists acl :: Named(s, names[..i], acl) && v in acl.mfa
      invariant forall v :: v in r.deny <==> v in into.deny || exists acl :: Named(s, names[..i], acl) && v in acl.deny
    {
      NamedNext(s, names, i);
      if names[i] in s.acls {
        r := AddAcl(r, s.acls[names[i]]);
      }
    }
    assert names[..|names|] == names;
  }

  lemma NamedNext(s: PolicyStore, names: seq<string>, i: nat)
    requires i < |names|
    ensures forall acl :: Named(s, names[..i + 1], acl) <==>
      Named(s, names[..i], acl) || (names[i] in s.acls && s.acls[names[i]] == acl)
  {
    forall acl | Named(s, names[..i + 1], acl)
      ensures Named(s, names[..i], acl) || (names[i] in s.acls && s.acls[names[i]] == acl)
    {
      var name :| name in names[..i + 1] && name in s.acls && s.acls[name] == acl;
      assert names[..i + 1] == names[..i] + [names[i]];
    }
    forall acl | Named(s, names[..i], acl) || (names[i] in s.acls && s.acls[names[i]] == acl)
      ensures Named(s, names[..i + 1], acl)
    {
      assert names[..i + 1] == names[..i] + [names[i]];
      assert names[i] in names[..i + 1];
      if Named(s, names[..i], acl) {
        var name :| name in names[..i] && name in s.acls && s.acls[name] == acl;
        assert name in names[..i + 1];
      }
    }
  }

  method GetEffectiveAcl(s: PolicyStore, user: string) returns (acl: Acl)
    ensures IsEffective(s, user, acl)
  {
    var sets := RuleSets({s.serverAddress + "/32"}, {}, {});
    var groups := if user in s.membership then s.membership[user] else [];
    sets := AddNamed(s, sets, ["*", user]);
    sets := AddNamed(s, sets, groups);
    NamedApply(s, user, groups);
    var allow := sets.allow;
    for i := 0 to |s.dns|
      invariant forall v :: v in allow <==>
        v in sets.allow || exists server :: server in s.dns[..i] && v == server + " 53/any"
    {
      assert s.dns[..i + 1] == s.dns[..i] + [s.dns[i]];
      allow := Insert(allow, [s.dns[i] + " 53/any"]);
    }
    assert s.dns[..|s.dns|] == s.dns;
    var allowList := SortedKeys(allow);
    var mfaList := SortedKeys(sets.mfa);
    var denyList := SortedKeys(sets.deny);
    acl := Acl(mfaList, allowList, denyList);
  }

  lemma NamedApply(s: PolicyStore, user: string, groups: seq<string>)
    requires groups == if user in s.membership then s.membership[user] else []
    ensures forall acl :: Applies(s, user, acl) <==> Named(s, ["*", user], acl) || Named(s, groups, acl)
  {}

  // The effective policy is determined by the sets of rules that apply, whatever the order in which
  // groups, policies and their rules are stored or walked.
  lemma EffectiveIsUnique(s: PolicyStore, s': PolicyStore, user: string, acl: Acl, acl': Acl)
    requires IsEffective(s, user, acl) && IsEffective(s', user, acl')
    requires forall rule :: Allowed(s, user, rule) <==> Allowed(s', user, rule)
    requires forall rule :: Guarded(s, user, rule) <==> Guarded(s', user, rule)
    requires forall rule :: Denied(s, user, rule) <==> Denied(s', user, rule)
    ensures acl == acl'
  {
    hide Allowed, Guarded, Denied;
    SameSorted(acl.allow, acl'.allow);
    SameSorted(acl.mfa, acl'.mfa);
    SameSorted(acl.deny, acl'.deny);
  }

  lemma SameSorted(a: seq<string>, b: seq<string>)
    requires Sorted(a) && Sorted(b) && Distinct(a) && Distinct(b) && forall x :: x in a <==> x in b
    ensures a == b
  {
    SortOfSet(a, b);
    SortedUnique(a, b);
  }
}
