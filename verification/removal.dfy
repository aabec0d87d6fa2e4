// What is left of a user who has been removed, and what brings the user back.

module Removal {
  import opened Numbers
  import opened Options
  import opened Policies
  import opened Prefixes
  import opened Rules
  import opened Compiler
  import opened Filter
  import opened Meaning
  import opened Router
  import Text

  // ---- The addresses of a removed user ----

  predicate AddsPeerAt(e: Event, address: u32) {
    e.AddPeer? && e.address == address
  }

  lemma StepAddsNoDevice(resolve: Resolver, s: State, e: Event, address: u32)
    requires address !in s.xdp.devices && !AddsPeerAt(e, address)
    ensures address !in Step(resolve, s, e).xdp.devices
  {
    hide TableFor, Deciding, Expiry, Timeout;
  }

  // Only a new peer brings an address into the device table.
  lemma {:induction false} AddressStaysAway(resolve: Resolver, s: State, es: seq<Event>, address: u32)
    requires address !in s.xdp.devices && forall e :: e in es ==> !AddsPeerAt(e, address)
    ensures address !in Run(resolve, s, es).xdp.devices
  {
    hide Step, AddsPeerAt;
    if es != [] {
      var n := |es| - 1;
      AddressStaysAway(resolve, s, es[..n], address);
      StepAddsNoDevice(resolve, Run(resolve, s, es[..n]), es[n], address);
    }
  }

  // The packet has the address at one end and no known device at the other.
  predicate IsOf(t: Tables, ip: IpInfo, address: u32) {
    (ip.srcIp == address && ip.dstIp !in t.devices) || (ip.dstIp == address && ip.srcIp !in t.devices)
  }

  // After a user is removed, an address the user held stays out of the table, and nothing to or from it
  // passes, in every later run in which it is not given to a new peer.
  lemma RemovedUserIsDropped(resolve: Resolver, s: State, user: string, address: u32, es: seq<Event>,
                             ip: IpInfo, now: u64)
    requires Agrees(s) && user in s.xdp.accountLocked && address in OwnedBy(s, user)
    requires forall e :: e in es ==> !AddsPeerAt(e, address)
    ensures var t := Run(resolve, Step(resolve, s, RemoveUser(user)), es).xdp;
      address !in t.devices && (IsOf(t, ip, address) ==> !Passes(t, ip, now))
  {
    RemoveUserRemoves(resolve, s, user);
    hide Step, Run, Agrees;
    AddressStaysAway(resolve, Step(resolve, s, RemoveUser(user)), es, address);
  }

  // ---- The account ----

  lemma AccountNext(resolve: Resolver, s: State, e: Event, user: string)
    requires !(e.RemoveUser? && e.user == user)
    ensures user in Step(resolve, s, e).xdp.accountLocked <==> user in s.xdp.accountLocked || Creates(e, user)
  {
    hide TableFor, DevicesAfter, DeauthenticateAll;
  }

  // Without an account to begin with and with no removal, there is one exactly when the user has been
  // added, the lock of the account has been set, or a refresh has read the user from the store.
  lemma {:induction false} AccountExactly(resolve: Resolver, s: State, es: seq<Event>, user: string)
    requires user !in s.xdp.accountLocked && forall e :: e in es ==> !(e.RemoveUser? && e.user == user)
    ensures user in Run(resolve, s, es).xdp.accountLocked <==> exists e :: e in es && Creates(e, user)
  {
    hide Step, Creates;
    if es != [] {
      var n := |es| - 1;
      AccountExactly(resolve, s, es[..n], user);
      AccountNext(resolve, Run(resolve, s, es[..n]), es[n], user);
      assert es == es[..n] + [es[n]];
    }
  }

  // A removed user has a device again, at any address, only after one of these calls.
  lemma RemovedUserHasNoDevice(resolve: Resolver, s: State, user: string, es: seq<Event>)
    requires Agrees(s) && user in s.xdp.accountLocked
    requires ProperRun(resolve, Step(resolve, s, RemoveUser(user)), es)
    requires forall e :: e in es ==> !(e.RemoveUser? && e.user == user)
    ensures OwnedBy(Run(resolve, Step(resolve, s, RemoveUser(user)), es), user) != {} ==>
      exists e :: e in es && Creates(e, user)
  {
    RemoveUserAgrees(resolve, s, user);
    RemoveUserRemoves(resolve, s, user);
    hide Step, Creates, ProperRun, Run;
    var removed := Step(resolve, s, RemoveUser(user));
    RunAgrees(resolve, removed, es);
    AccountExactly(resolve, removed, es, user);
  }

  // ---- Setting the lock of a removed user ----

  // It creates the account again: after a refresh of the routes and a new peer, the tables hold
  // everything a packet needs, although the user was never added again.
  lemma LockRecreatesAccount(resolve: Resolver, s: State, user: string, acl: Acl, key: string, address: u32, node: u64)
    requires Agrees(s) && user in s.xdp.accountLocked && address !in s.xdp.devices
    ensures var t := Run(resolve, s, LockedBack(user, acl, key, address, node)).xdp;
      && user in t.accountLocked && t.accountLocked[user] == 0
      && user in t.policies && t.policies[user] == TableFor(resolve, acl)
      && address in t.devices && t.devices[address].userId == user
  {
    hide TableFor, Run;
    RemoveUserRemoves(resolve, s, user);
    RunOfFour(resolve, s, RemoveUser(user), SetLockAccount(user, 0), RefreshUserAcls(user, acl),
              AddPeer(key, user, address, node));
  }

  function LockedBack(user: string, acl: Acl, key: string, address: u32, node: u64): seq<Event> {
    [RemoveUser(user), SetLockAccount(user, 0), RefreshUserAcls(user, acl), AddPeer(key, user, address, node)]
  }

  // So with one allow rule that covers a destination, every packet from the new peer to it passes.
  lemma LockLetsPacketsPass(resolve: Resolver, s: State, user: string, text: string, route: RouteKey,
                            key: string, address: u32, node: u64, ip: IpInfo, now: u64)
    requires Agrees(s) && user in s.xdp.accountLocked && address !in s.xdp.devices
    requires Text.Word(text) && resolve(text) == Some(route) && Covers(route, ip.dstIp)
    requires ip.srcIp == address
    ensures Passes(Run(resolve, s, LockedBack(user, Acl([], [text], []), key, address, node)).xdp, ip, now)
  {
    var acl := Acl([], [text], []);
    LockRecreatesAccount(resolve, s, user, acl, key, address, node);
    var t := Run(resolve, s, LockedBack(user, acl, key, address, node)).xdp;
    hide Run, LockedBack, Agrees, Passes, AllRules, SourceVerdict, SortedRules, SessionLive, CompiledTable, Bucket;
    OneRulePasses(resolve, text, route, ip.dstIp, ip.proto, Ntohs(ip.dstPort), SessionLive(t, t.devices[address], now));
    CompilationPreservesMeaning(resolve, [], [text], [], t, ip, now, address, ip.dstIp, Ntohs(ip.dstPort));
  }

  lemma OneRulePasses(resolve: Resolver, text: string, route: RouteKey, address: u32, proto: u8, port: u16, live: bool)
    requires Text.Word(text) && resolve(text) == Some(route) && Covers(route, address)
    ensures var rules := SortedRules(resolve, [], [text], []);
      && PortsStorable(rules)
      && (forall key :: key in KeysOf(rules) ==> |Bucket(rules, key)| < MAX_POLICIES)
      && SourceVerdict(AllRules(resolve, [], [text], []), address, proto, port, live)
  {
    var rule := Meaning.OneRule(route, []);
    assert WriteRule(text, []) == text by { assert [text] + WriteServices([]) == [text]; }
    OneRuleRead(resolve, text, route, []);
    forall key ensures |Bucket([rule], key)| < MAX_POLICIES { OneBucket(rule, key); }
    assert Everything in rule.services && RuleAdmits(rule, proto, port);
    AllowedByOne(rule, address, proto, port, live);
  }
}
