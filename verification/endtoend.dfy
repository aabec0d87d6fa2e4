// The whole system over its runs: the verdict on a packet, from the calls made so far and from the
// stored policies.

module EndToEnd {
  import opened Numbers
  import opened Options
  import opened Policies
  import opened Prefixes
  import opened Rules
  import opened Compiler
  import opened Filter
  import opened Meaning
  import opened Router
  import opened Sessions
  import opened EffectiveAcls

  // ---- What the calls made so far say of a user, a device and the settings ----

  // The account's lock, if there is an account.
  function LockOf(es: seq<Event>, user: string): Option<u32> {
    if es == [] then None
    else
      var n := |es| - 1;
      match es[n]
      case AddUser(u, _) =>
        if u == user && LockOf(es[..n], user).None? then Some(0) else LockOf(es[..n], user)
      case RemoveUser(u) => if u == user then None else LockOf(es[..n], user)
      case SetLockAccount(u, locked) => if u == user then Some(locked) else LockOf(es[..n], user)
      case RefreshConfiguration(_, users) =>
        (match RecordOf(users, user)
         case Some(r) => Some(LockValue(r.locked))
         case None => LockOf(es[..n], user))
      case _ => LockOf(es[..n], user)
  }

  // The lists the user's routes were last compiled from.
  function AclOf(es: seq<Event>, user: string): Option<Acl> {
    if es == [] then None
    else
      var n := |es| - 1;
      match es[n]
      case AddUser(u, acl) =>
        if u == user && LockOf(es[..n], user).None? then Some(acl) else AclOf(es[..n], user)
      case RefreshUserAcls(u, acl) => if u == user then Some(acl) else AclOf(es[..n], user)
      case RemoveUser(u) =>
        if u == user && LockOf(es[..n], user).Some? then None else AclOf(es[..n], user)
      case RefreshConfiguration(_, users) =>
        (match RecordOf(users, user)
         case Some(r) => Some(r.acl)
         case None => AclOf(es[..n], user))
      case _ => AclOf(es[..n], user)
  }

  // The user whose device has the address, if one has.
  function OwnerOf(es: seq<Event>, address: u32): Option<string> {
    if es == [] then None
    else
      var n := |es| - 1;
      match es[n]
      case AddPeer(_, user, a, _) =>
        if a == address && OwnerOf(es[..n], address).None? && LockOf(es[..n], user).Some? then Some(user)
        else OwnerOf(es[..n], address)
      case RemovePeer(a) => if a == address then None else OwnerOf(es[..n], address)
      case RemoveUser(user) =>
        if LockOf(es[..n], user).Some? && OwnerOf(es[..n], address) == Some(user) then None
        else OwnerOf(es[..n], address)
      case _ => OwnerOf(es[..n], address)
  }

  // The node the device at the address was last given to.
  function NodeOf(es: seq<Event>, address: u32): u64 {
    if es == [] then 0
    else
      var n := |es| - 1;
      match es[n]
      case AddPeer(_, user, a, node) =>
        if a == address && OwnerOf(es[..n], address).None? && LockOf(es[..n], user).Some? then node
        else NodeOf(es[..n], address)
      case SetAuthorized(a, _, node, _, _, _) => if a == address then node else NodeOf(es[..n], address)
      case UpdateNodeAssociation(a, node) => if a == address then node else NodeOf(es[..n], address)
      case _ => NodeOf(es[..n], address)
  }

  // The public key of the device.
  function KeyOf(es: seq<Event>, address: u32): string {
    if es == [] then ""
    else
      var n := |es| - 1;
      match es[n]
      case AddPeer(key, user, a, _) =>
        if a == address && OwnerOf(es[..n], address).None? && LockOf(es[..n], user).Some? then key
        else KeyOf(es[..n], address)
      case ReplacePeer(user, a, key) =>
        if a == address && OwnerOf(es[..n], address) == Some(user) then key else KeyOf(es[..n], address)
      case _ => KeyOf(es[..n], address)
  }

  function TimeoutOf(es: seq<Event>, first: u64): u64 {
    if es == [] then first
    else
      var n := |es| - 1;
      match es[n]
      case SetInactivityTimeout(minutes) => Timeout(minutes)
      case RefreshConfiguration(minutes, _) => Timeout(minutes)
      case _ => TimeoutOf(es[..n], first)
  }

  // ---- The firewall's state is that history ----

  lemma AccountNext(resolve: Resolver, s: State, es: seq<Event>, user: string)
    requires es != [] && AccountIn(s, user) == LockOf(es[..|es| - 1], user)
    ensures AccountIn(Step(resolve, s, es[|es| - 1]), user) == LockOf(es, user)
  {
    var e := es[|es| - 1];
    if e.RefreshConfiguration? {
      hide Step;
      RefreshReads(resolve, s, e.minutes, e.users, user);
    } else {
      AccountAfter(resolve, s, e, user);
    }
  }

  lemma AccountAfter(resolve: Resolver, s: State, e: Event, user: string)
    requires !e.RefreshConfiguration?
    ensures AccountIn(Step(resolve, s, e), user) ==
      match e
      case AddUser(u, _) => if u == user && AccountIn(s, user).None? then Some(0) else AccountIn(s, user)
      case RemoveUser(u) => if u == user then None else AccountIn(s, user)
      case SetLockAccount(u, locked) => if u == user then Some(locked) else AccountIn(s, user)
      case _ => AccountIn(s, user)
  {
    hide TableFor, DevicesAfter, DeauthenticateAll, Refreshed, Expiry, Timeout;
  }

  lemma {:induction false} AccountsFollow(resolve: Resolver, s: State, es: seq<Event>, user: string)
    requires s.xdp.accountLocked == map[]
    ensures AccountIn(Run(resolve, s, es), user) == LockOf(es, user)
  {
    hide Step, LockOf;
    if es == [] {
      NoAccounts(user);
    } else {
      var n := |es| - 1;
      AccountsFollow(resolve, s, es[..n], user);
      AccountNext(resolve, Run(resolve, s, es[..n]), es, user);
    }
  }

  lemma NoAccounts(user: string)
    ensures LockOf([], user) == None
  {}

  ghost predicate HasRoutes(resolve: Resolver, s: State, user: string, acl: Option<Acl>) {
    match acl
    case None => user !in s.xdp.policies
    case Some(a) => user in s.xdp.policies && s.xdp.policies[user] == TableFor(resolve, a)
  }

  lemma AddedRoutes(resolve: Resolver, s: State, e: Event, user: string, acl: Option<Acl>)
    requires s.userPolicyMaps == s.xdp.policies.Keys && HasRoutes(resolve, s, user, acl) && e.AddUser?
    ensures HasRoutes(resolve, Step(resolve, s, e), user,
      if e.user == user && user !in s.xdp.accountLocked then Some(e.acl) else acl)
  {
    hide TableFor;
  }

  lemma RefreshedAcls(resolve: Resolver, s: State, e: Event, user: string, acl: Option<Acl>)
    requires s.userPolicyMaps == s.xdp.policies.Keys && HasRoutes(resolve, s, user, acl) && e.RefreshUserAcls?
    ensures HasRoutes(resolve, Step(resolve, s, e), user, if e.user == user then Some(e.acl) else acl)
  {
    hide TableFor;
  }

  lemma RefreshedRoutes(resolve: Resolver, s: State, e: Event, user: string, acl: Option<Acl>)
    requires HasRoutes(resolve, s, user, acl) && e.RefreshConfiguration?
    ensures HasRoutes(resolve, Step(resolve, s, e), user,
      match RecordOf(e.users, user) case Some(r) => Some(r.acl) case None => acl)
  {
    hide TableFor, Timeout, RecordOf;
  }

  lemma OtherRoutes(resolve: Resolver, s: State, e: Event, user: string, acl: Option<Acl>)
    requires HasRoutes(resolve, s, user, acl)
    requires !e.AddUser? && !e.RefreshUserAcls? && !e.RefreshConfiguration?
    ensures HasRoutes(resolve, Step(resolve, s, e), user,
      if e.RemoveUser? && e.user == user && user in s.xdp.accountLocked then None else acl)
  {
    hide TableFor, DevicesAfter, DeauthenticateAll, Expiry, Timeout;
  }

  lemma RoutesNext(resolve: Resolver, s: State, es: seq<Event>, user: string)
    requires es != [] && AccountIn(s, user) == LockOf(es[..|es| - 1], user)
    requires s.userPolicyMaps == s.xdp.policies.Keys && HasRoutes(resolve, s, user, AclOf(es[..|es| - 1], user))
    ensures HasRoutes(resolve, Step(resolve, s, es[|es| - 1]), user, AclOf(es, user))
  {
    hide Step, LockOf, HasRoutes;
    var e, acl := es[|es| - 1], AclOf(es[..|es| - 1], user);
    match e
    case AddUser(_, _) => AddedRoutes(resolve, s, e, user, acl);
    case RefreshUserAcls(_, _) => RefreshedAcls(resolve, s, e, user, acl);
    case RefreshConfiguration(_, _) => RefreshedRoutes(resolve, s, e, user, acl);
    case _ => OtherRoutes(resolve, s, e, user, acl);
  }

  // After any run the table of a user is the compiled form of the lists last given for that user.
  lemma {:induction false} RoutesFollowLists(resolve: Resolver, s: State, es: seq<Event>, user: string)
    requires Agrees(s) && s.xdp.policies == map[] && s.xdp.accountLocked == map[] && ProperRun(resolve, s, es)
    ensures HasRoutes(resolve, Run(resolve, s, es), user, AclOf(es, user))
  {
    hide Step, Agrees, Proper, HasRoutes, LockOf, AclOf;
    if es == [] {
      NoRoutes(resolve, s, user);
    } else {
      var n := |es| - 1;
      ProperPrefix(resolve, s, es, n);
      RoutesFollowLists(resolve, s, es[..n], user);
      AccountsFollow(resolve, s, es[..n], user);
      RunAgrees(resolve, s, es[..n]);
      PoliciesAgree(Run(resolve, s, es[..n]));
      RoutesNext(resolve, Run(resolve, s, es[..n]), es, user);
    }
  }

  lemma NoRoutes(resolve: Resolver, s: State, user: string)
    requires s.xdp.policies == map[]
    ensures HasRoutes(resolve, s, user, AclOf([], user))
  {}

  // The entry at the address has the owner and the node that history tells.
  ghost predicate HasEntry(t: Tables, address: u32, owner: Option<string>, node: u64) {
    match owner
    case None => address !in t.devices
    case Some(user) =>
      && address in t.devices
      && t.devices[address].userId == user
      && t.devices[address].associatedNode == node
  }

  lemma PeerEntry(resolve: Resolver, s: State, e: Event, address: u32, owner: Option<string>, node: u64)
    requires Agrees(s) && HasEntry(s.xdp, address, owner, node) && (e.AddPeer? || e.RemovePeer? || e.RemoveUser?)
    ensures var known := !e.RemovePeer? && AccountIn(s, e.user).Some?;
      var added := e.AddPeer? && e.address == address && owner.None? && known;
      var removed := (e.RemovePeer? && e.address == address) || (e.RemoveUser? && known && owner == Some(e.user));
      HasEntry(Step(resolve, s, e).xdp, address, if added then Some(e.user) else if removed then None else owner,
        if added then e.node else node)
  {
    if e.RemoveUser? { IndexIsOwnership(s, e.user); }
  }

  lemma OtherEntry(resolve: Resolver, s: State, e: Event, address: u32, owner: Option<string>, node: u64)
    requires Proper(s, e) && HasEntry(s.xdp, address, owner, node)
    requires !e.AddPeer? && !e.RemovePeer? && !e.RemoveUser? && !e.RefreshConfiguration?
    ensures HasEntry(Step(resolve, s, e).xdp, address, owner,
      if (e.SetAuthorized? || e.UpdateNodeAssociation?) && e.address == address then e.node else node)
  {
    hide TableFor, Deciding, Expiry, Timeout;
  }

  lemma EntryNext(resolve: Resolver, s: State, es: seq<Event>, address: u32)
    requires es != [] && Agrees(s) && Proper(s, es[|es| - 1])
    requires forall user :: AccountIn(s, user) == LockOf(es[..|es| - 1], user)
    requires HasEntry(s.xdp, address, OwnerOf(es[..|es| - 1], address), NodeOf(es[..|es| - 1], address))
    ensures HasEntry(Step(resolve, s, es[|es| - 1]).xdp, address, OwnerOf(es, address), NodeOf(es, address))
  {
    var e, owner, node := es[|es| - 1], OwnerOf(es[..|es| - 1], address), NodeOf(es[..|es| - 1], address);
    if e.AddPeer? || e.RemoveUser? {
      assert AccountIn(s, e.user) == LockOf(es[..|es| - 1], e.user);
    }
    hide Step, LockOf, Agrees, Proper, AccountIn;
    match e
    case AddPeer(_, _, _, _) => PeerEntry(resolve, s, e, address, owner, node);
    case RemovePeer(_) => PeerEntry(resolve, s, e, address, owner, node);
    case RemoveUser(_) => PeerEntry(resolve, s, e, address, owner, node);
    case RefreshConfiguration(minutes, users) => RefreshSets(resolve, s, minutes, users);
    case _ => OtherEntry(resolve, s, e, address, owner, node);
  }

  lemma {:induction false} EntriesFollow(resolve: Resolver, s: State, es: seq<Event>, address: u32)
    requires Agrees(s) && s.xdp.devices == map[] && s.xdp.accountLocked == map[] && ProperRun(resolve, s, es)
    ensures HasEntry(Run(resolve, s, es).xdp, address, OwnerOf(es, address), NodeOf(es, address))
  {
    hide Step, Agrees, Proper, HasEntry, LockOf, OwnerOf, NodeOf;
    if es == [] {
      NoEntry(s, address);
    } else {
      var n := |es| - 1;
      ProperPrefix(resolve, s, es, n);
      EntriesFollow(resolve, s, es[..n], address);
      RunAgrees(resolve, s, es[..n]);
      forall user ensures AccountIn(Run(resolve, s, es[..n]), user) == LockOf(es[..n], user) {
        AccountsFollow(resolve, s, es[..n], user);
      }
      EntryNext(resolve, Run(resolve, s, es[..n]), es, address);
    }
  }

  lemma NoEntry(s: State, address: u32)
    requires s.xdp.devices == map[]
    ensures HasEntry(s.xdp, address, OwnerOf([], address), NodeOf([], address))
  {}

  lemma SettingsAfter(resolve: Resolver, s: State, e: Event)
    requires !e.RefreshConfiguration?
    ensures var t := Step(resolve, s, e).xdp;
      && t.nodeId == s.xdp.nodeId
      && t.inactivityTimeout == if e.SetInactivityTimeout? then Timeout(e.minutes) else s.xdp.inactivityTimeout
  {
    hide TableFor, DevicesAfter, DeauthenticateAll, Timeout, Refreshed, Expiry;
  }

  lemma SettingsNext(resolve: Resolver, s: State, es: seq<Event>, first: u64)
    requires es != [] && s.xdp.inactivityTimeout == TimeoutOf(es[..|es| - 1], first)
    ensures Step(resolve, s, es[|es| - 1]).xdp.inactivityTimeout == TimeoutOf(es, first)
    ensures Step(resolve, s, es[|es| - 1]).xdp.nodeId == s.xdp.nodeId
  {
    hide Step, Timeout;
    var e := es[|es| - 1];
    if e.RefreshConfiguration? {
      RefreshSets(resolve, s, e.minutes, e.users);
    } else {
      SettingsAfter(resolve, s, e);
    }
  }

  lemma {:induction false} SettingsFollow(resolve: Resolver, s: State, es: seq<Event>)
    ensures Run(resolve, s, es).xdp.inactivityTimeout == TimeoutOf(es, s.xdp.inactivityTimeout)
    ensures Run(resolve, s, es).xdp.nodeId == s.xdp.nodeId
  {
    hide Step, Timeout;
    if es != [] {
      var n := |es| - 1;
      SettingsFollow(resolve, s, es[..n]);
      SettingsNext(resolve, Run(resolve, s, es[..n]), es, s.xdp.inactivityTimeout);
    }
  }

  // The key a device's peer is removed by is the one last given for the device.
  ghost predicate HasKey(s: State, address: u32, owner: Option<string>, key: string) {
    owner.Some? ==>
      && owner.value in s.usersToAddresses
      && address in s.usersToAddresses[owner.value]
      && s.usersToAddresses[owner.value][address] == key
  }

  lemma PeerKey(resolve: Resolver, s: State, e: Event, address: u32, owner: Option<string>, node: u64, key: string)
    requires Agrees(s) && Proper(s, e) && HasEntry(s.xdp, address, owner, node) && HasKey(s, address, owner, key)
    requires e.AddPeer? || e.RemovePeer? || e.ReplacePeer? || e.AddUser? || e.RemoveUser?
    ensures var t := Step(resolve, s, e);
      var added := e.AddPeer? && e.address == address && owner.None? && AccountIn(s, e.user).Some?;
      var left := (e.RemovePeer? && e.address == address)
        || (e.RemoveUser? && AccountIn(s, e.user).Some? && owner == Some(e.user));
      var rekeyed := e.ReplacePeer? && e.address == address && owner == Some(e.user);
      HasKey(t, address, if added then Some(e.user) else if left then None else owner,
        if added || rekeyed then e.publicKey else key)
  {
    hide TableFor;
    if !e.RemovePeer? { IndexIsOwnership(s, e.user); }
  }

  lemma OtherKey(resolve: Resolver, s: State, e: Event, address: u32, owner: Option<string>, key: string)
    requires HasKey(s, address, owner, key)
    requires !e.AddPeer? && !e.RemovePeer? && !e.ReplacePeer? && !e.AddUser? && !e.RemoveUser?
    ensures HasKey(Step(resolve, s, e), address, owner, key)
  {
    hide TableFor, DevicesAfter, DeauthenticateAll, Expiry, Timeout;
  }

  lemma KeyNext(resolve: Resolver, s: State, es: seq<Event>, address: u32)
    requires es != [] && Agrees(s) && Proper(s, es[|es| - 1])
    requires forall user :: AccountIn(s, user) == LockOf(es[..|es| - 1], user)
    requires HasEntry(s.xdp, address, OwnerOf(es[..|es| - 1], address), NodeOf(es[..|es| - 1], address))
    requires HasKey(s, address, OwnerOf(es[..|es| - 1], address), KeyOf(es[..|es| - 1], address))
    ensures HasKey(Step(resolve, s, es[|es| - 1]), address, OwnerOf(es, address), KeyOf(es, address))
  {
    var e, owner, key := es[|es| - 1], OwnerOf(es[..|es| - 1], address), KeyOf(es[..|es| - 1], address);
    if e.AddPeer? || e.RemoveUser? {
      assert AccountIn(s, e.user) == LockOf(es[..|es| - 1], e.user);
    }
    hide Step, LockOf, Agrees, Proper, AccountIn, HasEntry, HasKey, NodeOf;
    if e.AddPeer? || e.RemovePeer? || e.ReplacePeer? || e.AddUser? || e.RemoveUser? {
      PeerKey(resolve, s, e, address, owner, NodeOf(es[..|es| - 1], address), key);
    } else {
      OtherKey(resolve, s, e, address, owner, key);
    }
  }

  lemma {:induction false} KeysFollow(resolve: Resolver, s: State, es: seq<Event>, address: u32)
    requires Agrees(s) && s.xdp.devices == map[] && s.xdp.accountLocked == map[] && ProperRun(resolve, s, es)
    ensures HasKey(Run(resolve, s, es), address, OwnerOf(es, address), KeyOf(es, address))
  {
    hide Step, Agrees, Proper, HasEntry, HasKey, LockOf, OwnerOf, NodeOf, KeyOf;
    if es == [] {
      NoKey(s, address);
    } else {
      var n := |es| - 1;
      ProperPrefix(resolve, s, es, n);
      KeysFollow(resolve, s, es[..n], address);
      EntriesFollow(resolve, s, es[..n], address);
      RunAgrees(resolve, s, es[..n]);
      forall user ensures AccountIn(Run(resolve, s, es[..n]), user) == LockOf(es[..n], user) {
        AccountsFollow(resolve, s, es[..n], user);
      }
      KeyNext(resolve, Run(resolve, s, es[..n]), es, address);
    }
  }

  lemma NoKey(s: State, address: u32)
    ensures HasKey(s, address, OwnerOf([], address), KeyOf([], address))
  {}

  // ---- The session, from the calls and the packets ----

  ghost predicate RulesCover(resolve: Resolver, acl: Acl, other: u32) {
    var rules := SortedRules(resolve, acl.mfa, acl.allow, acl.deny);
    EveryBucketFits(rules) && exists key :: key in KeysOf(rules) && Covers(key, other)
  }

  // The packet is activity of the device: it is at one end, its owner has an account and lists with a rule
  // that covers the other end, and it has not been idle for the timeout since it was last seen.
  ghost predicate Heard(resolve: Resolver, first: u64, es: seq<Event>, ip: IpInfo, now: u64, device: u32, since: u64) {
    var end, owner := EndOf(es, ip), OwnerOf(es, device);
    && end.Some? && end.value.0 == device
    && owner.Some? && LockOf(es, owner.value).Some?
    && AclOf(es, owner.value).Some? && RulesCover(resolve, AclOf(es, owner.value).value, end.value.1)
    && Within(TimeoutOf(es, first), now - since)
  }

  // The grant in force, by its place in the run, and the latest activity since.
  ghost function HistorySession(resolve: Resolver, first: u64, es: seq<Event>, device: u32): (r: Option<Session>)
    ensures r.Some? ==> r.value.grant < |es| && es[r.value.grant].SetAuthorized?
  {
    if es == [] then None
    else
      var n := |es| - 1;
      var owner, session := OwnerOf(es[..n], device), HistorySession(resolve, first, es[..n], device);
      match es[n]
      case SetAuthorized(a, _, _, seen, _, _) => if a == device && owner.Some? then Some(Session(n, seen)) else session
      case Deauthenticate(a) => if a == device then None else session
      case RemovePeer(a) => if a == device then None else session
      case DeauthenticateAllDevices(user) => if owner == Some(user) then None else session
      case SetLockAccount(user, _) => if owner == Some(user) then None else session
      case RemoveUser(user) => if owner == Some(user) then None else session
      case Packet(ip, now) =>
        if session.Some? && Heard(resolve, first, es[..n], ip, now, device, session.value.seen)
        then Some(session.value.(seen := now))
        else session
      case _ => session
  }

  // What a run so far has made of the firewall, as the calls tell it.
  ghost predicate Told(resolve: Resolver, first: u64, s: State, es: seq<Event>, device: u32) {
    && Agrees(s)
    && HasEntry(s.xdp, device, OwnerOf(es, device), NodeOf(es, device))
    && s.xdp.inactivityTimeout == TimeoutOf(es, first)
    && (forall user :: AccountIn(s, user) == LockOf(es, user))
    && (forall user :: HasRoutes(resolve, s, user, AclOf(es, user)))
    && (forall ip :: Endpoint(s.xdp, ip) == EndOf(es, ip))
  }

  lemma RunIsTold(resolve: Resolver, s: State, es: seq<Event>, device: u32)
    requires Empty(s) && ProperRun(resolve, s, es)
    ensures Told(resolve, s.xdp.inactivityTimeout, Run(resolve, s, es), es, device)
  {
    EmptyAgrees(s);
    hide Run, Agrees, ProperRun, AclOf, OwnerOf, LockOf, NodeOf, TimeoutOf, HasRoutes, AccountIn;
    var t := Run(resolve, s, es);
    RunAgrees(resolve, s, es);
    EntriesFollow(resolve, s, es, device);
    SettingsFollow(resolve, s, es);
    forall user ensures AccountIn(t, user) == LockOf(es, user) && HasRoutes(resolve, t, user, AclOf(es, user)) {
      AccountsFollow(resolve, s, es, user);
      RoutesFollowLists(resolve, s, es, user);
    }
    forall ip ensures Endpoint(t.xdp, ip) == EndOf(es, ip) {
      EntriesFollow(resolve, s, es, ip.srcIp);
      EntriesFollow(resolve, s, es, ip.dstIp);
    }
  }

  lemma TableCovers(resolve: Resolver, acl: Acl, other: u32)
    ensures RulesCover(resolve, acl, other) <==> exists key :: key in TableFor(resolve, acl) && Covers(key, other)
  {
    hide EveryBucketFits, SortedRules, KeysOf, Covers, CompiledTable;
    CompiledTableHolds(resolve, acl.mfa, acl.allow, acl.deny);
  }

  lemma RecordingIs(t: State, ip: IpInfo, now: u64, device: u32)
    requires device in t.xdp.devices && t.xdp.devices[device].lastPacketTime <= now
    ensures var end, d := Endpoint(t.xdp, ip), t.xdp.devices[device];
      RecordsOn(t, Packet(ip, now), device) <==>
        && end.Some? && end.value.0 == device
        && d.userId in t.xdp.accountLocked && Routed(t.xdp, d.userId, end.value.1)
        && Within(t.xdp.inactivityTimeout, now - d.lastPacketTime)
  {
    hide Covers;
  }

  // A packet records activity on a device exactly when, by the calls so far, it is heard.
  lemma RecordingIsHeard(resolve: Resolver, first: u64, s: State, es: seq<Event>, ip: IpInfo, now: u64, device: u32)
    requires Told(resolve, first, s, es, device)
    requires device in s.xdp.devices && s.xdp.devices[device].lastPacketTime <= now
    ensures RecordsOn(s, Packet(ip, now), device) <==>
      Heard(resolve, first, es, ip, now, device, s.xdp.devices[device].lastPacketTime)
  {
    var user := s.xdp.devices[device].userId;
    assert Endpoint(s.xdp, ip) == EndOf(es, ip);
    assert AccountIn(s, user) == LockOf(es, user);
    assert HasRoutes(resolve, s, user, AclOf(es, user));
    assert OwnerOf(es, device) == Some(user) && s.xdp.inactivityTimeout == TimeoutOf(es, first);
    hide Told, Agrees, AclOf, OwnerOf, LockOf, NodeOf, TimeoutOf, RulesCover, Covers, RecordsOn;
    hide EndOf, Endpoint, Within;
    RecordingIs(s, ip, now, device);
    if AclOf(es, user).Some? && EndOf(es, ip).Some? {
      TableCovers(resolve, AclOf(es, user).value, EndOf(es, ip).value.1);
    }
  }

  lemma EndingIsTold(resolve: Resolver, first: u64, s: State, es: seq<Event>, e: Event, device: u32)
    requires Told(resolve, first, s, es, device)
    ensures var owner := OwnerOf(es, device);
      && (Grants(s, e, device) <==> e.SetAuthorized? && e.address == device && owner.Some?)
      && (Ends(s, e, device) <==>
          || ((e.Deauthenticate? || e.RemovePeer?) && e.address == device)
          || ((e.DeauthenticateAllDevices? || e.SetLockAccount? || e.RemoveUser?) && owner == Some(e.user)))
  {
    hide Agrees, AclOf, OwnerOf, LockOf, NodeOf, TimeoutOf;
  }

  lemma {:induction false} SessionsFollow(resolve: Resolver, s: State, es: seq<Event>, device: u32, now: u64)
    requires Empty(s) && ProperRun(resolve, s, es) && ClockRuns(es, now)
    ensures SessionOf(resolve, s, es, device) == HistorySession(resolve, s.xdp.inactivityTimeout, es, device)
  {
    hide Run, Told, ProperRun, Grants, Ends, RecordsOn, Heard, OwnerOf;
    if es != [] {
      var n := |es| - 1;
      var before := Run(resolve, s, es[..n]);
      ProperPrefix(resolve, s, es, n);
      SessionsFollow(resolve, s, es[..n], device, now);
      RunIsTold(resolve, s, es[..n], device);
      EndingIsTold(resolve, s.xdp.inactivityTimeout, before, es[..n], es[n], device);
      if es[n].Packet? && SessionOf(resolve, s, es[..n], device).Some? {
        LastSeen(resolve, s, es, device, now);
        RecordingIsHeard(resolve, s.xdp.inactivityTimeout, before, es[..n], es[n].ip, es[n].now, device);
      } else {
        OnlyPackets(before, es[n], device);
      }
    }
  }

  lemma OnlyPackets(s: State, e: Event, device: u32)
    ensures RecordsOn(s, e, device) ==> e.Packet?
  {}

  // Before a packet comes, a device with a session was last seen when the history says, in the past.
  lemma LastSeen(resolve: Resolver, s: State, es: seq<Event>, device: u32, now: u64)
    requires Empty(s) && ProperRun(resolve, s, es) && ClockRuns(es, now) && es != [] && es[|es| - 1].Packet?
    requires SessionOf(resolve, s, es[..|es| - 1], device).Some?
    ensures var front := es[..|es| - 1];
      var devices := Run(resolve, s, front).xdp.devices;
      && device in devices
      && devices[device].lastPacketTime == SessionOf(resolve, s, front, device).value.seen <= es[|es| - 1].now
  {
    EmptyAgrees(s);
    var n := |es| - 1;
    ClockPrefix(es, now);
    hide Run, Agrees, SessionOf, ClockRuns;
    ProperPrefix(resolve, s, es, n);
    hide ProperRun;
    EntryIsHistory(resolve, s, es[..n], device);
    SeenIsPast(resolve, s, es[..n], device, es[n].now);
  }

  lemma ClockPrefix(es: seq<Event>, now: u64)
    requires es != [] && es[|es| - 1].Packet? && ClockRuns(es, now)
    ensures ClockRuns(es[..|es| - 1], es[|es| - 1].now)
  {}

  // ---- The verdict from the calls alone ----

  // The device's address, the address on the other side, and the port on the other side.
  function EndOf(es: seq<Event>, ip: IpInfo): Option<(u32, u32, u16)> {
    if OwnerOf(es, ip.srcIp).Some? then Some((ip.srcIp, ip.dstIp, Ntohs(ip.dstPort)))
    else if OwnerOf(es, ip.dstIp).Some? then Some((ip.dstIp, ip.srcIp, Ntohs(ip.srcPort)))
    else None
  }

  // The session test of a device: it is on this node, its owner's account is unlocked, and it has a grant
  // that is not ended, expired or idle.
  ghost predicate LiveByHistory(resolve: Resolver, s: State, es: seq<Event>, device: u32, now: u64) {
    var owner := OwnerOf(es, device);
    var session := HistorySession(resolve, s.xdp.inactivityTimeout, es, device);
    && NodeOf(es, device) == s.xdp.nodeId
    && owner.Some? && LockOf(es, owner.value) == Some(0)
    && session.Some?
    && Within(TimeoutOf(es, s.xdp.inactivityTimeout), now - session.value.seen)
    && (var expiry := Expiry(es[session.value.grant].start, es[session.value.grant].minutes);
        expiry != 0 && (expiry == MAX_U64 || now < expiry))
  }

  predicate StorableAcl(resolve: Resolver, acl: Acl) {
    PortsStorable(SortedRules(resolve, acl.mfa, acl.allow, acl.deny))
  }

  // The rules of the lists, as written, let the packet pass, within the two limits of a bucket.
  ghost predicate AclPasses(resolve: Resolver, acl: Acl, other: u32, proto: u8, port: u16, live: bool) {
    var rules := SortedRules(resolve, acl.mfa, acl.allow, acl.deny);
    EveryBucketFits(rules) && DecidingBucketEnds(rules, other) && SourceVerdict(rules, other, proto, port, live)
  }

  // The lists that decide the packet: those last given for the owner of the device.
  function Deciders(es: seq<Event>, ip: IpInfo): Option<Acl> {
    if EndOf(es, ip).None? then None
    else
      var owner := OwnerOf(es, EndOf(es, ip).value.0);
      if owner.Some? then AclOf(es, owner.value) else None
  }

  ghost predicate HistoryPasses(resolve: Resolver, s: State, es: seq<Event>, ip: IpInfo, now: u64) {
    match EndOf(es, ip)
    case None => false
    case Some((device, other, port)) =>
      var live := LiveByHistory(resolve, s, es, device, now);
      Deciders(es, ip).Some? && AclPasses(resolve, Deciders(es, ip).value, other, ip.proto, port, live)
  }

  // After any run from an empty firewall, under one clock that does not go back, a packet passes exactly
  // when one end is a device whose owner has been given lists, and those lists, as written, let it pass
  // with the session that the device has by then.
  lemma VerdictIsHistory(resolve: Resolver, s: State, es: seq<Event>, ip: IpInfo, now: u64)
    requires Empty(s) && ProperRun(resolve, s, es) && ClockRuns(es, now)
    requires Deciders(es, ip).Some? ==> StorableAcl(resolve, Deciders(es, ip).value)
    ensures Passes(Run(resolve, s, es).xdp, ip, now) <==> HistoryPasses(resolve, s, es, ip, now)
  {
    hide Run, Agrees, ProperRun, ClockRuns, AclOf, OwnerOf, StorableAcl, AclPasses, LiveByHistory, SessionLive, Passes;
    var t := Run(resolve, s, es).xdp;
    EmptyAgrees(s);
    RunAgrees(resolve, s, es);
    EntriesFollow(resolve, s, es, ip.srcIp);
    EntriesFollow(resolve, s, es, ip.dstIp);
    assert Endpoint(t, ip) == EndOf(es, ip);
    if EndOf(es, ip).None? {
      NoEndNoPass(t, ip, now);
    } else {
      var device, other, port := EndOf(es, ip).value.0, EndOf(es, ip).value.1, EndOf(es, ip).value.2;
      OwnerHasAccount(Run(resolve, s, es), ip, device, other, port);
      LiveIsHistory(resolve, s, es, device, now);
      RoutesFollowLists(resolve, s, es, t.devices[device].userId);
      if Deciders(es, ip).None? {
        NoTableNoPass(t, ip, now, device, other, port);
      } else {
        ListsDecide(resolve, t, Deciders(es, ip).value, ip, now, device, other, port);
      }
    }
  }

  predicate Empty(s: State) {
    && s.xdp.devices == map[] && s.xdp.accountLocked == map[] && s.xdp.policies == map[]
    && s.userPolicyMaps == {} && s.usersToAddresses == map[]
  }

  lemma EmptyAgrees(s: State)
    requires Empty(s)
    ensures Agrees(s)
  {}

  lemma OwnerHasAccount(s: State, ip: IpInfo, device: u32, other: u32, port: u16)
    requires Agrees(s) && Endpoint(s.xdp, ip) == Some((device, other, port))
    ensures device in s.xdp.devices && s.xdp.devices[device].userId in s.xdp.accountLocked
  {}

  lemma LiveIsHistory(resolve: Resolver, s: State, es: seq<Event>, device: u32, now: u64)
    requires Empty(s) && ProperRun(resolve, s, es) && ClockRuns(es, now)
    requires var t := Run(resolve, s, es).xdp; device in t.devices && t.devices[device].userId in t.accountLocked
    ensures var t := Run(resolve, s, es).xdp;
      SessionLive(t, t.devices[device], now) <==> LiveByHistory(resolve, s, es, device, now)
  {
    hide Run, Agrees, ProperRun, ClockRuns, SessionOf, SessionLive, Expiry, OwnerOf, NodeOf, LockOf, TimeoutOf;
    EmptyAgrees(s);
    LiveExactly(resolve, s, es, device, now);
    SessionsFollow(resolve, s, es, device, now);
    EntriesFollow(resolve, s, es, device);
    AccountsFollow(resolve, s, es, Run(resolve, s, es).xdp.devices[device].userId);
    SettingsFollow(resolve, s, es);
  }

  lemma NoEndNoPass(t: Tables, ip: IpInfo, now: u64)
    requires Endpoint(t, ip).None?
    ensures !Passes(t, ip, now)
  {}

  lemma NoTableNoPass(t: Tables, ip: IpInfo, now: u64, device: u32, other: u32, port: u16)
    requires Endpoint(t, ip) == Some((device, other, port)) && t.devices[device].userId !in t.policies
    ensures !Passes(t, ip, now)
  {}

  lemma ListsDecide(resolve: Resolver, t: Tables, acl: Acl, ip: IpInfo, now: u64, device: u32, other: u32, port: u16)
    requires Endpoint(t, ip) == Some((device, other, port)) && t.devices[device].userId in t.accountLocked
    requires t.devices[device].userId in t.policies && StorableAcl(resolve, acl)
    requires t.policies[t.devices[device].userId] == TableFor(resolve, acl)
    ensures Passes(t, ip, now) <==>
      AclPasses(resolve, acl, other, ip.proto, port, SessionLive(t, t.devices[device], now))
  {
    CompiledVerdict(resolve, acl.mfa, acl.allow, acl.deny, t, ip, now, device, other, port);
  }

  // ---- The verdict from the stored policies ----

  // Some stored policy that applies to the user, or the DNS and server rules, contains the rule's text.
  ghost predicate Stored(store: PolicyStore, user: string, effect: Effect, text: string) {
    match effect
    case Mfa => Guarded(store, user, text)
    case Allow => Allowed(store, user, text)
    case Deny => Denied(store, user, text)
  }

  // The list is the readable rules that apply to the user, in any order and number.
  ghost predicate Governs(resolve: Resolver, store: PolicyStore, user: string, rules: seq<SourceRule>) {
    forall r :: r in rules <==> exists text ::
      Stored(store, user, r.effect, text) && ReadRule(resolve, r.effect, text) == Ok(r)
  }

  lemma EffectiveMembers(resolve: Resolver, store: PolicyStore, user: string, acl: Acl, r: SourceRule)
    requires IsEffective(store, user, acl)
    ensures r in AllRules(resolve, acl.mfa, acl.allow, acl.deny) <==> exists text ::
      Stored(store, user, r.effect, text) && ReadRule(resolve, r.effect, text) == Ok(r)
  {
    hide ReadRule, Allowed, Guarded, Denied, Readable;
    ReadableMembers(resolve, Mfa, acl.mfa, r);
    ReadableMembers(resolve, Allow, acl.allow, r);
    ReadableMembers(resolve, Deny, acl.deny, r);
    ReadHasEffect(resolve, r);
  }

  lemma ReadHasEffect(resolve: Resolver, r: SourceRule)
    ensures forall effect, text :: ReadRule(resolve, effect, text) == Ok(r) ==> effect == r.effect
  {}

  // When the lists last given for the owner are the effective ones of a store, and every bucket is below
  // the limit, the packet passes exactly when the rules that apply to the owner in that store say so.
  lemma VerdictIsStored(resolve: Resolver, s: State, es: seq<Event>, ip: IpInfo, now: u64,
                        device: u32, other: u32, port: u16,
                        store: PolicyStore, acl: Acl, rules: seq<SourceRule>)
    requires Empty(s) && ProperRun(resolve, s, es) && ClockRuns(es, now)
    requires EndOf(es, ip) == Some((device, other, port)) && OwnerOf(es, device).Some?
    requires Deciders(es, ip) == Some(acl) && StorableAcl(resolve, acl) && BelowLimit(resolve, acl)
    requires IsEffective(store, OwnerOf(es, device).value, acl)
    requires Governs(resolve, store, OwnerOf(es, device).value, rules)
    ensures Passes(Run(resolve, s, es).xdp, ip, now) <==>
      SourceVerdict(rules, other, ip.proto, port, LiveByHistory(resolve, s, es, device, now))
  {
    VerdictIsHistory(resolve, s, es, ip, now);
    var user, live := OwnerOf(es, device).value, LiveByHistory(resolve, s, es, device, now);
    hide *;
    StoredReading(resolve, store, user, acl, rules, other, ip.proto, port, live);
  }

  ghost predicate BelowLimit(resolve: Resolver, acl: Acl) {
    var rules := SortedRules(resolve, acl.mfa, acl.allow, acl.deny);
    forall key :: key in KeysOf(rules) ==> |Bucket(rules, key)| < MAX_POLICIES
  }

  lemma StoredReading(resolve: Resolver, store: PolicyStore, user: string, acl: Acl, rules: seq<SourceRule>,
                      other: u32, proto: u8, port: u16, live: bool)
    requires IsEffective(store, user, acl) && Governs(resolve, store, user, rules) && BelowLimit(resolve, acl)
    ensures AclPasses(resolve, acl, other, proto, port, live) <==> SourceVerdict(rules, other, proto, port, live)
  {
    hide IsEffective, AllRules, SortedRules, SourceVerdict, ReadRule, Stored, KeysOf, Bucket;
    var all := AllRules(resolve, acl.mfa, acl.allow, acl.deny);
    forall r ensures r in rules <==> r in all { EffectiveMembers(resolve, store, user, acl, r); }
    VerdictOfMembers(rules, all, other, proto, port, live);
    SortedReading(resolve, acl.mfa, acl.allow, acl.deny, other, proto, port, live);
  }
}
