// The Go side of the firewall: accounts, peers and sessions in the tables the filter reads, and the
// two indexes between users and addresses.

module Router {
  import opened Numbers
  import opened Options
  import opened Prefixes
  import opened Rules
  import opened Compiler
  import opened Filter
  import opened Meaning

  const NANOSECONDS_PER_MINUTE := 60_000_000_000

  datatype Acl = Acl(mfa: seq<string>, allow: seq<string>, deny: seq<string>)

  datatype State = State(
    xdp: Tables,
    userPolicyMaps: set<string>,
    usersToAddresses: map<string, map<u32, string>>,
    addressesToUsers: map<u32, string>)

  // A stored user record as a refresh reads it, with the rules that apply to the user at that moment.
  datatype StoredUser = StoredUser(user: string, locked: bool, acl: Acl)

  function LockValue(locked: bool): u32 { if locked then 1 else 0 }

  // The calls that change the firewall, and the packets it sees. SetAuthorized reads the clock twice.
  datatype Event =
    | AddUser(user: string, acl: Acl)
    | RemoveUser(user: string)
    | RefreshUserAcls(user: string, acl: Acl)
    | SetLockAccount(user: string, locked: u32)
    | AddPeer(publicKey: string, user: string, address: u32, node: u64)
    | RemovePeer(address: u32)
    | ReplacePeer(user: string, address: u32, publicKey: string)
    | SetAuthorized(address: u32, user: string, node: u64, seen: u64, start: u64, minutes: int)
    | Deauthenticate(address: u32)
    | DeauthenticateAllDevices(user: string)
    | UpdateNodeAssociation(address: u32, node: u64)
    | SetInactivityTimeout(minutes: int)
    | RefreshConfiguration(minutes: int, users: seq<StoredUser>)
    | Packet(ip: IpInfo, now: u64)

  // ---- Minutes in 64-bit nanoseconds; a negative number of minutes disables the limit ----

  function Timeout(minutes: int): u64 {
    if minutes < 0 then MAX_U64 else minutes * NANOSECONDS_PER_MINUTE % TWO64
  }

  function Expiry(start: u64, minutes: int): u64 {
    if minutes < 0 then MAX_U64 else (start + minutes * NANOSECONDS_PER_MINUTE) % TWO64
  }

  // Short of the end of the 64-bit clock the two are plain sums; beyond it they wrap.
  lemma MinutesExactly(start: u64, minutes: int)
    ensures minutes < 0 ==> Timeout(minutes) == MAX_U64 && Expiry(start, minutes) == MAX_U64
    ensures 0 <= minutes * 60_000_000_000 < TWO64 ==> Timeout(minutes) == minutes * 60_000_000_000
    ensures 0 <= minutes && start + minutes * 60_000_000_000 < TWO64 ==>
      Expiry(start, minutes) == start + minutes * 60_000_000_000
    ensures 0 <= minutes ==> (start + minutes * 60_000_000_000 - Expiry(start, minutes)) % TWO64 == 0
  {
    var sum := start + minutes * 60_000_000_000;
    assert sum - sum % TWO64 == sum / TWO64 * TWO64;
    assert (sum / TWO64 * TWO64) % TWO64 == 0;
  }

  // A grant that ends before the end of the clock is good exactly from its start for its lifetime.
  lemma LifetimeExactly(start: u64, minutes: int, now: u64)
    requires start > 0 && (minutes < 0 || start + minutes * 60_000_000_000 < MAX_U64)
    ensures var expiry := Expiry(start, minutes);
      (expiry != 0 && (expiry == MAX_U64 || now < expiry)) <==> minutes < 0 || now < start + minutes * 60_000_000_000
  {}

  // ---- What each call does ----

  function AddressesOf(s: State, user: string): map<u32, string> {
    if user in s.usersToAddresses then s.usersToAddresses[user] else map[]
  }

  function Unauthenticated(d: Device): Device {
    d.(lastPacketTime := 0, sessionExpiry := 0)
  }

  function DeauthenticateAll(devices: map<u32, Device>, addresses: set<u32>): map<u32, Device> {
    map a | a in devices :: if a in addresses then Unauthenticated(devices[a]) else devices[a]
  }

  function WithDevices(s: State, devices: map<u32, Device>): State {
    s.(xdp := s.xdp.(devices := devices))
  }

  function WithRoutes(s: State, user: string, table: RouteTable): State {
    if user !in s.userPolicyMaps then
      if user in s.xdp.policies then s
      else s.(xdp := s.xdp.(policies := s.xdp.policies[user := table]), userPolicyMaps := s.userPolicyMaps + {user})
    else if user in s.xdp.policies then
      s.(xdp := s.xdp.(policies := s.xdp.policies[user := table]))
    else s
  }

  function TableFor(resolve: Resolver, acl: Acl): RouteTable {
    CompiledTable(resolve, acl.mfa, acl.allow, acl.deny)
  }

  // The user's record in what a refresh read.
  function RecordOf(users: seq<StoredUser>, user: string): (r: Option<StoredUser>)
    ensures r.Some? <==> exists u :: u in users && u.user == user
    ensures r.Some? ==> r.value in users && r.value.user == user
  {
    if users == [] then None
    else
      var last := users[|users| - 1];
      assert users == users[..|users| - 1] + [last];
      if last.user == user then Some(last) else RecordOf(users[..|users| - 1], user)
  }

  function Names(users: seq<StoredUser>): set<string> { set u | u in users :: u.user }

  function LocksOf(users: seq<StoredUser>): map<string, u32> {
    map user | user in Names(users) :: LockValue(RecordOf(users, user).value.locked)
  }

  function RoutesOf(resolve: Resolver, users: seq<StoredUser>): map<string, RouteTable> {
    map user | user in Names(users) :: TableFor(resolve, RecordOf(users, user).value.acl)
  }

  // Every stored user has the account as stored, and new routes.
  function Refreshed(resolve: Resolver, s: State, users: seq<StoredUser>): State {
    s.(xdp := s.xdp.(accountLocked := s.xdp.accountLocked + LocksOf(users),
                     policies := s.xdp.policies + RoutesOf(resolve, users)),
       userPolicyMaps := s.userPolicyMaps + Names(users))
  }

  function Step(resolve: Resolver, s: State, e: Event): State {
    match e
    case AddUser(user, acl) =>
      if user in s.xdp.accountLocked then s
      else
        var s1 := s.(xdp := s.xdp.(accountLocked := s.xdp.accountLocked[user := 0]));
        if user !in s.userPolicyMaps && user in s.xdp.policies then s1
        else
          var s2 := WithRoutes(s1, user, TableFor(resolve, acl));
          s2.(usersToAddresses := s2.usersToAddresses[user := map[]])
    case RemoveUser(user) =>
      if user !in s.xdp.accountLocked then s
      else
        var addresses := AddressesOf(s, user).Keys;
        State(s.xdp.(accountLocked := s.xdp.accountLocked - {user},
                     policies := s.xdp.policies - {user},
                     devices := s.xdp.devices - addresses),
              s.userPolicyMaps - {user},
              if addresses == {} then s.usersToAddresses else s.usersToAddresses[user := map[]],
              s.addressesToUsers)
    case RefreshUserAcls(user, acl) => WithRoutes(s, user, TableFor(resolve, acl))
    case SetLockAccount(user, locked) =>
      s.(xdp := s.xdp.(devices := DeauthenticateAll(s.xdp.devices, AddressesOf(s, user).Keys),
                       accountLocked := s.xdp.accountLocked[user := locked]))
    case AddPeer(publicKey, user, address, node) =>
      if address in s.xdp.devices || user !in s.xdp.accountLocked then s
      else
        State(s.xdp.(devices := s.xdp.devices[address := Device(0, 0, user, node)]),
              s.userPolicyMaps,
              s.usersToAddresses[user := AddressesOf(s, user)[address := publicKey]],
              s.addressesToUsers[address := user])
    case RemovePeer(address) =>
      var user := if address in s.addressesToUsers then s.addressesToUsers[address] else "";
      State(s.xdp.(devices := s.xdp.devices - {address}),
            s.userPolicyMaps,
            s.usersToAddresses[user := AddressesOf(s, user) - {address}],
            s.addressesToUsers)
    case ReplacePeer(user, address, publicKey) =>
      if user !in s.usersToAddresses then s
      else s.(usersToAddresses := s.usersToAddresses[user := AddressesOf(s, user)[address := publicKey]])
    case SetAuthorized(address, user, node, seen, start, minutes) =>
      if address !in s.xdp.devices then s
      else WithDevices(s, s.xdp.devices[address := Device(Expiry(start, minutes), seen, user, node)])
    case Deauthenticate(address) => WithDevices(s, DeauthenticateAll(s.xdp.devices, {address}))
    case DeauthenticateAllDevices(user) => WithDevices(s, DeauthenticateAll(s.xdp.devices, AddressesOf(s, user).Keys))
    case UpdateNodeAssociation(address, node) =>
      if address !in s.xdp.devices then s
      else WithDevices(s, s.xdp.devices[address := s.xdp.devices[address].(associatedNode := node)])
    case SetInactivityTimeout(minutes) => s.(xdp := s.xdp.(inactivityTimeout := Timeout(minutes)))
    case RefreshConfiguration(minutes, users) =>
      Refreshed(resolve, s.(xdp := s.xdp.(inactivityTimeout := Timeout(minutes))), users)
    case Packet(ip, now) => WithDevices(s, DevicesAfter(s.xdp, ip, now))
  }

  // ---- The indexes agree with the device table ----

  ghost predicate Agrees(s: State) {
    && (forall u, a :: (u in s.usersToAddresses && a in s.usersToAddresses[u]) <==>
      (a in s.xdp.devices && s.xdp.devices[a].userId == u))
    && (forall a :: a in s.xdp.devices ==> a in s.addressesToUsers && s.addressesToUsers[a] == s.xdp.devices[a].userId)
    && (forall a :: a in s.xdp.devices ==> s.xdp.devices[a].userId in s.xdp.accountLocked)
    && s.userPolicyMaps == s.xdp.policies.Keys
  }

  // Sessions are granted, and keys replaced, in the name of the device's owner.
  predicate Proper(s: State, e: Event) {
    match e
    case SetAuthorized(address, user, _, _, _, _) => address in s.xdp.devices ==> s.xdp.devices[address].userId == user
    case ReplacePeer(user, address, _) =>
      user in s.usersToAddresses ==> address in s.xdp.devices && s.xdp.devices[address].userId == user
    case _ => true
  }

  function OwnedBy(s: State, user: string): set<u32> {
    set a | a in s.xdp.devices && s.xdp.devices[a].userId == user
  }

  lemma IndexIsOwnership(s: State, user: string)
    requires Agrees(s)
    ensures AddressesOf(s, user).Keys == OwnedBy(s, user)
  {
    forall a ensures a in AddressesOf(s, user) <==> a in OwnedBy(s, user) {
      assert (user in s.usersToAddresses && a in s.usersToAddresses[user]) <==>
        (a in s.xdp.devices && s.xdp.devices[a].userId == user);
    }
  }

  // A change that moves no device between owners and forgets no account.
  lemma SameOwners(s: State, s': State)
    requires Agrees(s)
    requires s'.usersToAddresses == s.usersToAddresses && s'.addressesToUsers == s.addressesToUsers
    requires s'.xdp.devices.Keys == s.xdp.devices.Keys
    requires forall a :: a in s.xdp.devices ==> s'.xdp.devices[a].userId == s.xdp.devices[a].userId
    requires s.xdp.accountLocked.Keys <= s'.xdp.accountLocked.Keys && s'.userPolicyMaps == s'.xdp.policies.Keys
    ensures Agrees(s')
  {}

  lemma AddUserAgrees(resolve: Resolver, s: State, user: string, acl: Acl)
    requires Agrees(s)
    ensures Agrees(Step(resolve, s, AddUser(user, acl)))
  {
    hide TableFor;
    IndexIsOwnership(s, user);
  }

  lemma RemoveUserAgrees(resolve: Resolver, s: State, user: string)
    requires Agrees(s)
    ensures Agrees(Step(resolve, s, RemoveUser(user)))
  {
    IndexIsOwnership(s, user);
  }

  lemma PeerStepAgrees(resolve: Resolver, s: State, e: Event)
    requires Agrees(s) && Proper(s, e) && (e.AddPeer? || e.RemovePeer? || e.ReplacePeer?)
    ensures Agrees(Step(resolve, s, e))
  {
    match e
    case AddPeer(_, _, _, _) => AddPeerAgrees(resolve, s, e);
    case RemovePeer(_) => RemovePeerAgrees(resolve, s, e);
    case ReplacePeer(_, _, _) => ReplacePeerAgrees(resolve, s, e);
  }

  lemma AddPeerAgrees(resolve: Resolver, s: State, e: Event)
    requires Agrees(s) && e.AddPeer?
    ensures Agrees(Step(resolve, s, e))
  {}

  lemma RemovePeerAgrees(resolve: Resolver, s: State, e: Event)
    requires Agrees(s) && e.RemovePeer?
    ensures Agrees(Step(resolve, s, e))
  {}

  lemma ReplacePeerAgrees(resolve: Resolver, s: State, e: Event)
    requires Agrees(s) && e.ReplacePeer? && Proper(s, e)
    ensures Agrees(Step(resolve, s, e))
  {}

  lemma RefreshAgrees(resolve: Resolver, s: State, e: Event)
    requires Agrees(s) && e.RefreshConfiguration?
    ensures Agrees(Step(resolve, s, e))
  {}

  // Every call keeps the indexes in agreement with the device table.
  lemma StepAgrees(resolve: Resolver, s: State, e: Event)
    requires Agrees(s) && Proper(s, e)
    ensures Agrees(Step(resolve, s, e))
  {
    hide TableFor, Deciding, Agrees, Refreshed, Timeout;
    match e
    case AddUser(user, acl) => AddUserAgrees(resolve, s, user, acl);
    case RemoveUser(user) => RemoveUserAgrees(resolve, s, user);
    case AddPeer(_, _, _, _) => PeerStepAgrees(resolve, s, e);
    case RemovePeer(_) => PeerStepAgrees(resolve, s, e);
    case ReplacePeer(_, _, _) => PeerStepAgrees(resolve, s, e);
    case RefreshConfiguration(_, _) => RefreshAgrees(resolve, s, e);
    case _ =>
      assert s.userPolicyMaps == s.xdp.policies.Keys by { PoliciesAgree(s); }
      SameOwners(s, Step(resolve, s, e));
  }

  // A call that is not proper parts them: it files an address, or gives a device, to another user.
  lemma ImproperParts(resolve: Resolver, s: State, e: Event)
    requires Agrees(s) && !Proper(s, e)
    ensures !Agrees(Step(resolve, s, e))
  {
    hide Expiry;
    var t, u, a := Step(resolve, s, e), e.user, e.address;
    assert (u in s.usersToAddresses && a in s.usersToAddresses[u]) <==>
      (a in s.xdp.devices && s.xdp.devices[a].userId == u);
    assert (u in t.usersToAddresses && a in t.usersToAddresses[u]) !=
      (a in t.xdp.devices && t.xdp.devices[a].userId == u);
  }

  // So a call keeps the agreement if and only if it is made in the owner's name.
  lemma StepAgreesExactly(resolve: Resolver, s: State, e: Event)
    requires Agrees(s)
    ensures Agrees(Step(resolve, s, e)) <==> Proper(s, e)
  {
    hide Agrees, Step, Proper;
    if Proper(s, e) { StepAgrees(resolve, s, e); } else { ImproperParts(resolve, s, e); }
  }

  lemma PoliciesAgree(s: State)
    requires Agrees(s)
    ensures s.userPolicyMaps == s.xdp.policies.Keys
  {}

  // Locking an account, or unlocking it, ends every session of the user and no other.
  lemma LockEndsSessions(resolve: Resolver, s: State, user: string, locked: u32)
    requires Agrees(s)
    ensures var t := Step(resolve, s, SetLockAccount(user, locked)).xdp;
      && t.devices.Keys == s.xdp.devices.Keys
      && user in t.accountLocked && t.accountLocked[user] == locked
      && forall a :: a in t.devices ==>
        (t.devices[a] == if s.xdp.devices[a].userId == user then Unauthenticated(s.xdp.devices[a])
          else s.xdp.devices[a])
  {
    IndexIsOwnership(s, user);
  }

  // Removing a user leaves no account, no routes and no devices of that name.
  lemma RemoveUserRemoves(resolve: Resolver, s: State, user: string)
    requires Agrees(s) && user in s.xdp.accountLocked
    ensures var t := Step(resolve, s, RemoveUser(user)).xdp;
      && user !in t.accountLocked && user !in t.policies
      && (forall a :: a in t.devices <==> a in s.xdp.devices && s.xdp.devices[a].userId != user)
      && (forall a :: a in t.devices ==> t.devices[a] == s.xdp.devices[a])
  {
    IndexIsOwnership(s, user);
  }

  function Run(resolve: Resolver, s: State, es: seq<Event>): State {
    if es == [] then s else Step(resolve, Run(resolve, s, es[..|es| - 1]), es[|es| - 1])
  }

  ghost predicate ProperRun(resolve: Resolver, s: State, es: seq<Event>) {
    forall i :: 0 <= i < |es| ==> Proper(Run(resolve, s, es[..i]), es[i])
  }

  lemma ProperPrefix(resolve: Resolver, s: State, es: seq<Event>, n: nat)
    requires n <= |es| && ProperRun(resolve, s, es)
    ensures ProperRun(resolve, s, es[..n])
  {
    hide Step;
    forall i | 0 <= i < n ensures Proper(Run(resolve, s, es[..n][..i]), es[..n][i]) {
      assert es[..n][..i] == es[..i];
    }
  }

  lemma {:induction false} RunAgrees(resolve: Resolver, s: State, es: seq<Event>)
    requires Agrees(s) && ProperRun(resolve, s, es)
    ensures Agrees(Run(resolve, s, es))
  {
    hide Step, Agrees, Proper;
    if es != [] {
      var n := |es| - 1;
      ProperPrefix(resolve, s, es, n);
      RunAgrees(resolve, s, es[..n]);
      assert Proper(Run(resolve, s, es[..n]), es[n]);
      StepAgrees(resolve, Run(resolve, s, es[..n]), es[n]);
    }
  }

  // The calls that write an account.
  predicate Creates(e: Event, user: string) {
    || ((e.AddUser? || e.SetLockAccount?) && e.user == user)
    || (e.RefreshConfiguration? && RecordOf(e.users, user).Some?)
  }

  lemma RunOfFour(resolve: Resolver, s: State, a: Event, b: Event, c: Event, d: Event)
    ensures Run(resolve, s, [a, b, c, d]) == Step(resolve, Step(resolve, Step(resolve, Step(resolve, s, a), b), c), d)
  {
    hide Step, Run;
    RunNext(resolve, s, [], a);
    RunNext(resolve, s, [a], b);
    RunNext(resolve, s, [a, b], c);
    RunNext(resolve, s, [a, b, c], d);
    assert [] + [a] == [a] && [a] + [b] == [a, b] && [a, b] + [c] == [a, b, c] && [a, b, c] + [d] == [a, b, c, d];
    RunNothing(resolve, s);
  }

  lemma RunNothing(resolve: Resolver, s: State)
    ensures Run(resolve, s, []) == s
  {}

  lemma RunNext(resolve: Resolver, s: State, es: seq<Event>, e: Event)
    ensures Run(resolve, s, es + [e]) == Step(resolve, Run(resolve, s, es), e)
  {
    hide Step;
    assert (es + [e])[..|es|] == es;
  }

  function AccountIn(s: State, user: string): Option<u32> {
    if user in s.xdp.accountLocked then Some(s.xdp.accountLocked[user]) else None
  }

  lemma RefreshReads(resolve: Resolver, s: State, minutes: int, users: seq<StoredUser>, user: string)
    ensures AccountIn(Step(resolve, s, RefreshConfiguration(minutes, users)), user) ==
      match RecordOf(users, user)
      case None => AccountIn(s, user)
      case Some(r) => Some(LockValue(r.locked))
  {
    hide TableFor, Timeout;
  }

  // A packet is activity of the device at its end, the sender before the receiver, if the device's owner
  // has an account and a route that covers the other end, and the device has not been idle for the
  // timeout; whatever the protocol, the ports and the verdict. Nothing else changes.
  lemma PacketTouches(resolve: Resolver, s: State, ip: IpInfo, now: u64)
    ensures Step(resolve, s, Packet(ip, now)) == WithDevices(s,
      if ip.srcIp in s.xdp.devices then Touched(s.xdp, ip.srcIp, ip.dstIp, now)
      else if ip.dstIp in s.xdp.devices then Touched(s.xdp, ip.dstIp, ip.srcIp, now)
      else s.xdp.devices)
  {
    TouchedAfter(s.xdp, ip, now);
    hide DevicesAfter, Touched;
  }

  lemma TouchedAfter(t: Tables, ip: IpInfo, now: u64)
    ensures DevicesAfter(t, ip, now) ==
      if ip.srcIp in t.devices then Touched(t, ip.srcIp, ip.dstIp, now)
      else if ip.dstIp in t.devices then Touched(t, ip.dstIp, ip.srcIp, now)
      else t.devices
  {
    hide Covers;
  }

  ghost function Touched(t: Tables, device: u32, other: u32, now: u64): map<u32, Device>
    requires device in t.devices
  {
    var d := t.devices[device];
    if d.userId in t.accountLocked && Routed(t, d.userId, other)
      && (t.inactivityTimeout == MAX_U64 || (now - d.lastPacketTime) % TWO64 < t.inactivityTimeout)
    then t.devices[device := d.(lastPacketTime := now)]
    else t.devices
  }

  ghost predicate Routed(t: Tables, user: string, other: u32) {
    user in t.policies && exists key :: key in t.policies[user] && Covers(key, other)
  }

  lemma RefreshSets(resolve: Resolver, s: State, minutes: int, users: seq<StoredUser>)
    ensures var t := Step(resolve, s, RefreshConfiguration(minutes, users)).xdp;
      t.inactivityTimeout == Timeout(minutes) && t.nodeId == s.xdp.nodeId && t.devices == s.xdp.devices
  {}

  // ---- isAuthed, the control plane's own view of a session ----

  // The minutes setting is read from the store; the filter reads the value last installed.
  predicate IsAuthed(t: Tables, address: u32, minutes: int, now: u64) {
    && address in t.devices
    && t.devices[address].userId in t.accountLocked
    && t.accountLocked[t.devices[address].userId] == 0
    && (t.devices[address].sessionExpiry > now || t.devices[address].sessionExpiry == MAX_U64)
    && (Elapsed(now, t.devices[address].lastPacketTime) < minutes * NANOSECONDS_PER_MINUTE % TWO64 || minutes < 0)
  }

  // A whole number of minutes never reads as the sentinel that disables the timeout.
  lemma MinutesAreNotTheSentinel(minutes: nat)
    ensures Timeout(minutes) != MAX_U64
  {
    var n := minutes * NANOSECONDS_PER_MINUTE;
    assert n == 2 * (minutes * 30_000_000_000);
    EvenModulo(minutes * 30_000_000_000);
  }

  lemma EvenModulo(half: nat)
    ensures (2 * half) % TWO64 % 2 == 0
  {
    var q := (2 * half) / TWO64;
    assert (2 * half) % TWO64 == 2 * (half - q * (TWO64 / 2));
  }

  // With the stored minutes installed, the filter grants an mfa policy exactly when the control plane
  // calls the device authorised and the device belongs to this node.
  lemma ControlAndDataPlaneAgree(t: Tables, address: u32, minutes: int, now: u64)
    requires address in t.devices && t.devices[address].userId in t.accountLocked
    requires t.inactivityTimeout == Timeout(minutes)
    ensures SessionLive(t, t.devices[address], now) <==>
      IsAuthed(t, address, minutes, now) && t.nodeId == t.devices[address].associatedNode
  {
    if minutes >= 0 { MinutesAreNotTheSentinel(minutes); }
  }

  // ---- The program's own state ----

  class Firewall {
    const xdp: XdpMaps
    const compiler: RuleCompiler
    var userPolicyMaps: set<string>
    var usersToAddresses: map<string, map<u32, string>>
    var addressesToUsers: map<u32, string>

    function Current(): State
      reads this, xdp
    {
      State(xdp.Snapshot(), userPolicyMaps, usersToAddresses, addressesToUsers)
    }

    ghost predicate Valid()
      reads this, xdp, compiler
    {
      compiler.Valid() && Agrees(Current())
    }

    constructor (resolve: Resolver, node: u64, minutes: int)
      ensures Valid() && fresh(xdp) && fresh(compiler) && compiler.resolve == resolve
      ensures Current() == State(Tables(map[], map[], map[], node, Timeout(minutes)), {}, map[], map[])
    {
      xdp := new XdpMaps(node, Timeout(minutes));
      compiler := new RuleCompiler(resolve);
      userPolicyMaps, usersToAddresses, addressesToUsers := {}, map[], map[];
    }

    // xdpAddRoute on a cleared inner map: what it then holds. Rules with errors are skipped.
    method XdpAddRoute(acl: Acl) returns (table: RouteTable)
      requires compiler.Valid()
      modifies compiler
      ensures compiler.Valid()
      ensures table == TableFor(compiler.resolve, acl)
    {
      hide CompileSorted, Installable, Table;
      CompiledIsInstallable(compiler.resolve, acl.mfa, acl.allow, acl.deny);
      var rules, _ := compiler.ParseRules(acl.mfa, acl.allow, acl.deny);
      table := AddRoutes(map[], rules);
      assert table == Table(rules);
    }

    // setSingleUserMap: a new or cleared inner map, filled with the compiled routes.
    method SetSingleUserMap(user: string, acl: Acl) returns (ok: bool)
      requires compiler.Valid()
      modifies this`userPolicyMaps, xdp`policies, compiler
      ensures compiler.Valid()
      ensures Current() == WithRoutes(old(Current()), user, TableFor(compiler.resolve, acl))
      ensures ok == (user in old(userPolicyMaps) || user !in old(xdp.policies))
    {
      hide TableFor;
      if user !in userPolicyMaps {
        if user in xdp.policies {
          return false;
        }
        xdp.policies := xdp.policies[user := map[]];
        userPolicyMaps := userPolicyMaps + {user};
      }
      var table := XdpAddRoute(acl);
      if user in xdp.policies {
        xdp.policies := xdp.policies[user := table];
        assert xdp.policies == old(xdp.policies)[user := table];
      }
      ok := true;
    }

    method AddUser(user: string, acl: Acl) returns (ok: bool)
      requires Valid()
      modifies this, xdp, compiler
      ensures Valid()
      ensures Current() == Step(compiler.resolve, old(Current()), Event.AddUser(user, acl))
      ensures ok == (user !in old(xdp.accountLocked))
    {
      hide TableFor, Agrees;
      AddUserAgrees(compiler.resolve, Current(), user, acl);
      PoliciesAgree(Current());
      if user in xdp.accountLocked {
        return false;
      }
      xdp.accountLocked := xdp.accountLocked[user := 0];
      ok := SetSingleUserMap(user, acl);
      if !ok {
        return;
      }
      usersToAddresses := usersToAddresses[user := map[]];
    }

    method RefreshUserAcls(user: string, acl: Acl) returns (ok: bool)
      requires Valid()
      modifies this, xdp, compiler
      ensures Valid()
      ensures Current() == Step(compiler.resolve, old(Current()), Event.RefreshUserAcls(user, acl))
    {
      hide TableFor, Agrees;
      StepAgrees(compiler.resolve, Current(), Event.RefreshUserAcls(user, acl));
      ok := SetSingleUserMap(user, acl);
    }

    // Routes and locks of all stored users, and the timeout, as read from the store.
    method RefreshConfiguration(minutes: int, users: seq<StoredUser>)
      requires Valid()
      modifies this, xdp, compiler
      ensures Valid()
      ensures Current() == Step(compiler.resolve, old(Current()), Event.RefreshConfiguration(minutes, users))
    {
      hide Agrees, Timeout, LocksOf, RoutesOf, Names;
      StepAgrees(compiler.resolve, Current(), Event.RefreshConfiguration(minutes, users));
      SetInactivityTimeout(minutes);
      BulkCreateUserMaps(users);
    }

    // Every user gets a new map, which the batch insert puts in the table, to be filled at last.
    method BulkCreateUserMaps(users: seq<StoredUser>)
      requires compiler.Valid()
      modifies this`userPolicyMaps, xdp`policies, xdp`accountLocked, compiler
      ensures compiler.Valid()
      ensures Current() == Refreshed(compiler.resolve, old(Current()), users)
    {
      hide TableFor, LocksOf, RoutesOf, Names;
      var maps := CreateMaps(users);
      ghost var before := xdp.policies;
      xdp.policies := xdp.policies + maps;
      FillMaps(users, maps.Keys);
      RoutesReplace(compiler.resolve, users, old(xdp.policies), before, xdp.policies);
    }

    method FillMaps(users: seq<StoredUser>, names: set<string>)
      requires compiler.Valid() && names == Names(users) && names <= xdp.policies.Keys
      modifies xdp`policies, compiler
      ensures compiler.Valid() && xdp.policies.Keys == old(xdp.policies).Keys
      ensures forall u :: u in xdp.policies ==> (xdp.policies[u] ==
        if u in names then TableFor(compiler.resolve, RecordOf(users, u).value.acl) else old(xdp.policies)[u])
    {
      hide TableFor, RecordOf;
      var todo := names;
      while todo != {}
        invariant compiler.Valid() && todo <= names && xdp.policies.Keys == old(xdp.policies).Keys
        invariant forall u :: u in xdp.policies ==> (xdp.policies[u] ==
          if u in names - todo then TableFor(compiler.resolve, RecordOf(users, u).value.acl) else old(xdp.policies)[u])
        decreases todo
      {
        var user :| user in todo;
        var table := XdpAddRoute(RecordOf(users, user).value.acl);
        xdp.policies := xdp.policies[user := table];
        todo := todo - {user};
      }
    }

    method CreateMaps(users: seq<StoredUser>) returns (maps: map<string, RouteTable>)
      requires compiler.Valid()
      modifies this`userPolicyMaps, xdp`policies, xdp`accountLocked, compiler
      ensures compiler.Valid() && maps.Keys == Names(users)
      ensures xdp.accountLocked == old(xdp.accountLocked) + LocksOf(users)
      ensures userPolicyMaps == old(userPolicyMaps) + Names(users)
      ensures SameBut(old(xdp.policies), xdp.policies, Names(users))
    {
      hide LocksOf, Names, SameBut;
      maps := map[];
      NoNames(xdp.policies);
      assert users[..0] == [];
      for n := 0 to |users|
        invariant compiler.Valid() && maps.Keys == Names(users[..n])
        invariant xdp.accountLocked == old(xdp.accountLocked) + LocksOf(users[..n])
        invariant userPolicyMaps == old(userPolicyMaps) + Names(users[..n])
        invariant SameBut(old(xdp.policies), xdp.policies, Names(users[..n]))
      {
        LocksNext(users, n);
        ghost var before := xdp.policies;
        RefreshKnown(users[n]);
        StillSame(old(xdp.policies), before, xdp.policies, Names(users[..n]), users[n].user);
        var lock: u32 := if users[n].locked then 1 else 0;
        xdp.accountLocked := xdp.accountLocked[users[n].user := lock];
        maps := maps[users[n].user := map[]];
        userPolicyMaps := userPolicyMaps + {users[n].user};
      }
      assert users[..|users|] == users;
    }

    // The fast path: the map of a known user is refilled.
    method RefreshKnown(stored: StoredUser)
      requires compiler.Valid()
      modifies xdp`policies, compiler
      ensures compiler.Valid()
      ensures SameBut(old(xdp.policies), xdp.policies, {stored.user})
    {
      hide TableFor;
      if stored.user in userPolicyMaps {
        var table := XdpAddRoute(stored.acl);
        if stored.user in xdp.policies {
          xdp.policies := xdp.policies[stored.user := table];
        }
      }
    }

    method RemoveUser(user: string) returns (ok: bool)
      requires Valid()
      modifies this, xdp
      ensures Valid()
      ensures Current() == Step(compiler.resolve, old(Current()), Event.RemoveUser(user))
      ensures ok == (user in old(xdp.accountLocked))
    {
      hide Agrees;
      ghost var before := Current();
      RemoveUserAgrees(compiler.resolve, before, user);
      OwnersNamed(before, user);
      if user !in xdp.accountLocked {
        return false;
      }
      xdp.accountLocked := xdp.accountLocked - {user};
      xdp.policies := xdp.policies - {user};
      userPolicyMaps := userPolicyMaps - {user};
      RemovePeers(user);
      ok := true;
    }

    // The loop over the peers of a removed user.
    method RemovePeers(user: string)
      requires forall a :: a in AddressesOf(Current(), user) ==> a in addressesToUsers && addressesToUsers[a] == user
      modifies this`usersToAddresses, xdp`devices
      ensures xdp.devices == old(xdp.devices) - AddressesOf(old(Current()), user).Keys
      ensures usersToAddresses == if AddressesOf(old(Current()), user) == map[] then old(usersToAddresses)
        else old(usersToAddresses)[user := map[]]
    {
      hide Step;
      ghost var before := Current();
      var peers := if user in usersToAddresses then usersToAddresses[user] else map[];
      var todo := peers.Keys;
      while todo != {}
        invariant todo <= peers.Keys
        invariant xdp.devices == before.xdp.devices - (peers.Keys - todo)
        invariant todo == peers.Keys ==> usersToAddresses == before.usersToAddresses
        invariant todo != peers.Keys ==> user in usersToAddresses
        invariant user in usersToAddresses ==> usersToAddresses[user].Keys == todo
        invariant usersToAddresses - {user} == before.usersToAddresses - {user}
        decreases todo
      {
        var address :| address in todo;
        RemovePeerEntry(address);
        todo := todo - {address};
      }
      if peers != map[] {
        assert usersToAddresses[user] == map[];
        assert usersToAddresses == (before.usersToAddresses - {user})[user := map[]];
      }
    }

    // _removePeer
    method RemovePeerEntry(address: u32)
      modifies this`usersToAddresses, xdp`devices
      ensures xdp.devices == old(xdp.devices) - {address}
      ensures var user := if address in addressesToUsers then addressesToUsers[address] else "";
        usersToAddresses == old(usersToAddresses)[user := AddressesOf(old(Current()), user) - {address}]
      ensures Current() == Step(compiler.resolve, old(Current()), Event.RemovePeer(address))
    {
      xdp.devices := xdp.devices - {address};
      var user := if address in addressesToUsers then addressesToUsers[address] else "";
      var addresses := if user in usersToAddresses then usersToAddresses[user] else map[];
      usersToAddresses := usersToAddresses[user := addresses - {address}];
    }

    method RemovePeer(address: u32)
      requires Valid()
      modifies this, xdp
      ensures Valid()
      ensures Current() == Step(compiler.resolve, old(Current()), Event.RemovePeer(address))
    {
      StepAgrees(compiler.resolve, Current(), Event.RemovePeer(address));
      RemovePeerEntry(address);
    }

    method AddPeer(publicKey: string, user: string, address: u32, node: u64) returns (ok: bool)
      requires Valid()
      modifies this, xdp
      ensures Valid()
      ensures Current() == Step(compiler.resolve, old(Current()), Event.AddPeer(publicKey, user, address, node))
      ensures ok == (address !in old(xdp.devices) && user in old(xdp.accountLocked))
    {
      hide Agrees;
      StepAgrees(compiler.resolve, Current(), Event.AddPeer(publicKey, user, address, node));
      if address in xdp.devices {
        return false;
      }
      if user !in xdp.accountLocked {
        return false;
      }
      xdp.devices := xdp.devices[address := Device(0, 0, user, node)];
      var addresses := if user in usersToAddresses then usersToAddresses[user] else map[];
      usersToAddresses := usersToAddresses[user := addresses[address := publicKey]];
      addressesToUsers := addressesToUsers[address := user];
      ok := true;
    }

    // Fails where the program would write into a missing map.
    method ReplacePeer(user: string, address: u32, publicKey: string) returns (ok: bool)
      modifies this`usersToAddresses
      ensures Current() == Step(compiler.resolve, old(Current()), Event.ReplacePeer(user, address, publicKey))
      ensures ok == (user in old(usersToAddresses))
    {
      if user !in usersToAddresses {
        return false;
      }
      var addresses := usersToAddresses[user];
      usersToAddresses := usersToAddresses[user := addresses[address := publicKey]];
      ok := true;
    }

    method SetAuthorized(address: u32, user: string, node: u64, seen: u64, start: u64, minutes: int) returns (ok: bool)
      modifies xdp`devices
      ensures Current() == Step(compiler.resolve, old(Current()),
        Event.SetAuthorized(address, user, node, seen, start, minutes))
      ensures ok == (address in old(xdp.devices))
    {
      var expiry: u64 := (start + minutes * NANOSECONDS_PER_MINUTE) % TWO64;
      if minutes < 0 {
        expiry := MAX_U64;
      }
      if address !in xdp.devices {
        return false;
      }
      xdp.devices := xdp.devices[address := Device(expiry, seen, user, node)];
      ok := true;
    }

    // _deauthenticate
    method DeauthenticateEntry(address: u32) returns (ok: bool)
      modifies xdp`devices
      ensures Current() == Step(compiler.resolve, old(Current()), Event.Deauthenticate(address))
      ensures Current() == WithDevices(old(Current()), DeauthenticateAll(old(xdp.devices), {address}))
      ensures ok == (address in old(xdp.devices))
    {
      if address !in xdp.devices {
        assert DeauthenticateAll(xdp.devices, {address}) == xdp.devices;
        return false;
      }
      xdp.devices := xdp.devices[address := xdp.devices[address].(lastPacketTime := 0, sessionExpiry := 0)];
      ok := true;
    }

    // The loop over a user's addresses in SetLockAccount, which goes on after a missing entry.
    method DeauthenticateUser(user: string)
      modifies xdp`devices
      ensures Current() == Step(compiler.resolve, old(Current()), Event.DeauthenticateAllDevices(user))
    {
      ghost var before := Current();
      var all := if user in usersToAddresses then usersToAddresses[user].Keys else {};
      DeauthenticateThese(all);
    }

    method DeauthenticateThese(all: set<u32>)
      modifies xdp`devices
      ensures Current() == WithDevices(old(Current()), DeauthenticateAll(old(xdp.devices), all))
    {
      hide Step;
      ghost var before := Current();
      var todo := all;
      assert DeauthenticateAll(before.xdp.devices, {}) == before.xdp.devices;
      while todo != {}
        invariant todo <= all
        invariant Current() == WithDevices(before, DeauthenticateAll(before.xdp.devices, all - todo))
        decreases todo
      {
        var address :| address in todo;
        var _ := DeauthenticateEntry(address);
        DeauthenticatedTwice(before.xdp.devices, all - todo, address);
        todo := todo - {address};
        assert all - todo == all - todo - {address} + {address};
      }
      assert all - todo == all;
    }

    // The loop in DeauthenticateAllDevices, which stops at the first missing entry. All sessions end
    // exactly when every address filed under the user is in the table.
    method DeauthenticateAllDevices(user: string) returns (ok: bool, ghost reached: set<u32>)
      modifies xdp`devices
      ensures Current() == WithDevices(old(Current()), DeauthenticateAll(old(xdp.devices), reached))
      ensures reached <= AddressesOf(old(Current()), user).Keys && reached <= old(xdp.devices).Keys
      ensures ok <==> reached == AddressesOf(old(Current()), user).Keys
      ensures ok <==> AddressesOf(old(Current()), user).Keys <= old(xdp.devices).Keys
      ensures ok ==> Current() == Step(compiler.resolve, old(Current()), Event.DeauthenticateAllDevices(user))
    {
      ghost var before := Current();
      ghost var ended := Step(compiler.resolve, before, Event.DeauthenticateAllDevices(user));
      assert ended == WithDevices(before, DeauthenticateAll(before.xdp.devices, AddressesOf(before, user).Keys));
      hide Step;
      var all := if user in usersToAddresses then usersToAddresses[user].Keys else {};
      var todo := all;
      reached := {};
      assert DeauthenticateAll(before.xdp.devices, {}) == before.xdp.devices;
      while todo != {}
        invariant todo <= all && reached == all - todo && reached <= before.xdp.devices.Keys
        invariant Current() == WithDevices(before, DeauthenticateAll(before.xdp.devices, reached))
        decreases todo
      {
        var address :| address in todo;
        ok := DeauthenticateEntry(address);
        DeauthenticatedTwice(before.xdp.devices, reached, address);
        if !ok {
          assert address !in before.xdp.devices && address !in reached;
          assert DeauthenticateAll(before.xdp.devices, reached + {address}) ==
            DeauthenticateAll(before.xdp.devices, reached);
          return;
        }
        todo, reached := todo - {address}, reached + {address};
      }
      ok := true;
    }

    method SetLockAccount(user: string, locked: u32)
      requires Valid()
      modifies xdp
      ensures Valid()
      ensures Current() == Step(compiler.resolve, old(Current()), Event.SetLockAccount(user, locked))
    {
      hide Agrees;
      StepAgrees(compiler.resolve, Current(), Event.SetLockAccount(user, locked));
      DeauthenticateUser(user);
      xdp.accountLocked := xdp.accountLocked[user := locked];
    }

    method UpdateNodeAssociation(address: u32, node: u64) returns (ok: bool)
      modifies xdp`devices
      ensures Current() == Step(compiler.resolve, old(Current()), Event.UpdateNodeAssociation(address, node))
      ensures ok == (address in old(xdp.devices))
    {
      if address !in xdp.devices {
        return false;
      }
      xdp.devices := xdp.devices[address := xdp.devices[address].(associatedNode := node)];
      ok := true;
    }

    method SetInactivityTimeout(minutes: int)
      modifies xdp`inactivityTimeout
      ensures Current() == Step(compiler.resolve, old(Current()), Event.SetInactivityTimeout(minutes))
    {
      var value: u64 := minutes * NANOSECONDS_PER_MINUTE % TWO64;
      if minutes < 0 {
        value := MAX_U64;
      }
      xdp.inactivityTimeout := value;
    }
  }

  // The tables have the same users, and the same routes but for the named ones.
  predicate SameBut(before: map<string, RouteTable>, after: map<string, RouteTable>, names: set<string>) {
    before.Keys == after.Keys && forall u :: u in after && u !in names ==> after[u] == before[u]
  }

  lemma NoNames(policies: map<string, RouteTable>)
    ensures Names([]) == {} && LocksOf([]) == map[] && SameBut(policies, policies, {})
  {}

  lemma StillSame(a: map<string, RouteTable>, b: map<string, RouteTable>, c: map<string, RouteTable>,
                  names: set<string>, user: string)
    requires SameBut(a, b, names) && SameBut(b, c, {user})
    ensures SameBut(a, c, names + {user})
  {}

  lemma RoutesReplace(resolve: Resolver, users: seq<StoredUser>, first: map<string, RouteTable>,
                      before: map<string, RouteTable>, after: map<string, RouteTable>)
    requires SameBut(first, before, Names(users)) && after.Keys == before.Keys + Names(users)
    requires forall u :: u in after ==> (after[u] ==
      if u in Names(users) then TableFor(resolve, RecordOf(users, u).value.acl) else before[u])
    ensures after == first + RoutesOf(resolve, users)
  {
    hide TableFor;
  }

  lemma LocksNext(users: seq<StoredUser>, n: nat)
    requires n < |users|
    ensures Names(users[..n + 1]) == Names(users[..n]) + {users[n].user}
    ensures LocksOf(users[..n + 1]) == LocksOf(users[..n])[users[n].user := LockValue(users[n].locked)]
  {
    var next := users[..n + 1];
    assert next == users[..n] + [users[n]];
    assert next[..|next| - 1] == users[..n];
  }

  lemma DeauthenticatedTwice(devices: map<u32, Device>, addresses: set<u32>, address: u32)
    ensures DeauthenticateAll(DeauthenticateAll(devices, addresses), {address}) ==
      DeauthenticateAll(devices, addresses + {address})
  {}

  // While the indexes agree, ending all sessions of a user cannot stop half way.
  lemma FiledIsKnown(s: State, user: string)
    requires Agrees(s)
    ensures AddressesOf(s, user).Keys <= s.xdp.devices.Keys
  {
    IndexIsOwnership(s, user);
  }

  lemma OwnersNamed(s: State, user: string)
    requires Agrees(s)
    ensures forall a :: a in AddressesOf(s, user) ==> a in s.addressesToUsers && s.addressesToUsers[a] == user
  {
    IndexIsOwnership(s, user);
  }
}
