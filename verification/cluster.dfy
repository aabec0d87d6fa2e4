// How every node of a cluster follows the stored record of a device.

module Cluster {
  import opened Numbers
  import opened Options
  import opened Rules
  import opened Filter
  import opened Policies
  import opened Router
  import opened Sessions

  // The stored record. Zero in authorised is the zero time: not authorised.
  datatype Record = Record(address: u32, publicKey: string, user: string, endpoint: string,
                           attempts: int, authorised: nat, node: u64)

  datatype Change = Created(current: Record) | Modified(current: Record, previous: Record) | Deleted(current: Record)

  // What one node sees for itself while it handles a change: settings, clock and the device's answer.
  datatype Local = Local(lockout: int, passedChallenge: bool, timeoutMinutes: int, now: u64, later: u64,
                         seen: u64, start: u64, lifetimeMinutes: int)

  function Do(resolve: Resolver, s: State, condition: bool, e: Event): State {
    if condition then Step(resolve, s, e) else s
  }

  predicate FailsChallenge(s: State, c: Change, l: Local)
    requires c.Modified?
  {
    && c.current.endpoint != c.previous.endpoint
    && IsAuthed(s.xdp, c.current.address, l.timeoutMinutes, l.now)
    && !l.passedChallenge
  }

  predicate LosesSession(s: State, c: Change, l: Local)
    requires c.Modified?
  {
    || (IsAuthed(s.xdp, c.current.address, l.timeoutMinutes, l.later) && c.current.attempts > l.lockout)
    || c.current.authorised == 0
  }

  predicate GainsSession(c: Change, l: Local)
    requires c.Modified?
  {
    && c.current.authorised != c.previous.authorised && c.current.authorised != 0
    && c.current.attempts <= l.lockout && c.current.node == c.previous.node
  }

  function Apply(resolve: Resolver, s: State, c: Change, l: Local): State {
    match c
    case Created(r) => Step(resolve, s, AddPeer(r.publicKey, r.user, r.address, r.node))
    case Deleted(r) => Step(resolve, s, RemovePeer(r.address))
    case Modified(r, previous) =>
      var rekeyed := r.publicKey != previous.publicKey;
      if rekeyed && previous.user !in s.usersToAddresses then s
      else
        var s1 := Do(resolve, s, rekeyed, ReplacePeer(previous.user, previous.address, r.publicKey));
        var s2 := Do(resolve, s1, FailsChallenge(s1, c, l), Deauthenticate(r.address));
        var s3 := Do(resolve, s2, LosesSession(s2, c, l), Deauthenticate(r.address));
        var s4 := Do(resolve, s3, r.node != previous.node, UpdateNodeAssociation(r.address, r.node));
        Do(resolve, s4, GainsSession(c, l),
           SetAuthorized(r.address, r.user, r.node, l.seen, l.start, l.lifetimeMinutes))
  }

  // The handler of one change, stopping at the first call that fails.
  method DeviceChanges(fw: Firewall, c: Change, l: Local) returns (ok: bool)
    requires fw.Valid()
    modifies fw, fw.xdp
    ensures fw.Current() == Apply(fw.compiler.resolve, old(fw.Current()), c, l)
  {
    hide Agrees, Expiry;
    match c {
      case Created(r) =>
        ok := fw.AddPeer(r.publicKey, r.user, r.address, r.node);
      case Deleted(r) =>
        fw.RemovePeer(r.address);
        ok := true;
      case Modified(r, previous) =>
        ok := Modify(fw, c, l);
    }
  }

  method Modify(fw: Firewall, c: Change, l: Local) returns (ok: bool)
    requires c.Modified?
    modifies fw, fw.xdp
    ensures fw.Current() == Apply(fw.compiler.resolve, old(fw.Current()), c, l)
  {
    hide Step, FailsChallenge, LosesSession, GainsSession;
    var r, previous := c.current, c.previous;
    if r.publicKey != previous.publicKey {
      UnknownUserIsLeft(fw.compiler.resolve, fw.Current(), r, previous);
      ok := fw.ReplacePeer(previous.user, previous.address, r.publicKey);
      if !ok {
        return false;
      }
    }
    if FailsChallenge(fw.Current(), c, l) {
      var _ := fw.DeauthenticateEntry(r.address);
    }
    AbsentDeviceIsLeft(fw.compiler.resolve, fw.Current(), r, l);
    if LosesSession(fw.Current(), c, l) {
      ok := fw.DeauthenticateEntry(r.address);
      if !ok {
        return false;
      }
    }
    AbsentDeviceIsLeft(fw.compiler.resolve, fw.Current(), r, l);
    if r.node != previous.node {
      ok := fw.UpdateNodeAssociation(r.address, r.node);
      if !ok {
        return false;
      }
    }
    ok := true;
    if GainsSession(c, l) {
      ok := fw.SetAuthorized(r.address, r.user, r.node, l.seen, l.start, l.lifetimeMinutes);
    }
  }

  // Once the device is missing, the call that fails and those that are skipped change nothing.
  lemma AbsentDeviceIsLeft(resolve: Resolver, s: State, r: Record, l: Local)
    ensures r.address !in s.xdp.devices ==>
      && Step(resolve, s, Deauthenticate(r.address)) == s
      && Step(resolve, s, UpdateNodeAssociation(r.address, r.node)) == s
      && Step(resolve, s, SetAuthorized(r.address, r.user, r.node, l.seen, l.start, l.lifetimeMinutes)) == s
  {
    if r.address !in s.xdp.devices {
      assert DeauthenticateAll(s.xdp.devices, {r.address}) == s.xdp.devices;
    }
  }

  lemma UnknownUserIsLeft(resolve: Resolver, s: State, r: Record, previous: Record)
    ensures previous.user !in s.usersToAddresses ==>
      Step(resolve, s, ReplacePeer(previous.user, previous.address, r.publicKey)) == s
  {}

  // ---- The log of one device, and a node that follows it ----

  // The record the log leaves.
  function Latest(log: seq<Change>): Option<Record> {
    if log == [] || log[|log| - 1].Deleted? then None else Some(log[|log| - 1].current)
  }

  predicate Follows(latest: Option<Record>, c: Change, address: u32) {
    && c.current.address == address
    && match c
       case Created(_) => latest.None?
       case Deleted(r) => latest == Some(r)
       case Modified(r, previous) =>
         latest == Some(previous) && r.user == previous.user && r.address == previous.address
  }

  // On a node the handled changes mix with packets, settings, and calls about other devices and users.
  datatype NodeEvent = Handled(change: Change, local: Local) | Other(event: Event)

  function NodeStep(resolve: Resolver, s: State, e: NodeEvent): State {
    match e
    case Handled(c, l) => Apply(resolve, s, c, l)
    case Other(event) => Step(resolve, s, event)
  }

  function NodeRun(resolve: Resolver, s: State, es: seq<NodeEvent>): State {
    if es == [] then s else NodeStep(resolve, NodeRun(resolve, s, es[..|es| - 1]), es[|es| - 1])
  }

  function LogOf(es: seq<NodeEvent>): seq<Change> {
    if es == [] then []
    else LogOf(es[..|es| - 1]) + if es[|es| - 1].Handled? then [es[|es| - 1].change] else []
  }

  // A call that does not add, authorise or move this device. It may remove the device or its owner.
  predicate Elsewhere(e: Event, address: u32) {
    match e
    case AddPeer(_, _, a, _) => a != address
    case SetAuthorized(a, _, _, _, _, _) => a != address
    case UpdateNodeAssociation(a, _) => a != address
    case _ => true
  }

  // The changes handled are the log of the device, in order.
  predicate Orderly(es: seq<NodeEvent>, address: u32) {
    es != [] ==>
      var n := |es| - 1;
      && Orderly(es[..n], address)
      && match es[n]
         case Handled(c, _) => Follows(Latest(LogOf(es[..n])), c, address)
         case Other(e) => Elsewhere(e, address)
  }

  // ---- A node never honours more than the latest record says ----

  // If the node has an entry, it carries the latest record's node, and a session only if that record is
  // authorised.
  ghost predicate Bounded(s: State, address: u32, latest: Option<Record>) {
    address in s.xdp.devices ==>
      && latest.Some?
      && latest.value.user in s.usersToAddresses
      && s.xdp.devices[address].associatedNode == latest.value.node
      && (s.xdp.devices[address].sessionExpiry != 0 ==> latest.value.authorised != 0)
  }

  lemma OtherKeepsBound(resolve: Resolver, s: State, e: Event, address: u32, latest: Option<Record>)
    requires Bounded(s, address, latest) && Elsewhere(e, address)
    ensures Bounded(Step(resolve, s, e), address, latest)
  {
    hide TableFor, Deciding, Expiry, Timeout;
  }

  // What each of the handler's calls does to the entry at the address.
  lemma CallOnEntry(resolve: Resolver, s: State, condition: bool, e: Event, address: u32)
    requires e.ReplacePeer? ||
      ((e.Deauthenticate? || e.UpdateNodeAssociation? || e.SetAuthorized?) && e.address == address)
    ensures var t := Do(resolve, s, condition, e);
      && s.usersToAddresses.Keys == t.usersToAddresses.Keys
      && (address in t.xdp.devices <==> address in s.xdp.devices)
      && (address in s.xdp.devices ==>
        && t.xdp.devices[address].associatedNode ==
           (if condition && (e.UpdateNodeAssociation? || e.SetAuthorized?) then e.node
            else s.xdp.devices[address].associatedNode)
        && t.xdp.devices[address].userId ==
           (if condition && e.SetAuthorized? then e.user else s.xdp.devices[address].userId)
        && (condition && e.Deauthenticate? ==> t.xdp.devices[address].sessionExpiry == 0)
        && (!(condition && e.SetAuthorized?) && s.xdp.devices[address].sessionExpiry == 0 ==>
          t.xdp.devices[address].sessionExpiry == 0))
  {
    hide Expiry;
  }

  function Filed(index: map<string, map<u32, string>>, user: string, address: u32, key: string):
    map<string, map<u32, string>>
    requires user in index
  {
    var addresses: map<u32, string> := index[user];
    index[user := addresses[address := key]]
  }

  lemma ExactCall(resolve: Resolver, s: State, condition: bool, e: Event, address: u32)
    requires address in s.xdp.devices
    requires e.ReplacePeer? ||
      ((e.Deauthenticate? || e.UpdateNodeAssociation? || e.SetAuthorized?) && e.address == address)
    ensures var t := Do(resolve, s, condition, e);
      t.usersToAddresses == if condition && e.ReplacePeer? && e.user in s.usersToAddresses
        then Filed(s.usersToAddresses, e.user, e.address, e.publicKey)
        else s.usersToAddresses
    ensures var t, d := Do(resolve, s, condition, e), s.xdp.devices[address];
      t.xdp == s.xdp.(devices := s.xdp.devices[address :=
        if !condition then d
        else match e
          case Deauthenticate(_) => d.(sessionExpiry := 0, lastPacketTime := 0)
          case UpdateNodeAssociation(_, node) => d.(associatedNode := node)
          case SetAuthorized(_, user, node, seen, start, minutes) => Device(Expiry(start, minutes), seen, user, node)
          case _ => d])
  {
    hide Expiry;
    assert s.xdp.devices == s.xdp.devices[address := s.xdp.devices[address]];
  }

  // The session of a device after its record is modified. A login is granted: authorised, and not before,
  // within the lockout, on the node the device had. Otherwise the session ends if the record is not
  // authorised, if an authorised device is over the lockout, or if its endpoint changed and it fails the
  // challenge; and otherwise it stays. The node is the record's, a new public key is filed, and no other
  // device is touched.
  lemma ModificationExactly(resolve: Resolver, s: State, c: Change, l: Local, address: u32)
    requires c.Modified? && Follows(Some(c.previous), c, address) && address in s.xdp.devices
    requires c.current.publicKey != c.previous.publicKey ==> c.previous.user in s.usersToAddresses
    requires s.xdp.devices[address].associatedNode == c.previous.node
    ensures var r, previous, before, t := c.current, c.previous, s.xdp.devices[address], Apply(resolve, s, c, l).xdp;
      && t.devices.Keys == s.xdp.devices.Keys
      && (forall a :: a in t.devices && a != address ==> t.devices[a] == s.xdp.devices[a])
      && t.devices[address].associatedNode == r.node
      && var session := (t.devices[address].sessionExpiry, t.devices[address].lastPacketTime);
      && session ==
        if r.authorised != previous.authorised && r.authorised != 0
          && r.attempts <= l.lockout && r.node == previous.node
        then (Expiry(l.start, l.lifetimeMinutes), l.seen)
        else if r.authorised == 0
          || (r.attempts > l.lockout && IsAuthed(s.xdp, address, l.timeoutMinutes, l.later))
          || (r.endpoint != previous.endpoint && !l.passedChallenge
              && IsAuthed(s.xdp, address, l.timeoutMinutes, l.now))
        then (0, 0)
        else (before.sessionExpiry, before.lastPacketTime)
    ensures Apply(resolve, s, c, l).usersToAddresses ==
      if c.current.publicKey == c.previous.publicKey then s.usersToAddresses
      else Filed(s.usersToAddresses, c.current.user, address, c.current.publicKey)
  {
    hide Step, Expiry, Do;
    var r, previous := c.current, c.previous;
    var rekeyed := r.publicKey != previous.publicKey;
    var e1 := ReplacePeer(previous.user, previous.address, r.publicKey);
    ExactCall(resolve, s, rekeyed, e1, address);
    var s1 := Do(resolve, s, rekeyed, e1);
    assert s1.xdp == s.xdp;
    var s3 := SessionEnds(resolve, s1, c, l, address);
    hide IsAuthed, FailsChallenge, LosesSession, Follows;
    var e4 := UpdateNodeAssociation(address, r.node);
    ExactCall(resolve, s3, r.node != previous.node, e4, address);
    var s4 := Do(resolve, s3, r.node != previous.node, e4);
    var e5 := SetAuthorized(address, r.user, r.node, l.seen, l.start, l.lifetimeMinutes);
    ExactCall(resolve, s4, GainsSession(c, l), e5, address);
  }

  // The two tests that can end the session, the second after the first has had its effect.
  lemma SessionEnds(resolve: Resolver, s: State, c: Change, l: Local, address: u32) returns (t: State)
    requires c.Modified? && c.current.address == address && address in s.xdp.devices
    ensures var s2 := Do(resolve, s, FailsChallenge(s, c, l), Deauthenticate(address));
      t == Do(resolve, s2, LosesSession(s2, c, l), Deauthenticate(address))
    ensures t.usersToAddresses == s.usersToAddresses
    ensures var r, d := c.current, s.xdp.devices[address];
      t.xdp == s.xdp.(devices := s.xdp.devices[address :=
        if r.authorised == 0
          || (r.attempts > l.lockout && IsAuthed(s.xdp, address, l.timeoutMinutes, l.later))
          || (r.endpoint != c.previous.endpoint && !l.passedChallenge
              && IsAuthed(s.xdp, address, l.timeoutMinutes, l.now))
        then d.(sessionExpiry := 0, lastPacketTime := 0)
        else d])
  {
    hide Step, Do;
    var e2 := Deauthenticate(address);
    ExactCall(resolve, s, FailsChallenge(s, c, l), e2, address);
    var s2 := Do(resolve, s, FailsChallenge(s, c, l), e2);
    ExactCall(resolve, s2, LosesSession(s2, c, l), e2, address);
    t := Do(resolve, s2, LosesSession(s2, c, l), e2);
  }

  // A created device of a known user has an entry without a session, filed under its key; a deleted one
  // has none.
  lemma CreationExactly(resolve: Resolver, s: State, r: Record, l: Local)
    requires r.address !in s.xdp.devices && r.user in s.xdp.accountLocked
    ensures var t := Apply(resolve, s, Created(r), l);
      && t.xdp.devices == s.xdp.devices[r.address := Device(0, 0, r.user, r.node)]
      && r.user in t.usersToAddresses && r.address in t.usersToAddresses[r.user]
      && t.usersToAddresses[r.user][r.address] == r.publicKey
      && r.address in t.addressesToUsers && t.addressesToUsers[r.address] == r.user
      && Apply(resolve, s, Deleted(r), l).xdp.devices == s.xdp.devices
      && Apply(resolve, t, Deleted(r), l).xdp.devices == s.xdp.devices
  {}

  // A rekeyed device of a user the node does not know stops the handler before it has changed anything.
  lemma UnknownUserStops(resolve: Resolver, s: State, c: Change, l: Local)
    requires c.Modified? && c.current.publicKey != c.previous.publicKey && c.previous.user !in s.usersToAddresses
    ensures Apply(resolve, s, c, l) == s
  {}

  lemma ModifiedKeepsBound(resolve: Resolver, s: State, c: Change, l: Local, address: u32)
    requires c.Modified? && Follows(Some(c.previous), c, address) && Bounded(s, address, Some(c.previous))
    ensures Bounded(Apply(resolve, s, c, l), address, Some(c.current))
  {
    hide Step, IsAuthed, Expiry, Do;
    var r, previous := c.current, c.previous;
    var rekeyed := r.publicKey != previous.publicKey;
    var e1 := ReplacePeer(previous.user, previous.address, r.publicKey);
    CallOnEntry(resolve, s, rekeyed, e1, address);
    var s1 := Do(resolve, s, rekeyed, e1);
    CallOnEntry(resolve, s1, FailsChallenge(s1, c, l), Deauthenticate(address), address);
    var s2 := Do(resolve, s1, FailsChallenge(s1, c, l), Deauthenticate(address));
    CallOnEntry(resolve, s2, LosesSession(s2, c, l), Deauthenticate(address), address);
    var s3 := Do(resolve, s2, LosesSession(s2, c, l), Deauthenticate(address));
    var e4 := UpdateNodeAssociation(address, r.node);
    CallOnEntry(resolve, s3, r.node != previous.node, e4, address);
    var s4 := Do(resolve, s3, r.node != previous.node, e4);
    CallOnEntry(resolve, s4, GainsSession(c, l),
      SetAuthorized(address, r.user, r.node, l.seen, l.start, l.lifetimeMinutes), address);
  }

  lemma HandledKeepsBound(resolve: Resolver, s: State, c: Change, l: Local, address: u32, latest: Option<Record>)
    requires Bounded(s, address, latest) && Follows(latest, c, address)
    ensures Bounded(Apply(resolve, s, c, l), address, Latest([c]))
  {
    if c.Modified? { ModifiedKeepsBound(resolve, s, c, l, address); }
  }

  lemma StepKeepsNodeId(resolve: Resolver, s: State, e: Event)
    ensures Step(resolve, s, e).xdp.nodeId == s.xdp.nodeId
  {
    hide TableFor, DevicesAfter, DeauthenticateAll;
  }

  lemma NodeIdIsFixed(resolve: Resolver, s: State, e: NodeEvent)
    ensures NodeStep(resolve, s, e).xdp.nodeId == s.xdp.nodeId
  {
    hide Step, FailsChallenge, LosesSession, GainsSession;
    forall s, event ensures Step(resolve, s, event).xdp.nodeId == s.xdp.nodeId { StepKeepsNodeId(resolve, s, event); }
  }

  // Whatever else a node does, removing the device or its owner included, its entry never goes beyond
  // the latest record of the log it has handled.
  lemma {:induction false} NodeIsBounded(resolve: Resolver, s: State, es: seq<NodeEvent>, address: u32)
    requires address !in s.xdp.devices && Orderly(es, address)
    ensures Bounded(NodeRun(resolve, s, es), address, Latest(LogOf(es)))
    ensures NodeRun(resolve, s, es).xdp.nodeId == s.xdp.nodeId
  {
    hide Bounded, Step, Apply;
    if es == [] {
      EmptyIsBounded(s, address);
    } else {
      var n := |es| - 1;
      NodeIsBounded(resolve, s, es[..n], address);
      var before, latest := NodeRun(resolve, s, es[..n]), Latest(LogOf(es[..n]));
      NodeIdIsFixed(resolve, before, es[n]);
      match es[n]
      case Handled(c, l) => HandledKeepsBound(resolve, before, c, l, address, latest);
      case Other(e) =>
        assert LogOf(es) == LogOf(es[..n]);
        OtherKeepsBound(resolve, before, e, address, latest);
    }
  }

  lemma EmptyIsBounded(s: State, address: u32)
    requires address !in s.xdp.devices
    ensures Bounded(s, address, None)
  {}

  // Of two nodes with different ids that have come to the same record of a device, one perhaps from a
  // later start than the other, and whatever else each did, at most one has a live session for it.
  lemma AtMostOneNode(resolve: Resolver, s: State, es: seq<NodeEvent>, s': State, es': seq<NodeEvent>,
                      address: u32, now: u64, now': u64)
    requires address !in s.xdp.devices && Orderly(es, address)
    requires address !in s'.xdp.devices && Orderly(es', address)
    requires Latest(LogOf(es)) == Latest(LogOf(es')) && s.xdp.nodeId != s'.xdp.nodeId
    requires var t, t' := NodeRun(resolve, s, es).xdp, NodeRun(resolve, s', es').xdp;
      && address in t.devices && t.devices[address].userId in t.accountLocked
      && address in t'.devices && t'.devices[address].userId in t'.accountLocked
    ensures var t, t' := NodeRun(resolve, s, es).xdp, NodeRun(resolve, s', es').xdp;
      !(SessionLive(t, t.devices[address], now) && SessionLive(t', t'.devices[address], now'))
  {
    hide Orderly, NodeRun, LogOf;
    NodeIsBounded(resolve, s, es, address);
    NodeIsBounded(resolve, s', es', address);
  }

  // A packet of the device passes a bucket in which an mfa policy matches.
  ghost predicate PassesByMfa(t: Tables, ip: IpInfo, now: u64, address: u32) {
    && Passes(t, ip, now)
    && exists slots, port, p :: MfaDecides(t, ip, address, slots, port, p)
  }

  predicate MfaDecides(t: Tables, ip: IpInfo, address: u32, slots: Slots, port: u16, p: Policy) {
    && Deciding(t, ip) == Some((address, slots, port))
    && p in Meant(slots) && Matches(p, ip.proto, port) && IsMfa(p)
  }

  lemma MfaPassIsLive(t: Tables, ip: IpInfo, now: u64, address: u32)
    requires PassesByMfa(t, ip, now, address)
    ensures address in t.devices && t.devices[address].userId in t.accountLocked
    ensures SessionLive(t, t.devices[address], now)
  {
    hide Passes, Deciding, SessionLive, Meant;
    var slots, port, p :| MfaDecides(t, ip, address, slots, port, p);
    MfaNeedsLiveSession(t, ip, now, address, slots, port, p);
  }

  // So at most one node of the cluster lets packets of the device pass by an mfa rule.
  lemma AtMostOneNodePasses(resolve: Resolver, s: State, es: seq<NodeEvent>, s': State, es': seq<NodeEvent>,
                            address: u32, ip: IpInfo, now: u64, ip': IpInfo, now': u64)
    requires address !in s.xdp.devices && Orderly(es, address)
    requires address !in s'.xdp.devices && Orderly(es', address)
    requires Latest(LogOf(es)) == Latest(LogOf(es')) && s.xdp.nodeId != s'.xdp.nodeId
    ensures !PassesByMfa(NodeRun(resolve, s, es).xdp, ip, now, address)
      || !PassesByMfa(NodeRun(resolve, s', es').xdp, ip', now', address)
  {
    hide Orderly, NodeRun, LogOf, PassesByMfa, SessionLive;
    var t, t' := NodeRun(resolve, s, es).xdp, NodeRun(resolve, s', es').xdp;
    if PassesByMfa(t, ip, now, address) && PassesByMfa(t', ip', now', address) {
      MfaPassIsLive(t, ip, now, address);
      MfaPassIsLive(t', ip', now', address);
      AtMostOneNode(resolve, s, es, s', es', address, now, now');
    }
  }

  // ---- Exactly when a node has the entry ----

  // The device was created while its user had an account, and neither has been removed since.
  function Present(resolve: Resolver, s: State, es: seq<NodeEvent>, address: u32): bool {
    if es == [] then false
    else
      var n := |es| - 1;
      match es[n]
      case Handled(Created(r), _) => r.user in NodeRun(resolve, s, es[..n]).xdp.accountLocked
      case Handled(Deleted(_), _) => false
      case Other(RemovePeer(a)) => a != address && Present(resolve, s, es[..n], address)
      case Other(RemoveUser(user)) =>
        var latest := Latest(LogOf(es[..n]));
        latest.Some? && latest.value.user != user && Present(resolve, s, es[..n], address)
      case _ => Present(resolve, s, es[..n], address)
  }

  // Other calls are made in the name of each device's owner, and the device's public key is changed only
  // while the node has the entry or does not know the user: otherwise the change would file the address
  // under a user without a device.
  ghost predicate ProperNodeRun(resolve: Resolver, s: State, es: seq<NodeEvent>, address: u32) {
    es != [] ==>
      var n := |es| - 1;
      && ProperNodeRun(resolve, s, es[..n], address)
      && match es[n]
         case Other(e) => Proper(NodeRun(resolve, s, es[..n]), e)
         case Handled(c, _) =>
           Rekeys(c) && c.previous.user in NodeRun(resolve, s, es[..n]).usersToAddresses ==>
             Present(resolve, s, es[..n], address)
  }

  predicate Rekeys(c: Change) {
    c.Modified? && c.current.publicKey != c.previous.publicKey
  }

  ghost predicate Mirrors(s: State, address: u32, latest: Option<Record>, present: bool) {
    && (address in s.xdp.devices <==> present)
    && (present ==> latest.Some? && s.xdp.devices[address].userId == latest.value.user)
  }

  lemma OtherKeepsMirror(resolve: Resolver, s: State, e: Event, address: u32, latest: Option<Record>, present: bool)
    requires Agrees(s) && Mirrors(s, address, latest, present) && Elsewhere(e, address) && Proper(s, e)
    ensures Mirrors(Step(resolve, s, e), address, latest, present
      && (e.RemovePeer? ==> e.address != address)
      && (e.RemoveUser? ==> latest.Some? && latest.value.user != e.user))
  {
    hide TableFor, Deciding, Expiry, Timeout;
    if e.RemoveUser? {
      IndexIsOwnership(s, e.user);
    }
  }

  lemma DoAgrees(resolve: Resolver, s: State, condition: bool, e: Event)
    requires Agrees(s) && (condition ==> Proper(s, e))
    ensures Agrees(Do(resolve, s, condition, e))
  {
    hide Agrees, Step, Proper;
    if condition { StepAgrees(resolve, s, e); }
  }

  lemma ModifiedKeepsMirror(resolve: Resolver, s: State, c: Change, l: Local, address: u32, present: bool)
    requires Agrees(s) && c.Modified? && Follows(Some(c.previous), c, address)
    requires Mirrors(s, address, Some(c.previous), present)
    requires Rekeys(c) && c.previous.user in s.usersToAddresses ==> present
    ensures Mirrors(Apply(resolve, s, c, l), address, Some(c.current), present) && Agrees(Apply(resolve, s, c, l))
  {
    hide Agrees, Step, Do, FailsChallenge, LosesSession, GainsSession;
    var r, previous := c.current, c.previous;
    KeyUserIsIndexed(s, address);
    var e1 := ReplacePeer(previous.user, previous.address, r.publicKey);
    var s1 := Do(resolve, s, Rekeys(c), e1);
    DoAgrees(resolve, s, Rekeys(c), e1);
    CallOnEntry(resolve, s, Rekeys(c), e1, address);
    var e2 := Deauthenticate(address);
    var s2 := Do(resolve, s1, FailsChallenge(s1, c, l), e2);
    DoAgrees(resolve, s1, FailsChallenge(s1, c, l), e2);
    CallOnEntry(resolve, s1, FailsChallenge(s1, c, l), e2, address);
    var s3 := Do(resolve, s2, LosesSession(s2, c, l), e2);
    DoAgrees(resolve, s2, LosesSession(s2, c, l), e2);
    CallOnEntry(resolve, s2, LosesSession(s2, c, l), e2, address);
    var e4 := UpdateNodeAssociation(address, r.node);
    var s4 := Do(resolve, s3, r.node != previous.node, e4);
    DoAgrees(resolve, s3, r.node != previous.node, e4);
    CallOnEntry(resolve, s3, r.node != previous.node, e4, address);
    var e5 := SetAuthorized(address, r.user, r.node, l.seen, l.start, l.lifetimeMinutes);
    DoAgrees(resolve, s4, GainsSession(c, l), e5);
    CallOnEntry(resolve, s4, GainsSession(c, l), e5, address);
  }

  lemma KeyUserIsIndexed(s: State, address: u32)
    requires Agrees(s)
    ensures address in s.xdp.devices ==> s.xdp.devices[address].userId in s.usersToAddresses
  {
    if address in s.xdp.devices {
      var user := s.xdp.devices[address].userId;
      assert user in s.usersToAddresses && address in s.usersToAddresses[user];
    }
  }

  lemma HandledKeepsMirror(resolve: Resolver, s: State, c: Change, l: Local, address: u32, latest: Option<Record>,
                           present: bool)
    requires Agrees(s) && Mirrors(s, address, latest, present) && Follows(latest, c, address)
    requires Rekeys(c) && c.previous.user in s.usersToAddresses ==> present
    ensures Mirrors(Apply(resolve, s, c, l), address, Latest([c]), match c
      case Created(r) => r.user in s.xdp.accountLocked
      case Deleted(_) => false
      case Modified(_, _) => present)
    ensures Agrees(Apply(resolve, s, c, l))
  {
    hide Agrees;
    match c
    case Created(r) => StepAgrees(resolve, s, AddPeer(r.publicKey, r.user, r.address, r.node));
    case Deleted(r) => StepAgrees(resolve, s, RemovePeer(r.address));
    case Modified(_, _) => ModifiedKeepsMirror(resolve, s, c, l, address, present);
  }

  // A node that has handled a log has the entry exactly when the device was created while its user had
  // an account and neither has been removed since; and the entry has the latest record's owner, node
  // and, at most, its session.
  lemma {:induction false} NodeMirrorsLog(resolve: Resolver, s: State, es: seq<NodeEvent>, address: u32)
    requires Agrees(s) && address !in s.xdp.devices && Orderly(es, address) && ProperNodeRun(resolve, s, es, address)
    ensures Mirrors(NodeRun(resolve, s, es), address, Latest(LogOf(es)), Present(resolve, s, es, address))
    ensures Bounded(NodeRun(resolve, s, es), address, Latest(LogOf(es)))
    ensures Agrees(NodeRun(resolve, s, es))
  {
    NodeIsBounded(resolve, s, es, address);
    hide Agrees, Mirrors, Bounded, Step, Apply, Elsewhere, Proper;
    if es == [] {
      EmptyMirror(s, address);
    } else {
      var n := |es| - 1;
      NodeMirrorsLog(resolve, s, es[..n], address);
      var before, latest := NodeRun(resolve, s, es[..n]), Latest(LogOf(es[..n]));
      var present := Present(resolve, s, es[..n], address);
      match es[n]
      case Handled(c, l) => HandledKeepsMirror(resolve, before, c, l, address, latest, present);
      case Other(e) =>
        assert LogOf(es) == LogOf(es[..n]);
        OtherKeepsMirror(resolve, before, e, address, latest, present);
        StepAgrees(resolve, before, e);
    }
  }

  lemma EmptyMirror(s: State, address: u32)
    requires address !in s.xdp.devices
    ensures Mirrors(s, address, None, false)
  {}
}
