// Sessions over whole runs: what must have happened before an mfa policy lets a packet through.

module Sessions {
  import opened Numbers
  import opened Options
  import opened Policies
  import opened Rules
  import opened Filter
  import opened Router

  // ---- The history of one device's session, told by the events alone ----

  predicate Grants(s: State, e: Event, device: u32) {
    e.SetAuthorized? && e.address == device && device in s.xdp.devices
  }

  predicate Ends(s: State, e: Event, device: u32) {
    match e
    case Deauthenticate(a) => a == device
    case RemovePeer(a) => a == device
    case DeauthenticateAllDevices(user) => device in OwnedBy(s, user)
    case SetLockAccount(user, _) => device in OwnedBy(s, user)
    case RemoveUser(user) => device in OwnedBy(s, user)
    case _ => false
  }

  // The packet writes the device's last-activity time.
  predicate RecordsOn(s: State, e: Event, device: u32) {
    e.Packet? && Records(s.xdp, e.ip, e.now) && Deciding(s.xdp, e.ip).value.0 == device
  }

  // The grant in force, by its place in the run, and the latest activity recorded since.
  datatype Session = Session(grant: nat, seen: u64)

  function SessionOf(resolve: Resolver, s: State, es: seq<Event>, device: u32): (r: Option<Session>)
    ensures r.Some? ==> r.value.grant < |es| && es[r.value.grant].SetAuthorized?
  {
    if es == [] then None
    else
      var n := |es| - 1;
      var before := Run(resolve, s, es[..n]);
      if Grants(before, es[n], device) then Some(Session(n, es[n].seen))
      else if Ends(before, es[n], device) then None
      else
        match SessionOf(resolve, s, es[..n], device)
        case None => None
        case Some(session) =>
          Some(if RecordsOn(before, es[n], device) then session.(seen := es[n].now) else session)
  }

  // ---- The device's entry is that history ----

  ghost predicate Tracks(d: Device, grant: Event, seen: u64) {
    grant.SetAuthorized? && d.sessionExpiry == Expiry(grant.start, grant.minutes) && d.lastPacketTime == seen
  }

  // One call: an entry with a session either keeps it, is granted it, or had none and gets none.
  lemma EntryStep(resolve: Resolver, s: State, e: Event, device: u32)
    requires Agrees(s)
    ensures var t := Step(resolve, s, e).xdp.devices;
      if Grants(s, e, device) then device in t && Tracks(t[device], e, e.seen)
      else if Ends(s, e, device) then device in t ==> t[device].sessionExpiry == 0
      else if device !in s.xdp.devices then device in t ==> t[device].sessionExpiry == 0
      else (device in t && t[device].sessionExpiry == s.xdp.devices[device].sessionExpiry
        && t[device].lastPacketTime == if RecordsOn(s, e, device) then e.now else s.xdp.devices[device].lastPacketTime)
  {
    hide TableFor, Deciding, Timeout;
    if e.RemoveUser? || e.SetLockAccount? || e.DeauthenticateAllDevices? {
      IndexIsOwnership(s, e.user);
    }
    if e.RemoveUser? && device in OwnedBy(s, e.user) {
      assert e.user in s.xdp.accountLocked;
    }
  }

  lemma {:induction false} EntryIsHistory(resolve: Resolver, s: State, es: seq<Event>, device: u32)
    requires Agrees(s) && s.xdp.devices == map[] && ProperRun(resolve, s, es)
    ensures var d, session := Run(resolve, s, es).xdp.devices, SessionOf(resolve, s, es, device);
      && (session.Some? ==> device in d && Tracks(d[device], es[session.value.grant], session.value.seen))
      && (device in d && d[device].sessionExpiry != 0 ==> session.Some?)
  {
    hide Step, Agrees, Proper, RecordsOn, Grants, Ends;
    if es != [] {
      var n := |es| - 1;
      ProperPrefix(resolve, s, es, n);
      EntryIsHistory(resolve, s, es[..n], device);
      RunAgrees(resolve, s, es[..n]);
      EntryStep(resolve, Run(resolve, s, es[..n]), es[n], device);
    }
  }

  // ---- A grant in force is the latest, and nothing ended it ----

  ghost predicate InForce(resolve: Resolver, s: State, es: seq<Event>, device: u32, grant: nat) {
    && grant < |es|
    && Grants(Run(resolve, s, es[..grant]), es[grant], device)
    && (forall j :: grant < j < |es| ==>
      !Grants(Run(resolve, s, es[..j]), es[j], device) && !Ends(Run(resolve, s, es[..j]), es[j], device))
  }

  lemma {:induction false} GrantIsKept(resolve: Resolver, s: State, es: seq<Event>, device: u32, j: nat)
    requires SessionOf(resolve, s, es, device).Some?
    requires SessionOf(resolve, s, es, device).value.grant < j <= |es|
    ensures SessionOf(resolve, s, es[..j], device).Some?
    ensures SessionOf(resolve, s, es[..j], device).value.grant == SessionOf(resolve, s, es, device).value.grant
  {
    hide Run, Grants, Ends, RecordsOn;
    if j == |es| {
      assert es[..j] == es;
    } else {
      var n := |es| - 1;
      GrantIsKept(resolve, s, es[..n], device, j);
      assert es[..n][..j] == es[..j];
    }
  }

  // At the event after the grant, the session is already there and nothing ends or replaces it.
  lemma GrantStands(resolve: Resolver, s: State, es: seq<Event>, device: u32)
    requires SessionOf(resolve, s, es, device).Some?
    requires SessionOf(resolve, s, es, device).value.grant < |es| - 1
    ensures var before := Run(resolve, s, es[..|es| - 1]);
      !Grants(before, es[|es| - 1], device) && !Ends(before, es[|es| - 1], device)
  {
    hide Run, Grants, Ends, RecordsOn;
  }

  lemma GrantStarts(resolve: Resolver, s: State, es: seq<Event>, device: u32)
    requires SessionOf(resolve, s, es, device).Some?
    requires SessionOf(resolve, s, es, device).value.grant == |es| - 1
    ensures Grants(Run(resolve, s, es[..|es| - 1]), es[|es| - 1], device)
  {
    hide Run, Grants, Ends, RecordsOn;
  }

  lemma SessionIsInForce(resolve: Resolver, s: State, es: seq<Event>, device: u32)
    requires SessionOf(resolve, s, es, device).Some?
    ensures InForce(resolve, s, es, device, SessionOf(resolve, s, es, device).value.grant)
    ensures var grant := SessionOf(resolve, s, es, device).value.grant;
      forall j :: grant < j <= |es| ==>
        SessionOf(resolve, s, es[..j], device).Some? && SessionOf(resolve, s, es[..j], device).value.grant == grant
  {
    hide Run, Grants, Ends, RecordsOn, SessionOf;
    var grant := SessionOf(resolve, s, es, device).value.grant;
    forall j | grant < j <= |es|
      ensures SessionOf(resolve, s, es[..j], device).Some? &&
        SessionOf(resolve, s, es[..j], device).value.grant == grant
    {
      GrantIsKept(resolve, s, es, device, j);
    }
    forall j | grant <= j < |es|
      ensures if j == grant then Grants(Run(resolve, s, es[..j]), es[j], device)
        else !Grants(Run(resolve, s, es[..j]), es[j], device) && !Ends(Run(resolve, s, es[..j]), es[j], device)
    {
      var upTo := es[..j + 1];
      assert upTo[..|upTo| - 1] == es[..j] && upTo[|upTo| - 1] == es[j];
      if j == grant { GrantStarts(resolve, s, upTo, device); } else { GrantStands(resolve, s, upTo, device); }
    }
  }

  // ---- The clock ----

  function FirstTime(e: Event): u64 {
    match e
    case SetAuthorized(_, _, _, seen, _, _) => seen
    case Packet(_, now) => now
    case _ => MAX_U64
  }

  function LastTime(e: Event): u64 {
    match e
    case SetAuthorized(_, _, _, _, start, _) => start
    case Packet(_, now) => now
    case _ => 0
  }

  // One clock that does not go back, read by every event in turn and then at the given time.
  ghost predicate ClockRuns(es: seq<Event>, now: u64) {
    && (forall i :: 0 <= i < |es| && es[i].SetAuthorized? ==> es[i].seen <= es[i].start)
    && (forall i, j :: 0 <= i < j < |es| ==> LastTime(es[i]) <= FirstTime(es[j]))
    && (forall i :: 0 <= i < |es| ==> LastTime(es[i]) <= now)
  }

  lemma {:induction false} SeenIsPast(resolve: Resolver, s: State, es: seq<Event>, device: u32, now: u64)
    requires ClockRuns(es, now) && SessionOf(resolve, s, es, device).Some?
    ensures SessionOf(resolve, s, es, device).value.seen <= now
  {
    hide Run, Grants, Ends, RecordsOn;
    var n := |es| - 1;
    assert LastTime(es[n]) <= now;
    assert RecordsOn(Run(resolve, s, es[..n]), es[n], device) ==> es[n].Packet?
      by { RecordingIsPacket(resolve, s, es, n, device); }
    assert Grants(Run(resolve, s, es[..n]), es[n], device) ==> es[n].SetAuthorized?
      by { GrantIsAuthorisation(resolve, s, es, n, device); }
    if !Grants(Run(resolve, s, es[..n]), es[n], device) {
      assert ClockRuns(es[..n], now);
      SeenIsPast(resolve, s, es[..n], device, now);
    }
  }

  lemma RecordingIsPacket(resolve: Resolver, s: State, es: seq<Event>, n: nat, device: u32)
    requires n < |es|
    ensures RecordsOn(Run(resolve, s, es[..n]), es[n], device) ==> es[n].Packet?
  {}

  lemma GrantIsAuthorisation(resolve: Resolver, s: State, es: seq<Event>, n: nat, device: u32)
    requires n < |es|
    ensures Grants(Run(resolve, s, es[..n]), es[n], device) ==> es[n].SetAuthorized?
  {}

  // ---- Safety ----

  predicate Within(timeout: u64, gap: int) {
    timeout == MAX_U64 || gap < timeout
  }

  // Every packet that recorded activity since the grant came within the timeout then in force of the
  // activity before it, and so does the present.
  ghost predicate NeverIdle(resolve: Resolver, s: State, es: seq<Event>, device: u32, grant: nat, now: u64) {
    && (forall j :: grant < j < |es| && RecordsOn(Run(resolve, s, es[..j]), es[j], device) ==>
      var session := SessionOf(resolve, s, es[..j], device);
      session.Some? && Within(Run(resolve, s, es[..j]).xdp.inactivityTimeout, es[j].now - session.value.seen))
    && SessionOf(resolve, s, es, device).Some?
    && Within(Run(resolve, s, es).xdp.inactivityTimeout, now - SessionOf(resolve, s, es, device).value.seen)
  }

  // The lifetime is in unbounded arithmetic; only a sum that lands exactly on the sentinel escapes it.
  predicate LifetimeHolds(e: Event, now: u64)
    requires e.SetAuthorized?
  {
    || e.minutes < 0
    || now < e.start + e.minutes * NANOSECONDS_PER_MINUTE
    || now == e.start + e.minutes * NANOSECONDS_PER_MINUTE == MAX_U64
  }

  lemma ExpiryHolds(e: Event, now: u64)
    requires e.SetAuthorized?
    requires Expiry(e.start, e.minutes) == MAX_U64 || now < Expiry(e.start, e.minutes)
    ensures LifetimeHolds(e, now)
  {}

  lemma ActiveStep(resolve: Resolver, s: State, es: seq<Event>, j: nat, device: u32, now: u64)
    requires Agrees(s) && s.xdp.devices == map[] && ProperRun(resolve, s, es) && ClockRuns(es, now)
    requires j < |es| && RecordsOn(Run(resolve, s, es[..j]), es[j], device)
    requires SessionOf(resolve, s, es[..j], device).Some?
    ensures Within(Run(resolve, s, es[..j]).xdp.inactivityTimeout,
      es[j].now - SessionOf(resolve, s, es[..j], device).value.seen)
  {
    hide Run, Step, Agrees, Proper, Deciding, SessionOf;
    ProperPrefix(resolve, s, es, j);
    EntryIsHistory(resolve, s, es[..j], device);
    assert ClockRuns(es[..j], es[j].now);
    SeenIsPast(resolve, s, es[..j], device, es[j].now);
  }

  lemma MfaNeedsLiveSession(t: Tables, ip: IpInfo, now: u64, device: u32, slots: Slots, port: u16, p: Policy)
    requires Deciding(t, ip) == Some((device, slots, port)) && Passes(t, ip, now)
    requires p in Meant(slots) && Matches(p, ip.proto, port) && IsMfa(p)
    ensures SessionLive(t, t.devices[device], now)
  {
    hide Deciding, Matches, SessionLive;
    assert p in (set q | q in Meant(slots));
  }

  // In every run from an empty device table, under one clock that does not go back: a packet that
  // passes a bucket in which an mfa policy matches belongs to a device with a grant in force, not
  // outlived, never idle for the timeout, on this node and of an unlocked account.
  lemma SessionSafety(resolve: Resolver, s: State, es: seq<Event>, ip: IpInfo, now: u64,
                      device: u32, slots: Slots, port: u16, p: Policy)
    requires Agrees(s) && s.xdp.devices == map[] && ProperRun(resolve, s, es) && ClockRuns(es, now)
    requires Deciding(Run(resolve, s, es).xdp, ip) == Some((device, slots, port))
    requires p in Meant(slots) && Matches(p, ip.proto, port) && IsMfa(p)
    requires Passes(Run(resolve, s, es).xdp, ip, now)
    ensures var t := Run(resolve, s, es).xdp;
      && t.nodeId == t.devices[device].associatedNode
      && t.accountLocked[t.devices[device].userId] == 0
    ensures exists grant: nat :: (grant < |es| && es[grant].SetAuthorized?
      && InForce(resolve, s, es, device, grant)
      && LifetimeHolds(es[grant], now)
      && NeverIdle(resolve, s, es, device, grant, now))
  {
    hide Run, Deciding, Passes;
    MfaNeedsLiveSession(Run(resolve, s, es).xdp, ip, now, device, slots, port, p);
    LiveSessionWasGranted(resolve, s, es, now, device);
  }

  lemma LiveSessionWasGranted(resolve: Resolver, s: State, es: seq<Event>, now: u64, device: u32)
    requires Agrees(s) && s.xdp.devices == map[] && ProperRun(resolve, s, es) && ClockRuns(es, now)
    requires var t := Run(resolve, s, es).xdp;
      device in t.devices && t.devices[device].userId in t.accountLocked && SessionLive(t, t.devices[device], now)
    ensures exists grant: nat :: (grant < |es| && es[grant].SetAuthorized?
      && InForce(resolve, s, es, device, grant)
      && LifetimeHolds(es[grant], now)
      && NeverIdle(resolve, s, es, device, grant, now))
  {
    hide Run, Step, Agrees, Proper, ProperRun, Grants, Ends, RecordsOn, SessionOf, InForce, Expiry, LifetimeHolds;
    EntryIsHistory(resolve, s, es, device);
    var session := SessionOf(resolve, s, es, device).value;
    SessionIsInForce(resolve, s, es, device);
    SeenIsPast(resolve, s, es, device, now);
    ExpiryHolds(es[session.grant], now);
    Active(resolve, s, es, device, now);
  }

  lemma Active(resolve: Resolver, s: State, es: seq<Event>, device: u32, now: u64)
    requires Agrees(s) && s.xdp.devices == map[] && ProperRun(resolve, s, es) && ClockRuns(es, now)
    requires SessionOf(resolve, s, es, device).Some?
    requires Within(Run(resolve, s, es).xdp.inactivityTimeout, now - SessionOf(resolve, s, es, device).value.seen)
    ensures NeverIdle(resolve, s, es, device, SessionOf(resolve, s, es, device).value.grant, now)
  {
    hide Run, Agrees, ProperRun, ClockRuns, Records, SessionOf, Within, InForce;
    var grant := SessionOf(resolve, s, es, device).value.grant;
    SessionIsInForce(resolve, s, es, device);
    forall j | grant < j < |es| && RecordsOn(Run(resolve, s, es[..j]), es[j], device)
      ensures SessionOf(resolve, s, es[..j], device).Some?
      ensures Within(Run(resolve, s, es[..j]).xdp.inactivityTimeout,
        es[j].now - SessionOf(resolve, s, es[..j], device).value.seen)
    {
      ActiveStep(resolve, s, es, j, device, now);
    }
  }

  // ---- The session test is the history, both ways ----

  // After any run, a device passes the session test exactly when its account is unlocked, it is on this
  // node, and history holds a grant not yet expired with activity within the timeout.
  lemma LiveExactly(resolve: Resolver, s: State, es: seq<Event>, device: u32, now: u64)
    requires Agrees(s) && s.xdp.devices == map[] && ProperRun(resolve, s, es) && ClockRuns(es, now)
    requires var t := Run(resolve, s, es).xdp; device in t.devices && t.devices[device].userId in t.accountLocked
    ensures var t, session := Run(resolve, s, es).xdp, SessionOf(resolve, s, es, device);
      SessionLive(t, t.devices[device], now) <==>
        && t.nodeId == t.devices[device].associatedNode
        && t.accountLocked[t.devices[device].userId] == 0
        && session.Some?
        && Within(t.inactivityTimeout, now - session.value.seen)
        && (var expiry := Expiry(es[session.value.grant].start, es[session.value.grant].minutes);
            expiry != 0 && (expiry == MAX_U64 || now < expiry))
  {
    hide Run, Agrees, ProperRun, ClockRuns, SessionOf, Expiry;
    EntryIsHistory(resolve, s, es, device);
    if SessionOf(resolve, s, es, device).Some? {
      SeenIsPast(resolve, s, es, device, now);
    }
  }

  function Started(node: u64, timeout: u64): State {
    State(Tables(map[], map[], map[], node, timeout), {}, map[], map[])
  }

  // On a node that has just started: a user is added, gets a device and authorises it, and until the
  // lifetime or the timeout is over the device has a live session.
  lemma FirstLogin(resolve: Resolver, node: u64, timeout: u64, user: string, acl: Acl, key: string,
                   address: u32, seen: u64, start: u64, minutes: int, now: u64)
    requires seen <= start <= now && Within(timeout, now - seen)
    requires Expiry(start, minutes) == MAX_U64 || now < Expiry(start, minutes)
    ensures var s := Started(node, timeout);
      var es := [AddUser(user, acl), AddPeer(key, user, address, node),
                 SetAuthorized(address, user, node, seen, start, minutes)];
      var t := Run(resolve, s, es).xdp;
      && Agrees(s) && ProperRun(resolve, s, es) && ClockRuns(es, now)
      && address in t.devices && t.devices[address].userId in t.accountLocked
      && SessionLive(t, t.devices[address], now)
  {
    var s := Started(node, timeout);
    var a, b, c := AddUser(user, acl), AddPeer(key, user, address, node),
      SetAuthorized(address, user, node, seen, start, minutes);
    hide Run, Step, Expiry, ProperRun, Agrees, ClockRuns;
    LoginSteps(resolve, node, timeout, user, acl, key, address, c);
    RunOfThree(resolve, s, a, b, c);
    StartedAgrees(node, timeout);
    LoginClock(a, b, c, now);
  }

  lemma StartedAgrees(node: u64, timeout: u64)
    ensures Agrees(Started(node, timeout))
  {}

  lemma LoginClock(a: Event, b: Event, c: Event, now: u64)
    requires a.AddUser? && b.AddPeer? && c.SetAuthorized? && c.seen <= c.start <= now
    ensures ClockRuns([a, b, c], now)
  {}

  // Of three calls only the last needs to be made in the owner's name.
  lemma RunOfThree(resolve: Resolver, s: State, a: Event, b: Event, c: Event)
    requires a.AddUser? && b.AddPeer? && Proper(Step(resolve, Step(resolve, s, a), b), c)
    ensures Run(resolve, s, [a, b, c]) == Step(resolve, Step(resolve, Step(resolve, s, a), b), c)
    ensures ProperRun(resolve, s, [a, b, c])
  {
    hide Step, Run;
    RunNothing(resolve, s);
    RunNext(resolve, s, [], a);
    RunNext(resolve, s, [a], b);
    RunNext(resolve, s, [a, b], c);
    assert [] + [a] == [a] && [a] + [b] == [a, b] && [a, b] + [c] == [a, b, c];
    assert [a, b, c][..0] == [] && [a, b, c][..1] == [a] && [a, b, c][..2] == [a, b];
  }

  lemma LoginSteps(resolve: Resolver, node: u64, timeout: u64, user: string, acl: Acl,
                   key: string, address: u32, c: Event)
    requires c.SetAuthorized? && c.address == address && c.user == user && c.node == node
    ensures var s2 := Step(resolve, Step(resolve, Started(node, timeout), AddUser(user, acl)),
                 AddPeer(key, user, address, node));
      && address in s2.xdp.devices && s2.xdp.devices[address].userId == user
      && var t := Step(resolve, s2, c).xdp;
      && t.nodeId == node && t.inactivityTimeout == timeout
      && user in t.accountLocked && t.accountLocked[user] == 0
      && address in t.devices && t.devices[address] == Device(Expiry(c.start, c.minutes), c.seen, user, node)
  {
    hide TableFor, Expiry;
  }
}
