// How a node follows the stored record of a user: the account's lock, and the end of its sessions.

module Accounts {
  import opened Numbers
  import opened Options
  import opened Rules
  import opened Filter
  import opened Router

  datatype Account = Account(user: string, locked: bool, mfa: string, mfaType: string, enforcing: bool)

  // A created account comes with the rules that apply to the user at that moment.
  datatype Change =
    | Created(current: Account, acl: Acl)
    | Modified(current: Account, previous: Account)
    | Deleted(current: Account)

  // The mfa type of an account that has not registered one.
  const UNSET := "unset"

  predicate SetsLock(c: Change)
    requires c.Modified?
  {
    c.current.locked != c.previous.locked || c.current.locked
  }

  predicate DropsAuthorisation(c: Change)
    requires c.Modified?
  {
    || c.current.mfa != c.previous.mfa
    || c.current.mfaType != c.previous.mfaType
    || !c.current.enforcing
    || c.current.mfaType == UNSET
  }

  function Apply(resolve: Resolver, s: State, c: Change): State {
    match c
    case Created(r, acl) => Step(resolve, s, AddUser(r.user, acl))
    case Deleted(r) => Step(resolve, s, RemoveUser(r.user))
    case Modified(r, _) =>
      var s1 := if SetsLock(c) then Step(resolve, s, SetLockAccount(r.user, LockValue(r.locked))) else s;
      if DropsAuthorisation(c) then Step(resolve, s1, DeauthenticateAllDevices(r.user)) else s1
  }

  method UserChanges(fw: Firewall, c: Change) returns (ok: bool)
    requires fw.Valid()
    modifies fw, fw.xdp, fw.compiler
    ensures fw.Valid()
    ensures fw.Current() == Apply(fw.compiler.resolve, old(fw.Current()), c)
  {
    hide Step, Agrees;
    match c {
      case Created(r, acl) =>
        ok := fw.AddUser(r.user, acl);
      case Deleted(r) =>
        ok := fw.RemoveUser(r.user);
      case Modified(r, previous) =>
        if r.locked != previous.locked || r.locked {
          var lock: u32 := 1;
          if !r.locked {
            lock := 0;
          }
          fw.SetLockAccount(r.user, lock);
        }
        if r.mfa != previous.mfa || r.mfaType != previous.mfaType || !r.enforcing || r.mfaType == UNSET {
          StepAgrees(fw.compiler.resolve, fw.Current(), DeauthenticateAllDevices(r.user));
          FiledIsKnown(fw.Current(), r.user);
          var ended, _ := fw.DeauthenticateAllDevices(r.user);
          if !ended {
            return false;
          }
        }
        ok := true;
    }
  }

  // A change that sets the lock or drops the authorisation leaves the user no session and every other
  // device as it was; any other modification leaves the whole firewall as it was.
  lemma ModificationEndsSessions(resolve: Resolver, s: State, c: Change)
    requires Agrees(s) && c.Modified?
    ensures var t := Apply(resolve, s, c);
      if c.current.locked || c.previous.locked
        || c.current.mfa != c.previous.mfa || c.current.mfaType != c.previous.mfaType
        || !c.current.enforcing || c.current.mfaType == "unset" then
        && t.xdp.devices.Keys == s.xdp.devices.Keys
        && forall a :: a in t.xdp.devices ==> (t.xdp.devices[a] ==
            if s.xdp.devices[a].userId == c.current.user then Unauthenticated(s.xdp.devices[a]) else s.xdp.devices[a])
      else t == s
    ensures c.current.locked || c.previous.locked ==>
      AccountIn(Apply(resolve, s, c), c.current.user) == Some(if c.current.locked then 1 else 0)
  {
    var user := c.current.user;
    hide Agrees;
    IndexIsOwnership(s, user);
  }

  // A created user has an unlocked account and the routes of the rules that apply; a deleted one has
  // neither.
  lemma CreationExactly(resolve: Resolver, s: State, r: Account, acl: Acl)
    requires Agrees(s) && r.user !in s.xdp.accountLocked
    ensures var t := Apply(resolve, s, Created(r, acl));
      && AccountIn(t, r.user) == Some(0)
      && r.user in t.xdp.policies && t.xdp.policies[r.user] == TableFor(resolve, acl)
      && var gone := Apply(resolve, t, Deleted(r));
      AccountIn(gone, r.user).None? && r.user !in gone.xdp.policies
  {
    hide TableFor;
  }

  // ---- The log of one user, and a node that follows it ----

  function Latest(log: seq<Change>): Option<Account> {
    if log == [] || log[|log| - 1].Deleted? then None else Some(log[|log| - 1].current)
  }

  // Accounts are created unlocked, and a name is never changed.
  predicate Follows(latest: Option<Account>, c: Change, user: string) {
    && c.current.user == user
    && match c
       case Created(r, _) => latest.None? && !r.locked
       case Deleted(r) => latest == Some(r)
       case Modified(_, previous) => latest == Some(previous)
  }

  predicate ValidLog(log: seq<Change>, user: string) {
    forall k :: 0 <= k < |log| ==> Follows(Latest(log[..k]), log[k], user)
  }

  // A refresh reads the store itself, which can be any number of changes ahead of those handled.
  datatype NodeEvent =
    | Handled(change: Change)
    | Refresh(minutes: int, users: seq<StoredUser>, position: nat)
    | Other(event: Event)

  function NodeStep(resolve: Resolver, s: State, e: NodeEvent): State {
    match e
    case Handled(c) => Apply(resolve, s, c)
    case Refresh(minutes, users, _) => Step(resolve, s, RefreshConfiguration(minutes, users))
    case Other(event) => Step(resolve, s, event)
  }

  function NodeRun(resolve: Resolver, s: State, es: seq<NodeEvent>): State {
    if es == [] then s else NodeStep(resolve, NodeRun(resolve, s, es[..|es| - 1]), es[|es| - 1])
  }

  // How many changes the node has handled, and how many the latest refresh had read.
  function HandledIn(es: seq<NodeEvent>): nat {
    if es == [] then 0 else HandledIn(es[..|es| - 1]) + if es[|es| - 1].Handled? then 1 else 0
  }

  function RefreshedTo(es: seq<NodeEvent>): nat {
    if es == [] then 0
    else if es[|es| - 1].Refresh? then es[|es| - 1].position
    else RefreshedTo(es[..|es| - 1])
  }

  // Nothing else creates, locks or removes the account.
  predicate Elsewhere(e: Event, user: string) {
    !Creates(e, user) && !(e.RemoveUser? && e.user == user)
  }

  predicate Reads(users: seq<StoredUser>, user: string, latest: Option<Account>) {
    match latest
    case None => RecordOf(users, user).None?
    case Some(r) => RecordOf(users, user).Some? && RecordOf(users, user).value.locked == r.locked
  }

  // The node handles the log in order, and each refresh reads it no earlier than anything read before.
  predicate Orderly(log: seq<Change>, es: seq<NodeEvent>, user: string)
    ensures Orderly(log, es, user) ==> HandledIn(es) <= |log| && RefreshedTo(es) <= |log|
  {
    es != [] ==>
      var n := |es| - 1;
      && Orderly(log, es[..n], user)
      && match es[n]
         case Handled(c) => HandledIn(es[..n]) < |log| && c == log[HandledIn(es[..n])]
         case Refresh(_, users, position) =>
           && HandledIn(es[..n]) <= position <= |log| && RefreshedTo(es[..n]) <= position
           && Reads(users, user, Latest(log[..position]))
         case Other(e) => Elsewhere(e, user)
  }

  // ---- The account, and what the changes still to come make of it ----

  function AsStored(latest: Option<Account>): Option<u32> {
    match latest
    case None => None
    case Some(r) => Some(LockValue(r.locked))
  }

  function Replayed(account: Option<u32>, c: Change): Option<u32> {
    match c
    case Created(_, _) => if account.None? then Some(0) else account
    case Deleted(_) => None
    case Modified(r, _) => if SetsLock(c) then Some(LockValue(r.locked)) else account
  }

  function Replay(account: Option<u32>, changes: seq<Change>): Option<u32> {
    if changes == [] then account
    else Replayed(Replay(account, changes[..|changes| - 1]), changes[|changes| - 1])
  }

  lemma HandlingReplays(resolve: Resolver, s: State, c: Change)
    ensures AccountIn(Apply(resolve, s, c), c.current.user) == Replayed(AccountIn(s, c.current.user), c)
  {
    hide TableFor, DeauthenticateAll;
  }

  lemma OtherLeavesAccount(resolve: Resolver, s: State, e: Event, user: string)
    requires Elsewhere(e, user)
    ensures AccountIn(Step(resolve, s, e), user) == AccountIn(s, user)
  {
    hide TableFor, DevicesAfter, DeauthenticateAll;
  }

  lemma {:induction false} ReplayHead(account: Option<u32>, changes: seq<Change>)
    requires changes != []
    ensures Replay(account, changes) == Replay(Replayed(account, changes[0]), changes[1..])
  {
    var n := |changes| - 1;
    if n > 0 {
      ReplayHead(account, changes[..n]);
      assert changes[..n][1..] == changes[1..][..n - 1];
    }
  }

  // Handling the next change of a log brings the account of the record before to that of the record after.
  lemma ReplayFollows(log: seq<Change>, user: string, k: nat)
    requires ValidLog(log, user) && k < |log|
    ensures Replayed(AsStored(Latest(log[..k])), log[k]) == AsStored(Latest(log[..k + 1]))
  {
    assert Follows(Latest(log[..k]), log[k], user);
    assert log[..k + 1][|log[..k + 1]| - 1] == log[k];
  }

  // Handling changes that a refresh had already read ends where the refresh did.
  lemma {:induction false} ReplayFromEnd(log: seq<Change>, user: string, h: nat, m: nat, account: Option<u32>)
    requires ValidLog(log, user) && h <= m <= |log|
    requires account == AsStored(Latest(log[..m])) || (Latest(log[..m]).None? && h < m)
    ensures Replay(account, log[h..m]) == AsStored(Latest(log[..m]))
  {
    if h < m {
      var c := log[m - 1];
      assert log[h..m][..m - h - 1] == log[h..m - 1] && log[..m][m - 1] == c;
      assert Follows(Latest(log[..m - 1]), c, user);
      if c.Modified? && !SetsLock(c) {
        ReplayFromEnd(log, user, h, m - 1, account);
      } else if c.Created? {
        NoAccountBefore(log, user, h, m - 1, account);
      }
    }
  }

  lemma NoAccountBefore(log: seq<Change>, user: string, h: nat, m: nat, account: Option<u32>)
    requires ValidLog(log, user) && h <= m <= |log| && Latest(log[..m]).None? && account == Some(0)
    ensures Replay(account, log[h..m]) == if h < m then None else Some(0)
  {
    if h < m {
      assert log[..m][m - 1] == log[m - 1];
      assert log[h..m][m - h - 1] == log[m - 1];
    }
  }

  function Later(h: nat, m: nat): nat { if h < m then m else h }

  // Once the changes up to the latest refresh are handled too, the account will be as stored then.
  predicate Settles(account: Option<u32>, log: seq<Change>, h: nat, m: nat)
    requires h <= |log| && m <= |log|
  {
    Replay(account, log[h..Later(h, m)]) == AsStored(Latest(log[..Later(h, m)]))
  }

  lemma HandledSettles(account: Option<u32>, log: seq<Change>, user: string, h: nat, m: nat)
    requires ValidLog(log, user) && h < |log| && m <= |log| && Settles(account, log, h, m)
    ensures Settles(Replayed(account, log[h]), log, h + 1, m)
  {
    if h < m {
      ReplayHead(account, log[h..m]);
      assert log[h..m][1..] == log[h + 1..m];
    } else {
      assert log[h..h] == [] && log[h + 1..h + 1] == [];
      ReplayFollows(log, user, h);
    }
  }

  // Whatever else a node does, and however far its refreshes read ahead: once it has handled the user's
  // log as far as its latest refresh had read it, it has the account exactly when the latest record
  // exists, locked exactly when that record is; and before that, handling the rest will bring it there.
  lemma {:induction false} NodeMirrorsAccount(resolve: Resolver, s: State, log: seq<Change>, es: seq<NodeEvent>,
                                              user: string)
    requires user !in s.xdp.accountLocked && ValidLog(log, user) && Orderly(log, es, user)
    ensures Settles(AccountIn(NodeRun(resolve, s, es), user), log, HandledIn(es), RefreshedTo(es))
    ensures RefreshedTo(es) <= HandledIn(es) ==>
      AccountIn(NodeRun(resolve, s, es), user) == AsStored(Latest(log[..HandledIn(es)]))
  {
    hide Step, Apply, Elsewhere, Reads, ValidLog, Settles;
    if es == [] {
      StartSettles(log);
    } else {
      var n := |es| - 1;
      NodeMirrorsAccount(resolve, s, log, es[..n], user);
      var before, h, m := NodeRun(resolve, s, es[..n]), HandledIn(es[..n]), RefreshedTo(es[..n]);
      match es[n]
      case Handled(c) =>
        LogNamesUser(log, user, h);
        HandlingReplays(resolve, before, c);
        HandledSettles(AccountIn(before, user), log, user, h, m);
      case Refresh(minutes, users, position) =>
        RefreshReads(resolve, before, minutes, users, user);
        RefreshSettles(AccountIn(before, user), log, users, user, h, m, position);
      case Other(e) =>
        OtherLeavesAccount(resolve, before, e, user);
    }
    SettledIsStored(AccountIn(NodeRun(resolve, s, es), user), log, HandledIn(es), RefreshedTo(es));
  }

  lemma StartSettles(log: seq<Change>)
    ensures Settles(None, log, 0, 0)
  {
    assert log[0..0] == [] && log[..0] == [];
  }

  lemma LogNamesUser(log: seq<Change>, user: string, k: nat)
    requires ValidLog(log, user) && k < |log|
    ensures log[k].current.user == user
  {
    assert Follows(Latest(log[..k]), log[k], user);
  }

  lemma SettledIsStored(account: Option<u32>, log: seq<Change>, h: nat, m: nat)
    requires h <= |log| && m <= |log| && Settles(account, log, h, m)
    ensures m <= h ==> account == AsStored(Latest(log[..h]))
  {
    assert log[h..h] == [];
  }

  lemma RefreshSettles(account: Option<u32>, log: seq<Change>, users: seq<StoredUser>, user: string,
                       h: nat, m: nat, position: nat)
    requires ValidLog(log, user) && h <= position <= |log| && m <= position && Settles(account, log, h, m)
    requires Reads(users, user, Latest(log[..position]))
    ensures var after := match RecordOf(users, user) case None => account case Some(r) => Some(LockValue(r.locked));
      Settles(after, log, h, position)
  {
    var after := match RecordOf(users, user) case None => account case Some(r) => Some(LockValue(r.locked));
    SettledIsStored(account, log, h, m);
    ReplayFromEnd(log, user, h, position, after);
  }

  // So on every such node the user's account, if the record is locked, gives no device a session, and if
  // there is no record, lets nothing be decided.
  lemma LockedOrDeletedHasNoSession(resolve: Resolver, s: State, log: seq<Change>, es: seq<NodeEvent>, user: string,
                                    device: u32, now: u64)
    requires user !in s.xdp.accountLocked && ValidLog(log, user) && Orderly(log, es, user)
    requires RefreshedTo(es) <= HandledIn(es)
    requires var t := NodeRun(resolve, s, es).xdp; device in t.devices && t.devices[device].userId == user
    ensures var t, latest := NodeRun(resolve, s, es).xdp, Latest(log[..HandledIn(es)]);
      && (user in t.accountLocked <==> latest.Some?)
      && (latest.Some? && latest.value.locked ==> !SessionLive(t, t.devices[device], now))
      && (latest.None? ==> forall ip :: (match Endpoint(t, ip) case None => true case Some(e) => e.0 == device) ==>
          !Passes(t, ip, now))
  {
    hide NodeRun, HandledIn, RefreshedTo, Orderly;
    NodeMirrorsAccount(resolve, s, log, es, user);
  }
}
