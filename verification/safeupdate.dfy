// doSafeUpdate: read a key, compute its new value, and write it only if the key has not changed since,
// over and over; alone against an interfering store, and as many clients interleaved.

module SafeUpdate {
  import opened Options

  // ---- One key of the store ----

  datatype Versioned<V> = Versioned(value: V, modRevision: nat)

  // A committed write of the key: by one of the clients, or by a plain put or delete.
  datatype Commit<V> = Commit(client: Option<nat>, after: Option<V>)

  // The revision counts writes to any key. The log is the key's history and is not read by anyone.
  datatype Store<V> = Store(entry: Option<Versioned<V>>, revision: nat, log: seq<Commit<V>>)

  function Write<V>(s: Store<V>, client: Option<nat>, value: V): Store<V> {
    Store(Some(Versioned(value, s.revision + 1)), s.revision + 1, s.log + [Commit(client, Some(value))])
  }

  function Erase<V>(s: Store<V>): Store<V> {
    if s.entry.None? then s else Store(None, s.revision + 1, s.log + [Commit(None, None)])
  }

  function ValueOf<V>(entry: Option<Versioned<V>>): Option<V> {
    match entry
    case None => None
    case Some(v) => Some(v.value)
  }

  // The value of the key just before the k-th commit of its history.
  function Before<V>(initial: Option<V>, log: seq<Commit<V>>, k: nat): Option<V>
    requires k <= |log|
  {
    if k == 0 then initial else log[k - 1].after
  }

  // The caller's function of the present value; None is its error.
  type Mutation<!V> = Option<V> -> Option<V>

  // ---- A client ----

  datatype Phase<V> =
    | Start
    | Creating(newValue: V)
    | Swapping(seen: Versioned<V>, newValue: V)
    | Committed
    | NoRecord
    | Refused

  datatype Client<!V> = Client(mutate: Mutation<V>, create: bool, phase: Phase<V>,
                               failures: nat, firstRead: nat, lastRead: nat)

  // The head of the loop, on the snapshot just read.
  function Consider<V>(mutate: Mutation<V>, snapshot: Option<Versioned<V>>): Phase<V> {
    match snapshot
    case None => NoRecord
    case Some(v) =>
      match mutate(Some(v.value))
      case None => Refused
      case Some(n) => Swapping(v, n)
  }

  function FirstPhase<V>(mutate: Mutation<V>, create: bool, snapshot: Option<Versioned<V>>): Phase<V> {
    if create && snapshot.None? then
      match mutate(None)
      case None => Refused
      case Some(n) => Creating(n)
    else Consider(mutate, snapshot)
  }

  // The comparison of the transaction. A missing key has revision 0, which no write has.
  predicate Unchanged<V>(phase: Phase<V>, entry: Option<Versioned<V>>) {
    match phase
    case Creating(_) => entry.None?
    case Swapping(seen, _) => entry.Some? && entry.value.modRevision == seen.modRevision
    case _ => false
  }

  // ---- Many clients ----

  datatype World<!V> = World(store: Store<V>, clients: seq<Client<V>>)

  datatype Action<V> = Read(client: nat) | Transact(client: nat) | Put(value: V) | Delete | OtherKey

  predicate Pending<V>(phase: Phase<V>) { phase.Creating? || phase.Swapping? }

  predicate Enabled<V>(w: World<V>, a: Action<V>) {
    match a
    case Read(i) => i < |w.clients| && w.clients[i].phase.Start?
    case Transact(i) => i < |w.clients| && Pending(w.clients[i].phase)
    case _ => true
  }

  function AfterRead<V>(w: World<V>, i: nat): World<V>
    requires Enabled(w, Read(i))
  {
    var c := w.clients[i];
    var now := |w.store.log|;
    w.(clients := w.clients[i := c.(phase := FirstPhase(c.mutate, c.create, w.store.entry),
      firstRead := now, lastRead := now)])
  }

  function AfterTransact<V>(w: World<V>, i: nat): World<V>
    requires Enabled(w, Transact(i))
  {
    var c := w.clients[i];
    if Unchanged(c.phase, w.store.entry) then
      World(Write(w.store, Some(i), c.phase.newValue), w.clients[i := c.(phase := Committed)])
    else
      w.(clients := w.clients[i := c.(phase := Consider(c.mutate, w.store.entry), failures := c.failures + 1,
                                      lastRead := |w.store.log|)])
  }

  function Next<V>(w: World<V>, a: Action<V>): World<V>
    requires Enabled(w, a)
  {
    match a
    case Read(i) => AfterRead(w, i)
    case Transact(i) => AfterTransact(w, i)
    case Put(v) => w.(store := Write(w.store, None, v))
    case Delete => w.(store := Erase(w.store))
    case OtherKey => w.(store := w.store.(revision := w.store.revision + 1))
  }

  // ---- What every interleaving keeps ----

  ghost predicate StoreOk<V>(s: Store<V>, initial: Option<V>) {
    && ValueOf(s.entry) == Before(initial, s.log, |s.log|)
    && (s.entry.Some? ==> s.entry.value.modRevision <= s.revision)
  }

  // What a client holds is still what it read, unless the key's revision has moved on.
  ghost predicate ClientOk<V>(s: Store<V>, c: Client<V>) {
    && (c.phase != Start ==> c.firstRead + c.failures <= c.lastRead <= |s.log|)
    && (c.phase.Start? ==> c.failures == 0)
    && match c.phase
       case Creating(n) =>
         && c.create && c.mutate(None) == Some(n)
         && (c.lastRead == |s.log| ==> s.entry.None?)
       case Swapping(seen, n) =>
         && c.mutate(Some(seen.value)) == Some(n)
         && seen.modRevision <= s.revision
         && (c.lastRead == |s.log| ==> s.entry == Some(seen))
         && (Unchanged(c.phase, s.entry) ==> s.entry == Some(seen))
       case _ => true
  }

  // The k-th commit, if a client made it, is that client's function of the value just before it.
  ghost predicate CommitOk<V>(w: World<V>, initial: Option<V>, k: nat)
    requires k < |w.store.log|
  {
    var entry := w.store.log[k];
    entry.client.Some? ==>
      && entry.client.value < |w.clients|
      && var c := w.clients[entry.client.value];
      && entry.after.Some?
      && c.mutate(Before(initial, w.store.log, k)) == entry.after
      && (Before(initial, w.store.log, k).None? ==> c.create)
      && c.phase.Committed? && c.lastRead <= k
  }

  ghost predicate Consistent<V>(w: World<V>, initial: Option<V>) {
    && StoreOk(w.store, initial)
    && (forall i :: 0 <= i < |w.clients| ==> ClientOk(w.store, w.clients[i]))
    && (forall k :: 0 <= k < |w.store.log| ==> CommitOk(w, initial, k))
    && (forall i :: 0 <= i < |w.clients| && w.clients[i].phase.Committed? ==>
      exists k :: 0 <= k < |w.store.log| && w.store.log[k].client == Some(i))
    && (forall j, k :: 0 <= j < k < |w.store.log| && w.store.log[j].client.Some? ==>
      w.store.log[j].client != w.store.log[k].client)
  }

  lemma WriteKeepsClients<V>(s: Store<V>, initial: Option<V>, client: Option<nat>, value: V, c: Client<V>)
    requires StoreOk(s, initial) && ClientOk(s, c)
    ensures StoreOk(Write(s, client, value), initial) && ClientOk(Write(s, client, value), c)
  {}

  lemma EraseKeepsClients<V>(s: Store<V>, initial: Option<V>, c: Client<V>)
    requires StoreOk(s, initial) && ClientOk(s, c)
    ensures StoreOk(Erase(s), initial) && ClientOk(Erase(s), c)
  {}

  lemma ReadKeeps<V>(w: World<V>, initial: Option<V>, i: nat)
    requires Consistent(w, initial) && Enabled(w, Read(i))
    ensures Consistent(AfterRead(w, i), initial)
  {
    var w' := AfterRead(w, i);
    forall k | 0 <= k < |w'.store.log| ensures CommitOk(w', initial, k) { assert CommitOk(w, initial, k); }
    assert ClientOk(w.store, w.clients[i]);
  }

  lemma FailedTransactKeeps<V>(w: World<V>, initial: Option<V>, i: nat)
    requires Consistent(w, initial) && Enabled(w, Transact(i)) && !Unchanged(w.clients[i].phase, w.store.entry)
    ensures Consistent(AfterTransact(w, i), initial)
  {
    var w' := AfterTransact(w, i);
    assert ClientOk(w.store, w.clients[i]);
    forall k | 0 <= k < |w'.store.log| ensures CommitOk(w', initial, k) { assert CommitOk(w, initial, k); }
  }

  lemma SuccessfulTransactKeeps<V>(w: World<V>, initial: Option<V>, i: nat)
    requires Consistent(w, initial) && Enabled(w, Transact(i)) && Unchanged(w.clients[i].phase, w.store.entry)
    ensures Consistent(AfterTransact(w, i), initial)
  {
    var w' := AfterTransact(w, i);
    var c := w.clients[i];
    assert ClientOk(w.store, c);
    WriteKeepsClients(w.store, initial, Some(i), c.phase.newValue, c.(phase := Committed));
    forall j | 0 <= j < |w'.clients| ensures ClientOk(w'.store, w'.clients[j]) {
      if j != i { WriteKeepsClients(w.store, initial, Some(i), c.phase.newValue, w.clients[j]); }
    }
    var n := |w.store.log|;
    forall k | 0 <= k < |w'.store.log| ensures CommitOk(w', initial, k) {
      if k < n {
        assert CommitOk(w, initial, k);
        assert w'.store.log[k] == w.store.log[k] && Before(initial, w'.store.log, k) == Before(initial, w.store.log, k);
      } else {
        assert Before(initial, w'.store.log, n) == ValueOf(w.store.entry);
      }
    }
    forall k | 0 <= k < n ensures w.store.log[k].client != Some(i) { assert CommitOk(w, initial, k); }
    forall j | 0 <= j < |w'.clients| && w'.clients[j].phase.Committed?
      ensures exists k :: 0 <= k < |w'.store.log| && w'.store.log[k].client == Some(j)
    {
      if j == i {
        assert w'.store.log[n].client == Some(i);
      } else {
        var k :| 0 <= k < n && w.store.log[k].client == Some(j);
        assert w'.store.log[k].client == Some(j);
      }
    }
  }

  lemma PlainWriteKeeps<V>(w: World<V>, initial: Option<V>, a: Action<V>)
    requires Consistent(w, initial) && (a.Put? || a.Delete? || a.OtherKey?)
    ensures Consistent(Next(w, a), initial)
  {
    var w' := Next(w, a);
    forall j | 0 <= j < |w'.clients| ensures ClientOk(w'.store, w'.clients[j]) {
      match a
      case Put(v) => WriteKeepsClients(w.store, initial, None, v, w.clients[j]);
      case Delete => EraseKeepsClients(w.store, initial, w.clients[j]);
      case OtherKey => assert ClientOk(w.store, w.clients[j]);
    }
    forall k | 0 <= k < |w'.store.log| ensures CommitOk(w', initial, k) {
      if k < |w.store.log| {
        assert CommitOk(w, initial, k);
        assert Before(initial, w'.store.log, k) == Before(initial, w.store.log, k);
      }
    }
    forall j | 0 <= j < |w'.clients| && w'.clients[j].phase.Committed?
      ensures exists k :: 0 <= k < |w'.store.log| && w'.store.log[k].client == Some(j)
    {
      var k :| 0 <= k < |w.store.log| && w.store.log[k].client == Some(j);
      assert w'.store.log[k].client == Some(j);
    }
  }

  lemma NextKeeps<V>(w: World<V>, initial: Option<V>, a: Action<V>)
    requires Consistent(w, initial) && Enabled(w, a)
    ensures Consistent(Next(w, a), initial)
  {
    hide Consistent;
    match a
    case Read(i) => ReadKeeps(w, initial, i);
    case Transact(i) =>
      if Unchanged(w.clients[i].phase, w.store.entry) {
        SuccessfulTransactKeeps(w, initial, i);
      } else {
        FailedTransactKeeps(w, initial, i);
      }
    case _ => PlainWriteKeeps(w, initial, a);
  }

  // ---- Every reachable state ----

  // Clients that have not begun, and a key that no one has touched since.
  predicate Fresh<V>(w: World<V>) {
    && w.store.log == []
    && (w.store.entry.Some? ==> w.store.entry.value.modRevision <= w.store.revision)
    && forall i :: 0 <= i < |w.clients| ==> w.clients[i].phase == Start && w.clients[i].failures == 0
  }

  ghost predicate Reaches<V>(w: World<V>, actions: seq<Action<V>>, w': World<V>)
    decreases |actions|
  {
    if actions == [] then w' == w
    else
      Enabled(w, actions[0]) && Reaches(Next(w, actions[0]), actions[1..], w')
  }

  lemma {:induction false} ReachesKeeps<V>(w: World<V>, initial: Option<V>, actions: seq<Action<V>>, w': World<V>)
    requires Consistent(w, initial) && Reaches(w, actions, w')
    ensures Consistent(w', initial)
    decreases |actions|
  {
    hide Consistent, Next;
    if actions != [] {
      NextKeeps(w, initial, actions[0]);
      ReachesKeeps(Next(w, actions[0]), initial, actions[1..], w');
    }
  }

  // In every interleaving, each client that finished with success made exactly one commit, after it
  // first read, and wrote its function of the value the key had just before that commit; no other
  // client wrote anything. A write into a missing key happens only when the client may create it.
  lemma Linearizable<V>(w: World<V>, actions: seq<Action<V>>, w': World<V>)
    requires Fresh(w) && Reaches(w, actions, w')
    ensures forall k :: 0 <= k < |w'.store.log| ==> CommitOk(w', ValueOf(w.store.entry), k)
    ensures forall i :: 0 <= i < |w'.clients| ==>
      (w'.clients[i].phase.Committed? <==> exists k :: 0 <= k < |w'.store.log| && w'.store.log[k].client == Some(i))
    ensures forall j, k :: 0 <= j < k < |w'.store.log| && w'.store.log[j].client.Some? ==>
      w'.store.log[j].client != w'.store.log[k].client
  {
    var initial := ValueOf(w.store.entry);
    ReachesKeeps(w, initial, actions, w');
    forall i | 0 <= i < |w'.clients| && exists k :: 0 <= k < |w'.store.log| && w'.store.log[k].client == Some(i)
      ensures w'.clients[i].phase.Committed?
    {
      var k :| 0 <= k < |w'.store.log| && w'.store.log[k].client == Some(i);
      assert CommitOk(w', initial, k);
    }
  }

  // A client's failed attempts never outnumber the commits of others between its first and last read.
  lemma FailuresAreForeignCommits<V>(w: World<V>, actions: seq<Action<V>>, w': World<V>, i: nat)
    requires Fresh(w) && Reaches(w, actions, w') && i < |w'.clients| && !w'.clients[i].phase.Start?
    ensures var c := w'.clients[i];
      && c.firstRead + c.failures <= c.lastRead <= |w'.store.log|
      && forall k :: c.firstRead <= k < c.lastRead ==> w'.store.log[k].client != Some(i)
  {
    var initial := ValueOf(w.store.entry);
    ReachesKeeps(w, initial, actions, w');
    assert ClientOk(w'.store, w'.clients[i]);
    forall k | w'.clients[i].firstRead <= k < w'.clients[i].lastRead ensures w'.store.log[k].client != Some(i) {
      assert CommitOk(w', initial, k);
    }
  }

  // With no one else between its steps, a client commits exactly when the key exists or it may create it,
  // and its function has a value; and then it is that value that is stored.
  lemma LoneClient<V>(w: World<V>, i: nat)
    requires Enabled(w, Read(i))
    ensures var c, entry, read := w.clients[i], w.store.entry, AfterRead(w, i);
      && (Pending(read.clients[i].phase) <==> (c.create || entry.Some?) && c.mutate(ValueOf(entry)).Some?)
      && (read.clients[i].phase.NoRecord? <==> !c.create && entry.None?)
      && (Pending(read.clients[i].phase) ==>
          var done := AfterTransact(read, i);
          && done.clients[i].phase.Committed?
          && ValueOf(done.store.entry) == c.mutate(ValueOf(entry))
          && done.store.log == w.store.log + [Commit(Some(i), c.mutate(ValueOf(entry)))])
  {}

  // ---- The loop itself, on a store that others write to between its calls ----

  datatype PlainWrite<V> = PlainPut(value: V) | PlainDelete | PlainOther

  function PlainWrites<V>(s: Store<V>, writes: seq<PlainWrite<V>>): (t: Store<V>)
    ensures s.log <= t.log && s.revision <= t.revision
    ensures forall k :: |s.log| <= k < |t.log| ==> t.log[k].client.None?
    ensures |t.log| == |s.log| ==> t.entry == s.entry
    ensures |t.log| > |s.log| ==> ValueOf(t.entry) == t.log[|t.log| - 1].after
    ensures t.entry.Some? ==> s.revision < t.entry.value.modRevision <= t.revision || t.entry == s.entry
  {
    if writes == [] then s
    else
      var t := PlainWrites(s, writes[..|writes| - 1]);
      match writes[|writes| - 1]
      case PlainPut(v) => Write(t, None, v)
      case PlainDelete => Erase(t)
      case PlainOther => t.(revision := t.revision + 1)
  }

  lemma CommitOfPresent<V>(s: Store<V>, initial: Option<V>, me: nat, value: V)
    requires StoreOk(s, initial)
    ensures var t := Write(s, Some(me), value);
      StoreOk(t, initial) && Before(initial, t.log, |s.log|) == ValueOf(s.entry)
  {}

  class StoredKey<V> {
    var store: Store<V>
    // What others write before each of this client's calls; nothing once the list is used up.
    var others: seq<seq<PlainWrite<V>>>

    constructor (store: Store<V>, others: seq<seq<PlainWrite<V>>>)
      ensures this.store == store && this.others == others
    {
      this.store, this.others := store, others;
    }

    method Interfere(ghost initial: Option<V>)
      requires StoreOk(store, initial)
      modifies this
      ensures StoreOk(store, initial)
      ensures old(store.log) <= store.log &&
        forall k :: |old(store.log)| <= k < |store.log| ==> store.log[k].client.None?
      ensures |store.log| == |old(store.log)| ==> store.entry == old(store.entry)
      ensures store.entry.Some? ==> store.entry.value.modRevision <= store.revision
      ensures store.entry.Some? ==>
        old(store.revision) < store.entry.value.modRevision || store.entry == old(store.entry)
      ensures old(others) == [] ==> store == old(store) && others == []
      ensures old(others) != [] ==> store == PlainWrites(old(store), old(others[0])) && others == old(others[1..])
    {
      if others != [] {
        store := PlainWrites(store, others[0]);
        others := others[1..];
      }
    }

    // If the comparison holds the value is written; otherwise the present entry is read back.
    method Transact(me: nat, phase: Phase<V>) returns (succeeded: bool)
      requires Pending(phase)
      modifies this`store
      ensures succeeded == Unchanged(phase, old(store.entry))
      ensures store == if succeeded then Write(old(store), Some(me), phase.newValue) else old(store)
    {
      succeeded := match phase
        case Creating(_) => store.entry.None?
        case Swapping(seen, _) => store.entry.Some? && store.entry.value.modRevision == seen.modRevision;
      if succeeded {
        store := Store(Some(Versioned(phase.newValue, store.revision + 1)), store.revision + 1,
                       store.log + [Commit(Some(me), Some(phase.newValue))]);
      }
    }

    // One turn of the loop: the transaction, and the new phase.
    method Attempt(me: nat, create: bool, mutate: Mutation<V>, phase: Phase<V>, ghost initial: Option<V>)
      returns (next: Phase<V>)
      requires StoreOk(store, initial) && Pending(phase) && Holds(store, create, mutate, phase)
      modifies this
      ensures StoreOk(store, initial) && old(store.log) < store.log
      ensures others == if old(others) == [] then [] else old(others[1..])
      ensures old(others) == [] ==> |store.log| == |old(store.log)| + 1
      ensures next.Committed? ==> ValueOf(store.entry) == Some(phase.newValue)
      ensures next.Committed? ==> Wrote(store, |old(store.log)|, me, create, mutate, initial)
      ensures !next.Committed? ==> old(others) != [] && Holds(store, create, mutate, next)
      ensures !next.Committed? ==> forall k :: |old(store.log)| <= k < |store.log| ==> store.log[k].client.None?
    {
      hide PlainWrites, StoreOk;
      Interfere(initial);
      ghost var present := store;
      var succeeded := Transact(me, phase);
      if succeeded {
        CommitOfPresent(present, initial, me, phase.newValue);
        next := Committed;
      } else {
        next := Consider(mutate, store.entry);
      }
    }

    // However the others write, the loop ends; it fails no more often than they commit; and on success
    // its one commit, the latest, holds the function of the value just before it.
    method DoSafeUpdate(me: nat, create: bool, mutate: Mutation<V>, ghost initial: Option<V>)
      returns (outcome: Phase<V>, ghost failures: nat)
      requires StoreOk(store, initial)
      modifies this
      ensures StoreOk(store, initial) && old(store.log) <= store.log
      ensures outcome.Committed? || outcome.NoRecord? || outcome.Refused?
      ensures outcome.Committed? ==> Wrote(store, |old(store.log)|, me, create, mutate, initial)
      ensures !outcome.Committed? ==> forall k :: |old(store.log)| <= k < |store.log| ==> store.log[k].client.None?
      ensures outcome.NoRecord? ==> store.entry.None? && (!create || failures > 0)
      ensures outcome.Refused? ==> mutate(ValueOf(store.entry)).None? && (store.entry.None? ==> create)
      ensures old(others) == [] && !outcome.Committed? ==> store == old(store) && failures == 0
      ensures old(others) == [] && outcome.Committed? ==> |store.log| == |old(store.log)| + 1 && failures == 0
      ensures old(others) == [] ==>
        (outcome.Committed? <==> (create || old(store.entry).Some?) && mutate(ValueOf(old(store.entry))).Some?)
      ensures old(others) == [] && outcome.Committed? ==> ValueOf(store.entry) == mutate(ValueOf(old(store.entry)))
      ensures |old(store.log)| + failures + (if outcome.Committed? then 1 else 0) <= |store.log|
    {
      hide PlainWrites, StoreOk, Wrote;
      failures := 0;
      Interfere(initial);
      outcome := FirstPhase(mutate, create, store.entry);
      while Pending(outcome)
        invariant StoreOk(store, initial) && old(store.log) <= store.log
        invariant forall k :: |old(store.log)| <= k < |store.log| ==> store.log[k].client.None?
        invariant |old(store.log)| + failures <= |store.log|
        invariant Holds(store, create, mutate, outcome)
        invariant outcome.NoRecord? ==> !create || failures > 0
        invariant old(others) == [] ==> store == old(store) && others == [] && failures == 0
        decreases |others|
      {
        ghost var tried := |store.log|;
        assert mutate(ValueOf(store.entry)) == Some(outcome.newValue);
        outcome := Attempt(me, create, mutate, outcome, initial);
        if outcome.Committed? {
          WroteLater(store, |old(store.log)|, tried, me, create, mutate, initial);
          return;
        }
        failures := failures + 1;
      }
    }
  }

  // The client's snapshot is the present entry, and its new value the function of it.
  ghost predicate Holds<V>(s: Store<V>, create: bool, mutate: Mutation<V>, phase: Phase<V>) {
    && (s.entry.Some? ==> s.entry.value.modRevision <= s.revision)
    && match phase
       case Creating(n) => create && mutate(None) == Some(n) && s.entry.None?
       case Swapping(seen, n) => mutate(Some(seen.value)) == Some(n) && s.entry == Some(seen)
       case NoRecord => s.entry.None?
       case Refused => mutate(ValueOf(s.entry)).None? && (s.entry.None? ==> create)
       case _ => false
  }

  // Since the given length of the log the client made the latest commit, and others all before it.
  ghost predicate Wrote<V>(s: Store<V>, since: nat, me: nat, create: bool, mutate: Mutation<V>, initial: Option<V>) {
    var n := |s.log| - 1;
    && since <= n
    && s.log[n].client == Some(me) && s.log[n].after.Some?
    && mutate(Before(initial, s.log, n)) == s.log[n].after
    && (Before(initial, s.log, n).None? ==> create)
    && forall k :: since <= k < n ==> s.log[k].client.None?
  }

  lemma WroteLater<V>(s: Store<V>, since: nat, later: nat, me: nat,
                      create: bool, mutate: Mutation<V>, initial: Option<V>)
    requires since <= later && Wrote(s, later, me, create, mutate, initial)
    requires forall k :: since <= k < later ==> s.log[k].client.None?
    ensures Wrote(s, since, me, create, mutate, initial)
  {}
}
