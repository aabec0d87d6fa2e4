// Registration tokens with a number of uses, counted down through doSafeUpdate and then deleted.

module Tokens {
  import opened Options
  import opened SafeUpdate

  // The last use is not written back: it is an error, on which the caller deletes the token.
  function UseToken(uses: Option<int>): Option<int> {
    match uses
    case None => None
    case Some(n) => if n - 1 <= 0 then None else Some(n - 1)
  }

  // ---- One call after another ----

  // The token after a call, and whether the call succeeded.
  function Use(uses: Option<int>): (Option<int>, bool) {
    match uses
    case None => (None, false)
    case Some(_) => (UseToken(uses), true)
  }

  function Successes(uses: Option<int>, calls: nat): nat
    decreases calls
  {
    if calls == 0 then 0
    else (if Use(uses).1 then 1 else 0) + Successes(Use(uses).0, calls - 1)
  }

  lemma {:induction false} SequentialUses(n: nat, calls: nat)
    requires n >= 1
    ensures Successes(Some(n), calls) == if calls <= n then calls else n
  {
    if calls > 0 {
      if n == 1 { NoTokenNoUse(calls - 1); } else { SequentialUses(n - 1, calls - 1); }
    }
  }

  lemma NoTokenNoUse(calls: nat)
    ensures Successes(None, calls) == 0
  {}

  method FinaliseRegistration(me: nat, token: StoredKey<int>, ghost initial: Option<int>) returns (ok: bool)
    requires StoreOk(token.store, initial) && token.others == []
    modifies token
    ensures StoreOk(token.store, initial)
    ensures (ValueOf(token.store.entry), ok) == Use(old(ValueOf(token.store.entry)))
  {
    var outcome, _ := token.DoSafeUpdate(me, false, UseToken, initial);
    if outcome.Refused? {
      token.store := Erase(token.store);
      return true;
    }
    ok := outcome.Committed?;
  }

  // ---- Interleaved calls ----

  // The token's key sees only such calls, and the deletions that follow a last use or come from outside.
  predicate TokenAction(a: Action<int>) { !a.Put? }

  ghost predicate TokenClient(c: Client<int>, log: seq<Commit<int>>, n: nat) {
    && (forall uses :: c.mutate(uses) == UseToken(uses))
    && !c.create && !c.phase.Creating?
    && (c.phase.Refused? ==> n - 1 <= |log| && forall k :: 0 <= k < n - 1 ==> log[k].client.Some?)
  }

  // The history is n - 1, n - 2, and so on, each written by a call, and then at most one deletion.
  ghost predicate TokenStore(s: Store<int>, n: nat) {
    && (forall k :: 0 <= k < |s.log| ==>
      if s.log[k].client.Some? then s.log[k].after == Some(n - 1 - k) else s.log[k].after.None? && k == |s.log| - 1)
    && match s.entry
       case Some(v) => v.value >= 1 && v.value + |s.log| == n && forall k :: 0 <= k < |s.log| ==> s.log[k].client.Some?
       case None => |s.log| >= 1 && s.log[|s.log| - 1].client.None? && |s.log| <= n
  }

  ghost predicate TokenOk(w: World<int>, n: nat) {
    TokenStore(w.store, n) && forall i :: 0 <= i < |w.clients| ==> TokenClient(w.clients[i], w.store.log, n)
  }

  lemma DecrementKeeps(s: Store<int>, n: nat, me: nat, value: int, c: Client<int>)
    requires TokenStore(s, n) && s.entry.Some? && UseToken(Some(s.entry.value.value)) == Some(value)
    requires TokenClient(c, s.log, n)
    ensures TokenStore(Write(s, Some(me), value), n) && TokenClient(c, Write(s, Some(me), value).log, n)
  {}

  lemma DeletionKeeps(s: Store<int>, n: nat, c: Client<int>)
    requires TokenStore(s, n) && TokenClient(c, s.log, n)
    ensures TokenStore(Erase(s), n) && TokenClient(c, Erase(s).log, n)
  {}

  // What a call does on reading the token.
  lemma ConsiderKeeps(s: Store<int>, n: nat, c: Client<int>, phase: Phase<int>)
    requires TokenStore(s, n) && TokenClient(c, s.log, n) && phase == Consider(c.mutate, s.entry)
    ensures !phase.Creating? &&
      (phase.Refused? ==> n - 1 <= |s.log| && forall k :: 0 <= k < n - 1 ==> s.log[k].client.Some?)
  {}

  lemma TokenNext(w: World<int>, n: nat, a: Action<int>)
    requires Consistent(w, Some(n)) && TokenOk(w, n) && Enabled(w, a) && TokenAction(a)
    ensures TokenOk(Next(w, a), n)
  {
    hide Consistent, TokenStore, UseToken;
    var w' := Next(w, a);
    match a
    case Read(i) =>
      ConsiderKeeps(w.store, n, w.clients[i], Consider(w.clients[i].mutate, w.store.entry));
    case Transact(i) =>
      var c := w.clients[i];
      PendingIsHeld(w, Some(n), i);
      if Unchanged(c.phase, w.store.entry) {
        forall j | 0 <= j < |w.clients| ensures TokenClient(w.clients[j], w'.store.log, n) {
          DecrementKeeps(w.store, n, i, c.phase.newValue, w.clients[j]);
        }
        DecrementKeeps(w.store, n, i, c.phase.newValue, c);
      } else {
        ConsiderKeeps(w.store, n, c, Consider(c.mutate, w.store.entry));
      }
    case Delete =>
      forall j | 0 <= j < |w.clients| ensures TokenStore(w'.store, n) && TokenClient(w.clients[j], w'.store.log, n) {
        DeletionKeeps(w.store, n, w.clients[j]);
      }
      DeletionOfStore(w.store, n);
    case OtherKey => OtherKeyKeeps(w.store, n);
  }

  lemma DeletionOfStore(s: Store<int>, n: nat)
    requires TokenStore(s, n)
    ensures TokenStore(Erase(s), n)
  {}

  lemma OtherKeyKeeps(s: Store<int>, n: nat)
    requires TokenStore(s, n)
    ensures TokenStore(s.(revision := s.revision + 1), n)
  {}

  // A transaction that goes through finds the value it was computed from.
  lemma PendingIsHeld(w: World<int>, initial: Option<int>, i: nat)
    requires Consistent(w, initial) && i < |w.clients| && w.clients[i].phase.Swapping?
    ensures var phase := w.clients[i].phase;
      && w.clients[i].mutate(Some(phase.seen.value)) == Some(phase.newValue)
      && (Unchanged(phase, w.store.entry) ==> w.store.entry == Some(phase.seen))
  {
    assert ClientOk(w.store, w.clients[i]);
  }

  lemma {:induction false} TokenReach(w: World<int>, n: nat, actions: seq<Action<int>>, w': World<int>)
    requires Consistent(w, Some(n)) && TokenOk(w, n) && Reaches(w, actions, w')
    requires forall a :: a in actions ==> TokenAction(a)
    ensures TokenOk(w', n)
    decreases |actions|
  {
    hide Consistent, TokenOk, Next;
    if actions != [] {
      TokenNext(w, n, actions[0]);
      NextKeeps(w, Some(n), actions[0]);
      TokenReach(Next(w, actions[0]), n, actions[1..], w');
    }
  }

  // In every interleaving of calls on a token stored with n uses: while the token is stored, its uses
  // and the decrements committed make up n, and at least one use is left; once it is deleted nothing
  // more is committed. A call that takes the last use has seen all n - 1 others taken.
  lemma UsesAreConserved(w: World<int>, n: nat, actions: seq<Action<int>>, w': World<int>)
    requires n >= 1 && Fresh(w) && ValueOf(w.store.entry) == Some(n)
    requires forall i :: 0 <= i < |w.clients| ==> w.clients[i].mutate == UseToken && !w.clients[i].create
    requires Reaches(w, actions, w') && forall a :: a in actions ==> TokenAction(a)
    ensures TokenOk(w', n)
    ensures match w'.store.entry
      case Some(v) => v.value >= 1 && v.value + Decrements(w') == n
      case None => Decrements(w') <= n - 1
  {
    TokenReach(w, n, actions, w');
  }

  // The number of decrements in the history.
  function Decrements(w: World<int>): nat {
    if w.store.log != [] && w.store.log[|w.store.log| - 1].client.None? then |w.store.log| - 1 else |w.store.log|
  }

  // ---- The calls that succeed: those that committed a decrement, and those that took the last use ----

  function Decrementers(w: World<int>): set<nat> {
    set i | 0 <= i < |w.clients| && w.clients[i].phase.Committed?
  }

  function LastUsers(w: World<int>): set<nat> {
    set i | 0 <= i < |w.clients| && w.clients[i].phase.Refused?
  }

  function Succeeded(w: World<int>): set<nat> {
    Decrementers(w) + LastUsers(w)
  }

  // The step reads the token, first or after a failed transaction, and finds a single use.
  predicate TakesLast(w: World<int>, a: Action<int>)
    requires Enabled(w, a)
  {
    && (a.Read? || (a.Transact? && !Unchanged(w.clients[a.client].phase, w.store.entry)))
    && w.store.entry.Some? && w.store.entry.value.value <= 1
  }

  // No step of the run finds a single use that an earlier call has already taken and not yet deleted.
  predicate NeverShared(w: World<int>, actions: seq<Action<int>>)
    decreases |actions|
  {
    actions != [] && Enabled(w, actions[0]) ==>
      && !(TakesLast(w, actions[0]) && LastUsers(w) != {})
      && NeverShared(Next(w, actions[0]), actions[1..])
  }

  lemma LastUsersNext(w: World<int>, n: nat, a: Action<int>)
    requires Consistent(w, Some(n)) && TokenOk(w, n) && Enabled(w, a) && TokenAction(a)
    ensures |LastUsers(Next(w, a))| == |LastUsers(w)| + if TakesLast(w, a) then 1 else 0
  {
    hide Consistent, TokenStore;
    if a.Read? || a.Transact? {
      var i := a.client;
      assert TokenClient(w.clients[i], w.store.log, n);
      hide TokenClient, LastUsers;
      OneClientTakes(w, Next(w, a), i);
    } else {
      assert LastUsers(Next(w, a)) == LastUsers(w);
    }
  }

  lemma OneClientTakes(w: World<int>, w': World<int>, i: nat)
    requires i < |w.clients| && !w.clients[i].phase.Refused?
    requires |w'.clients| == |w.clients| && w'.clients == w.clients[i := w'.clients[i]]
    ensures |LastUsers(w')| == |LastUsers(w)| + if w'.clients[i].phase.Refused? then 1 else 0
  {
    assert LastUsers(w') == LastUsers(w) + if w'.clients[i].phase.Refused? then {i} else {};
  }

  lemma OneClientCommits(w: World<int>, w': World<int>, i: nat)
    requires i < |w.clients| && !w.clients[i].phase.Committed?
    requires |w'.clients| == |w.clients| && w'.clients == w.clients[i := w'.clients[i]]
    ensures |Decrementers(w')| == |Decrementers(w)| + if w'.clients[i].phase.Committed? then 1 else 0
  {
    assert Decrementers(w') == Decrementers(w) + if w'.clients[i].phase.Committed? then {i} else {};
  }

  predicate Commits(w: World<int>, a: Action<int>)
    requires Enabled(w, a)
  {
    a.Transact? && Unchanged(w.clients[a.client].phase, w.store.entry)
  }

  lemma DecrementsNext(w: World<int>, n: nat, a: Action<int>)
    requires TokenOk(w, n) && Enabled(w, a) && TokenAction(a)
    ensures Decrements(Next(w, a)) == Decrements(w) + if Commits(w, a) then 1 else 0
  {
    hide FirstPhase, Consider;
    if Commits(w, a) { assert TokenClient(w.clients[a.client], w.store.log, n); }
  }

  lemma DecrementersNext(w: World<int>, n: nat, a: Action<int>)
    requires TokenOk(w, n) && Enabled(w, a) && TokenAction(a)
    ensures |Decrementers(Next(w, a))| == |Decrementers(w)| + if Commits(w, a) then 1 else 0
  {
    hide TokenStore;
    if a.Read? || a.Transact? {
      assert TokenClient(w.clients[a.client], w.store.log, n);
      hide TokenClient, Decrementers;
      OneClientCommits(w, Next(w, a), a.client);
    } else {
      assert Decrementers(Next(w, a)) == Decrementers(w);
    }
  }

  // From a state in which at most one call took the last use: still at most one at the end of the run,
  // exactly when no step shares it. Either way each decrement in the history has its own caller.
  lemma {:induction false} SharedExactly(w: World<int>, n: nat, actions: seq<Action<int>>, w': World<int>)
    requires Consistent(w, Some(n)) && TokenOk(w, n) && Reaches(w, actions, w')
    requires forall a :: a in actions ==> TokenAction(a)
    requires |Decrementers(w)| == Decrements(w)
    ensures |Decrementers(w')| == Decrements(w')
    ensures |LastUsers(w)| <= |LastUsers(w')|
    ensures |LastUsers(w)| <= 1 ==> (|LastUsers(w')| <= 1 <==> NeverShared(w, actions))
    decreases |actions|
  {
    hide Consistent, TokenOk, Next, LastUsers, Decrementers, TakesLast, Decrements, Commits;
    if actions != [] {
      TokenNext(w, n, actions[0]);
      NextKeeps(w, Some(n), actions[0]);
      LastUsersNext(w, n, actions[0]);
      DecrementsNext(w, n, actions[0]);
      DecrementersNext(w, n, actions[0]);
      SharedExactly(Next(w, actions[0]), n, actions[1..], w');
    }
  }

  lemma LastLeavesOne(w: World<int>, n: nat)
    requires n >= 1 && TokenOk(w, n)
    ensures Decrements(w) <= n - 1 && (LastUsers(w) != {} ==> Decrements(w) == n - 1)
  {
    if i :| i in LastUsers(w) {
      assert TokenClient(w.clients[i], w.store.log, n);
    }
  }

  // In every interleaving, no more calls succeed than the token had uses if and only if no call reads
  // a single use that another call has already taken and not yet deleted.
  lemma UsesExceededExactly(w: World<int>, n: nat, actions: seq<Action<int>>, w': World<int>)
    requires n >= 1 && Fresh(w) && ValueOf(w.store.entry) == Some(n)
    requires forall i :: 0 <= i < |w.clients| ==> w.clients[i].mutate == UseToken && !w.clients[i].create
    requires Reaches(w, actions, w') && forall a :: a in actions ==> TokenAction(a)
    ensures |Succeeded(w')| <= n <==> NeverShared(w, actions)
  {
    TokenReach(w, n, actions, w');
    assert LastUsers(w) == {} && Decrementers(w) == {};
    SharedExactly(w, n, actions, w');
    LastLeavesOne(w', n);
    assert Decrementers(w') !! LastUsers(w');
  }

  predicate AllTookLast(w: World<int>, w': World<int>, callers: nat) {
    && w'.store == w.store && |w'.clients| == |w.clients| && callers <= |w.clients|
    && forall i :: 0 <= i < callers ==> w'.clients[i].phase.Refused?
  }

  // Several calls that read the last use before it is deleted all succeed, so a token with one use
  // can be used by as many as are waiting.
  lemma LastUseIsShared(w: World<int>, callers: nat)
    requires Fresh(w) && ValueOf(w.store.entry) == Some(1) && callers <= |w.clients|
    requires forall i :: 0 <= i < |w.clients| ==> w.clients[i].mutate == UseToken && !w.clients[i].create
    ensures exists actions, w' :: Reaches(w, actions, w') && AllTookLast(w, w', callers)
  {
    LastUseFrom(w, 0, callers);
  }

  lemma {:induction false} LastUseFrom(w: World<int>, from: nat, callers: nat)
    requires ValueOf(w.store.entry) == Some(1) && from <= callers <= |w.clients|
    requires forall i :: 0 <= i < |w.clients| ==> w.clients[i].mutate == UseToken && !w.clients[i].create
    requires forall i :: 0 <= i < from ==> w.clients[i].phase.Refused?
    requires forall i :: from <= i < |w.clients| ==> w.clients[i].phase.Start?
    ensures exists actions, w' :: Reaches(w, actions, w') && AllTookLast(w, w', callers)
    decreases callers - from
  {
    if from == callers {
      assert Reaches(w, [], w);
    } else {
      var next := Next(w, Read(from));
      LastUseFrom(next, from + 1, callers);
      var actions, w' :| Reaches(next, actions, w') && AllTookLast(next, w', callers);
      assert ([Read(from)] + actions)[1..] == actions;
      assert Reaches(w, [Read(from)] + actions, w');
    }
  }
}
