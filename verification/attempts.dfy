// Concurrent authentication calls on one device: count first, then read, then decide.

module Attempts {
  // How far a call has come. Counted: its attempt is in the record. Verified: the authenticator agreed.
  datatype Phase = Begun | Counted | AtAuthenticator | Verified | Finished | TurnedAway

  // A reset to 0 starts a new epoch; a lock does not. The rank is the counter as the call's own increment left it.
  datatype Call = Call(phase: Phase, countEpoch: nat, rank: nat, readEpoch: nat, reached: bool)

  datatype World = World(attempts: nat, epoch: nat, calls: seq<Call>)

  // The store updates are atomic, as doSafeUpdate makes them. What the steps cannot see (the account's
  // lock, the mfa type, the authenticator's answer) is given with the step.
  datatype Action =
    | Increment(call: nat)
    | ReadDetails(call: nat, locked: bool, rightType: bool)
    | Answer(call: nat, good: bool)
    | Authorise(call: nat, locked: bool)
    | SetAttempts(attempts: nat)

  predicate Enabled(w: World, lockout: nat, a: Action) {
    match a
    case Increment(i) => i < |w.calls| && w.calls[i].phase.Begun?
    case ReadDetails(i, _, _) => i < |w.calls| && w.calls[i].phase.Counted?
    case Answer(i, _) => i < |w.calls| && w.calls[i].phase.AtAuthenticator?
    case Authorise(i, _) => i < |w.calls| && w.calls[i].phase.Verified?
    // The administrator's two settings: 0 to unlock and lockout + 1 to lock.
    case SetAttempts(n) => n == 0 || n == lockout + 1
  }

  // IncrementAuthenticationAttempt
  function Incremented(attempts: nat, lockout: nat): nat {
    if attempts <= lockout then attempts + 1 else attempts
  }

  function Next(w: World, lockout: nat, a: Action): World
    requires Enabled(w, lockout, a)
  {
    match a
    case Increment(i) =>
      var n := Incremented(w.attempts, lockout);
      World(n, w.epoch, w.calls[i := w.calls[i].(phase := Counted, countEpoch := w.epoch, rank := n)])
    case ReadDetails(i, locked, rightType) =>
      if w.attempts >= lockout || locked || !rightType then
        w.(calls := w.calls[i := w.calls[i].(phase := TurnedAway, readEpoch := w.epoch)])
      else
        w.(calls := w.calls[i := w.calls[i].(phase := AtAuthenticator, readEpoch := w.epoch, reached := true)])
    case Answer(i, good) =>
      w.(calls := w.calls[i := w.calls[i].(phase := if good then Verified else TurnedAway)])
    case Authorise(i, locked) =>
      if locked then w.(calls := w.calls[i := w.calls[i].(phase := TurnedAway)])
      else World(0, w.epoch + 1, w.calls[i := w.calls[i].(phase := Finished)])
    case SetAttempts(n) => World(n, if n == 0 then w.epoch + 1 else w.epoch, w.calls)
  }

  predicate Fresh(w: World) {
    w.attempts == 0 && forall c :: c in w.calls ==> c.phase.Begun? && !c.reached
  }

  // A step that is not enabled does nothing.
  function Run(w: World, lockout: nat, actions: seq<Action>): World {
    if actions == [] then w
    else
      var before, last := Run(w, lockout, actions[..|actions| - 1]), actions[|actions| - 1];
      if Enabled(before, lockout, last) then Next(before, lockout, last) else before
  }

  predicate Legal(w: World, lockout: nat, actions: seq<Action>) {
    forall j :: 0 <= j < |actions| ==> Enabled(Run(w, lockout, actions[..j]), lockout, actions[j])
  }

  // ---- What every interleaving keeps ----

  predicate CallOk(w: World, lockout: nat, c: Call) {
    && (c.phase.Begun? || c.phase.Counted? ==> !c.reached)
    && (!c.phase.Begun? ==>
      && c.countEpoch <= w.epoch
      && 1 <= c.rank <= lockout + 1
      && (c.countEpoch == w.epoch ==> c.rank <= w.attempts))
    && (c.reached && c.readEpoch == c.countEpoch ==> c.rank < lockout)
  }

  // Two calls counted in one epoch have different ranks, until the counter stops.
  predicate Apart(c: Call, d: Call, lockout: nat) {
    !c.phase.Begun? && !d.phase.Begun? && c.countEpoch == d.countEpoch && c.rank == d.rank ==> c.rank == lockout + 1
  }

  ghost predicate Inv(w: World, lockout: nat) {
    && w.attempts <= lockout + 1
    && (forall i :: 0 <= i < |w.calls| ==> CallOk(w, lockout, w.calls[i]))
    && (forall i, j :: 0 <= i < j < |w.calls| ==> Apart(w.calls[i], w.calls[j], lockout))
  }

  lemma NextKeeps(w: World, lockout: nat, a: Action)
    requires Inv(w, lockout) && Enabled(w, lockout, a)
    ensures Inv(Next(w, lockout, a), lockout)
  {
    var w' := Next(w, lockout, a);
    forall i, j | 0 <= i < j < |w'.calls| ensures Apart(w'.calls[i], w'.calls[j], lockout) {
      assert Apart(w.calls[i], w.calls[j], lockout);
      assert CallOk(w, lockout, w.calls[i]) && CallOk(w, lockout, w.calls[j]);
    }
    forall i | 0 <= i < |w'.calls| ensures CallOk(w', lockout, w'.calls[i]) {
      assert CallOk(w, lockout, w.calls[i]);
    }
  }

  lemma {:induction false} RunKeeps(w: World, lockout: nat, actions: seq<Action>)
    requires Inv(w, lockout)
    ensures Inv(Run(w, lockout, actions), lockout)
  {
    hide Inv, Next, Enabled;
    if actions != [] {
      var n := |actions| - 1;
      RunKeeps(w, lockout, actions[..n]);
      var before := Run(w, lockout, actions[..n]);
      if Enabled(before, lockout, actions[n]) { NextKeeps(before, lockout, actions[n]); }
    }
  }

  // The calls that reached the authenticator with increment and read both inside one epoch.
  function ReachedIn(w: World, epoch: nat): set<nat> {
    set i | 0 <= i < |w.calls| && w.calls[i].reached && w.calls[i].countEpoch == epoch && w.calls[i].readEpoch == epoch
  }

  // Numbers told apart by ranks from 1 to the bound are no more than the bound.
  lemma {:induction false} Pigeonhole(w: World, s: set<nat>, bound: nat)
    requires forall i :: i in s ==> i < |w.calls| && 1 <= w.calls[i].rank <= bound
    requires forall i, j :: i in s && j in s && i != j ==> w.calls[i].rank != w.calls[j].rank
    ensures |s| <= bound
  {
    if s != {} {
      if i :| i in s && w.calls[i].rank == bound {
        Pigeonhole(w, s - {i}, bound - 1);
      } else {
        var i :| i in s;
        assert w.calls[i].rank <= bound;
        Pigeonhole(w, s, bound - 1);
      }
    }
  }

  // However calls, resets and answers interleave, fewer calls than the lockout reach the authenticator
  // between two resets, and the counter stops one above the lockout.
  lemma AttemptsAreBounded(w: World, lockout: nat, actions: seq<Action>, epoch: nat)
    requires Fresh(w)
    ensures var w' := Run(w, lockout, actions);
      w'.attempts <= lockout + 1 && |ReachedIn(w', epoch)| <= if lockout == 0 then 0 else lockout - 1
  {
    var w' := Run(w, lockout, actions);
    RunKeeps(w, lockout, actions);
    var s := ReachedIn(w', epoch);
    forall i | i in s ensures 1 <= w'.calls[i].rank < lockout {
      assert CallOk(w', lockout, w'.calls[i]);
    }
    forall i, j | i in s && j in s && i != j ensures w'.calls[i].rank != w'.calls[j].rank {
      assert CallOk(w', lockout, w'.calls[i]);
      assert Apart(w'.calls[if i < j then i else j], w'.calls[if i < j then j else i], lockout);
    }
    if lockout == 0 {
      assert s == {};
    } else {
      Pigeonhole(w', s, lockout - 1);
    }
  }

  // A call with no other beside it reaches the authenticator exactly when the counter was below the
  // lockout by at least two, so the last attempt the setting seems to allow is turned away.
  lemma CallAlone(w: World, lockout: nat, i: nat)
    requires Enabled(w, lockout, Increment(i)) && CallOk(w, lockout, w.calls[i])
    ensures var counted := Next(w, lockout, Increment(i));
      && Enabled(counted, lockout, ReadDetails(i, false, true))
      && (Next(counted, lockout, ReadDetails(i, false, true)).calls[i].reached <==> w.attempts + 1 < lockout)
  {}

  // ---- What a call needs to succeed ----

  // The call reads its details, of an unlocked account and the right type, with the counter below the lockout.
  predicate Admits(w: World, lockout: nat, actions: seq<Action>, i: nat, j: int) {
    && 0 <= j < |actions| && actions[j] == ReadDetails(i, false, true)
    && Run(w, lockout, actions[..j]).attempts < lockout
  }

  ghost predicate Admitted(w: World, lockout: nat, actions: seq<Action>, i: nat) {
    exists j :: Admits(w, lockout, actions, i, j)
  }

  // After that, the authenticator agrees.
  ghost predicate Agreed(w: World, lockout: nat, actions: seq<Action>, i: nat) {
    exists j, k :: AgreesAt(w, lockout, actions, i, j, k)
  }

  predicate AgreesAt(w: World, lockout: nat, actions: seq<Action>, i: nat, j: int, k: int) {
    Admits(w, lockout, actions, i, j) && j < k < |actions| && actions[k] == Answer(i, true)
  }

  // After that, the account is still unlocked when the device is authorised.
  ghost predicate Authorised(w: World, lockout: nat, actions: seq<Action>, i: nat) {
    exists j, k, m :: AuthorisesAt(w, lockout, actions, i, j, k, m)
  }

  predicate AuthorisesAt(w: World, lockout: nat, actions: seq<Action>, i: nat, j: int, k: int, m: int) {
    AgreesAt(w, lockout, actions, i, j, k) && k < m < |actions| && actions[m] == Authorise(i, false)
  }

  lemma MoreHistory(w: World, lockout: nat, actions: seq<Action>, n: nat, i: nat)
    requires n <= |actions|
    ensures Admitted(w, lockout, actions[..n], i) ==> Admitted(w, lockout, actions, i)
    ensures Agreed(w, lockout, actions[..n], i) ==> Agreed(w, lockout, actions, i)
    ensures Authorised(w, lockout, actions[..n], i) ==> Authorised(w, lockout, actions, i)
  {
    hide Run;
    forall j | Admits(w, lockout, actions[..n], i, j) ensures Admits(w, lockout, actions, i, j) {
      assert actions[..n][..j] == actions[..j];
    }
    forall j, k | AgreesAt(w, lockout, actions[..n], i, j, k) ensures AgreesAt(w, lockout, actions, i, j, k) {}
    forall j, k, m | AuthorisesAt(w, lockout, actions[..n], i, j, k, m)
      ensures AuthorisesAt(w, lockout, actions, i, j, k, m) {}
  }

  lemma LegalPrefix(w: World, lockout: nat, actions: seq<Action>, n: nat)
    requires Legal(w, lockout, actions) && n <= |actions|
    ensures Legal(w, lockout, actions[..n])
  {
    hide Run, Enabled;
    forall j | 0 <= j < n ensures Enabled(Run(w, lockout, actions[..n][..j]), lockout, actions[..n][j]) {
      assert actions[..n][..j] == actions[..j];
    }
  }

  // A call has come no further than its steps in the run account for.
  ghost predicate Accounted(w: World, lockout: nat, actions: seq<Action>, i: nat, c: Call) {
    && (c.reached <==> Admitted(w, lockout, actions, i))
    && (c.phase.AtAuthenticator? ==> c.reached)
    && (c.phase.Verified? ==> Agreed(w, lockout, actions, i))
    && (c.phase.Finished? ==> Authorised(w, lockout, actions, i))
  }

  lemma {:induction false} CallsAreAccounted(w: World, lockout: nat, actions: seq<Action>, i: nat)
    requires Fresh(w) && Legal(w, lockout, actions) && i < |w.calls|
    ensures |Run(w, lockout, actions).calls| == |w.calls|
    ensures Accounted(w, lockout, actions, i, Run(w, lockout, actions).calls[i])
  {
    if actions == [] {
      assert w.calls[i] in w.calls;
    } else {
      hide Run, Legal, Fresh, Accounted;
      var n := |actions| - 1;
      LegalPrefix(w, lockout, actions, n);
      CallsAreAccounted(w, lockout, actions[..n], i);
      StepIsAccounted(w, lockout, actions, i);
    }
  }

  lemma StepIsAccounted(w: World, lockout: nat, actions: seq<Action>, i: nat)
    requires actions != [] && Legal(w, lockout, actions)
    requires var before := Run(w, lockout, actions[..|actions| - 1]);
      i < |before.calls| && Accounted(w, lockout, actions[..|actions| - 1], i, before.calls[i])
    ensures var after := Run(w, lockout, actions);
      && |after.calls| == |Run(w, lockout, actions[..|actions| - 1]).calls|
      && Accounted(w, lockout, actions, i, after.calls[i])
  {
    var n := |actions| - 1;
    var before, last := Run(w, lockout, actions[..n]), actions[n];
    assert Enabled(before, lockout, last) && Run(w, lockout, actions) == Next(before, lockout, last);
    hide Run, Legal;
    MoreHistory(w, lockout, actions, n, i);
    AdmittedNext(w, lockout, actions, i);
    if before.calls[i].phase.AtAuthenticator? && last == Answer(i, true) { AgreedNext(w, lockout, actions, i); }
    if before.calls[i].phase.Verified? && last == Authorise(i, false) { AuthorisedNext(w, lockout, actions, i); }
    assert Admits(w, lockout, actions, i, n) <==> last == ReadDetails(i, false, true) && before.attempts < lockout;
    hide Admitted, Agreed, Authorised, Admits;
  }

  lemma AdmittedNext(w: World, lockout: nat, actions: seq<Action>, i: nat)
    requires actions != []
    ensures Admitted(w, lockout, actions, i) <==>
      Admitted(w, lockout, actions[..|actions| - 1], i) || Admits(w, lockout, actions, i, |actions| - 1)
  {
    hide Run;
    var n := |actions| - 1;
    MoreHistory(w, lockout, actions, n, i);
    forall j | Admits(w, lockout, actions, i, j) && j < n ensures Admits(w, lockout, actions[..n], i, j) {
      assert actions[..n][..j] == actions[..j];
    }
  }

  lemma AgreedNext(w: World, lockout: nat, actions: seq<Action>, i: nat)
    requires actions != [] && Admitted(w, lockout, actions[..|actions| - 1], i)
    requires actions[|actions| - 1] == Answer(i, true)
    ensures Agreed(w, lockout, actions, i)
  {
    hide Run;
    var n := |actions| - 1;
    var j :| Admits(w, lockout, actions[..n], i, j);
    assert actions[..n][..j] == actions[..j];
    assert AgreesAt(w, lockout, actions, i, j, n);
  }

  lemma AuthorisedNext(w: World, lockout: nat, actions: seq<Action>, i: nat)
    requires actions != [] && Agreed(w, lockout, actions[..|actions| - 1], i)
    requires actions[|actions| - 1] == Authorise(i, false)
    ensures Authorised(w, lockout, actions, i)
  {
    hide Run;
    var n := |actions| - 1;
    var j, k :| AgreesAt(w, lockout, actions[..n], i, j, k);
    assert actions[..n][..j] == actions[..j];
    assert AuthorisesAt(w, lockout, actions, i, j, k, n);
  }

  lemma {:induction false} FinishedStays(w: World, lockout: nat, actions: seq<Action>, m: nat, i: nat)
    requires m <= |actions| && i < |Run(w, lockout, actions[..m]).calls|
    requires Run(w, lockout, actions[..m]).calls[i].phase.Finished?
    ensures i < |Run(w, lockout, actions).calls| && Run(w, lockout, actions).calls[i].phase.Finished?
    decreases |actions|
  {
    if m == |actions| {
      assert actions[..m] == actions;
    } else {
      var n := |actions| - 1;
      assert actions[..n][..m] == actions[..m];
      FinishedStays(w, lockout, actions[..n], m, i);
    }
  }

  // That last step resets the counter.
  lemma AuthorisingFinishes(w: World, lockout: nat, actions: seq<Action>, m: nat, i: nat)
    requires Legal(w, lockout, actions) && m < |actions| && actions[m] == Authorise(i, false)
    ensures var before, after := Run(w, lockout, actions[..m]), Run(w, lockout, actions[..m + 1]);
      && i < |after.calls| && after.calls[i].phase.Finished?
      && after.attempts == 0 && after.epoch == before.epoch + 1
  {
    var upTo := actions[..m + 1];
    assert upTo[..|upTo| - 1] == actions[..m] && upTo[|upTo| - 1] == actions[m];
    assert Enabled(Run(w, lockout, actions[..m]), lockout, actions[m]);
  }

  // In every run, a call succeeds if and only if it read its details, unlocked, of the right type and
  // with the counter below the lockout, then the authenticator agreed, and then it was authorised on an
  // account still unlocked.
  lemma FinishedExactly(w: World, lockout: nat, actions: seq<Action>, i: nat)
    requires Fresh(w) && Legal(w, lockout, actions) && i < |w.calls|
    ensures |Run(w, lockout, actions).calls| == |w.calls|
    ensures Run(w, lockout, actions).calls[i].phase.Finished? <==> Authorised(w, lockout, actions, i)
    ensures Run(w, lockout, actions).calls[i].reached <==> Admitted(w, lockout, actions, i)
  {
    CallsAreAccounted(w, lockout, actions, i);
    hide Run, Enabled, Legal, Admitted, Agreed, Authorised, Fresh;
    if Authorised(w, lockout, actions, i) {
      AuthorisedIsFinished(w, lockout, actions, i);
    }
  }

  lemma AuthorisedIsFinished(w: World, lockout: nat, actions: seq<Action>, i: nat)
    requires Legal(w, lockout, actions) && Authorised(w, lockout, actions, i)
    ensures i < |Run(w, lockout, actions).calls| && Run(w, lockout, actions).calls[i].phase.Finished?
  {
    hide Run, Enabled, Legal;
    var j, k, m :| AuthorisesAt(w, lockout, actions, i, j, k, m);
    assert 0 <= m < |actions| && actions[m] == Authorise(i, false);
    hide Authorised, AuthorisesAt, AgreesAt, Admits;
    AuthorisingFinishes(w, lockout, actions, m, i);
    FinishedStays(w, lockout, actions, m + 1, i);
  }

  // ---- What the counter counts ----

  // After the administrator's lock, until a reset, every call that reads its details is turned away.
  lemma LockHolds(w: World, lockout: nat, actions: seq<Action>, i: nat)
    requires Legal(w, lockout, actions) && w.attempts == lockout + 1
    requires forall a :: a in actions ==> !a.SetAttempts? && !(a.Authorise? && !a.locked)
    ensures forall j :: !Admits(w, lockout, actions, i, j)
  {
    hide Legal, Run;
    forall j | 0 <= j < |actions| ensures Run(w, lockout, actions[..j]).attempts == lockout + 1 {
      LegalPrefix(w, lockout, actions, j);
      CounterExactly(w, lockout, actions[..j]);
    }
  }

  lemma LockSets(w: World, lockout: nat)
    ensures Run(w, lockout, [SetAttempts(lockout + 1)]).attempts == lockout + 1
    ensures Run(w, lockout, [SetAttempts(0)]).attempts == 0
  {
    assert [SetAttempts(lockout + 1)][..0] == [] && [SetAttempts(0)][..0] == [];
  }

  function Increments(actions: seq<Action>): nat {
    if actions == [] then 0
    else Increments(actions[..|actions| - 1]) + if actions[|actions| - 1].Increment? then 1 else 0
  }

  // Between settings and successes the counter goes up by one for each call, to one above the lockout.
  lemma {:induction false} CounterExactly(w: World, lockout: nat, actions: seq<Action>)
    requires Legal(w, lockout, actions) && w.attempts <= lockout + 1
    requires forall a :: a in actions ==> !a.SetAttempts? && !(a.Authorise? && !a.locked)
    ensures var w', counted := Run(w, lockout, actions), w.attempts + Increments(actions);
      && w'.attempts == (if counted <= lockout then counted else lockout + 1)
      && w'.epoch == w.epoch
  {
    if actions != [] {
      var n := |actions| - 1;
      LegalPrefix(w, lockout, actions, n);
      CounterExactly(w, lockout, actions[..n]);
      assert Enabled(Run(w, lockout, actions[..n]), lockout, actions[n]);
    }
  }
}
