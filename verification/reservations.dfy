// Adding a device in two transactions, an address being held for a few seconds and then committed; and
// deleting one in three, the reference being read, then the record, and then both deleted.

module Reservations {
  import opened Numbers

  datatype Request =
    | Waiting(user: string)
    | Holding(user: string, address: u32)
    | Added(user: string, address: u32)

  // A deletion: asked for by address, then with the user its reference named, then with the record seen.
  datatype Deletion =
    | Asked(address: u32)
    | Named(user: string, address: u32)
    | Confirmed(user: string, address: u32)
    | Ended

  // refs is the record of which user's device an address belongs to; holds are the short leases.
  datatype World = World(devices: set<(string, u32)>, refs: map<u32, string>, holds: map<u32, nat>,
                         requests: seq<Request>, deletions: seq<Deletion>)

  datatype Action =
    | Hold(request: nat, address: u32)
    | Lapse(address: u32)
    | CommitDevice(request: nat)
    | ReadReference(deletion: nat)
    | ReadRecord(deletion: nat)
    | DeleteBoth(deletion: nat)

  predicate Enabled(w: World, a: Action) {
    match a
    case Hold(i, address) =>
      i < |w.requests| && w.requests[i].Waiting? && address !in w.refs && address !in w.holds
    case Lapse(address) => address in w.holds
    case CommitDevice(i) => i < |w.requests| && w.requests[i].Holding?
    case ReadReference(i) => i < |w.deletions| && w.deletions[i].Asked?
    case ReadRecord(i) => i < |w.deletions| && w.deletions[i].Named?
    case DeleteBoth(i) => i < |w.deletions| && w.deletions[i].Confirmed?
  }

  function Next(w: World, a: Action): World
    requires Enabled(w, a)
  {
    match a
    case Hold(i, address) =>
      w.(holds := w.holds[address := i], requests := w.requests[i := Holding(w.requests[i].user, address)])
    case Lapse(address) => w.(holds := w.holds - {address})
    case CommitDevice(i) =>
      var r := w.requests[i];
      w.(devices := w.devices + {(r.user, r.address)}, refs := w.refs[r.address := r.user],
         requests := w.requests[i := Added(r.user, r.address)])
    case ReadReference(i) =>
      var address := w.deletions[i].address;
      w.(deletions := w.deletions[i := if address in w.refs then Named(w.refs[address], address) else Ended])
    case ReadRecord(i) =>
      var d := w.deletions[i];
      w.(deletions := w.deletions[i :=
        if (d.user, d.address) in w.devices then Confirmed(d.user, d.address) else Ended])
    case DeleteBoth(i) =>
      var d := w.deletions[i];
      w.(devices := w.devices - {(d.user, d.address)}, refs := w.refs - {d.address},
         deletions := w.deletions[i := Ended])
  }

  // ---- What the two transactions do not check ----

  // A commit comes before the request's own hold lapses.
  predicate InTime(w: World, a: Action)
    requires Enabled(w, a)
  {
    a.CommitDevice? ==>
      var address := w.requests[a.request].address;
      address in w.holds && w.holds[address] == a.request
  }

  // The address that is committed is no one else's.
  predicate Clear(w: World, a: Action)
    requires Enabled(w, a)
  {
    a.CommitDevice? ==>
      var r := w.requests[a.request];
      r.address !in w.refs || w.refs[r.address] == r.user
  }

  // The reference that is deleted is still the one that was read, or gone.
  predicate Current(w: World, a: Action)
    requires Enabled(w, a)
  {
    a.DeleteBoth? ==>
      var d := w.deletions[a.deletion];
      d.address !in w.refs || w.refs[d.address] == d.user
  }

  predicate Fresh(w: World) {
    && w.devices == {} && w.refs == map[] && w.holds == map[]
    && (forall r :: r in w.requests ==> r.Waiting?)
    && (forall d :: d in w.deletions ==> d.Asked?)
  }

  ghost predicate Reaches(w: World, actions: seq<Action>, w': World)
    decreases |actions|
  {
    if actions == [] then w' == w
    else Enabled(w, actions[0]) && Reaches(Next(w, actions[0]), actions[1..], w')
  }

  // Every commit of the run is in time.
  ghost predicate Timely(w: World, actions: seq<Action>)
    decreases |actions|
  {
    actions != [] && Enabled(w, actions[0]) ==>
      InTime(w, actions[0]) && Timely(Next(w, actions[0]), actions[1..])
  }

  // Every commit of the run is clear, and every deletion current.
  ghost predicate Checked(w: World, actions: seq<Action>)
    decreases |actions|
  {
    actions != [] && Enabled(w, actions[0]) ==>
      Clear(w, actions[0]) && Current(w, actions[0]) && Checked(Next(w, actions[0]), actions[1..])
  }

  // Every deletion of the run is current.
  ghost predicate NoneStale(w: World, actions: seq<Action>)
    decreases |actions|
  {
    actions != [] && Enabled(w, actions[0]) ==>
      Current(w, actions[0]) && NoneStale(Next(w, actions[0]), actions[1..])
  }

  // ---- Exactly when devices and references match ----

  // Every device has its reference and every reference its device.
  ghost predicate Matched(w: World) {
    && (forall d :: d in w.devices ==> d.1 in w.refs && w.refs[d.1] == d.0)
    && (forall a :: a in w.refs ==> (w.refs[a], a) in w.devices)
  }

  ghost predicate AlwaysMatched(w: World, actions: seq<Action>)
    decreases |actions|
  {
    && Matched(w)
    && (actions != [] && Enabled(w, actions[0]) ==> AlwaysMatched(Next(w, actions[0]), actions[1..]))
  }

  lemma MatchedNext(w: World, a: Action)
    requires Matched(w) && Enabled(w, a)
    ensures Matched(Next(w, a)) <==> Clear(w, a) && Current(w, a)
  {
    var t := Next(w, a);
    if !Clear(w, a) {
      var address := w.requests[a.request].address;
      assert (w.refs[address], address) in t.devices;
    }
    if !Current(w, a) {
      var address := w.deletions[a.deletion].address;
      assert (w.refs[address], address) in t.devices && address !in t.refs;
    }
  }

  // In every run from a store whose devices and references match, they match at every moment if and only
  // if every commit finds its address free or the same user's, and every deletion finds the reference as
  // it was read or gone.
  lemma {:induction false} MatchedExactly(w: World, actions: seq<Action>)
    requires Matched(w)
    ensures AlwaysMatched(w, actions) <==> Checked(w, actions)
    decreases |actions|
  {
    hide Matched, Clear, Current, Next;
    if actions != [] && Enabled(w, actions[0]) {
      MatchedNext(w, actions[0]);
      if Matched(Next(w, actions[0])) {
        MatchedExactly(Next(w, actions[0]), actions[1..]);
      }
    }
  }

  // ---- Exactly when no two devices share an address ----

  ghost predicate OneDeviceEach(w: World) {
    forall d, e :: d in w.devices && e in w.devices && d.1 == e.1 ==> d == e
  }

  ghost predicate AlwaysOneEach(w: World, actions: seq<Action>)
    decreases |actions|
  {
    && OneDeviceEach(w)
    && (actions != [] && Enabled(w, actions[0]) ==> AlwaysOneEach(Next(w, actions[0]), actions[1..]))
  }

  // No other user's record is stored for the address that is committed, referenced or not.
  ghost predicate Unrecorded(w: World, a: Action)
    requires Enabled(w, a)
  {
    a.CommitDevice? ==>
      var r := w.requests[a.request];
      forall d :: d in w.devices && d.1 == r.address ==> d.0 == r.user
  }

  ghost predicate EveryCommitUnrecorded(w: World, actions: seq<Action>)
    decreases |actions|
  {
    actions != [] && Enabled(w, actions[0]) ==>
      Unrecorded(w, actions[0]) && EveryCommitUnrecorded(Next(w, actions[0]), actions[1..])
  }

  lemma OneEachNext(w: World, a: Action)
    requires OneDeviceEach(w) && Enabled(w, a)
    ensures OneDeviceEach(Next(w, a)) <==> Unrecorded(w, a)
  {
    if !Unrecorded(w, a) {
      var r := w.requests[a.request];
      var d :| d in w.devices && d.1 == r.address && d.0 != r.user;
      Shared(Next(w, a), d, (r.user, r.address));
    }
  }

  // Whether deletions are current or not: two devices never share an address if and only if no commit
  // finds another user's record for its address. The reference, which the hold looks at, is not enough.
  lemma {:induction false} OneEachExactly(w: World, actions: seq<Action>)
    requires OneDeviceEach(w)
    ensures AlwaysOneEach(w, actions) <==> EveryCommitUnrecorded(w, actions)
    decreases |actions|
  {
    hide OneDeviceEach, Unrecorded, Next;
    if actions != [] && Enabled(w, actions[0]) {
      OneEachNext(w, actions[0]);
      if OneDeviceEach(Next(w, actions[0])) {
        OneEachExactly(Next(w, actions[0]), actions[1..]);
      }
    }
  }

  lemma Shared(w: World, d: (string, u32), e: (string, u32))
    requires d in w.devices && e in w.devices && d.1 == e.1 && d != e
    ensures !OneDeviceEach(w)
  {}

  lemma {:induction false} MatchedIsOneEach(w: World, actions: seq<Action>)
    requires AlwaysMatched(w, actions)
    ensures AlwaysOneEach(w, actions)
    decreases |actions|
  {
    hide Next;
    if actions != [] && Enabled(w, actions[0]) {
      MatchedIsOneEach(Next(w, actions[0]), actions[1..]);
    }
  }

  // ---- Commits in time ----

  // An address under a live hold of a request that has not committed has no reference.
  ghost predicate Inv(w: World) {
    && Matched(w)
    && (forall a :: a in w.holds ==> w.holds[a] < |w.requests|)
    && (forall a :: a in w.holds ==> !w.requests[w.holds[a]].Waiting? && w.requests[w.holds[a]].address == a)
    && (forall a :: a in w.holds && w.requests[w.holds[a]].Holding? ==> a !in w.refs)
  }

  lemma NextKeeps(w: World, a: Action)
    requires Inv(w) && Enabled(w, a) && InTime(w, a) && Current(w, a)
    ensures Clear(w, a) && Inv(Next(w, a))
  {
    hide Matched;
    MatchedNext(w, a);
  }

  lemma {:induction false} TimelyIsChecked(w: World, actions: seq<Action>)
    requires Inv(w) && Timely(w, actions) && NoneStale(w, actions)
    ensures Checked(w, actions)
    decreases |actions|
  {
    hide Inv, Next, Clear, Current, InTime;
    if actions != [] && Enabled(w, actions[0]) {
      NextKeeps(w, actions[0]);
      TimelyIsChecked(Next(w, actions[0]), actions[1..]);
    }
  }

  // So however requests, lapses and deletions interleave, no two devices ever share an address, and each
  // has its reference, as long as every commit comes before its own hold lapses and no deletion is stale.
  lemma NoDoubleAllocation(w: World, actions: seq<Action>)
    requires Fresh(w) && Timely(w, actions) && NoneStale(w, actions)
    ensures AlwaysOneEach(w, actions) && AlwaysMatched(w, actions)
  {
    TimelyIsChecked(w, actions);
    MatchedExactly(w, actions);
    MatchedIsOneEach(w, actions);
  }

  // ---- Holds and deletions that come second ----

  // An address held by a request stays that request's until the hold lapses: no step of the run in
  // between holds it for another.
  lemma {:induction false} HoldLasts(w: World, actions: seq<Action>, w': World, address: u32)
    requires address in w.holds && Reaches(w, actions, w') && Lapse(address) !in actions
    ensures address in w'.holds && w'.holds[address] == w.holds[address]
    ensures forall a :: a in actions && a.Hold? ==> a.address != address
    decreases |actions|
  {
    if actions != [] {
      HoldLasts(Next(w, actions[0]), actions[1..], w', address);
      assert actions == [actions[0]] + actions[1..];
    }
  }

  // An address with a reference cannot be held.
  lemma ReferencedIsNotHeld(w: World, i: nat, address: u32)
    requires address in w.refs
    ensures !Enabled(w, Hold(i, address))
  {}

  // A deletion that finds no reference, or then no record, ends without deleting anything.
  lemma NothingToDelete(w: World, i: nat)
    requires i < |w.deletions| && (w.deletions[i].Asked? || w.deletions[i].Named?)
    requires w.deletions[i].Asked? ==> w.deletions[i].address !in w.refs
    requires w.deletions[i].Named? ==> (w.deletions[i].user, w.deletions[i].address) !in w.devices
    ensures Next(w, if w.deletions[i].Asked? then ReadReference(i) else ReadRecord(i)) ==
      w.(deletions := w.deletions[i := Ended])
  {}

  // ---- Neither premise can be dropped ----

  ghost predicate Shares(w: World, actions: seq<Action>) {
    exists w' :: Reaches(w, actions, w') && !OneDeviceEach(w')
  }

  // A commit after the hold has lapsed can put two users on one address, without any deletion.
  lemma LateCommitShares(w: World, address: u32)
    requires Fresh(w) && |w.requests| == 2 && w.requests[0].user != w.requests[1].user
    ensures Shares(w, LateCommit(address))
  {
    hide Reaches, OneDeviceEach;
    assert w.requests[0] in w.requests && w.requests[1] in w.requests;
    var w1 := Next(w, Hold(0, address));
    var w2 := Next(w1, Lapse(address));
    var w3 := Next(w2, Hold(1, address));
    var w4 := Next(w3, CommitDevice(1));
    var w5 := Next(w4, CommitDevice(0));
    ReachesOne(w4, CommitDevice(0));
    ReachesMore(w3, [CommitDevice(1), CommitDevice(0)], w5);
    ReachesMore(w2, [Hold(1, address), CommitDevice(1), CommitDevice(0)], w5);
    ReachesMore(w1, [Lapse(address), Hold(1, address), CommitDevice(1), CommitDevice(0)], w5);
    ReachesMore(w, LateCommit(address), w5);
    Shared(w5, (w.requests[0].user, address), (w.requests[1].user, address));
  }

  function LateCommit(address: u32): seq<Action> {
    [Hold(0, address), Lapse(address), Hold(1, address), CommitDevice(1), CommitDevice(0)]
  }

  lemma ReachesOne(w: World, a: Action)
    requires Enabled(w, a)
    ensures Reaches(w, [a], Next(w, a))
  {
    assert [a][1..] == [];
  }

  lemma ReachesMore(w: World, actions: seq<Action>, w': World)
    requires actions != [] && Enabled(w, actions[0]) && Reaches(Next(w, actions[0]), actions[1..], w')
    ensures Reaches(w, actions, w')
  {}

  // Each step of the run is in time and clear.
  ghost predicate LooksSafe(w: World, actions: seq<Action>, w': World)
    decreases |actions|
  {
    if actions == [] then w' == w
    else
      && Enabled(w, actions[0]) && InTime(w, actions[0]) && Clear(w, actions[0])
      && LooksSafe(Next(w, actions[0]), actions[1..], w')
  }

  function StaleDeletion(address: u32): seq<Action> {
    [Hold(0, address), CommitDevice(0), Lapse(address)] + Deletions() + SecondUser(address) + ThirdUser(address)
  }

  // Two deletions of the first user's device read its reference, and the first goes through.
  function Deletions(): seq<Action> {
    [ReadReference(0), ReadRecord(0), ReadReference(1), ReadRecord(1), DeleteBoth(0)]
  }

  // The address is given to a second user, whose reference the other deletion takes.
  function SecondUser(address: u32): seq<Action> {
    [Hold(1, address), CommitDevice(1), DeleteBoth(1), Lapse(address)]
  }

  function ThirdUser(address: u32): seq<Action> {
    [Hold(2, address), CommitDevice(2)]
  }

  // A deletion that is asked for twice can put two users on one address, although every commit comes in
  // time and finds the address free.
  lemma StaleDeletionShares(w: World, address: u32)
    requires Fresh(w) && |w.requests| == 3 && |w.deletions| == 2
    requires w.deletions[0] == w.deletions[1] == Asked(address)
    requires w.requests[0].user != w.requests[1].user && w.requests[1].user != w.requests[2].user
    ensures exists w' :: LooksSafe(w, StaleDeletion(address), w') && !OneDeviceEach(w')
  {
    var u, v, x := w.requests[0].user, w.requests[1].user, w.requests[2].user;
    assert w.requests[0] in w.requests && w.requests[1] in w.requests && w.requests[2] in w.requests;
    assert w.requests == [Waiting(u), Waiting(v), Waiting(x)];
    hide LooksSafe, Next, Deletions, SecondUser, ThirdUser, OneDeviceEach;
    var w1 := World({(u, address)}, map[address := u], map[], [Added(u, address), Waiting(v), Waiting(x)], w.deletions);
    FirstAdds(w, w1, address, u, v, x);
    var w2 := w1.(devices := {}, refs := map[], deletions := [Ended, Confirmed(u, address)]);
    DeletionsRun(w1, w2, address, u);
    var w3 := w2.(devices := {(v, address)}, requests := [Added(u, address), Added(v, address), Waiting(x)],
                  deletions := [Ended, Ended]);
    SecondAdds(w2, w3, address, u, v, x);
    var w4 := ThirdAdds(w3, address);
    FourParts(w, [Hold(0, address), CommitDevice(0), Lapse(address)], w1, Deletions(), w2,
              SecondUser(address), w3, ThirdUser(address), w4);
    Shared(w4, (v, address), (x, address));
  }

  lemma FourParts(w: World, a: seq<Action>, w1: World, b: seq<Action>, w2: World,
                  c: seq<Action>, w3: World, d: seq<Action>, w4: World)
    requires LooksSafe(w, a, w1) && LooksSafe(w1, b, w2) && LooksSafe(w2, c, w3) && LooksSafe(w3, d, w4)
    ensures LooksSafe(w, a + b + c + d, w4)
  {
    hide LooksSafe;
    SafeJoin(w, a, w1, b, w2);
    SafeJoin(w, a + b, w2, c, w3);
    SafeJoin(w, a + b + c, w3, d, w4);
  }

  lemma {:induction false} SafeJoin(w: World, first: seq<Action>, w1: World, second: seq<Action>, w2: World)
    requires LooksSafe(w, first, w1) && LooksSafe(w1, second, w2)
    ensures LooksSafe(w, first + second, w2)
    decreases |first|
  {
    if first == [] {
      assert first + second == second;
    } else {
      assert (first + second)[1..] == first[1..] + second;
      hide Next;
      SafeJoin(Next(w, first[0]), first[1..], w1, second, w2);
    }
  }

  lemma SafeMore(w: World, a: Action, rest: seq<Action>, w': World)
    requires Enabled(w, a) && InTime(w, a) && Clear(w, a) && LooksSafe(Next(w, a), rest, w')
    ensures LooksSafe(w, [a] + rest, w')
  {
    assert ([a] + rest)[1..] == rest;
  }

  lemma SafeOne(w: World, a: Action, w': World)
    requires Enabled(w, a) && InTime(w, a) && Clear(w, a) && Next(w, a) == w'
    ensures LooksSafe(w, [a], w')
  {
    assert [a][1..] == [];
  }

  lemma FirstAdds(w: World, w': World, address: u32, u: string, v: string, x: string)
    requires Fresh(w) && w.requests == [Waiting(u), Waiting(v), Waiting(x)]
    requires w' == World({(u, address)}, map[address := u], map[],
                         [Added(u, address), Waiting(v), Waiting(x)], w.deletions)
    ensures LooksSafe(w, [Hold(0, address), CommitDevice(0), Lapse(address)], w')
  {
    hide LooksSafe;
    var w1 := Next(w, Hold(0, address));
    var w2 := Next(w1, CommitDevice(0));
    assert Next(w2, Lapse(address)) == w';
    SafeOne(w2, Lapse(address), w');
    SafeMore(w1, CommitDevice(0), [Lapse(address)], w');
    SafeMore(w, Hold(0, address), [CommitDevice(0), Lapse(address)], w');
    assert [Hold(0, address)] + [CommitDevice(0), Lapse(address)] ==
      [Hold(0, address), CommitDevice(0), Lapse(address)];
    assert [CommitDevice(0)] + [Lapse(address)] == [CommitDevice(0), Lapse(address)];
  }

  lemma DeletionsRun(w: World, w': World, address: u32, u: string)
    requires w.devices == {(u, address)} && w.refs == map[address := u]
    requires w.deletions == [Asked(address), Asked(address)]
    requires w' == w.(devices := {}, refs := map[], deletions := [Ended, Confirmed(u, address)])
    ensures LooksSafe(w, Deletions(), w')
  {
    hide LooksSafe;
    var w1 := Next(w, ReadReference(0));
    var w2 := Next(w1, ReadRecord(0));
    var w3 := Next(w2, ReadReference(1));
    var w4 := Next(w3, ReadRecord(1));
    assert Next(w4, DeleteBoth(0)) == w';
    SafeOne(w4, DeleteBoth(0), w');
    SafeMore(w3, ReadRecord(1), [DeleteBoth(0)], w');
    SafeMore(w2, ReadReference(1), [ReadRecord(1)] + [DeleteBoth(0)], w');
    SafeMore(w1, ReadRecord(0), [ReadReference(1)] + ([ReadRecord(1)] + [DeleteBoth(0)]), w');
    SafeMore(w, ReadReference(0), [ReadRecord(0)] + ([ReadReference(1)] + ([ReadRecord(1)] + [DeleteBoth(0)])), w');
    assert Deletions() ==
      [ReadReference(0)] + ([ReadRecord(0)] + ([ReadReference(1)] + ([ReadRecord(1)] + [DeleteBoth(0)])));
  }

  lemma SecondAdds(w: World, w': World, address: u32, u: string, v: string, x: string)
    requires w.devices == {} && w.refs == map[] && w.holds == map[]
    requires w.requests == [Added(u, address), Waiting(v), Waiting(x)]
    requires w.deletions == [Ended, Confirmed(u, address)] && u != v
    requires w' == w.(devices := {(v, address)}, requests := [Added(u, address), Added(v, address), Waiting(x)],
                      deletions := [Ended, Ended])
    ensures LooksSafe(w, SecondUser(address), w')
  {
    hide LooksSafe;
    var w1 := Next(w, Hold(1, address));
    var w2 := Next(w1, CommitDevice(1));
    var w3 := Next(w2, DeleteBoth(1));
    assert Next(w3, Lapse(address)) == w';
    SafeOne(w3, Lapse(address), w');
    SafeMore(w2, DeleteBoth(1), [Lapse(address)], w');
    SafeMore(w1, CommitDevice(1), [DeleteBoth(1)] + [Lapse(address)], w');
    SafeMore(w, Hold(1, address), [CommitDevice(1)] + ([DeleteBoth(1)] + [Lapse(address)]), w');
    assert SecondUser(address) == [Hold(1, address)] + ([CommitDevice(1)] + ([DeleteBoth(1)] + [Lapse(address)]));
  }

  lemma ThirdAdds(w: World, address: u32) returns (w': World)
    requires w.refs == map[] && w.holds == map[] && |w.requests| == 3 && w.requests[2].Waiting?
    ensures LooksSafe(w, ThirdUser(address), w')
    ensures w'.devices == w.devices + {(w.requests[2].user, address)}
  {
    hide LooksSafe;
    var w1 := Next(w, Hold(2, address));
    w' := Next(w1, CommitDevice(2));
    SafeOne(w1, CommitDevice(2), w');
    SafeMore(w, Hold(2, address), [CommitDevice(2)], w');
    assert ThirdUser(address) == [Hold(2, address)] + [CommitDevice(2)];
  }
}
