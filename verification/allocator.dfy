// Choosing an address for a new device: a scan around the subnet from a random start.

module Allocator {
  import opened Numbers

  // A subnet of prefix length 1 to 30: its network address and its number of addresses.
  datatype Subnet = Subnet(base: u32, size: nat)

  type Net = n: Subnet | 4 <= n.size <= 0x8000_0000 && n.base + n.size <= TWO32 witness Subnet(0, 4)

  function First(net: Net): u32 { net.base + 1 }
  function Last(net: Net): u32 { net.base + net.size - 1 }

  // The address after the subnet, which the scan can reach when the server has the last address.
  function Beyond(net: Net): u32 { Increment(Last(net), 1) }

  predicate Contains(net: Net, a: u32) { net.base <= a <= Last(net) }

  // Every address but the network address, the broadcast address included.
  predicate OnRing(net: Net, a: u32) { First(net) <= a <= Last(net) }

  // incrementIP: the 64-bit sum cut to its low 32 bits.
  function Increment(a: u32, inc: u32): u32 {
    if a + inc < TWO32 then a + inc else a + inc - TWO32
  }

  function SkipServer(server: u32, a: u32): u32 { if a == server then Increment(a, 1) else a }

  function Start(net: Net, server: u32, attempt: u32): u32 {
    SkipServer(server, Increment(net.base, attempt))
  }

  // ---- The loop, one turn at a time ----

  datatype Scan = Trying(addr: u32) | Found(addr: u32) | Full

  // Whether the hold on an address succeeds, in the given turn.
  type Free = (nat, u32) -> bool

  function Turn(net: Net, server: u32, start: u32, free: Free, turn: nat, addr: u32): Scan {
    var candidate := SkipServer(server, addr);
    if free(turn, candidate) then Found(candidate)
    else
      var next := Increment(candidate, 1);
      if Contains(net, next) then Trying(next)
      else if First(net) == start then Full
      else Trying(First(net))
  }

  function After(net: Net, server: u32, start: u32, free: Free, turns: nat): Scan {
    if turns == 0 then Trying(start)
    else
      match After(net, server, start, free, turns - 1)
      case Trying(addr) => Turn(net, server, start, free, turns - 1, addr)
      case done => done
  }

  predicate Placed(net: Net, server: u32, attempt: u32) {
    Contains(net, server) && 1 <= attempt <= net.size - 2
  }

  // What a turn can try: the ring without the server's address, of which the address beyond the
  // subnet takes the place when that is the last.
  predicate Choosable(net: Net, server: u32, a: u32) {
    (OnRing(net, a) && a != server) || (server == Last(net) && a == Beyond(net))
  }

  // The place on the ring where an address is tried.
  function Place(net: Net, a: u32): u32 { if a == Beyond(net) then Last(net) else a }

  // How far round the ring an address is from the start.
  function Ahead(net: Net, start: u32, a: u32): int {
    if a >= start then a - start else a - start + net.size - 1
  }

  lemma StartOnRing(net: Net, server: u32, attempt: u32)
    requires Placed(net, server, attempt)
    ensures OnRing(net, Start(net, server, attempt)) && Start(net, server, attempt) != server
    ensures Start(net, server, attempt) ==
      if net.base + attempt == server then net.base + attempt + 1 else net.base + attempt
  {}

  // ---- What the scan can return ----

  // One turn from an address on the ring, spelled out.
  lemma TurnFrom(net: Net, server: u32, start: u32, free: Free, turn: nat, addr: u32)
    requires OnRing(net, addr) && Contains(net, server)
    ensures var c := SkipServer(server, addr);
      && Choosable(net, server, c)
      && (c == addr || Place(net, c) == addr + 1 || (addr == Last(net) && c == Beyond(net)))
      && Turn(net, server, start, free, turn, addr) ==
         if free(turn, c) then Found(c)
         else if OnRing(net, c) && c < Last(net) then Trying(c + 1)
         else if First(net) == start then Full
         else Trying(First(net))
  {}

  lemma AfterNext(net: Net, server: u32, start: u32, free: Free, turns: nat)
    ensures After(net, server, start, free, turns + 1) ==
      match After(net, server, start, free, turns)
      case Trying(addr) => Turn(net, server, start, free, turns, addr)
      case done => done
  {}

  lemma {:induction false} StaysOnRing(net: Net, server: u32, attempt: u32, free: Free, turns: nat)
    requires Placed(net, server, attempt)
    ensures var scan := After(net, server, Start(net, server, attempt), free, turns);
      match scan
      case Trying(a) => OnRing(net, a)
      case Found(a) => Choosable(net, server, a) && exists turn :: 0 <= turn < turns && free(turn, a)
      case Full => Start(net, server, attempt) == First(net)
  {
    hide Turn, Start;
    StartOnRing(net, server, attempt);
    var start := Start(net, server, attempt);
    if turns > 0 {
      StaysOnRing(net, server, attempt, free, turns - 1);
      AfterNext(net, server, start, free, turns - 1);
      var before := After(net, server, start, free, turns - 1);
      if before.Trying? {
        TurnFrom(net, server, start, free, turns - 1, before.addr);
      }
    }
  }

  ghost predicate Refused(free: Free, a: u32, turns: nat) {
    exists turn :: 0 <= turn < turns && !free(turn, a)
  }

  // Every address with a place on the ring below the given one was tried and refused.
  ghost predicate RefusedBelow(net: Net, server: u32, free: Free, below: int, turns: nat) {
    forall a: u32 :: Choosable(net, server, a) && Place(net, a) < below ==> Refused(free, a, turns)
  }

  // Full is reported only after every address there is to try was tried and refused.
  lemma {:induction false} FullSawEverything(net: Net, server: u32, attempt: u32, free: Free, turns: nat)
    requires Placed(net, server, attempt) && Start(net, server, attempt) == First(net)
    ensures match After(net, server, First(net), free, turns)
      case Trying(addr) => RefusedBelow(net, server, free, addr, turns)
      case Found(_) => true
      case Full => RefusedBelow(net, server, free, TWO32, turns)
  {
    hide Turn, Start;
    if turns > 0 {
      FullSawEverything(net, server, attempt, free, turns - 1);
      StaysOnRing(net, server, attempt, free, turns - 1);
      AfterNext(net, server, First(net), free, turns - 1);
      var before := After(net, server, First(net), free, turns - 1);
      if before.Trying? {
        TurnFrom(net, server, First(net), free, turns - 1, before.addr);
        var c := SkipServer(server, before.addr);
        if !free(turns - 1, c) { assert Refused(free, c, turns); }
      }
      forall a: u32 | Refused(free, a, turns - 1) ensures Refused(free, a, turns) {
        var turn :| 0 <= turn < turns - 1 && !free(turn, a);
      }
    }
  }

  // ---- When the scan ends ----

  ghost predicate Steady(free: Free) {
    forall turn, a :: free(turn, a) == free(0, a)
  }

  ghost predicate SomeFree(net: Net, server: u32, free: Free) {
    exists a :: Choosable(net, server, a) && free(0, a)
  }

  // The address tried next is no further round than the first free one.
  lemma {:induction false} NothingSkipped(net: Net, server: u32, attempt: u32, free: Free, turns: nat)
    requires Placed(net, server, attempt) && Steady(free)
    ensures var start := Start(net, server, attempt);
      var scan := After(net, server, start, free, turns);
      !scan.Full? ==> forall a ::
        (Choosable(net, server, a) && Ahead(net, start, Place(net, a)) < Ahead(net, start, Place(net, scan.addr)) ==>
          !free(0, a))
  {
    hide Turn, Start;
    StartOnRing(net, server, attempt);
    var start := Start(net, server, attempt);
    if turns > 0 {
      NothingSkipped(net, server, attempt, free, turns - 1);
      StaysOnRing(net, server, attempt, free, turns - 1);
      AfterNext(net, server, start, free, turns - 1);
      var before := After(net, server, start, free, turns - 1);
      if before.Trying? {
        TurnFrom(net, server, start, free, turns - 1, before.addr);
      }
    }
  }

  // Each turn comes nearer to an address that stays free.
  lemma {:induction false} Nearer(net: Net, server: u32, attempt: u32, free: Free, target: u32, turns: nat)
    requires Placed(net, server, attempt)
    requires Choosable(net, server, target) && forall turn :: free(turn, target)
    ensures var start := Start(net, server, attempt);
      match After(net, server, start, free, turns)
      case Trying(a) =>
        var place := Place(net, target);
        Ahead(net, a, place) + turns <= Ahead(net, start, place) && (start == First(net) ==> a <= place)
      case Found(_) => true
      case Full => false
  {
    hide Turn, Start;
    StartOnRing(net, server, attempt);
    var start := Start(net, server, attempt);
    if turns > 0 {
      Nearer(net, server, attempt, free, target, turns - 1);
      StaysOnRing(net, server, attempt, free, turns - 1);
      AfterNext(net, server, start, free, turns - 1);
      var before := After(net, server, start, free, turns - 1);
      if before.Trying? {
        TurnFrom(net, server, start, free, turns - 1, before.addr);
      }
    }
  }

  // With an address that stays free the scan finds one within one time round, whatever else changes.
  lemma FindsWithinOneRound(net: Net, server: u32, attempt: u32, free: Free, target: u32)
    requires Placed(net, server, attempt)
    requires Choosable(net, server, target) && forall turn :: free(turn, target)
    ensures After(net, server, Start(net, server, attempt), free, net.size).Found?
  {
    StartOnRing(net, server, attempt);
    Nearer(net, server, attempt, free, target, net.size);
    StaysOnRing(net, server, attempt, free, net.size);
  }

  lemma {:induction false} NeverFinds(net: Net, server: u32, attempt: u32, free: Free, turns: nat)
    requires Placed(net, server, attempt) && Steady(free) && !SomeFree(net, server, free)
    ensures !After(net, server, Start(net, server, attempt), free, turns).Found?
  {
    StaysOnRing(net, server, attempt, free, turns);
  }

  lemma {:induction false} MovesUp(net: Net, server: u32, attempt: u32, free: Free, turns: nat)
    requires Placed(net, server, attempt) && Start(net, server, attempt) == First(net)
    ensures match After(net, server, First(net), free, turns)
      case Trying(a) => a >= First(net) + turns
      case _ => true
  {
    hide Turn, Start;
    if turns > 0 {
      MovesUp(net, server, attempt, free, turns - 1);
      StaysOnRing(net, server, attempt, free, turns - 1);
      AfterNext(net, server, First(net), free, turns - 1);
      var before := After(net, server, First(net), free, turns - 1);
      if before.Trying? {
        TurnFrom(net, server, First(net), free, turns - 1, before.addr);
      }
    }
  }

  // On a steady store the loop ends exactly when an address is free or the scan began at the first
  // host; a full subnet scanned from anywhere else is scanned for ever.
  lemma EndsExactly(net: Net, server: u32, attempt: u32, free: Free)
    requires Placed(net, server, attempt) && Steady(free)
    ensures (exists turns: nat :: !After(net, server, Start(net, server, attempt), free, turns).Trying?) <==>
      SomeFree(net, server, free) || Start(net, server, attempt) == First(net)
  {
    var start := Start(net, server, attempt);
    if a :| Choosable(net, server, a) && free(0, a) {
      FindsWithinOneRound(net, server, attempt, free, a);
    } else if start == First(net) {
      MovesUp(net, server, attempt, free, net.size);
      StaysOnRing(net, server, attempt, free, net.size);
    } else {
      forall turns: nat ensures After(net, server, start, free, turns).Trying? {
        NeverFinds(net, server, attempt, free, turns);
        StaysOnRing(net, server, attempt, free, turns);
      }
    }
  }

  // The address found is the first free one on the way round, so the broadcast address is handed out
  // exactly when it is free, not the server's, and every host from the start up is taken.
  lemma FindsFirstFree(net: Net, server: u32, attempt: u32, free: Free, turns: nat, a: u32)
    requires Placed(net, server, attempt) && Steady(free)
    requires After(net, server, Start(net, server, attempt), free, turns) == Found(a)
    ensures var start := Start(net, server, attempt);
      && free(0, a)
      && (forall b :: Choosable(net, server, b) && free(0, b) ==>
          Ahead(net, start, Place(net, a)) <= Ahead(net, start, Place(net, b)))
      && (a == Last(net) <==>
          server != Last(net) && free(0, Last(net)) &&
          forall b :: start <= b < Last(net) && b != server ==> !free(0, b))
  {
    hide Turn, Start, After;
    StartOnRing(net, server, attempt);
    StaysOnRing(net, server, attempt, free, turns);
    NothingSkipped(net, server, attempt, free, turns);
  }

  // With the server on the last address the scan can leave the subnet; otherwise it never does.
  lemma StaysInsideExactly(net: Net, server: u32)
    requires Contains(net, server)
    ensures (forall attempt: u32, free: Free, turns: nat, a: u32 ::
        Placed(net, server, attempt) && After(net, server, Start(net, server, attempt), free, turns) == Found(a) ==>
          Contains(net, a))
      <==> server != Last(net)
  {
    if server != Last(net) {
      forall attempt: u32, free: Free, turns: nat, a: u32
        | Placed(net, server, attempt) && After(net, server, Start(net, server, attempt), free, turns) == Found(a)
        ensures Contains(net, a)
      {
        StaysOnRing(net, server, attempt, free, turns);
      }
    } else {
      LeavesSubnet(net);
    }
  }

  lemma LeavesSubnet(net: Net)
    ensures exists attempt: u32, free: Free, turns: nat, a: u32 ::
      Placed(net, Last(net), attempt) && After(net, Last(net), Start(net, Last(net), attempt), free, turns) == Found(a)
      && !Contains(net, a)
  {
    var server, outside := Last(net), Beyond(net);
    var attempt: u32 := net.size - 2;
    var start := Start(net, server, attempt);
    assert start == server - 1;
    var free: Free := (turn, a) => a == outside;
    assert After(net, server, start, free, 0) == Trying(start);
    AfterNext(net, server, start, free, 0);
    assert After(net, server, start, free, 1) == Trying(server);
    AfterNext(net, server, start, free, 1);
    assert After(net, server, start, free, 2) == Found(outside);
    assert Placed(net, server, attempt) && !Contains(net, outside);
  }

  // ---- getNextIP ----

  datatype Lease = SubnetFull | Leased(address: u32)

  // The attempt is the random choice. The loop ends if an address stays free or the start is the first
  // host; on a store that does not change, EndsExactly shows that nothing less makes it end.
  method GetNextIP(net: Net, server: u32, attempt: u32, free: Free) returns (r: Lease, turns: nat)
    requires Placed(net, server, attempt)
    requires Start(net, server, attempt) == First(net) ||
      exists a :: Choosable(net, server, a) && forall turn :: free(turn, a)
    ensures turns <= net.size
    ensures match After(net, server, Start(net, server, attempt), free, turns)
      case Trying(_) => false
      case Found(a) => r == Leased(a) && turns > 0 && free(turns - 1, a) && Choosable(net, server, a)
      case Full => r == SubnetFull && RefusedBelow(net, server, free, TWO32, turns)
    ensures server != Last(net) && r.Leased? ==> Contains(net, r.address)
  {
    hide Turn, After;
    var addr := Increment(net.base, attempt);
    if server == addr {
      addr := Increment(addr, 1);
    }
    var start := addr;
    assert start == Start(net, server, attempt);
    turns := 0;
    StartOnRing(net, server, attempt);
    FirstTurn(net, server, start, free);
    while true
      invariant OnRing(net, addr) && After(net, server, start, free, turns) == Trying(addr)
      invariant turns < net.size
      decreases net.size - turns
    {
      AfterNext(net, server, start, free, turns);
      TurnFrom(net, server, start, free, turns, addr);
      if server == addr {
        addr := Increment(addr, 1);
      }
      if free(turns, addr) {
        turns := turns + 1;
        StaysOnRing(net, server, attempt, free, turns);
        return Leased(addr), turns;
      }
      turns := turns + 1;
      addr := Increment(addr, 1);
      if !Contains(net, addr) {
        addr := Increment(net.base, 1);
        if addr == start {
          FullSawEverything(net, server, attempt, free, turns);
          return SubnetFull, turns;
        }
      }
      StillShort(net, server, attempt, free, turns);
    }
  }

  lemma FirstTurn(net: Net, server: u32, start: u32, free: Free)
    ensures After(net, server, start, free, 0) == Trying(start)
  {}

  // A scan that has not ended has not yet been once round.
  lemma StillShort(net: Net, server: u32, attempt: u32, free: Free, turns: nat)
    requires Placed(net, server, attempt)
    requires Start(net, server, attempt) == First(net) ||
      exists a :: Choosable(net, server, a) && forall turn :: free(turn, a)
    requires After(net, server, Start(net, server, attempt), free, turns).Trying?
    ensures turns < net.size
  {
    hide Turn, After, Start;
    StartOnRing(net, server, attempt);
    StaysOnRing(net, server, attempt, free, turns);
    if a :| Choosable(net, server, a) && forall turn :: free(turn, a) {
      Nearer(net, server, attempt, free, a, turns);
    } else {
      MovesUp(net, server, attempt, free, turns);
    }
  }
}
