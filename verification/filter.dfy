// The packet filter: which device a packet belongs to, which bucket decides it, and whether it passes.

module Filter {
  import opened Numbers
  import opened Options
  import opened Policies
  import opened Prefixes

  // Addresses are numbers; ports are the two bytes as loaded, in network order.
  datatype IpInfo = IpInfo(srcIp: u32, srcPort: u16, dstIp: u32, dstPort: u16, proto: u8)

  // bpf_ntohs
  function Ntohs(port: u16): u16 { port % 0x100 * 0x100 + port / 0x100 }

  function Reverse(ip: IpInfo): IpInfo {
    IpInfo(ip.dstIp, ip.dstPort, ip.srcIp, ip.srcPort, ip.proto)
  }

  // A user is identified by the name itself, of which the tables hold the SHA-1 hash.
  datatype Device = Device(sessionExpiry: u64, lastPacketTime: u64, userId: string, associatedNode: u64)

  type Slots = s: seq<Policy> | |s| == MAX_POLICIES witness seq(MAX_POLICIES, _ => EMPTY_SLOT)
  type RouteTable = map<RouteKey, Slots>

  datatype Tables = Tables(
    devices: map<u32, Device>,
    accountLocked: map<string, u32>,
    policies: map<string, RouteTable>,
    nodeId: u64,
    inactivityTimeout: u64)

  // ---- One bucket ----

  // The policies before the first stop.
  function Meant(slots: seq<Policy>): (ps: seq<Policy>)
    ensures ps <= slots
    ensures forall p :: p in ps ==> p.policyType != STOP
    ensures |ps| < |slots| ==> slots[|ps|].policyType == STOP
  {
    if slots == [] || slots[0].policyType == STOP then []
    else [slots[0]] + Meant(slots[1..])
  }

  // The meaning of a set of policies for one packet: something matches, nothing that matches denies,
  // and if anything that matches asks for a session there is a live one.
  ghost predicate Permits(policies: set<Policy>, proto: int, port: int, live: bool) {
    && (exists p :: p in policies && Matches(p, proto, port))
    && (forall p :: p in policies && Matches(p, proto, port) ==> !IsDeny(p))
    && ((exists p :: p in policies && Matches(p, proto, port) && IsMfa(p)) ==> live)
  }

  // A bucket without a stop decides nothing.
  ghost predicate BucketPasses(slots: Slots, proto: int, port: int, live: bool) {
    && |Meant(slots)| < MAX_POLICIES
    && Permits((set p | p in Meant(slots)), proto, port, live)
  }

  // ---- The whole decision ----

  // The device's address, the address on the other side, and the port on the other side.
  function Endpoint(t: Tables, ip: IpInfo): Option<(u32, u32, u16)> {
    if ip.srcIp in t.devices then Some((ip.srcIp, ip.dstIp, Ntohs(ip.dstPort)))
    else if ip.dstIp in t.devices then Some((ip.dstIp, ip.srcIp, Ntohs(ip.srcPort)))
    else None
  }

  // Unsigned 64-bit subtraction.
  function Elapsed(now: u64, since: u64): u64 { (now - since) % TWO64 }

  predicate TimedOut(timeout: u64, d: Device, now: u64) {
    timeout != MAX_U64 && Elapsed(now, d.lastPacketTime) >= timeout
  }

  // What an mfa policy asks of the device.
  predicate SessionLive(t: Tables, d: Device, now: u64)
    requires d.userId in t.accountLocked
  {
    && t.nodeId == d.associatedNode
    && t.accountLocked[d.userId] == 0
    && !TimedOut(t.inactivityTimeout, d, now)
    && d.sessionExpiry != 0
    && (d.sessionExpiry == MAX_U64 || now < d.sessionExpiry)
  }

  // The bucket that decides a packet, if the device, its account and a covering route are known.
  function Deciding(t: Tables, ip: IpInfo): (r: Option<(u32, Slots, u16)>)
    ensures r.Some? ==> r.value.0 in t.devices && t.devices[r.value.0].userId in t.accountLocked
  {
    match Endpoint(t, ip)
    case None => None
    case Some((device, other, port)) =>
      var user := t.devices[device].userId;
      if user !in t.accountLocked || user !in t.policies then None
      else
        match Lookup(t.policies[user].Keys, other)
        case None => None
        case Some(key) => Some((device, t.policies[user][key], port))
  }

  ghost predicate Passes(t: Tables, ip: IpInfo, now: u64) {
    match Deciding(t, ip)
    case None => false
    case Some((device, slots, port)) =>
      BucketPasses(slots, ip.proto, port, SessionLive(t, t.devices[device], now))
  }

  // A packet records activity on its device when a bucket is found and the session has not lapsed.
  predicate Records(t: Tables, ip: IpInfo, now: u64) {
    var r := Deciding(t, ip);
    r.Some? && !TimedOut(t.inactivityTimeout, t.devices[r.value.0], now)
  }

  function DevicesAfter(t: Tables, ip: IpInfo, now: u64): map<u32, Device> {
    if Records(t, ip, now) then
      var device := Deciding(t, ip).value.0;
      t.devices[device := t.devices[device].(lastPacketTime := now)]
    else t.devices
  }

  // ---- The tables and the program that runs over them ----

  class XdpMaps {
    var devices: map<u32, Device>
    var accountLocked: map<string, u32>
    var policies: map<string, RouteTable>
    var nodeId: u64
    var inactivityTimeout: u64

    function Snapshot(): Tables
      reads this
    {
      Tables(devices, accountLocked, policies, nodeId, inactivityTimeout)
    }

    constructor (node: u64, timeout: u64)
      ensures Snapshot() == Tables(map[], map[], map[], node, timeout)
    {
      devices, accountLocked, policies := map[], map[], map[];
      nodeId, inactivityTimeout := node, timeout;
    }

    method Conntrack(ip: IpInfo, now: u64) returns (pass: bool)
      modifies this`devices
      ensures pass == Passes(old(Snapshot()), ip, now)
      ensures devices == DevicesAfter(old(Snapshot()), ip, now)
    {
      var address, port := ip.dstIp, ip.dstPort;
      var current := ip.srcIp;
      if current !in devices {
        current := ip.dstIp;
        if current !in devices {
          return false;
        }
        address, port := ip.srcIp, ip.srcPort;
      }
      port := Ntohs(port);

      var device := devices[current];
      if device.userId !in accountLocked {
        return false;
      }
      var isTimedOut := inactivityTimeout != MAX_U64 && Elapsed(now, device.lastPacketTime) >= inactivityTimeout;
      if device.userId !in policies {
        return false;
      }
      var found := Lookup(policies[device.userId].Keys, address);
      if found.None? {
        return false;
      }
      var slots := policies[device.userId][found.value];
      ghost var live := SessionLive(Snapshot(), device, now);
      if !isTimedOut {
        devices := devices[current := device.(lastPacketTime := now)];
      }
      pass := Decide(slots, ip.proto, port, device, isTimedOut, now);
      assert pass == BucketPasses(slots, ip.proto, port, live);
    }

    // The bounded loop over the bucket.
    method Decide(slots: Slots, proto: u8, port: u16, device: Device, isTimedOut: bool, now: u64)
      returns (decision: bool)
      requires device.userId in accountLocked
      requires isTimedOut == TimedOut(inactivityTimeout, device, now)
      ensures decision == BucketPasses(slots, proto, port, SessionLive(Snapshot(), device, now))
    {
      ghost var live := SessionLive(Snapshot(), device, now);
      decision := false;
      assert slots[..0] == [];
      for i := 0 to MAX_POLICIES
        invariant forall p :: p in slots[..i] ==> p.policyType != STOP
        invariant decision <==> exists p :: p in slots[..i] && Matches(p, proto, port)
        invariant forall p :: p in slots[..i] && Matches(p, proto, port) ==> !IsDeny(p) && (IsMfa(p) ==> live)
      {
        var policy := slots[i];
        if policy.policyType == STOP {
          MeantIs(slots, i);
          return;
        }
        assert slots[..i + 1] == slots[..i] + [policy];
        if Matches(policy, proto, port) {
          if HasFlag(policy.policyType, DENY) {
            Blocked(slots, i, proto, port, live);
            return false;
          } else if HasFlag(policy.policyType, PUBLIC) {
            decision := true;
          } else {
            decision := nodeId == device.associatedNode && accountLocked[device.userId] == 0 && !isTimedOut
              && device.sessionExpiry != 0 && (device.sessionExpiry == MAX_U64 || now < device.sessionExpiry);
            if !decision {
              Blocked(slots, i, proto, port, live);
              return false;
            }
          }
        }
      }
      assert slots[..MAX_POLICIES] == slots;
      NoStop(slots);
      return false;
    }
  }

  lemma MeantIs(slots: seq<Policy>, i: nat)
    requires i < |slots| && slots[i].policyType == STOP
    requires forall p :: p in slots[..i] ==> p.policyType != STOP
    ensures Meant(slots) == slots[..i]
  {
    if i > 0 {
      var rest := slots[1..];
      assert rest[..i - 1] == slots[1..i];
      MeantIs(rest, i - 1);
      assert Meant(slots) == [slots[0]] + Meant(rest);
    }
  }

  lemma MeantReaches(slots: seq<Policy>, i: nat)
    requires i <= |slots| && forall p :: p in slots[..i] ==> p.policyType != STOP
    ensures |Meant(slots)| >= i
  {
    if i > 0 {
      assert slots[..i] == [slots[0]] + slots[1..][..i - 1];
      MeantReaches(slots[1..], i - 1);
    }
  }

  lemma NoStop(slots: seq<Policy>)
    requires forall p :: p in slots ==> p.policyType != STOP
    ensures Meant(slots) == slots
  {}

  // A matching policy that denies, or that asks for a session the device does not have, settles the
  // bucket wherever it stands.
  lemma Blocked(slots: Slots, i: nat, proto: int, port: int, live: bool)
    requires i < MAX_POLICIES && Matches(slots[i], proto, port)
    requires IsDeny(slots[i]) || (IsMfa(slots[i]) && !live)
    requires forall p :: p in slots[..i + 1] ==> p.policyType != STOP
    ensures !BucketPasses(slots, proto, port, live)
  {
    MeantReaches(slots, i + 1);
    assert Meant(slots)[i] == slots[i];
  }

  // ---- Facts about the decision ----

  // The order and the repetition of policies in a bucket do not matter.
  lemma BucketIsASet(a: Slots, b: Slots, proto: int, port: int, live: bool)
    requires |Meant(a)| < MAX_POLICIES && |Meant(b)| < MAX_POLICIES
    requires forall p :: p in Meant(a) <==> p in Meant(b)
    ensures BucketPasses(a, proto, port, live) <==> BucketPasses(b, proto, port, live)
  {
    assert (set p | p in Meant(a)) == (set p | p in Meant(b));
  }

  // A packet and its answer are decided alike, and record the same activity, when one end is a device.
  lemma DirectionDoesNotMatter(t: Tables, ip: IpInfo, now: u64)
    requires (ip.srcIp in t.devices) != (ip.dstIp in t.devices)
    ensures Passes(t, ip, now) <==> Passes(t, Reverse(ip), now)
    ensures DevicesAfter(t, ip, now) == DevicesAfter(t, Reverse(ip), now)
  {
    assert Endpoint(t, ip) == Endpoint(t, Reverse(ip));
    assert Deciding(t, ip) == Deciding(t, Reverse(ip));
  }
}
