// Records as bytes: the three records shared with the kernel, test packets, and store keys.

module Wire {
  import opened Numbers
  import opened Options
  import opened Policies
  import opened Prefixes
  import opened Filter
  import opened Text

  type Bytes = seq<u8>

  // ---- binary.LittleEndian ----

  function Pow256(width: nat): (p: nat)
    ensures p > 0
  {
    if width == 0 then 1 else 0x100 * Pow256(width - 1)
  }

  function Little(n: nat, width: nat): (b: Bytes)
    ensures |b| == width
  {
    if width == 0 then [] else [n % 0x100] + Little(n / 0x100, width - 1)
  }

  function FromLittle(b: Bytes): (n: nat)
    ensures n < Pow256(|b|)
  {
    if b == [] then 0 else b[0] + 0x100 * FromLittle(b[1..])
  }

  lemma {:induction false} LittleRoundTrip(n: nat, width: nat)
    requires n < Pow256(width)
    ensures FromLittle(Little(n, width)) == n
  {
    if width > 0 {
      LittleRoundTrip(n / 0x100, width - 1);
      assert Little(n, width)[1..] == Little(n / 0x100, width - 1);
    }
  }

  lemma {:induction false} FromLittleRoundTrip(b: Bytes)
    ensures Little(FromLittle(b), |b|) == b
  {
    if b != [] {
      FromLittleRoundTrip(b[1..]);
      assert b == [b[0]] + b[1..];
      assert FromLittle(b) / 0x100 == FromLittle(b[1..]);
    }
  }

  lemma Widths()
    ensures Pow256(2) == TWO16 && Pow256(4) == TWO32 && Pow256(8) == TWO64
  {
    assert Pow256(3) == 0x100 * Pow256(2);
    assert Pow256(4) == 0x100 * Pow256(3);
    assert Pow256(5) == 0x100 * Pow256(4);
    assert Pow256(6) == 0x100 * Pow256(5);
    assert Pow256(7) == 0x100 * Pow256(6);
  }

  function GetU16(b: Bytes): u16
    requires |b| == 2
  {
    Widths(); FromLittle(b)
  }

  function GetU32(b: Bytes): u32
    requires |b| == 4
  {
    Widths(); FromLittle(b)
  }

  function GetU64(b: Bytes): u64
    requires |b| == 8
  {
    Widths(); FromLittle(b)
  }

  // ---- fwentry ----

  type Hash = h: Bytes | |h| == 20 witness seq(20, _ => 0)

  datatype Entry = Entry(sessionExpiry: u64, lastPacketTime: u64, userId: Hash, pad: u32, associatedNode: u64)

  function EntryBytes(e: Entry): (b: Bytes)
    ensures |b| == 48
  {
    Little(e.sessionExpiry, 8) + Little(e.lastPacketTime, 8) + e.userId + Little(e.pad, 4) + Little(e.associatedNode, 8)
  }

  function UnpackEntry(b: Bytes): Option<Entry> {
    if |b| != 48 then None
    else Some(Entry(GetU64(b[0..8]), GetU64(b[8..16]), b[16..36], GetU32(b[36..40]), GetU64(b[40..48])))
  }

  lemma Pieces(a: Bytes, b: Bytes, c: Bytes, d: Bytes, e: Bytes)
    requires |a| == 8 && |b| == 8 && |c| == 20 && |d| == 4 && |e| == 8
    ensures var all := a + b + c + d + e;
      all[0..8] == a && all[8..16] == b && all[16..36] == c && all[36..40] == d && all[40..48] == e
  {
    var all := a + b + c + d + e;
    assert all[0..8] == a;
    assert all[8..16] == b;
    assert all[16..36] == c;
    assert all[36..40] == d;
    assert all[40..48] == e;
  }

  lemma UnpackPackedEntry(e: Entry)
    ensures UnpackEntry(EntryBytes(e)) == Some(e)
  {
    hide Little, FromLittle, Pow256;
    Widths();
    Pieces(Little(e.sessionExpiry, 8), Little(e.lastPacketTime, 8), e.userId,
           Little(e.pad, 4), Little(e.associatedNode, 8));
    LittleRoundTrip(e.sessionExpiry, 8);
    LittleRoundTrip(e.lastPacketTime, 8);
    LittleRoundTrip(e.pad, 4);
    LittleRoundTrip(e.associatedNode, 8);
  }

  lemma PackUnpackedEntry(b: Bytes)
    requires |b| == 48
    ensures EntryBytes(UnpackEntry(b).value) == b
  {
    hide Little, FromLittle, Pow256;
    FromLittleRoundTrip(b[0..8]);
    FromLittleRoundTrip(b[8..16]);
    FromLittleRoundTrip(b[36..40]);
    FromLittleRoundTrip(b[40..48]);
    assert b == b[0..8] + b[8..16] + b[16..36] + b[36..40] + b[40..48];
  }

  // ---- The bytes one by one, as the kernel's records lay them out: least significant first ----

  lemma {:induction false} LittleByte(n: nat, width: nat, i: nat)
    requires i < width
    ensures Little(n, width)[i] == n / Pow256(i) % 0x100
  {
    if i > 0 {
      LittleByte(n / 0x100, width - 1, i - 1);
      DividedTwice(n, Pow256(i - 1));
    }
  }

  lemma DividedTwice(n: nat, p: nat)
    requires p > 0
    ensures n / 0x100 / p == n / (0x100 * p)
  {
    var q := n / 0x100 / p;
    assert n / 0x100 == q * p + n / 0x100 % p;
    DivisionIs(n, 0x100 * p, q, 0x100 * (n / 0x100 % p) + n % 0x100);
  }

  // The field of the given width at the offset.
  predicate HasField(b: Bytes, offset: nat, width: nat, n: nat)
    requires offset + width <= |b|
  {
    forall i :: 0 <= i < width ==> b[offset + i] == n / Pow256(i) % 0x100
  }

  lemma LittleIsField(a: Bytes, n: nat, width: nat, c: Bytes)
    ensures HasField(a + Little(n, width) + c, |a|, width, n)
  {
    forall i | 0 <= i < width ensures (a + Little(n, width) + c)[|a| + i] == n / Pow256(i) % 0x100 {
      LittleByte(n, width, i);
    }
  }

  // struct device: the expiry, the last packet, the user's hash, four bytes of padding, and the node.
  lemma EntryLayout(e: Entry)
    ensures var b := EntryBytes(e);
      && HasField(b, 0, 8, e.sessionExpiry) && HasField(b, 8, 8, e.lastPacketTime)
      && b[16..36] == e.userId && HasField(b, 36, 4, e.pad) && HasField(b, 40, 8, e.associatedNode)
  {
    hide Little, Pow256, HasField;
    var b := EntryBytes(e);
    var s, l := Little(e.sessionExpiry, 8), Little(e.lastPacketTime, 8);
    var p, n := Little(e.pad, 4), Little(e.associatedNode, 8);
    Pieces(s, l, e.userId, p, n);
    LittleIsField([], e.sessionExpiry, 8, l + e.userId + p + n);
    assert b == [] + s + (l + e.userId + p + n);
    LittleIsField(s, e.lastPacketTime, 8, e.userId + p + n);
    assert b == s + l + (e.userId + p + n);
    LittleIsField(s + l + e.userId, e.pad, 4, n);
    assert b == (s + l + e.userId) + p + n;
    LittleIsField(s + l + e.userId + p, e.associatedNode, 8, []);
    assert b == (s + l + e.userId + p) + n + [];
  }

  // struct policy: type, protocol, lower and upper port.
  lemma PolicyLayout(p: Policy)
    ensures var b := PolicyBytes(p);
      && HasField(b, 0, 2, p.policyType) && HasField(b, 2, 2, p.proto)
      && HasField(b, 4, 2, p.lowerPort) && HasField(b, 6, 2, p.upperPort)
  {
    hide Little, Pow256, HasField;
    var b := PolicyBytes(p);
    var t, r, l, u := Little(p.policyType, 2), Little(p.proto, 2), Little(p.lowerPort, 2), Little(p.upperPort, 2);
    LittleIsField([], p.policyType, 2, r + l + u);
    assert b == [] + t + (r + l + u);
    LittleIsField(t, p.proto, 2, l + u);
    assert b == t + r + (l + u);
    LittleIsField(t + r, p.lowerPort, 2, u);
    LittleIsField(t + r + l, p.upperPort, 2, []);
    assert b == (t + r + l) + u + [];
  }

  // struct ip4_trie_key: the prefix length, and the address as it stands on the wire.
  lemma KeyLayout(k: TrieKey)
    ensures HasField(KeyBytes(k), 0, 4, k.prefixlen) && KeyBytes(k)[4..8] == k.ip
  {
    LittleIsField([], k.prefixlen, 4, k.ip);
    assert KeyBytes(k) == [] + Little(k.prefixlen, 4) + k.ip;
  }

  // ---- Policy: longer input is read from its front ----

  function PolicyBytes(p: Policy): (b: Bytes)
    ensures |b| == 8
  {
    Little(p.policyType, 2) + Little(p.proto, 2) + Little(p.lowerPort, 2) + Little(p.upperPort, 2)
  }

  function UnpackPolicy(b: Bytes): Option<Policy> {
    if |b| < 8 then None
    else Some(Policy(GetU16(b[0..2]), GetU16(b[2..4]), GetU16(b[4..6]), GetU16(b[6..8])))
  }

  lemma UnpackPackedPolicy(p: Policy, rest: Bytes)
    ensures UnpackPolicy(PolicyBytes(p) + rest) == Some(p)
  {
    hide Little, FromLittle, Pow256;
    Widths();
    var b := PolicyBytes(p) + rest;
    assert b[0..2] == Little(p.policyType, 2) && b[2..4] == Little(p.proto, 2);
    assert b[4..6] == Little(p.lowerPort, 2) && b[6..8] == Little(p.upperPort, 2);
    LittleRoundTrip(p.policyType, 2);
    LittleRoundTrip(p.proto, 2);
    LittleRoundTrip(p.lowerPort, 2);
    LittleRoundTrip(p.upperPort, 2);
  }

  lemma PackUnpackedPolicy(b: Bytes)
    requires |b| >= 8
    ensures PolicyBytes(UnpackPolicy(b).value) == b[..8]
  {
    hide Little, FromLittle, Pow256;
    FromLittleRoundTrip(b[0..2]);
    FromLittleRoundTrip(b[2..4]);
    FromLittleRoundTrip(b[4..6]);
    FromLittleRoundTrip(b[6..8]);
    assert b[..8] == b[0..2] + b[2..4] + b[4..6] + b[6..8];
  }

  // ---- Key ----

  type Octets = o: Bytes | |o| == 4 witness [0, 0, 0, 0]

  datatype TrieKey = TrieKey(prefixlen: u32, ip: Octets)

  function KeyBytes(k: TrieKey): (b: Bytes)
    ensures |b| == 8
  {
    Little(k.prefixlen, 4) + k.ip
  }

  function UnpackKey(b: Bytes): Option<TrieKey> {
    if |b| != 8 then None else Some(TrieKey(GetU32(b[..4]), b[4..8]))
  }

  lemma KeyRoundTrip(k: TrieKey, b: Bytes)
    ensures UnpackKey(KeyBytes(k)) == Some(k)
    ensures |b| == 8 ==> KeyBytes(UnpackKey(b).value) == b
  {
    hide Little, FromLittle, Pow256;
    Widths();
    assert KeyBytes(k)[..4] == Little(k.prefixlen, 4) && KeyBytes(k)[4..8] == k.ip;
    LittleRoundTrip(k.prefixlen, 4);
    if |b| == 8 {
      FromLittleRoundTrip(b[..4]);
      assert b == b[..4] + b[4..8];
    }
  }

  // ---- The header parser of the filter ----

  const IP_HEADER := 20
  const UDP_HEADER := 8
  const TCP_HEADER := 20
  const ICMP_HEADER := 8

  function Address(b: Octets): u32 {
    var b0: int, b1: int, b2: int, b3: int := b[0], b[1], b[2], b[3];
    ((b0 * 0x100 + b1) * 0x100 + b2) * 0x100 + b3
  }

  // An address is the number its four octets write, the first octet most significant.
  lemma AddressIs(b: Octets)
    ensures var b0: int, b1: int, b2: int, b3: int := b[0], b[1], b[2], b[3];
      Address(b) == 0x100_0000 * b0 + 0x1_0000 * b1 + 0x100 * b2 + b3
  {}

  // The two bytes as a little-endian machine loads them.
  function LoadPort(lo: u8, hi: u8): u16 { lo + 0x100 * hi }

  // parse_ip_src_dst_addr: every byte it reads lies inside the packet.
  function ParsePacket(data: Bytes): Option<IpInfo> {
    if |data| < IP_HEADER then None
    else if data[0] / 0x10 != 4 then None
    else
      var proto := data[9];
      var header := data[0] % 0x10 * 4;
      var src, dst := Address(data[12..16]), Address(data[16..20]);
      if header > |data| then None
      else if proto == UDP then
        if header + UDP_HEADER > |data| then None
        else Some(IpInfo(src, LoadPort(data[header], data[header + 1]),
                         dst, LoadPort(data[header + 2], data[header + 3]), proto))
      else if proto == TCP then
        if header + TCP_HEADER > |data| then None
        else Some(IpInfo(src, LoadPort(data[header], data[header + 1]),
                         dst, LoadPort(data[header + 2], data[header + 3]), proto))
      else if proto == ICMP && header + ICMP_HEADER > |data| then None
      else Some(IpInfo(src, 0, dst, 0, proto))
  }

  // ---- createPacket ----

  const SOURCE_PORT: u16 := 3884

  function OctetsOf(ip: u32): Octets {
    [Octet(ip, 0), Octet(ip, 1), Octet(ip, 2), Octet(ip, 3)]
  }

  lemma AddressOfOctets(ip: u32)
    ensures Address(OctetsOf(ip)) == ip
  {
    var a, b := ip / 0x100, ip / 0x100 / 0x100;
    assert ip == a * 0x100 + Octet(ip, 3);
    assert a == b * 0x100 + Octet(ip, 2);
    assert b == b / 0x100 * 0x100 + Octet(ip, 1);
    assert b / 0x100 == Octet(ip, 0);
  }

  function Zeros(n: nat): (z: Bytes)
    ensures |z| == n && forall i :: 0 <= i < n ==> z[i] == 0
  {
    seq(n, _ => 0)
  }

  // A bare IPv4 header: version 4, five words, everything else zero but the protocol and addresses.
  function IpHeader(src: u32, dst: u32, proto: u8): (b: Bytes)
    ensures |b| == IP_HEADER
  {
    [0x45] + Zeros(8) + [proto] + Zeros(2) + OctetsOf(src) + OctetsOf(dst)
  }

  // The ports in network order; one byte more than the header needs.
  function Ports(src: u16, dst: u16, length: nat): (b: Bytes)
    requires length >= 4
    ensures |b| == length
  {
    [src / 0x100, src % 0x100, dst / 0x100, dst % 0x100] + Zeros(length - 4)
  }

  function CreatePacket(src: u32, dst: u32, proto: u8, port: int): Bytes {
    IpHeader(src, dst, proto) +
    if proto == UDP then Ports(SOURCE_PORT, port % TWO16, UDP_HEADER + 1)
    else if proto == TCP then Ports(SOURCE_PORT, port % TWO16, TCP_HEADER + 1)
    else if proto == ICMP then Zeros(ICMP_HEADER + 1)
    else Ports(SOURCE_PORT, port % TWO16, 9)
  }

  lemma HeaderReads(src: u32, dst: u32, proto: u8, payload: Bytes)
    ensures var data := IpHeader(src, dst, proto) + payload;
      && data[0] == 0x45 && data[9] == proto
      && Address(data[12..16]) == src && Address(data[16..20]) == dst
      && data[20..] == payload
  {
    hide OctetsOf, Address, Zeros;
    var data := IpHeader(src, dst, proto) + payload;
    AddressOfOctets(src);
    AddressOfOctets(dst);
    assert data[12..16] == OctetsOf(src) && data[16..20] == OctetsOf(dst);
  }

  lemma PortsRead(src: u16, dst: u16, length: nat)
    requires length >= 4
    ensures var b := Ports(src, dst, length);
      LoadPort(b[0], b[1]) == Ntohs(src) && LoadPort(b[2], b[3]) == Ntohs(dst)
  {}

  // The filter reads back from a test packet the addresses and protocol it was made with, and, for TCP
  // and UDP, both ports; for other protocols it sees no ports.
  lemma ParseCreated(src: u32, dst: u32, proto: u8, port: int)
    ensures ParsePacket(CreatePacket(src, dst, proto, port)) ==
      if proto == UDP || proto == TCP then Some(IpInfo(src, Ntohs(SOURCE_PORT), dst, Ntohs(port % TWO16), proto))
      else Some(IpInfo(src, 0, dst, 0, proto))
    ensures proto == UDP || proto == TCP ==>
      var parsed := ParsePacket(CreatePacket(src, dst, proto, port)).value;
      Ntohs(parsed.srcPort) == SOURCE_PORT && Ntohs(parsed.dstPort) == port % TWO16
  {
    NtohsTwice(SOURCE_PORT);
    NtohsTwice(port % TWO16);
    hide IpHeader, Ports, Address, Zeros, LoadPort, Ntohs;
    var data := CreatePacket(src, dst, proto, port);
    var payload := data[IP_HEADER..];
    assert data == IpHeader(src, dst, proto) + payload;
    HeaderReads(src, dst, proto, payload);
    assert forall i :: 0 <= i < |payload| ==> data[20 + i] == payload[i];
    if proto == UDP {
      PortsRead(SOURCE_PORT, port % TWO16, UDP_HEADER + 1);
    } else if proto == TCP {
      PortsRead(SOURCE_PORT, port % TWO16, TCP_HEADER + 1);
    }
  }

  // An IPv4 header of any length and contents, as section 3.1 of RFC 791 lays it out.
  function AnyHeader(words: nat, service: Bytes, proto: u8, checksum: Bytes,
                     src: u32, dst: u32, options: Bytes): (b: Bytes)
    requires 5 <= words < 16 && |service| == 8 && |checksum| == 2 && |options| == 4 * words - 20
    ensures |b| == 4 * words
  {
    [0x40 + words] + service + [proto] + checksum + OctetsOf(src) + OctetsOf(dst) + options
  }

  lemma AnyHeaderReads(words: nat, service: Bytes, proto: u8, checksum: Bytes, src: u32, dst: u32,
                       options: Bytes, rest: Bytes)
    requires 5 <= words < 16 && |service| == 8 && |checksum| == 2 && |options| == 4 * words - 20
    ensures var data := AnyHeader(words, service, proto, checksum, src, dst, options) + rest;
      && data[0] == 0x40 + words && data[9] == proto
      && Address(data[12..16]) == src && Address(data[16..20]) == dst
      && forall i :: 0 <= i < |rest| ==> data[4 * words + i] == rest[i]
  {
    hide OctetsOf, Address;
    AddressOfOctets(src);
    AddressOfOctets(dst);
    var data := AnyHeader(words, service, proto, checksum, src, dst, options) + rest;
    assert data[12..16] == OctetsOf(src) && data[16..20] == OctetsOf(dst);
  }

  // Two bytes, most significant first.
  function Big(hi: int, lo: int): int { 0x100 * hi + lo }

  // Behind a header of any length, TCP and UDP ports are read from the first four bytes of the payload,
  // most significant first; a payload shorter than the protocol's own header is refused.
  lemma ParseAnyHeader(words: nat, service: Bytes, proto: u8, checksum: Bytes, src: u32, dst: u32,
                       options: Bytes, rest: Bytes)
    requires 5 <= words < 16 && |service| == 8 && |checksum| == 2 && |options| == 4 * words - 20
    ensures var parsed := ParsePacket(AnyHeader(words, service, proto, checksum, src, dst, options) + rest);
      && (parsed.None? <==>
          (proto == 17 && |rest| < 8) || (proto == 6 && |rest| < 20) || (proto == 1 && |rest| < 8))
      && (parsed.Some? ==>
        && parsed.value.srcIp == src && parsed.value.dstIp == dst && parsed.value.proto == proto
        && Ntohs(parsed.value.srcPort) == (if proto == 17 || proto == 6 then Big(rest[0], rest[1]) else 0)
        && Ntohs(parsed.value.dstPort) == (if proto == 17 || proto == 6 then Big(rest[2], rest[3]) else 0))
  {
    AnyHeaderReads(words, service, proto, checksum, src, dst, options, rest);
    if |rest| >= 4 {
      PortsSwapped(rest);
    }
    hide AnyHeader, Address, Ntohs;
    assert Ntohs(0) == 0 by { SwappedBytes(0, 0); }
  }

  lemma PortsSwapped(rest: Bytes)
    requires |rest| >= 4
    ensures Ntohs(LoadPort(rest[0], rest[1])) == Big(rest[0], rest[1])
    ensures Ntohs(LoadPort(rest[2], rest[3])) == Big(rest[2], rest[3])
  {
    SwappedBytes(rest[1], rest[0]);
    SwappedBytes(rest[3], rest[2]);
  }

  // Everything else is refused: less than a header, another version, or a header longer than the packet.
  lemma RefusedHeaders(data: Bytes)
    requires |data| < 20 || data[0] < 0x40 || data[0] >= 0x50 || 4 * (data[0] - 0x40) > |data|
    ensures ParsePacket(data).None?
  {}

  lemma NtohsTwice(port: u16)
    ensures Ntohs(Ntohs(port)) == port
  {
    var hi, lo := port / 0x100, port % 0x100;
    assert port == 0x100 * hi + lo && 0 <= hi < 0x100;
    SwappedBytes(lo, hi);
    SwappedBytes(hi, lo);
  }

  lemma SwappedBytes(hi: int, lo: int)
    requires 0 <= hi < 0x100 && 0 <= lo < 0x100
    ensures Ntohs(0x100 * hi + lo) == 0x100 * lo + hi
  {
    DivisionIs(0x100 * hi + lo, 0x100, hi, lo);
  }

  // xdp_wag_firewall: what does not parse is dropped.
  method Firewall(maps: XdpMaps, data: Bytes, now: u64) returns (pass: bool)
    modifies maps`devices
    ensures match ParsePacket(data)
      case None => !pass && maps.devices == old(maps.devices)
      case Some(ip) =>
        && pass == Passes(old(maps.Snapshot()), ip, now)
        && maps.devices == DevicesAfter(old(maps.Snapshot()), ip, now)
  {
    match ParsePacket(data) {
      case None => pass := false;
      case Some(ip) => pass := maps.Conntrack(ip, now);
    }
  }

  // ---- Store keys of devices ----

  function DeviceKey(user: string, address: string): string {
    "devices" + ("-" + (user + ("-" + address)))
  }

  function DevicesPrefix(user: string): string {
    "devices" + ("-" + (user + "-"))
  }

  // The user named by a device key, as read back from a reference.
  function UserOfKey(key: string): Option<string> {
    var parts := Split(key, '-');
    if |parts| != 3 then None else Some(parts[1])
  }

  function Count(s: string, c: char): nat {
    if s == [] then 0 else (if s[0] == c then 1 else 0) + Count(s[1..], c)
  }

  lemma CountNone(s: string, c: char)
    ensures Count(s, c) == 0 <==> c !in s
  {}

  lemma CountJoined(a: string, b: string, c: char)
    ensures Count(a + b, c) == Count(a, c) + Count(b, c)
  {
    if a == [] {
      assert a + b == b;
    } else {
      assert (a + b)[1..] == a[1..] + b;
      CountJoined(a[1..], b, c);
    }
  }

  lemma {:induction false} PartsCount(s: string, sep: char)
    ensures |Split(s, sep)| == 1 + Count(s, sep)
    decreases |s|
  {
    var i := IndexOf(s, sep);
    if i == |s| {
      CountNone(s, sep);
    } else {
      PartsCount(s[i + 1..], sep);
      assert s == s[..i] + ([sep] + s[i + 1..]);
      CountJoined(s[..i], [sep] + s[i + 1..], sep);
      CountNone(s[..i], sep);
      assert ([sep] + s[i + 1..])[1..] == s[i + 1..];
    }
  }

  lemma KeyParts(user: string, address: string)
    ensures Split(DeviceKey(user, address), '-') == ["devices"] + Split(user + ("-" + address), '-')
  {
    var rest := user + ("-" + address);
    assert DeviceKey(user, address) == "devices" + ['-'] + rest;
    SplitAt("devices", '-', rest);
  }

  lemma RestParts(user: string, address: string)
    ensures |Split(user + ("-" + address), '-')| == 2 + Count(user, '-') + Count(address, '-')
    ensures '-' !in user ==> Split(user + ("-" + address), '-') == [user] + Split(address, '-')
  {
    hide Split;
    PartsCount(user + ("-" + address), '-');
    CountJoined(user, "-" + address, '-');
    assert ("-" + address)[1..] == address;
    if '-' !in user {
      assert user + ("-" + address) == user + ['-'] + address;
      SplitAt(user, '-', address);
    }
  }

  // A device key names its user exactly when neither the name nor the address has a dash in it.
  lemma KeyNamesUser(user: string, address: string)
    ensures UserOfKey(DeviceKey(user, address)).Some? <==> '-' !in user && '-' !in address
    ensures '-' !in user && '-' !in address ==> UserOfKey(DeviceKey(user, address)) == Some(user)
  {
    hide DeviceKey, Split, Count;
    KeyParts(user, address);
    RestParts(user, address);
    CountNone(user, '-');
    CountNone(address, '-');
    PartsCount(address, '-');
  }

  // For a dash-free name the prefix scan picks the devices of that user, and of any user whose name
  // begins with it and a dash; so of that user alone when no name has a dash.
  lemma PrefixPicksUser(user: string, other: string, address: string)
    requires '-' !in user
    ensures DevicesPrefix(user) <= DeviceKey(other, address) <==> other == user || user + "-" <= other
    ensures '-' !in other ==> (DevicesPrefix(user) <= DeviceKey(other, address) <==> other == user)
  {
    var prefix, key := DevicesPrefix(user), DeviceKey(other, address);
    var p, k := user + "-", other + ("-" + address);
    assert prefix == "devices-" + p && key == "devices-" + k;
    assert prefix <= key <==> p <= k by {
      if prefix <= key {
        assert key[8..] == k && prefix[8..] == p && key[..|prefix|][8..] == p;
      }
    }
    assert |other| < |user| ==> k[|other|] == '-' && p[|other|] == user[|other|] && user[|other|] in user;
    if p <= k {
      assert k[..|user|] == user;
    }
    if user + "-" <= other { assert other[|user|] == '-'; }
    if other == user { assert k[..|p|] == p; }
  }
}
