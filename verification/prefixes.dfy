// Route keys (an IPv4 prefix each) and longest-prefix lookup.
// Addresses are the 32-bit numbers whose most significant octet is written first.
// CIDR notation is section 3.1 of RFC 4632, longest match section 5.2.4.3 of RFC 1812.

module Prefixes {
  import opened Numbers
  import opened Options
  import opened Text

  datatype Key = Key(prefixlen: nat, ip: u32)

  // The number with its lowest bits cleared.
  function ClearLow(x: nat, bits: nat): (r: nat)
    ensures r <= x
  {
    if bits == 0 then x else 2 * ClearLow(x / 2, bits - 1)
  }

  // The address with its host bits cleared.
  function Network(ip: u32, prefixlen: nat): (n: u32)
    requires prefixlen <= 32
    ensures n <= ip
  {
    ClearLow(ip, 32 - prefixlen)
  }

  // A key as net.ParseCIDR and net.ParseIP produce it: no bits set below the prefix.
  predicate Canonical(k: Key) {
    k.prefixlen <= 32 && Network(k.ip, k.prefixlen) == k.ip
  }

  type RouteKey = k: Key | Canonical(k) witness Key(32, 0)

  predicate Covers(k: RouteKey, address: u32) {
    Network(address, k.prefixlen) == Network(k.ip, k.prefixlen)
  }

  lemma NetworkIsCanonical(address: u32, prefixlen: nat)
    requires prefixlen <= 32
    ensures Canonical(Key(prefixlen, Network(address, prefixlen)))
  {
    ClearedTwice(address, 32 - prefixlen);
  }

  lemma ClearedTwice(x: nat, bits: nat)
    ensures ClearLow(ClearLow(x, bits), bits) == ClearLow(x, bits)
  {
    if bits > 0 {
      ClearedTwice(x / 2, bits - 1);
      assert ClearLow(x, bits) / 2 == ClearLow(x / 2, bits - 1);
    }
  }

  // ---- What the mask computes ----

  function Pow2(n: nat): (p: nat)
    ensures p > 0
  {
    if n == 0 then 1 else 2 * Pow2(n - 1)
  }

  lemma {:induction false} ClearsExactly(x: nat, bits: nat)
    ensures ClearLow(x, bits) == x / Pow2(bits) * Pow2(bits)
  {
    if bits > 0 {
      var p := Pow2(bits - 1);
      ClearsExactly(x / 2, bits - 1);
      HalvesTwice(x, p);
      Doubled(x / 2 / p, p);
      assert Pow2(bits) == 2 * p;
    }
  }

  lemma Doubled(y: int, p: int)
    ensures 2 * (y * p) == y * (2 * p)
  {}

  lemma HalvesTwice(x: nat, p: nat)
    requires p > 0
    ensures x / 2 / p == x / (2 * p)
  {
    var q := x / 2 / p;
    assert x / 2 == q * p + x / 2 % p;
    assert x == 2 * (x / 2) + x % 2;
    DivisionIs(x, 2 * p, q, 2 * (x / 2 % p) + x % 2);
  }

  lemma DivisionIs(x: nat, d: nat, q: nat, r: nat)
    requires d > 0 && x == q * d + r && r < d
    ensures x / d == q
  {
    var q', r' := x / d, x % d;
    assert x == q' * d + r';
    assert (q - q') * d == q * d - q' * d;
    assert (q' - q) * d == q' * d - q * d;
    if q' < q {
      AtLeastOnce(q - q', d);
    } else if q < q' {
      AtLeastOnce(q' - q, d);
    }
  }

  lemma AtLeastOnce(n: nat, d: nat)
    requires n > 0
    ensures n * d >= d
  {
    assert n * d == (n - 1) * d + d;
  }

  lemma BlockOf(x: nat, p: nat, base: nat)
    requires p > 0 && base == base / p * p
    ensures x / p * p == base <==> base <= x < base + p
  {
    assert x == x / p * p + x % p;
    if base <= x < base + p {
      DivisionIs(x, p, base / p, x - base);
    }
  }

  // A key is canonical exactly when its address is a multiple of its block, and it covers exactly the
  // addresses of that block: for 10.0.1.0/24, the 256 addresses from 10.0.1.0.
  lemma CoversExactly(k: RouteKey, address: u32)
    ensures Covers(k, address) <==> k.ip <= address < k.ip + Pow2(32 - k.prefixlen)
  {
    var p := Pow2(32 - k.prefixlen);
    ClearsExactly(address, 32 - k.prefixlen);
    ClearsExactly(k.ip, 32 - k.prefixlen);
    hide ClearLow, Pow2;
    BlockOf(address, p, k.ip);
  }

  lemma CanonicalExactly(k: Key)
    ensures Canonical(k) <==> k.prefixlen <= 32 && k.ip % Pow2(32 - k.prefixlen) == 0
  {
    if k.prefixlen <= 32 {
      var p := Pow2(32 - k.prefixlen);
      ClearsExactly(k.ip, 32 - k.prefixlen);
      assert k.ip == k.ip / p * p + k.ip % p;
    }
  }

  // The trie's specification: of the keys covering the address, one no other is longer than.
  ghost predicate IsLongest(keys: set<RouteKey>, address: u32, k: RouteKey) {
    && k in keys && Covers(k, address)
    && forall other :: other in keys && Covers(other, address) ==> other.prefixlen <= k.prefixlen
  }

  // The probe of the address's own prefixes from the given length down.
  function LongestMatch(keys: set<RouteKey>, address: u32, length: nat): (r: Option<RouteKey>)
    requires length <= 32
    ensures r.Some? ==> r.value in keys && Covers(r.value, address) && r.value.prefixlen <= length
    ensures forall k :: k in keys && Covers(k, address) && k.prefixlen <= length ==>
      r.Some? && k.prefixlen <= r.value.prefixlen
  {
    NetworkIsCanonical(address, length);
    var probe: RouteKey := Key(length, Network(address, length));
    if probe in keys then Some(probe)
    else if length == 0 then None
    else LongestMatch(keys, address, length - 1)
  }

  function Lookup(keys: set<RouteKey>, address: u32): (r: Option<RouteKey>)
    ensures r.Some? ==> IsLongest(keys, address, r.value)
    ensures r.None? ==> forall k :: k in keys ==> !Covers(k, address)
  {
    LongestMatch(keys, address, 32)
  }

  // Two keys of one length that cover one address are the same key, so the longest match is unique
  // and the probe finds it exactly when some key covers the address.
  lemma LookupIsLongest(keys: set<RouteKey>, address: u32, k: RouteKey)
    ensures Lookup(keys, address) == Some(k) <==> IsLongest(keys, address, k)
  {
    if IsLongest(keys, address, k) {
      var found := Lookup(keys, address).value;
      assert found.prefixlen == k.prefixlen;
      assert found.ip == Network(address, k.prefixlen) == k.ip;
    }
  }

  // ---- Key.String, the name a route is filed under while rules are collected ----

  function Octet(ip: u32, i: nat): (o: u8)
    requires i < 4
  {
    (match i
     case 0 => ip / 0x100 / 0x100 / 0x100
     case 1 => ip / 0x100 / 0x100
     case 2 => ip / 0x100
     case _ => ip) % 0x100
  }

  function KeyString(k: Key): string {
    Show(Octet(k.ip, 0)) + "." + (Show(Octet(k.ip, 1)) + "." + (Show(Octet(k.ip, 2)) + "." +
    (Show(Octet(k.ip, 3)) + "/" + Show(k.prefixlen))))
  }

  lemma CutSame(a: string, b: string, sep: char, s: string, t: string)
    requires sep !in a && sep !in b && a + [sep] + s == b + [sep] + t
    ensures a == b && s == t
  {
    SplitAt(a, sep, s);
    SplitAt(b, sep, t);
    assert Split(a + [sep] + s, sep)[0] == a && Split(b + [sep] + t, sep)[0] == b;
    assert (a + [sep] + s)[|a| + 1..] == s && (b + [sep] + t)[|b| + 1..] == t;
  }

  lemma DigitsHaveNo(s: string, c: char)
    requires AllDigits(s) && !IsDigit(c)
    ensures c !in s
  {}

  lemma ShowInjective(m: nat, n: nat)
    requires Show(m) == Show(n)
    ensures m == n
  {}

  // Different prefixes have different names, so filing by name files by prefix.
  lemma KeyStringInjective(k: Key, j: Key)
    requires KeyString(k) == KeyString(j)
    ensures k == j
  {
    forall i, c: char | 0 <= i < 4 && !IsDigit(c)
      ensures c !in Show(Octet(k.ip, i)) && c !in Show(Octet(j.ip, i))
    {
      DigitsHaveNo(Show(Octet(k.ip, i)), c);
      DigitsHaveNo(Show(Octet(j.ip, i)), c);
    }
    var k3, j3 := Show(Octet(k.ip, 3)) + "/" + Show(k.prefixlen), Show(Octet(j.ip, 3)) + "/" + Show(j.prefixlen);
    var k2, j2 := Show(Octet(k.ip, 2)) + "." + k3, Show(Octet(j.ip, 2)) + "." + j3;
    var k1, j1 := Show(Octet(k.ip, 1)) + "." + k2, Show(Octet(j.ip, 1)) + "." + j2;
    CutSame(Show(Octet(k.ip, 0)), Show(Octet(j.ip, 0)), '.', k1, j1);
    CutSame(Show(Octet(k.ip, 1)), Show(Octet(j.ip, 1)), '.', k2, j2);
    CutSame(Show(Octet(k.ip, 2)), Show(Octet(j.ip, 2)), '.', k3, j3);
    CutSame(Show(Octet(k.ip, 3)), Show(Octet(j.ip, 3)), '/', Show(k.prefixlen), Show(j.prefixlen));
    ShowInjective(k.prefixlen, j.prefixlen);
    ShowInjective(Octet(k.ip, 0), Octet(j.ip, 0));
    ShowInjective(Octet(k.ip, 1), Octet(j.ip, 1));
    ShowInjective(Octet(k.ip, 2), Octet(j.ip, 2));
    ShowInjective(Octet(k.ip, 3), Octet(j.ip, 3));
    OctetsDetermine(k.ip, j.ip);
  }

  lemma OctetsDetermine(a: u32, b: u32)
    requires Octet(a, 0) == Octet(b, 0) && Octet(a, 1) == Octet(b, 1)
    requires Octet(a, 2) == Octet(b, 2) && Octet(a, 3) == Octet(b, 3)
    ensures a == b
  {
    assert a / 0x100 / 0x100 / 0x100 == b / 0x100 / 0x100 / 0x100;
    assert a / 0x100 / 0x100 == b / 0x100 / 0x100;
    assert a / 0x100 == b / 0x100;
  }
}
