// Policies, their flags and the test the packet filter applies to one of them.
// The record is four 16-bit words and is shared by the rule compiler and the filter.

module Numbers {
  type u8 = x: int | 0 <= x < 0x100
  type u16 = x: int | 0 <= x < 0x1_0000
  type u32 = x: int | 0 <= x < 0x1_0000_0000
  type u64 = x: int | 0 <= x < 0x1_0000_0000_0000_0000

  const TWO16 := 0x1_0000
  const TWO32 := 0x1_0000_0000
  const TWO64 := 0x1_0000_0000_0000_0000
  const MAX_U64 := 0xFFFF_FFFF_FFFF_FFFF
}

module Options {
  datatype Option<+T> = None | Some(value: T)
}

module Policies {
  import opened Numbers

  const MAX_POLICIES := 128

  const STOP: u16 := 0
  const ANY: u16 := 0
  const PUBLIC: u16 := 4
  const RANGE: u16 := 8
  const SINGLE: u16 := 16
  const DENY: u16 := 32

  const ICMP: u16 := 1
  const TCP: u16 := 6
  const UDP: u16 := 17

  datatype Policy = Policy(policyType: u16, proto: u16, lowerPort: u16, upperPort: u16)

  // The zero record: what an unused slot of a bucket holds.
  const EMPTY_SLOT := Policy(STOP, 0, 0, 0)

  // policy_type & flag, for a mask of one bit.
  predicate HasFlag(policyType: u16, flag: u16)
    requires flag > 0
  {
    (policyType / flag) % 2 == 1
  }

  predicate IsDeny(p: Policy) { HasFlag(p.policyType, DENY) }

  predicate IsPublic(p: Policy) { HasFlag(p.policyType, PUBLIC) }

  // A matching policy that is neither deny nor public demands a live session.
  predicate IsMfa(p: Policy) { !IsDeny(p) && !IsPublic(p) }

  predicate Matches(p: Policy, proto: int, port: int) {
    && (p.proto == ANY || p.proto == proto)
    && (|| (HasFlag(p.policyType, SINGLE) && (p.lowerPort == ANY || p.lowerPort == port))
        || (HasFlag(p.policyType, RANGE) && p.lowerPort <= port && p.upperPort >= port))
  }
}
