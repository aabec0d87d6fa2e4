// The rule language: an address and a list of services, read from text and turned into policies.

module Rules {
  import opened Numbers
  import opened Options
  import opened Policies
  import opened Prefixes
  import opened Text

  // ---- What a rule says ----

  datatype Protocol = AnyProtocol | Tcp | Udp

  // The ports are the numbers written in the rule, before they are stored in 16 bits.
  datatype Service =
    | Everything
    | IcmpService
    | Port(port: nat, protocol: Protocol)
    | Ports(lower: nat, upper: nat, protocol: Protocol)

  datatype Effect = Mfa | Allow | Deny

  datatype SourceRule = SourceRule(effect: Effect, key: RouteKey, services: seq<Service>)

  predicate ProtocolAdmits(p: Protocol, proto: int) {
    match p
    case AnyProtocol => true
    case Tcp => proto == TCP
    case Udp => proto == UDP
  }

  // The direct reading. A port written 0 stands for any port.
  predicate Admits(s: Service, proto: int, port: int) {
    match s
    case Everything => true
    case IcmpService => proto == ICMP
    case Port(n, p) => ProtocolAdmits(p, proto) && (n == 0 || n == port)
    case Ports(lower, upper, p) => ProtocolAdmits(p, proto) && lower <= port <= upper
  }

  predicate Ordered(s: Service) {
    s.Ports? ==> s.lower <= s.upper
  }

  // ---- Reading the text ----

  datatype RuleError =
    | NoAddress
    | BadAddress(address: string)
    | MalformedService(service: string)
    | BadPort(text: string)
    | LowerAboveUpper(lower: string, upper: string)
    | UnknownService(name: string)
    | TooManyPolicies

  datatype Result<+T> = Ok(value: T) | Err(error: RuleError)

  function ReadProtocol(name: string): Option<Protocol> {
    if name == "any" then Some(AnyProtocol)
    else if name == "tcp" then Some(Tcp)
    else if name == "udp" then Some(Udp)
    else None
  }

  function ReadSinglePort(port: string, proto: string): Result<Service>
    requires '-' !in port
  {
    match Atoi(port)
    case None => Err(BadPort(port))
    case Some(n) =>
      match ReadProtocol(proto)
      case None => Err(UnknownService(port + "/" + proto))
      case Some(p) => Ok(Port(n, p))
  }

  function ReadPortRange(lower: string, upper: string, proto: string): Result<Service>
    requires '-' !in lower && '-' !in upper
  {
    match Atoi(lower)
    case None => Err(BadPort(lower))
    case Some(l) =>
      match Atoi(upper)
      case None => Err(BadPort(upper))
      case Some(u) =>
        if l > u then Err(LowerAboveUpper(lower, upper))
        else
          match ReadProtocol(proto)
          case None => Err(UnknownService(proto))
          case Some(p) => Ok(Ports(l, u, p))
  }

  function ReadService(service: string): (r: Result<Service>)
    ensures r.Ok? ==> Ordered(r.value)
  {
    var parts := Split(service, '/');
    if |parts| == 1 then
      if parts[0] == "icmp" then Ok(IcmpService) else Err(MalformedService(service))
    else
      var portRange := Split(parts[0], '-');
      var proto := ToLower(parts[1]);
      if |portRange| == 1 then
        assert parts[0] == portRange[0];
        ReadSinglePort(parts[0], proto)
      else ReadPortRange(portRange[0], portRange[1], proto)
  }

  function ReadServices(fields: seq<string>): (r: Result<seq<Service>>)
    ensures r.Ok? ==> |r.value| == |fields| && forall s :: s in r.value ==> Ordered(s)
  {
    if fields == [] then Ok([])
    else
      match ReadService(fields[0])
      case Err(e) => Err(e)
      case Ok(s) =>
        match ReadServices(fields[1..])
        case Err(e) => Err(e)
        case Ok(rest) => Ok([s] + rest)
  }

  // What an address stands for: a literal address or prefix, or a name that has one address.
  type Resolver = string -> Option<RouteKey>

  function ReadRule(resolve: Resolver, effect: Effect, text: string): (r: Result<SourceRule>)
    ensures r.Ok? ==> r.value.effect == effect && forall s :: s in r.value.services ==> Ordered(s)
  {
    var fields := Fields(text);
    if |fields| < 1 then Err(NoAddress)
    else
      match resolve(fields[0])
      case None => Err(BadAddress(fields[0]))
      case Some(key) =>
        if |fields| == 1 then Ok(SourceRule(effect, key, [Everything]))
        else
          match ReadServices(fields[1..])
          case Err(e) => Err(e)
          case Ok(services) => Ok(SourceRule(effect, key, services))
  }

  // ---- Writing a rule, and reading it back ----

  function WriteProtocol(p: Protocol): string {
    match p
    case AnyProtocol => "any"
    case Tcp => "tcp"
    case Udp => "udp"
  }

  predicate Writable(s: Service) {
    match s
    case Everything => false
    case IcmpService => true
    case Port(n, _) => n <= MAX_INT
    case Ports(lower, upper, _) => lower <= upper <= MAX_INT
  }

  function WriteService(s: Service): string
    requires Writable(s)
  {
    match s
    case IcmpService => "icmp"
    case Port(n, p) => Show(n) + "/" + WriteProtocol(p)
    case Ports(lower, upper, p) => Show(lower) + "-" + Show(upper) + "/" + WriteProtocol(p)
  }

  // Every service the documentation describes reads back as itself from its written form.
  lemma ReadWrittenService(s: Service)
    requires Writable(s)
    ensures ReadService(WriteService(s)) == Ok(s)
  {
    match s
    case IcmpService => SplitNone("icmp", '/');
    case Port(n, p) => ReadWrittenPort(n, p);
    case Ports(lower, upper, p) => ReadWrittenPorts(lower, upper, p);
  }

  lemma ReadWrittenPort(n: nat, p: Protocol)
    requires n <= MAX_INT
    ensures ReadService(Show(n) + "/" + WriteProtocol(p)) == Ok(Port(n, p))
  {
    var s := Show(n) + "/" + WriteProtocol(p);
    assert Split(s, '/') == [Show(n), WriteProtocol(p)] by {
      DigitsHaveNo(Show(n), '/');
      ReadWrittenProtocol(p);
      SplitAt(Show(n), '/', WriteProtocol(p));
    }
    DigitsHaveNo(Show(n), '-');
    AtoiOfShow(n);
    ReadWrittenProtocol(p);
  }

  lemma ReadWrittenPorts(lower: nat, upper: nat, p: Protocol)
    requires lower <= upper <= MAX_INT
    ensures ReadService(Show(lower) + "-" + Show(upper) + "/" + WriteProtocol(p)) == Ok(Ports(lower, upper, p))
  {
    var range := Show(lower) + "-" + Show(upper);
    assert Split(range + "/" + WriteProtocol(p), '/') == [range, WriteProtocol(p)] by {
      DigitsHaveNo(Show(lower), '/');
      DigitsHaveNo(Show(upper), '/');
      ReadWrittenProtocol(p);
      SplitAt(range, '/', WriteProtocol(p));
    }
    assert Split(range, '-') == [Show(lower), Show(upper)] by {
      DigitsHaveNo(Show(lower), '-');
      DigitsHaveNo(Show(upper), '-');
      SplitAt(Show(lower), '-', Show(upper));
    }
    AtoiOfShow(lower);
    AtoiOfShow(upper);
    ReadWrittenProtocol(p);
  }

  lemma ReadWrittenProtocol(p: Protocol)
    ensures '/' !in WriteProtocol(p)
    ensures ReadProtocol(ToLower(WriteProtocol(p))) == Some(p)
  {
    assert ToLower(WriteProtocol(p)) == WriteProtocol(p);
  }

  function WriteRule(address: string, services: seq<Service>): string
    requires forall s :: s in services ==> Writable(s)
  {
    Join([address] + WriteServices(services))
  }

  function WriteServices(services: seq<Service>): (r: seq<string>)
    requires forall s :: s in services ==> Writable(s)
    ensures |r| == |services|
  {
    if services == [] then [] else [WriteService(services[0])] + WriteServices(services[1..])
  }

  lemma {:induction false} ReadWrittenServices(services: seq<Service>)
    requires forall s :: s in services ==> Writable(s)
    ensures forall w :: w in WriteServices(services) ==> Word(w)
    ensures ReadServices(WriteServices(services)) == Ok(services)
  {
    if services != [] {
      ReadWrittenService(services[0]);
      WrittenServiceIsWord(services[0]);
      ReadWrittenServices(services[1..]);
      var w := WriteServices(services);
      assert w[0] == WriteService(services[0]) && w[1..] == WriteServices(services[1..]);
      assert services == [services[0]] + services[1..];
    }
  }

  lemma WrittenServiceIsWord(s: Service)
    requires Writable(s)
    ensures Word(WriteService(s))
  {
    hide Show;
    match s
    case IcmpService =>
    case Port(n, p) => NumberHasNoSpace(n);
    case Ports(lower, upper, p) => NumberHasNoSpace(lower); NumberHasNoSpace(upper);
  }

  lemma NumberHasNoSpace(n: nat)
    ensures forall c :: c in Show(n) ==> !IsSpace(c)
  {
    forall c | c in Show(n) ensures !IsSpace(c) { assert IsDigit(c); }
  }

  // ---- What is refused ----

  predicate PortsAccepted(ports: string) {
    var bounds := Split(ports, '-');
    if |bounds| == 1 then Atoi(ports).Some?
    else Atoi(bounds[0]).Some? && Atoi(bounds[1]).Some? && Atoi(bounds[0]).value <= Atoi(bounds[1]).value
  }

  // Without a slash only icmp is a service. With one, the part after it must be any, tcp or udp, in
  // whatever case, and the part before it a number or two in order.
  lemma AcceptedExactly(ports: string, protocol: string)
    requires '/' !in ports && '/' !in protocol
    ensures ReadService(ports).Ok? <==> ports == "icmp"
    ensures ReadService(ports + "/" + protocol).Ok? <==>
      PortsAccepted(ports) && ToLower(protocol) in ["any", "tcp", "udp"]
  {
    SplitNone(ports, '/');
    SplitTwo(ports, protocol);
    hide ToLower, Atoi, Split;
    var bounds, lowered := Split(ports, '-'), ToLower(protocol);
    if |bounds| == 1 {
      assert ReadService(ports + "/" + protocol) == ReadSinglePort(ports, lowered);
    } else {
      assert ReadService(ports + "/" + protocol) == ReadPortRange(bounds[0], bounds[1], lowered);
    }
  }

  lemma SplitTwo(ports: string, protocol: string)
    requires '/' !in ports && '/' !in protocol
    ensures Split(ports + "/" + protocol, '/') == [ports, protocol]
  {
    assert ports + "/" + protocol == ports + ['/'] + protocol;
    SplitAt(ports, '/', protocol);
    SplitNone(protocol, '/');
  }

  // The case of the protocol does not matter.
  lemma CaseDoesNotMatter(ports: string, protocol: string, other: string)
    requires '/' !in ports && '/' !in protocol && '/' !in other && ToLower(protocol) == ToLower(other)
    ensures ReadService(ports + "/" + protocol) == ReadService(ports + "/" + other)
  {
    SplitTwo(ports, protocol);
    SplitTwo(ports, other);
    hide ToLower, Atoi, Split;
  }

  lemma LowerCase()
    ensures ToLower("TCP") == "tcp" && ToLower("Udp") == "udp" && ToLower("ANY") == "any" && ToLower("sctp") == "sctp"
  {
    assert ToLower("TCP") == ['t', 'c', 'p'] && ToLower("Udp") == ['u', 'd', 'p'];
    assert ToLower("ANY") == ['a', 'n', 'y'] && ToLower("sctp") == ['s', 'c', 't', 'p'];
  }

  // A rule written as an address and services reads back as those services on that address;
  // an address alone means everything.
  lemma ReadWrittenRule(resolve: Resolver, effect: Effect, address: string, services: seq<Service>)
    requires Word(address) && forall s :: s in services ==> Writable(s)
    ensures ReadRule(resolve, effect, WriteRule(address, services)) ==
      match resolve(address)
      case None => Err(BadAddress(address))
      case Some(key) => Ok(SourceRule(effect, key, if services == [] then [Everything] else services))
  {
    ReadWrittenServices(services);
    var words := [address] + WriteServices(services);
    FieldsOfJoin(words);
    assert words[0] == address && words[1..] == WriteServices(services);
  }

  // ---- Services as policies: the numbers go into 16-bit fields ----

  function ProtocolNumber(p: Protocol): u16 {
    match p
    case AnyProtocol => ANY
    case Tcp => TCP
    case Udp => UDP
  }

  // The restriction flag or-ed into every policy of a rule. It shares no bit with RANGE or SINGLE.
  function Restriction(e: Effect): u16 {
    match e
    case Mfa => 0
    case Allow => PUBLIC
    case Deny => DENY
  }

  function ToPolicy(e: Effect, s: Service): Policy {
    match s
    case Everything => Policy(Restriction(e) + SINGLE, ANY, ANY, 0)
    case IcmpService => Policy(Restriction(e) + SINGLE, ICMP, 0, 0)
    case Port(n, p) => Policy(Restriction(e) + SINGLE, ProtocolNumber(p), n % TWO16, 0)
    case Ports(lower, upper, p) =>
      Policy(Restriction(e) + RANGE, ProtocolNumber(p), lower % TWO16, upper % TWO16)
  }

  function ToPolicies(r: SourceRule): (ps: seq<Policy>)
    ensures |ps| == |r.services|
    ensures forall i :: 0 <= i < |ps| ==> ps[i] == ToPolicy(r.effect, r.services[i])
  {
    seq(|r.services|, i requires 0 <= i < |r.services| => ToPolicy(r.effect, r.services[i]))
  }

  lemma PolicyFlags(e: Effect, s: Service)
    ensures var p := ToPolicy(e, s);
      && p.policyType != STOP
      && (IsDeny(p) <==> e == Deny)
      && (IsMfa(p) <==> e == Mfa)
      && (HasFlag(p.policyType, RANGE) <==> s.Ports?)
      && (HasFlag(p.policyType, SINGLE) <==> !s.Ports?)
  {}

  // Which written ports survive storage: up to 65535; or a range that still ends at the last port;
  // or a range beyond the last port that becomes empty when cut to 16 bits.
  predicate Storable(s: Service) {
    match s
    case Everything => true
    case IcmpService => true
    case Port(n, _) => n < TWO16
    case Ports(lower, upper, _) =>
      || upper < TWO16
      || (lower < TWO16 && upper % TWO16 == TWO16 - 1)
      || (lower >= TWO16 && lower % TWO16 > upper % TWO16)
  }

  ghost predicate SameMeaning(e: Effect, s: Service) {
    forall proto: u8, port: u16 :: Matches(ToPolicy(e, s), proto, port) <==> Admits(s, proto, port)
  }

  // A policy matches the packets its service admits exactly when its ports are storable.
  lemma StorableExactly(e: Effect, s: Service)
    requires Ordered(s)
    ensures SameMeaning(e, s) <==> Storable(s)
  {
    PolicyFlags(e, s);
    if !Storable(s) {
      var proto: u8 := if s.protocol.AnyProtocol? then TCP else ProtocolNumber(s.protocol);
      assert ProtocolAdmits(s.protocol, proto);
      var port: u16 := match s
        case Port(n, _) => n % TWO16
        case Ports(lower, upper, _) => if lower >= TWO16 then lower % TWO16 else TWO16 - 1;
      assert Matches(ToPolicy(e, s), proto, port) != Admits(s, proto, port);
    }
  }

  // A port number that is a multiple of 65536 is stored as 0, so the policy matches every port of
  // its protocol; 65536 is the first.
  lemma WrappedPortOpensEverything(e: Effect, n: nat, p: Protocol, proto: u8, port: u16)
    requires n > 0 && n % TWO16 == 0 && ProtocolAdmits(p, proto)
    ensures Matches(ToPolicy(e, Port(n, p)), proto, port) && !Admits(Port(n, p), proto, port)
  {
    PolicyFlags(e, Port(n, p));
  }
}
