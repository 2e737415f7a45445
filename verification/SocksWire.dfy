/** What a SOCKS client may ask for and how it is written on the wire: internal/socks/socks.go,
    sections 3, 4 and 6 of RFC 1928, section 2 of RFC 1929, and the SOCKS4a convention. */
module SocksWire {
  import opened Prelude

  /** A destination host as net.ParseIP sees it; an IPv4-mapped IPv6 address counts as IPv4. */
  datatype Host =
    | IPv4(address: Bytes)
    | IPv6(address: Bytes)
    | Name(text: Bytes)
  {
    ghost predicate Valid() {
      match this
      case IPv4(a) => |a| == 4
      case IPv6(a) => |a| == 16
      case Name(_) => true
    }
  }

  datatype Credentials = Credentials(enabled: bool, username: Bytes, password: Bytes)

  datatype Failure = Unsupported | Invalid | Broken | Closed | Refused

  /** The checks that DialContext makes before it connects; None means that it goes on. */
  function DialCheck(v4: bool, host: Host, port: int, credentials: Credentials): Option<Failure> {
    if host == Name([]) || port < 1 || port > 65535 then Some(Invalid)
    else if host.Name? && (0 in host.text || |host.text| > 255) then Some(Unsupported)
    else if v4 && host.IPv6? then Some(Unsupported)
    else if v4 && credentials.enabled && credentials.password != [] then Some(Invalid)
    else None
  }

  /** An address that SOCKS4a servers read as "a hostname follows". */
  predicate Reserved(a: Bytes)
    requires |a| == 4
  {
    a[0] == 0 && a[1] == 0 && a[2] == 0 && a[3] != 0
  }

  /** The checks of connect4. */
  function Check4(host: Host, username: Bytes): Option<Failure>
    requires host.Valid()
  {
    if |username| > 255 || 0 in username then Some(Invalid)
    else match host
      case IPv6(_) => Some(Unsupported)
      case IPv4(a) => if Reserved(a) then Some(Unsupported) else None
      case Name(text) => if |text| == 0 || |text| > 255 then Some(Unsupported) else None
  }

  /** The check of connect5. */
  function Check5(credentials: Credentials): Option<Failure> {
    if credentials.enabled
       && (|credentials.username| == 0 || |credentials.username| > 255
           || |credentials.password| == 0 || |credentials.password| > 255)
    then Some(Invalid) else None
  }

  /** The conversion byte(n), which keeps the low eight bits. */
  function Low(n: nat): byte {
    (n % 256) as byte
  }

  /** A uint16 in network order. */
  function Port(port: nat): Bytes {
    [Low(port / 256), Low(port)]
  }

  /** The number that two bytes in network order stand for. */
  function Uint16(b: Bytes): nat
    requires |b| == 2
  {
    b[0] as nat * 256 + b[1] as nat
  }

  lemma PortRoundTrip(port: nat)
    requires port <= 65535
    ensures Uint16(Port(port)) == port
  {
  }

  // ----- requests -----

  const PLACEHOLDER: Bytes := [0, 0, 0, 1]

  function Request4(host: Host, port: nat, username: Bytes): Bytes {
    [4, 1] + Port(port) + (if host.IPv4? then host.address else PLACEHOLDER)
    + username + [0] + (if host.Name? then host.text + [0] else [])
  }

  function Method(credentials: Credentials): byte {
    if credentials.enabled then 2 else 0
  }

  function Greeting(credentials: Credentials): Bytes {
    [5, 1, Method(credentials)]
  }

  function Auth(credentials: Credentials): Bytes {
    [1, Low(|credentials.username|)] + credentials.username
    + [Low(|credentials.password|)] + credentials.password
  }

  function Request5(host: Host, port: nat): Bytes {
    [5, 1, 0]
    + (match host
       case IPv4(a) => [1] + a
       case IPv6(a) => [4] + a
       case Name(text) => [3, Low(|text|)] + text)
    + Port(port)
  }

  // ----- the server's ear -----

  /** What a server has understood so far. */
  datatype Heard = Heard(username: Bytes, password: Bytes, host: Host, port: nat)

  const NOTHING := Heard([], [], Name([]), 0)

  /** The parts of a request, in the order a server reads them. */
  datatype Part =
    | Head4 | UserId(named: bool) | Domain
    | Hello | UserLength | User(n: nat) | PassLength | Pass(n: nat)
    | Head5 | NameLength | Addr4 | Addr6 | Text(n: nat) | Port5
    | Answer(about: nat)   // an answer is due; for a greeting, about this method
    | Confused

  datatype Ear = Ear(part: Part, buf: Bytes, heard: Heard)

  /** How many bytes make up a part of fixed length. */
  function Length(part: Part): nat {
    match part
    case Head4 => 8
    case Hello => 3
    case UserLength => 2
    case User(n) => n
    case PassLength => 1
    case Pass(n) => n
    case Head5 => 4
    case NameLength => 1
    case Addr4 => 4
    case Addr6 => 16
    case Text(n) => n
    case Port5 => 2
    case _ => 0
  }

  predicate Listening(e: Ear) {
    !e.part.Answer? && !e.part.Confused?
  }

  /** A part that has been read in full, with its bytes. Parts of length 0 are skipped. */
  function Understand(part: Part, b: Bytes, h: Heard): Ear
    requires |b| == Length(part)
  {
    match part
    case Head4 =>
      if b[0] != 4 || b[1] != 1 then Ear(Confused, [], h)
      else Ear(UserId(Reserved(b[4..])), [], h.(host := IPv4(b[4..]), port := Uint16(b[2..4])))
    case Hello =>
      if b[0] != 5 || b[1] != 1 || (b[2] != 0 && b[2] != 2) then Ear(Confused, [], h)
      else Ear(Answer(b[2] as nat), [], h)
    case UserLength =>
      if b[0] != 1 then Ear(Confused, [], h)
      else if b[1] == 0 then Ear(PassLength, [], h.(username := [])) else Ear(User(b[1] as nat), [], h)
    case User(_) => Ear(PassLength, [], h.(username := b))
    case PassLength =>
      if b[0] == 0 then Ear(Answer(0), [], h.(password := [])) else Ear(Pass(b[0] as nat), [], h)
    case Pass(_) => Ear(Answer(0), [], h.(password := b))
    case Head5 =>
      if b[0] != 5 || b[1] != 1 || b[2] != 0 then Ear(Confused, [], h)
      else if b[3] == 1 then Ear(Addr4, [], h)
      else if b[3] == 4 then Ear(Addr6, [], h)
      else if b[3] == 3 then Ear(NameLength, [], h)
      else Ear(Confused, [], h)
    case NameLength =>
      if b[0] == 0 then Ear(Port5, [], h.(host := Name([]))) else Ear(Text(b[0] as nat), [], h)
    case Addr4 => Ear(Port5, [], h.(host := IPv4(b)))
    case Addr6 => Ear(Port5, [], h.(host := IPv6(b)))
    case Text(_) => Ear(Port5, [], h.(host := Name(b)))
    case Port5 => Ear(Answer(0), [], h.(port := Uint16(b)))
    case _ => Ear(Confused, [], h)
  }

  /** One byte more. USERID and SOCKS4a hostname end with NUL; every other part has a length. */
  function Hear(e: Ear, b: byte): Ear
    requires Listening(e)
  {
    if e.part.UserId? then
      if b != 0 then e.(buf := e.buf + [b])
      else if e.part.named then Ear(Domain, [], e.heard.(username := e.buf))
      else Ear(Answer(0), [], e.heard.(username := e.buf))
    else if e.part.Domain? then
      if b != 0 then e.(buf := e.buf + [b]) else Ear(Answer(0), [], e.heard.(host := Name(e.buf)))
    else if |e.buf| + 1 == Length(e.part) then Understand(e.part, e.buf + [b], e.heard)
    else e.(buf := e.buf + [b])
  }

  /** Reads until an answer is due or the bytes run out: the ear and the bytes not read. */
  function Listen(e: Ear, stream: Bytes): (Ear, Bytes)
    decreases |stream|
  {
    if !Listening(e) || stream == [] then (e, stream) else Listen(Hear(e, stream[0]), stream[1..])
  }

  lemma {:induction false} ListenBlock(e: Ear, b: Bytes, rest: Bytes)
    requires Listening(e) && !e.part.UserId? && !e.part.Domain?
    requires b != [] && |e.buf| + |b| == Length(e.part)
    ensures Listen(e, b + rest) == Listen(Understand(e.part, e.buf + b, e.heard), rest)
    decreases |b|
  {
    assert (b + rest)[1..] == b[1..] + rest;
    if |b| == 1 {
      assert b == [b[0]];
      assert b[1..] + rest == rest;
    } else {
      assert e.buf + [b[0]] + b[1..] == e.buf + b;
      ListenBlock(Hear(e, b[0]), b[1..], rest);
    }
  }

  /** A whole part, from its first byte. */
  lemma ListenPart(part: Part, h: Heard, b: Bytes, rest: Bytes)
    requires b != [] && |b| == Length(part)
    ensures Listen(Ear(part, [], h), b + rest) == Listen(Understand(part, b, h), rest)
  {
    assert [] + b == b;
    ListenBlock(Ear(part, [], h), b, rest);
  }

  lemma {:induction false} ListenToNul(e: Ear, b: Bytes, rest: Bytes)
    requires (e.part.UserId? || e.part.Domain?) && 0 !in b
    ensures Listen(e, b + [0] + rest) == Listen(Hear(e.(buf := e.buf + b), 0), rest)
    decreases |b|
  {
    var s := b + [0] + rest;
    if b == [] {
      assert s[1..] == rest && e.buf + b == e.buf;
    } else {
      assert s[1..] == b[1..] + [0] + rest;
      assert e.buf + [b[0]] + b[1..] == e.buf + b;
      ListenToNul(Hear(e, b[0]), b[1..], rest);
    }
  }

  // ----- the server hears what the client was given -----

  /** The destination that a SOCKS4 or SOCKS5 client accepts and what a server should make of it. */
  ghost predicate Sendable4(host: Host, port: nat, username: Bytes) {
    host.Valid() && 1 <= port <= 65535 && (host.Name? ==> 0 !in host.text) && Check4(host, username).None?
  }

  lemma Head4Heard(host: Host, port: nat, rest: Bytes)
    requires host.Valid() && !host.IPv6? && port <= 65535
    ensures var a := if host.IPv4? then host.address else PLACEHOLDER;
            Listen(Ear(Head4, [], NOTHING), [4, 1] + Port(port) + a + rest)
            == Listen(Ear(UserId(Reserved(a)), [], NOTHING.(host := IPv4(a), port := port)), rest)
  {
    var a := if host.IPv4? then host.address else PLACEHOLDER;
    var b := [4, 1] + Port(port) + a;
    assert b[2..4] == Port(port) && b[4..] == a;
    PortRoundTrip(port);
    ListenPart(Head4, NOTHING, b, rest);
  }

  /** Main result: a SOCKS4 or SOCKS4a request that the client accepts reaches the server intact and
      delimits itself: the server has read exactly its bytes when it answers. An IPv4 literal is
      never taken for a hostname, nor a hostname for an address. */
  lemma Request4Heard(host: Host, port: nat, username: Bytes, rest: Bytes)
    requires Sendable4(host, port, username)
    ensures Listen(Ear(Head4, [], NOTHING), Request4(host, port, username) + rest)
            == (Ear(Answer(0), [], Heard(username, [], host, port)), rest)
  {
    var a := if host.IPv4? then host.address else PLACEHOLDER;
    var tail := if host.Name? then host.text + [0] + rest else rest;
    var h := NOTHING.(host := IPv4(a), port := port);
    assert Request4(host, port, username) + rest == [4, 1] + Port(port) + a + (username + [0] + tail);
    Head4Heard(host, port, username + [0] + tail);
    ListenToNul(Ear(UserId(Reserved(a)), [], h), username, tail);
    assert [] + username == username;
    if host.Name? {
      ListenToNul(Ear(Domain, [], h.(username := username)), host.text, rest);
      assert [] + host.text == host.text;
    }
  }

  /** The encoding is injective and self-delimiting: no request is a prefix of another. */
  lemma Request4Unambiguous(h: Host, p: nat, u: Bytes, r: Bytes, h': Host, p': nat, u': Bytes, r': Bytes)
    requires Sendable4(h, p, u) && Sendable4(h', p', u')
    requires Request4(h, p, u) + r == Request4(h', p', u') + r'
    ensures h == h' && p == p' && u == u' && r == r'
  {
    Request4Heard(h, p, u, r);
    Request4Heard(h', p', u', r');
  }

  /** The refusal of reserved addresses is exactly what keeps literals and hostnames apart: written
      without it, a literal is heard as itself if and only if it is not reserved. */
  lemma ReservedRefusalIsNeeded(a: Bytes, port: nat, username: Bytes)
    requires |a| == 4 && 1 <= port <= 65535 && 0 !in username
    ensures Listen(Ear(Head4, [], NOTHING), Request4(IPv4(a), port, username))
            == (Ear(Answer(0), [], Heard(username, [], IPv4(a), port)), [])
            <==> !Reserved(a)
  {
    var h := NOTHING.(host := IPv4(a), port := port);
    assert Request4(IPv4(a), port, username) == [4, 1] + Port(port) + a + (username + [0] + []);
    Head4Heard(IPv4(a), port, username + [0] + []);
    ListenToNul(Ear(UserId(Reserved(a)), [], h), username, []);
    assert [] + username == username;
  }

  /** A SOCKS5 greeting names one method. */
  lemma GreetingHeard(c: Credentials, rest: Bytes)
    ensures Listen(Ear(Hello, [], NOTHING), Greeting(c) + rest)
            == (Ear(Answer(if c.enabled then 2 else 0), [], NOTHING), rest)
  {
    ListenPart(Hello, NOTHING, Greeting(c), rest);
  }

  /** The username/password request reaches the server intact; neither length is truncated. */
  lemma AuthHeard(c: Credentials, h: Heard, rest: Bytes)
    requires c.enabled && Check5(c).None?
    ensures Listen(Ear(UserLength, [], h), Auth(c) + rest)
            == (Ear(Answer(0), [], h.(username := c.username, password := c.password)), rest)
  {
    AuthSplit(c, rest);
    ListenPart(UserLength, h, [1, Low(|c.username|)], c.username + ([Low(|c.password|)] + (c.password + rest)));
    ListenPart(User(|c.username|), h, c.username, [Low(|c.password|)] + (c.password + rest));
    PasswordHeard(c, h.(username := c.username), rest);
  }

  lemma PasswordHeard(c: Credentials, h: Heard, rest: Bytes)
    requires c.enabled && Check5(c).None?
    ensures Listen(Ear(PassLength, [], h), [Low(|c.password|)] + (c.password + rest))
            == (Ear(Answer(0), [], h.(password := c.password)), rest)
  {
    ListenPart(PassLength, h, [Low(|c.password|)], c.password + rest);
    ListenPart(Pass(|c.password|), h, c.password, rest);
  }

  lemma AuthSplit(c: Credentials, rest: Bytes)
    ensures Auth(c) + rest == [1, Low(|c.username|)] + (c.username + ([Low(|c.password|)] + (c.password + rest)))
  {
  }

  ghost predicate Sendable5(host: Host, port: nat) {
    host.Valid() && 1 <= port <= 65535 && (host.Name? ==> 1 <= |host.text| <= 255)
  }

  /** Main result: a SOCKS5 request that the client accepts reaches the server intact and delimits
      itself; neither the name's length byte nor the port is truncated. */
  lemma Request5Heard(host: Host, port: nat, h: Heard, rest: Bytes)
    requires Sendable5(host, port)
    ensures Listen(Ear(Head5, [], h), Request5(host, port) + rest)
            == (Ear(Answer(0), [], h.(host := host, port := port)), rest)
  {
    var tail := Port(port) + rest;
    Request5Split(host, port, rest);
    if host.Name? {
      NameHeard(host.text, h, tail);
    } else {
      ListenPart(Head5, h, [5, 1, 0, if host.IPv4? then 1 else 4], host.address + tail);
      ListenPart(if host.IPv4? then Addr4 else Addr6, h, host.address, tail);
    }
    ListenPart(Port5, h.(host := host), Port(port), rest);
    PortRoundTrip(port);
  }

  lemma NameHeard(text: Bytes, h: Heard, tail: Bytes)
    requires 1 <= |text| <= 255
    ensures Listen(Ear(Head5, [], h), [5, 1, 0, 3] + ([Low(|text|)] + (text + tail)))
            == Listen(Ear(Port5, [], h.(host := Name(text))), tail)
  {
    ListenPart(Head5, h, [5, 1, 0, 3], [Low(|text|)] + (text + tail));
    ListenPart(NameLength, h, [Low(|text|)], text + tail);
    ListenPart(Text(|text|), h, text, tail);
  }

  lemma Request5Split(host: Host, port: nat, rest: Bytes)
    ensures Request5(host, port) + rest ==
            match host
            case IPv4(a) => [5, 1, 0, 1] + (a + (Port(port) + rest))
            case IPv6(a) => [5, 1, 0, 4] + (a + (Port(port) + rest))
            case Name(text) => [5, 1, 0, 3] + ([Low(|text|)] + (text + (Port(port) + rest)))
  {
  }

  lemma Request5Unambiguous(h: Host, p: nat, r: Bytes, h': Host, p': nat, r': Bytes)
    requires Sendable5(h, p) && Sendable5(h', p') && Request5(h, p) + r == Request5(h', p') + r'
    ensures h == h' && p == p' && r == r'
  {
    Request5Heard(h, p, NOTHING, r);
    Request5Heard(h', p', NOTHING, r');
  }

  // ----- what the client sends at all, from outside -----

  /** A name that both protocols can carry. */
  ghost predicate Carried(text: Bytes) {
    1 <= |text| <= 255 && 0 !in text
  }

  /** What SOCKS4 and SOCKS4a can express. */
  ghost predicate Expressible4(host: Host, port: int, c: Credentials)
    requires host.Valid()
  {
    && 1 <= port <= 65535
    && (match host
        case IPv4(a) => a[..3] == [0, 0, 0] ==> a[3] == 0
        case IPv6(_) => false
        case Name(text) => Carried(text))
    && (c.enabled ==> |c.username| <= 255 && 0 !in c.username && c.password == [])
  }

  /** What SOCKS5 can express. */
  ghost predicate Expressible5(host: Host, port: int, c: Credentials) {
    && 1 <= port <= 65535
    && (host.Name? ==> Carried(host.text))
    && (c.enabled ==> 1 <= |c.username| <= 255 && 1 <= |c.password| <= 255)
  }

  /** A destination that no upstream of this kind can be asked for. */
  ghost predicate BeyondProtocol(v4: bool, host: Host)
    requires host.Valid()
  {
    match host
    case IPv4(a) => v4 && a[..3] == [0, 0, 0] && a[3] != 0
    case IPv6(_) => v4
    case Name(text) => 0 in text || |text| > 255
  }

  /** Credentials that do not fit the protocol. */
  ghost predicate Misfit(v4: bool, c: Credentials) {
    c.enabled
    && if v4 then c.password != [] || |c.username| > 255 || 0 in c.username
       else c.username == [] || |c.username| > 255 || c.password == [] || |c.password| > 255
  }

  /** All checks of a dial in the order in which it makes them. */
  function Checked(v4: bool, host: Host, port: int, c: Credentials): Option<Failure>
    requires host.Valid()
  {
    var first := DialCheck(v4, host, port, c);
    if first.Some? then first
    else if v4 then Check4(host, if c.enabled then c.username else [])
    else Check5(c)
  }

  lemma ReservedMeaning(a: Bytes)
    requires |a| == 4
    ensures Reserved(a) <==> a[..3] == [0, 0, 0] && a[3] != 0
  {
    assert a[..3] == [a[0], a[1], a[2]];
  }

  /** A dial passes its checks if and only if the protocol can express what it is asked for. */
  lemma PassesExactly(v4: bool, host: Host, port: int, c: Credentials)
    requires host.Valid()
    ensures Checked(v4, host, port, c).None? <==>
            if v4 then Expressible4(host, port, c) else Expressible5(host, port, c)
  {
    if host.IPv4? {
      ReservedMeaning(host.address);
    }
  }

  /** Which refusal it is: a reserved address counts as unsupported only when the credentials fit, every
      other destination beyond the protocol whatever they are, and all else is invalid. */
  lemma RefusesExactly(v4: bool, host: Host, port: int, c: Credentials)
    requires host.Valid()
    ensures Checked(v4, host, port, c) in {None, Some(Invalid), Some(Unsupported)}
    ensures Checked(v4, host, port, c) == Some(Unsupported) <==>
            && 1 <= port <= 65535 && BeyondProtocol(v4, host)
            && (host.IPv4? ==> !Misfit(v4, c))
  {
    if host.IPv4? {
      ReservedMeaning(host.address);
    }
  }

  /** What a server has heard of a SOCKS4 request so far is free of NUL and of reserved addresses. */
  ghost predicate Clean(e: Ear) {
    match e.part
    case Head4 => e.heard == NOTHING
    case UserId(named) =>
      0 !in e.buf && e.heard.port <= 65535
      && e.heard.host.IPv4? && |e.heard.host.address| == 4 && named == Reserved(e.heard.host.address)
    case Domain => 0 !in e.buf && 0 !in e.heard.username && e.heard.port <= 65535
    case Answer(_) =>
      && 0 !in e.heard.username && e.heard.port <= 65535
      && (match e.heard.host
          case IPv4(a) => |a| == 4 && !Reserved(a)
          case IPv6(_) => false
          case Name(text) => 0 !in text)
    case Confused => true
    case _ => false
  }

  lemma HearClean(e: Ear, b: byte)
    requires Clean(e) && Listening(e)
    ensures Clean(Hear(e, b))
  {
  }

  lemma {:induction false} ListenClean(e: Ear, stream: Bytes)
    requires Clean(e)
    ensures Clean(Listen(e, stream).0)
    decreases |stream|
  {
    if Listening(e) && stream != [] {
      HearClean(e, stream[0]);
      ListenClean(Hear(e, stream[0]), stream[1..]);
    }
  }

  /** Completeness: whatever a server can hear from any bytes at all, within the limits on lengths, the
      client does not refuse to send. */
  lemma HearableIsSent4(stream: Bytes, h: Heard)
    requires Listen(Ear(Head4, [], NOTHING), stream) == (Ear(Answer(0), [], h), [])
    requires h.port >= 1 && |h.username| <= 255 && (h.host.Name? ==> 1 <= |h.host.text| <= 255)
    ensures h.host.Valid() && Checked(true, h.host, h.port, Credentials(true, h.username, [])).None?
  {
    ListenClean(Ear(Head4, [], NOTHING), stream);
    if h.host.IPv4? {
      ReservedMeaning(h.host.address);
    }
    PassesExactly(true, h.host, h.port, Credentials(true, h.username, []));
  }

  /** The same of a SOCKS5 request: addresses of the right length, names and ports in range. */
  ghost predicate Clean5(e: Ear) {
    match e.part
    case Head5 => true
    case NameLength => true
    case Addr4 => true
    case Addr6 => true
    case Text(n) => n <= 255
    case Port5 => e.heard.host.Valid() && (e.heard.host.Name? ==> |e.heard.host.text| <= 255)
    case Answer(_) =>
      e.heard.host.Valid() && e.heard.port <= 65535 && (e.heard.host.Name? ==> |e.heard.host.text| <= 255)
    case Confused => true
    case _ => false
  }

  lemma HearClean5(e: Ear, b: byte)
    requires Clean5(e) && Listening(e)
    ensures Clean5(Hear(e, b))
  {
  }

  lemma {:induction false} ListenClean5(e: Ear, stream: Bytes)
    requires Clean5(e)
    ensures Clean5(Listen(e, stream).0)
    decreases |stream|
  {
    if Listening(e) && stream != [] {
      HearClean5(e, stream[0]);
      ListenClean5(Hear(e, stream[0]), stream[1..]);
    }
  }

  lemma HearableIsSent5(stream: Bytes, h: Heard, c: Credentials)
    requires Listen(Ear(Head5, [], NOTHING), stream) == (Ear(Answer(0), [], h), [])
    requires h.port >= 1 && (h.host.Name? ==> |h.host.text| >= 1 && 0 !in h.host.text)
    requires c.enabled ==> 1 <= |c.username| <= 255 && 1 <= |c.password| <= 255
    ensures h.host.Valid() && Checked(false, h.host, h.port, c).None?
  {
    ListenClean5(Ear(Head5, [], NOTHING), stream);
    PassesExactly(false, h.host, h.port, c);
  }
}
