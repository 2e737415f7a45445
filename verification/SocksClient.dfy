/** The client side of the SOCKS handshakes: connect4, connect5 and writeAll of
    internal/socks/socks.go, over a connection that splits reads and writes arbitrarily. */
module SocksClient {
  import opened Prelude
  import opened SocksWire

  /** What one dial asks for. */
  datatype Job = Job(v4: bool, host: Host, port: nat, credentials: Credentials) {
    function UserId(): Bytes {
      if credentials.enabled then credentials.username else []
    }

    /** The protocol can express this, so the handshake starts. */
    ghost predicate Accepted() {
      host.Valid() && if v4 then Expressible4(host, port, credentials) else Expressible5(host, port, credentials)
    }
  }

  // ----- the handshake as a function of the bytes received -----

  /** What the client is waiting for. */
  datatype Phase =
    | Reply4
    | MethodReply | AuthReply | ReplyHead | ReplyName(status: byte) | ReplyTail(status: byte, n: nat)
    | Done(granted: bool)

  /** Bytes to send before reading on, and the part of the awaited reply read so far. */
  datatype Client = Client(out: Bytes, phase: Phase, buf: Bytes)

  function Need(phase: Phase): nat {
    match phase
    case Reply4 => 8
    case MethodReply => 2
    case AuthReply => 2
    case ReplyHead => 4
    case ReplyName(_) => 1
    case ReplyTail(_, n) => n
    case Done(_) => 0
  }

  function Start(job: Job): Client {
    if job.v4 then Client(Request4(job.host, job.port, job.UserId()), Reply4, [])
    else Client(Greeting(job.credentials), MethodReply, [])
  }

  /** The reaction to a complete reply. */
  function Advance(job: Job, phase: Phase, b: Bytes): Client
    requires |b| == Need(phase)
  {
    match phase
    case Reply4 => Client([], Done(b[0] == 0 && b[1] == 0x5a), [])
    case MethodReply =>
      if b[0] != 5 || b[1] != Method(job.credentials) then Client([], Done(false), [])
      else if job.credentials.enabled then Client(Auth(job.credentials), AuthReply, [])
      else Client(Request5(job.host, job.port), ReplyHead, [])
    case AuthReply =>
      if b != [1, 0] then Client([], Done(false), []) else Client(Request5(job.host, job.port), ReplyHead, [])
    case ReplyHead =>
      if b[0] != 5 || b[2] != 0 then Client([], Done(false), [])
      else if b[3] == 1 then Client([], ReplyTail(b[1], 6), [])
      else if b[3] == 4 then Client([], ReplyTail(b[1], 18), [])
      else if b[3] == 3 then Client([], ReplyName(b[1]), [])
      else Client([], Done(false), [])
    case ReplyName(status) => Client([], ReplyTail(status, b[0] as nat + 2), [])
    case ReplyTail(status, _) => Client([], Done(status == 0), [])
    case Done(granted) => Client([], Done(granted), [])
  }

  /** One byte received, once everything has been sent. */
  function Feed(job: Job, c: Client, b: byte): Client
    requires |c.buf| < Need(c.phase)
  {
    if |c.buf| + 1 == Need(c.phase) then Advance(job, c.phase, c.buf + [b]) else Client([], c.phase, c.buf + [b])
  }

  /** Everything sent, the bytes left unread, and the phase reached. */
  datatype Trace = Trace(sent: Bytes, left: Bytes, phase: Phase)

  function Sends(out: Bytes, t: Trace): Trace {
    Trace(out + t.sent, t.left, t.phase)
  }

  /** The whole handshake against a peer that delivers `input` and then closes. */
  function Drive(job: Job, c: Client, input: Bytes): Trace
    decreases |input|
  {
    if input == [] || |c.buf| >= Need(c.phase) then Trace(c.out, input, c.phase)
    else Sends(c.out, Drive(job, Feed(job, c, input[0]), input[1..]))
  }

  lemma {:induction false} DriveRest(job: Job, c: Client, input: Bytes, n: nat)
    requires 0 < n <= |input| && |c.buf| + n == Need(c.phase)
    ensures Drive(job, c, input) == Sends(c.out, Drive(job, Advance(job, c.phase, c.buf + input[..n]), input[n..]))
    decreases n
  {
    var c' := Feed(job, c, input[0]);
    if n == 1 {
      assert input[..1] == [input[0]];
    } else {
      assert c.buf + [input[0]] + input[1..][..n - 1] == c.buf + input[..n];
      assert input[1..][n - 1..] == input[n..];
      DriveRest(job, c', input[1..], n - 1);
      var t := Drive(job, Advance(job, c.phase, c.buf + input[..n]), input[n..]);
      assert Sends([], t) == t by { assert [] + t.sent == t.sent; }
    }
  }

  /** A complete reply ahead. */
  lemma DriveReply(job: Job, c: Client, input: Bytes)
    requires c.buf == [] && 0 < Need(c.phase) <= |input|
    ensures var n := Need(c.phase);
            Drive(job, c, input) == Sends(c.out, Drive(job, Advance(job, c.phase, input[..n]), input[n..]))
  {
    DriveRest(job, c, input, Need(c.phase));
    assert c.buf + input[..Need(c.phase)] == input[..Need(c.phase)];
  }

  /** A reply cut short by the end of the stream. */
  lemma {:induction false} DriveShort(job: Job, c: Client, input: Bytes)
    requires |c.buf| + |input| < Need(c.phase)
    ensures Drive(job, c, input) == Trace(c.out, [], c.phase)
    decreases |input|
  {
    if input != [] {
      DriveShort(job, Feed(job, c, input[0]), input[1..]);
      assert c.out + [] == c.out;
    }
  }

  // ----- which replies are a grant -----

  /** What is left unread after a handshake that succeeds. */
  function AfterGrant(job: Job, c: Client, input: Bytes): Option<Bytes> {
    var t := Drive(job, c, input);
    if t.phase == Done(true) then Some(t.left) else None
  }

  /** One reply of the handshake, complete or not. */
  lemma OneReply(job: Job, c: Client, input: Bytes)
    requires c.buf == [] && Need(c.phase) > 0
    ensures var n := Need(c.phase);
            AfterGrant(job, c, input) ==
            if |input| < n then None else AfterGrant(job, Advance(job, c.phase, input[..n]), input[n..])
  {
    if |input| < Need(c.phase) {
      DriveShort(job, c, input);
    } else {
      DriveReply(job, c, input);
    }
  }

  lemma AtEnd(job: Job, out: Bytes, granted: bool, input: Bytes)
    ensures AfterGrant(job, Client(out, Done(granted), []), input) == if granted then Some(input) else None
  {
  }

  /** A SOCKS4 handshake succeeds exactly when eight bytes come of which the first two are 0 and 90. */
  lemma Succeeds4Exactly(job: Job, input: Bytes)
    requires job.v4
    ensures AfterGrant(job, Start(job), input) ==
            if |input| >= 8 && input[0] == 0 && input[1] == 90 then Some(input[8..]) else None
  {
    OneReply(job, Start(job), input);
    if |input| >= 8 {
      AtEnd(job, [], input[0] == 0 && input[1] == 90, input[8..]);
    }
  }

  lemma Dropped(b: Bytes, i: nat, j: nat)
    requires i + j <= |b|
    ensures b[i..][j..] == b[i + j..]
  {
  }

  /** The rest of a CONNECT reply with this status, n bytes long. */
  lemma TailGrant(job: Job, status: byte, n: nat, b: Bytes)
    requires n > 0
    ensures AfterGrant(job, Client([], ReplyTail(status, n), []), b) ==
            if |b| >= n && status == 0 then Some(b[n..]) else None
  {
    OneReply(job, Client([], ReplyTail(status, n), []), b);
    if |b| >= n {
      AtEnd(job, [], status == 0, b[n..]);
    }
  }

  lemma NameGrant(job: Job, status: byte, b: Bytes)
    ensures AfterGrant(job, Client([], ReplyName(status), []), b) ==
            if |b| >= 1 && |b| >= b[0] as nat + 3 && status == 0 then Some(b[b[0] as nat + 3..]) else None
  {
    OneReply(job, Client([], ReplyName(status), []), b);
    if |b| >= 1 {
      var n := b[0] as nat + 2;
      TailGrant(job, status, n, b[1..]);
      if |b| >= n + 1 {
        Dropped(b, 1, n);
      }
    }
  }

  /** The length of the address and port after a CONNECT reply's header; None while it is not known, or
      for another kind of address. */
  ghost function AddressLength(kind: byte, b: Bytes): Option<nat> {
    if kind == 1 then Some(6) else if kind == 4 then Some(18)
    else if kind == 3 && |b| >= 1 then Some(b[0] as nat + 3) else None
  }

  /** What follows a CONNECT reply that is a grant. */
  ghost function AfterReply(b: Bytes): Option<Bytes> {
    if |b| < 4 || b[0] != 5 || b[1] != 0 || b[2] != 0 then None
    else
      var n := AddressLength(b[3], b[4..]);
      if n.Some? && n.value <= |b| - 4 then Some(b[4 + n.value..]) else None
  }

  lemma ReplyGrant(job: Job, out: Bytes, b: Bytes)
    ensures AfterGrant(job, Client(out, ReplyHead, []), b) == AfterReply(b)
  {
    OneReply(job, Client(out, ReplyHead, []), b);
    if |b| >= 4 {
      if b[0] != 5 || b[2] != 0 || (b[3] != 1 && b[3] != 3 && b[3] != 4) {
        AtEnd(job, [], false, b[4..]);
      } else if b[3] == 3 {
        NameGrant(job, b[1], b[4..]);
      } else {
        TailGrant(job, b[1], if b[3] == 1 then 6 else 18, b[4..]);
      }
      var n := AddressLength(b[3], b[4..]);
      if n.Some? && n.value <= |b| - 4 {
        Dropped(b, 4, n.value);
      }
    }
  }

  lemma AuthGrant(job: Job, b: Bytes)
    ensures AfterGrant(job, Client(Auth(job.credentials), AuthReply, []), b) ==
            if |b| >= 2 && b[0] == 1 && b[1] == 0 then AfterReply(b[2..]) else None
  {
    OneReply(job, Client(Auth(job.credentials), AuthReply, []), b);
    if |b| >= 2 {
      assert b[..2] == [b[0], b[1]];
      if b[0] == 1 && b[1] == 0 {
        ReplyGrant(job, Request5(job.host, job.port), b[2..]);
      } else {
        AtEnd(job, [], false, b[2..]);
      }
    }
  }

  /** A SOCKS5 handshake succeeds exactly when the bytes are the choice of the offered method, with
      credentials their acceptance, and a CONNECT reply with status 0; whatever follows stays unread. */
  lemma Succeeds5Exactly(job: Job, input: Bytes)
    requires !job.v4
    ensures AfterGrant(job, Start(job), input) ==
            if |input| < 2 || input[0] != 5 then None
            else if !job.credentials.enabled then (if input[1] == 0 then AfterReply(input[2..]) else None)
            else if input[1] != 2 || |input| < 4 || input[2] != 1 || input[3] != 0 then None
            else AfterReply(input[2..][2..])
  {
    OneReply(job, Start(job), input);
    if |input| >= 2 {
      if input[0] != 5 || input[1] != Method(job.credentials) {
        AtEnd(job, [], false, input[2..]);
      } else if job.credentials.enabled {
        AuthGrant(job, input[2..]);
      } else {
        ReplyGrant(job, Request5(job.host, job.port), input[2..]);
      }
    }
  }

  // ----- the connection -----

  /** A connection as one endpoint sees it: what the peer will deliver before it closes, and what
      was sent. Read i hands out at most chunk(i) bytes; Write i takes at most room(i) and may fail. */
  class Connection {
    const chunk: nat -> nat
    const room: nat -> nat
    const fails: nat -> bool
    var input: Bytes
    var sent: Bytes
    var readCount: nat
    var writeCount: nat

    constructor (input: Bytes, chunk: nat -> nat, room: nat -> nat, fails: nat -> bool)
      ensures this.input == input && sent == [] && readCount == writeCount == 0
      ensures this.chunk == chunk && this.room == room && this.fails == fails
    {
      this.input := input;
      this.chunk := chunk;
      this.room := room;
      this.fails := fails;
      sent := [];
      readCount := 0;
      writeCount := 0;
    }

    /** Write i fails or takes nothing. */
    ghost predicate Faulty(i: nat) {
      fails(i) || room(i) == 0
    }

    /** Some write from number a on, before number b, was faulty. */
    ghost predicate Broke(a: nat, b: nat) {
      exists i :: a <= i < b && Faulty(i)
    }

    method Write(data: Bytes) returns (n: nat, failed: bool)
      modifies this`sent, this`writeCount
      ensures n == (if room(old(writeCount)) < |data| then room(old(writeCount)) else |data|)
      ensures failed == fails(old(writeCount)) && writeCount == old(writeCount) + 1
      ensures sent == old(sent) + data[..n]
    {
      n := if room(writeCount) < |data| then room(writeCount) else |data|;
      failed := fails(writeCount);
      sent := sent + data[..n];
      writeCount := writeCount + 1;
    }

    /** Some of the bytes that are there, at least one unless the stream is at its end. */
    method Read(limit: nat) returns (part: Bytes)
      requires limit > 0
      modifies this`input, this`readCount
      ensures |part| <= limit && old(input) == part + input && (part == [] ==> input == [])
    {
      var n := if chunk(readCount) == 0 then 1 else chunk(readCount);
      n := if n < limit then n else limit;
      n := if n < |input| then n else |input|;
      part := input[..n];
      input := input[n..];
      readCount := readCount + 1;
    }
  }

  /** writeAll: sends everything in as many writes as it takes, or a prefix when, and only when, one
      fails or makes no progress. */
  method WriteAll(connection: Connection, data: Bytes) returns (ok: bool)
    modifies connection`sent, connection`writeCount
    ensures connection.writeCount >= old(connection.writeCount)
    ensures data == [] ==> connection.writeCount == old(connection.writeCount)
    ensures ok <==> !connection.Broke(old(connection.writeCount), connection.writeCount)
    ensures ok ==> connection.sent == old(connection.sent) + data
    ensures !ok ==> old(connection.sent) <= connection.sent <= old(connection.sent) + data
  {
    var left := data;
    while |left| > 0
      invariant connection.sent + left == old(connection.sent) + data
      invariant |connection.sent| >= |old(connection.sent)|
      invariant connection.writeCount >= old(connection.writeCount)
      invariant |left| <= |data| && (data == [] ==> connection.writeCount == old(connection.writeCount))
      invariant !connection.Broke(old(connection.writeCount), connection.writeCount)
      decreases |left|
    {
      ghost var sent := connection.sent;
      var n, failed := connection.Write(left);
      assert sent + left == sent + left[..n] + left[n..];
      if failed || n == 0 {
        assert connection.sent == (old(connection.sent) + data)[..|connection.sent|];
        assert connection.Faulty(connection.writeCount - 1);
        return false;
      }
      left := left[n..];
    }
    ok := true;
  }

  /** io.ReadFull: exactly n bytes, or everything there is when that is less. */
  method ReadFull(connection: Connection, n: nat) returns (b: Bytes, ok: bool)
    modifies connection`input, connection`readCount
    ensures ok ==> |b| == n && old(connection.input) == b + connection.input
    ensures !ok ==> |old(connection.input)| < n && connection.input == []
  {
    ghost var input := connection.input;
    b := [];
    while |b| < n
      invariant |b| <= n && b + connection.input == input
      decreases n - |b|
    {
      var part := connection.Read(n - |b|);
      if part == [] {
        return b, false;
      }
      assert b + (part + connection.input) == b + part + connection.input;
      b := b + part;
    }
    ok := true;
  }

  // ----- the handshakes -----

  /** The state of a dial that has followed Drive so far: client state c is what remains to do. */
  ghost predicate OnTrack(job: Job, t: Trace, sent0: Bytes, sent: Bytes, c: Client, input: Bytes) {
    && sent0 <= sent && c.buf == []
    && t == Sends(sent[|sent0|..], Drive(job, c, input))
  }

  /** What a dial reports when the handshake stops in a phase: refused, or cut short by the server. */
  function FailureOf(phase: Phase): Option<Failure> {
    if phase == Done(true) then None else if phase.Done? then Some(Refused) else Some(Closed)
  }

  /** How a dial ended: as Drive says, or with a prefix of what Drive sends after a write that failed
      or moved nothing. `writes0` is the number of writes before it. */
  ghost predicate Ended(connection: Connection, t: Trace, sent0: Bytes, writes0: nat, failure: Option<Failure>)
    reads connection
  {
    && writes0 <= connection.writeCount
    && (failure == Some(Broken) <==> connection.Broke(writes0, connection.writeCount))
    && if failure == Some(Broken) then
         sent0 <= connection.sent <= sent0 + t.sent
       else
         connection.sent == sent0 + t.sent && connection.input == t.left && failure == FailureOf(t.phase)
  }

  /** Sends c.out and reads the reply that c waits for. */
  method Exchange(connection: Connection, out: Bytes, n: nat, ghost job: Job, ghost c: Client, ghost t: Trace,
                  ghost sent0: Bytes, ghost writes0: nat)
    returns (reply: Bytes, failure: Option<Failure>)
    requires writes0 <= connection.writeCount && !connection.Broke(writes0, connection.writeCount)
    requires c.out == out && Need(c.phase) == n > 0
    requires OnTrack(job, t, sent0, connection.sent, c, connection.input)
    modifies connection
    ensures old(connection.writeCount) <= connection.writeCount
    ensures out == [] ==> connection.writeCount == old(connection.writeCount)
    ensures failure.None? ==> !connection.Broke(writes0, connection.writeCount)
    ensures failure.None? ==>
              |reply| == n && OnTrack(job, t, sent0, connection.sent, Advance(job, c.phase, reply), connection.input)
    ensures failure.Some? ==>
              failure.value in {Broken, Closed} && Ended(connection, t, sent0, writes0, failure)
  {
    ghost var sent1, input, writes1 := connection.sent, connection.input, connection.writeCount;
    var ok := WriteAll(connection, out);
    Prefixes(sent0, sent1, out, Drive(job, c, input), t);
    if !ok {
      ghost var i: nat :| writes1 <= i < connection.writeCount && connection.Faulty(i);
      assert writes0 <= i < connection.writeCount && connection.Faulty(i);
      return [], Some(Broken);
    }
    reply, ok := ReadFull(connection, n);
    if !ok {
      DriveShort(job, c, input);
      return [], Some(Closed);
    }
    failure := None;
    DriveReply(job, c, input);
    assert input[..n] == reply && input[n..] == connection.input;
    JoinSends(sent0, sent1, out, Drive(job, Advance(job, c.phase, reply), connection.input));
  }

  lemma Prefixes(sent0: Bytes, sent: Bytes, out: Bytes, d: Trace, t: Trace)
    requires sent0 <= sent && t == Sends(sent[|sent0|..], d)
    ensures sent + d.sent == sent0 + t.sent
    ensures out <= d.sent ==> sent + out <= sent0 + t.sent
  {
    assert sent == sent0 + sent[|sent0|..];
  }

  lemma JoinSends(sent0: Bytes, sent: Bytes, out: Bytes, d: Trace)
    requires sent0 <= sent
    ensures Sends(sent[|sent0|..], Sends(out, d)) == Sends((sent + out)[|sent0|..], d)
  {
    assert (sent + out)[|sent0|..] == sent[|sent0|..] + out;
    assert sent[|sent0|..] + (out + d.sent) == sent[|sent0|..] + out + d.sent;
  }

  /** A dial that reached Done. */
  lemma Finished(job: Job, t: Trace, sent0: Bytes, sent: Bytes, c: Client, input: Bytes)
    requires OnTrack(job, t, sent0, sent, c, input) && c.phase.Done? && c.out == []
    ensures sent == sent0 + t.sent && input == t.left && t.phase == c.phase
  {
    assert sent[|sent0|..] + [] == sent[|sent0|..];
    assert sent == sent0 + sent[|sent0|..];
  }

  lemma Begun(job: Job, sent0: Bytes, input: Bytes)
    ensures OnTrack(job, Drive(job, Start(job), input), sent0, sent0, Start(job), input)
  {
    var t := Drive(job, Start(job), input);
    assert sent0[|sent0|..] + t.sent == t.sent;
  }

  /** connect4: sends nothing when a check fails, and otherwise follows Drive. */
  method Connect4(connection: Connection, host: Host, port: nat, username: Bytes, ghost job: Job) returns (failure: Option<Failure>)
    requires host.Valid() && job.v4 && (job.host, job.port, job.UserId()) == (host, port, username)
    modifies connection
    ensures Check4(host, username).Some? ==>
              failure == Check4(host, username)
              && (connection.sent, connection.input) == old((connection.sent, connection.input))
    ensures Check4(host, username).None? ==>
              Ended(connection, Drive(job, Start(job), old(connection.input)), old(connection.sent), old(connection.writeCount), failure)
  {
    if |username| > 255 || 0 in username {
      return Some(Invalid);
    }
    match host {
      case IPv6(_) => return Some(Unsupported);
      case IPv4(address) => if Reserved(address) { return Some(Unsupported); }
      case Name(text) => if |text| == 0 || |text| > 255 { return Some(Unsupported); }
    }
    ghost var sent0, writes0 := connection.sent, connection.writeCount;
    ghost var t := Drive(job, Start(job), connection.input);
    Begun(job, sent0, connection.input);
    var reply;
    reply, failure := Exchange(connection, Request4(host, port, username), 8, job, Start(job), t, sent0, writes0);
    if failure.Some? {
      return;
    }
    Finished(job, t, sent0, connection.sent, Advance(job, Reply4, reply), connection.input);
    if reply[0] != 0 || reply[1] != 0x5a {
      return Some(Refused);
    }
  }

  /** The address of a SOCKS5 reply, read and discarded; then the reply's verdict. */
  method FinishReply5(connection: Connection, reply: Bytes, ghost job: Job, ghost t: Trace, ghost sent0: Bytes,
                      ghost writes0: nat)
    returns (failure: Option<Failure>)
    requires |reply| == 4 && writes0 <= connection.writeCount && !connection.Broke(writes0, connection.writeCount)
    requires OnTrack(job, t, sent0, connection.sent, Advance(job, ReplyHead, reply), connection.input)
    modifies connection
    ensures Ended(connection, t, sent0, writes0, failure)
    ensures failure != Some(Broken) && connection.writeCount == old(connection.writeCount)
  {
    ghost var c := Advance(job, ReplyHead, reply);
    if reply[0] != 5 || reply[2] != 0 {
      Finished(job, t, sent0, connection.sent, c, connection.input);
      return Some(Refused);
    }
    var addressLength: nat := 0;
    if reply[3] == 1 {
      addressLength := 4;
    } else if reply[3] == 4 {
      addressLength := 16;
    } else if reply[3] == 3 {
      var length;
      length, failure := Exchange(connection, [], 1, job, c, t, sent0, writes0);
      if failure.Some? {
        return;
      }
      c := Advance(job, c.phase, length);
      addressLength := length[0] as nat;
    } else {
      Finished(job, t, sent0, connection.sent, c, connection.input);
      return Some(Refused);
    }
    var address;
    address, failure := Exchange(connection, [], addressLength + 2, job, c, t, sent0, writes0);
    if failure.Some? {
      return;
    }
    Finished(job, t, sent0, connection.sent, Advance(job, c.phase, address), connection.input);
    if reply[1] != 0 {
      return Some(Refused);
    }
  }

  /** connect5: sends nothing when the credentials do not fit, and otherwise follows Drive. */
  method Connect5(connection: Connection, host: Host, port: nat, credentials: Credentials, ghost job: Job)
    returns (failure: Option<Failure>)
    requires !job.v4 && (job.host, job.port, job.credentials) == (host, port, credentials)
    modifies connection
    ensures Check5(credentials).Some? ==>
              failure == Check5(credentials)
              && (connection.sent, connection.input) == old((connection.sent, connection.input))
    ensures Check5(credentials).None? ==>
              Ended(connection, Drive(job, Start(job), old(connection.input)), old(connection.sent), old(connection.writeCount), failure)
  {
    if credentials.enabled
       && (|credentials.username| == 0 || |credentials.username| > 255 || |credentials.password| == 0 || |credentials.password| > 255) {
      return Some(Invalid);
    }
    ghost var sent0, writes0 := connection.sent, connection.writeCount;
    ghost var t := Drive(job, Start(job), connection.input);
    Begun(job, sent0, connection.input);
    ghost var c := Start(job);
    var reply;
    reply, failure := Exchange(connection, Greeting(credentials), 2, job, c, t, sent0, writes0);
    if failure.Some? {
      return;
    }
    c := Advance(job, c.phase, reply);
    if reply[0] != 5 || reply[1] != Method(credentials) {
      Finished(job, t, sent0, connection.sent, c, connection.input);
      return Some(Refused);
    }
    if credentials.enabled {
      reply, failure := Exchange(connection, Auth(credentials), 2, job, c, t, sent0, writes0);
      if failure.Some? {
        return;
      }
      c := Advance(job, c.phase, reply);
      if reply != [1, 0] {
        Finished(job, t, sent0, connection.sent, c, connection.input);
        return Some(Refused);
      }
    }
    reply, failure := Exchange(connection, Request5(host, port), 4, job, c, t, sent0, writes0);
    if failure.Some? {
      return;
    }
    failure := FinishReply5(connection, reply, job, t, sent0, writes0);
  }

  /** DialContext once connected. A destination, port and credentials that the protocol can express go on
      the wire, and then the dial reports how the handshake ends, or a broken connection if and only if
      a write was faulty. Anything else is refused before a byte moves, as unsupported when it is the
      destination that is beyond the protocol, and as invalid otherwise. */
  method Dial(connection: Connection, v4: bool, host: Host, port: int, credentials: Credentials) returns (failure: Option<Failure>)
    requires host.Valid()
    modifies connection
    ensures if if v4 then Expressible4(host, port, credentials) else Expressible5(host, port, credentials) then
              var t := Drive(Job(v4, host, port, credentials), Start(Job(v4, host, port, credentials)), old(connection.input));
              Ended(connection, t, old(connection.sent), old(connection.writeCount), failure)
            else
              && (connection.sent, connection.input) == old((connection.sent, connection.input))
              && failure == if 1 <= port <= 65535 && BeyondProtocol(v4, host) && (host.IPv4? ==> !Misfit(v4, credentials))
                            then Some(Unsupported) else Some(Invalid)
  {
    PassesExactly(v4, host, port, credentials);
    RefusesExactly(v4, host, port, credentials);
    failure := DialCheck(v4, host, port, credentials);
    if failure.Some? {
      return;
    }
    ghost var job := Job(v4, host, port, credentials);
    if v4 {
      var username := if credentials.enabled then credentials.username else [];
      failure := Connect4(connection, host, port, username, job);
    } else {
      failure := Connect5(connection, host, port, credentials, job);
    }
  }
}
