/** A SOCKS client and a conforming server joined by two byte queues. One byte moves at a time, in
    any order, so every fragmentation of reads and writes is some schedule of these moves. */
module SocksAgreement {
  import opened Prelude
  import opened SocksWire
  import opened SocksClient

  // ----- a conforming server -----

  /** What a server decides. A SOCKS5 reply carries an address of kind 1, 3 or 4; a SOCKS4 reply six
      bytes to ignore. After granting, the server sends the tunnel's first bytes at once. */
  datatype Policy = Policy(accepts: bool, authStatus: byte, status: byte, kind: byte, bound: Bytes, tail: Bytes,
                           tunnel: Bytes) {
    ghost predicate Valid(v4: bool) {
      if v4 then |tail| == 6
      else
        && |tail| == 2
        && (kind == 1 || kind == 3 || kind == 4)
        && (kind == 1 ==> |bound| == 4) && (kind == 4 ==> |bound| == 16) && (kind == 3 ==> |bound| <= 255)
    }

    function Grants(v4: bool): bool {
      if v4 then status == 0x5a else status == 0
    }

    function Reply(v4: bool): Bytes {
      if v4 then [0, status] + tail
      else [5, status, 0, kind] + (if kind == 3 then [Low(|bound|)] else []) + bound + tail
    }

    function Verdict(v4: bool): Bytes {
      if Grants(v4) then Reply(v4) + tunnel else Reply(v4)
    }
  }

  datatype Stage = OnGreeting | OnAuth | OnRequest | Ended(granted: bool)

  datatype Server = Server(ear: Ear, out: Bytes, stage: Stage)

  function Opening(v4: bool): Server {
    if v4 then Server(Ear(Head4, [], NOTHING), [], OnRequest) else Server(Ear(Hello, [], NOTHING), [], OnGreeting)
  }

  /** The answer to what the server has just understood. */
  function React(v4: bool, p: Policy, s: Server): Server {
    if s.ear.part.Confused? || s.stage.Ended? then Server(s.ear, [], Ended(false))
    else match s.stage
      case OnGreeting =>
        var chosen := if s.ear.part.Answer? && s.ear.part.about == 2 then 2 else 0;
        if !p.accepts then Server(s.ear, [5, 0xFF], Ended(false))
        else if chosen == 2 then Server(s.ear.(part := UserLength), [5, 2], OnAuth)
        else Server(s.ear.(part := Head5), [5, 0], OnRequest)
      case OnAuth =>
        if p.authStatus == 0 then Server(s.ear.(part := Head5), [1, 0], OnRequest)
        else Server(s.ear, [1, p.authStatus], Ended(false))
      case _ => Server(s.ear, p.Verdict(v4), Ended(p.Grants(v4)))
  }

  // ----- the two parties -----

  datatype Net = Net(client: Client, server: Server, c2s: Bytes, s2c: Bytes)

  datatype World = World(job: Job, policy: Policy) {
    ghost predicate Valid() {
      job.Accepted() && policy.Valid(job.v4)
    }

    function Initial(): Net {
      Net(Start(job), Opening(job.v4), [], [])
    }

    /** The client sends one byte, or reads one when it has nothing to send. */
    function ClientMove(n: Net): Option<Net> {
      var c := n.client;
      if c.out != [] then Some(n.(client := c.(out := c.out[1..]), c2s := n.c2s + [c.out[0]]))
      else if |c.buf| < Need(c.phase) && n.s2c != [] then Some(n.(client := Feed(job, c, n.s2c[0]), s2c := n.s2c[1..]))
      else None
    }

    function ServerMove(n: Net): Option<Net> {
      var s := n.server;
      if s.out != [] then Some(n.(server := s.(out := s.out[1..]), s2c := n.s2c + [s.out[0]]))
      else if !s.stage.Ended? && Listening(s.ear) && n.c2s != [] then
        var s' := s.(ear := Hear(s.ear, n.c2s[0]));
        Some(n.(server := if Listening(s'.ear) then s' else React(job.v4, policy, s'), c2s := n.c2s[1..]))
      else None
    }

    function Move(n: Net, client: bool): Option<Net> {
      if client then ClientMove(n) else ServerMove(n)
    }

    /** The state after a schedule, if each of its moves is possible. */
    function Run(n: Net, schedule: seq<bool>): Option<Net>
      decreases |schedule|
    {
      if schedule == [] then Some(n)
      else match Move(n, schedule[0])
        case Some(m) => Run(m, schedule[1..])
        case None => None
    }

    predicate Stuck(n: Net) {
      ClientMove(n).None? && ServerMove(n).None?
    }
  }

  // ----- every schedule ends in the same state -----

  /** A move of one party neither prevents nor changes a move of the other. */
  lemma Diamond(w: World, n: Net)
    requires w.ClientMove(n).Some? && w.ServerMove(n).Some?
    ensures w.ServerMove(w.ClientMove(n).value).Some?
    ensures w.ServerMove(w.ClientMove(n).value) == w.ClientMove(w.ServerMove(n).value)
  {
    var c, s := n.client, n.server;
    if c.out != [] && s.out == [] {
      assert (n.c2s + [c.out[0]])[1..] == n.c2s[1..] + [c.out[0]];
    }
    if c.out == [] && s.out != [] {
      assert (n.s2c + [s.out[0]])[1..] == n.s2c[1..] + [s.out[0]];
    }
  }

  /** One party's move comes first in some schedule of the same length. */
  lemma {:induction false} MoveFirst(w: World, n: Net, schedule: seq<bool>, f: Net, client: bool) returns (rest: seq<bool>)
    requires w.Run(n, schedule) == Some(f) && w.Stuck(f) && w.Move(n, client).Some?
    ensures |rest| + 1 == |schedule| && w.Run(w.Move(n, client).value, rest) == Some(f)
    decreases |schedule|
  {
    if schedule[0] == client {
      rest := schedule[1..];
    } else {
      Diamond(w, n);
      var m := w.Move(n, schedule[0]).value;
      var rest' := MoveFirst(w, m, schedule[1..], f, client);
      rest := [schedule[0]] + rest';
      assert rest[1..] == rest';
    }
  }

  /** If one schedule ends in a stuck state, every schedule can be completed to end there, after
      the same number of moves. */
  lemma {:induction false} Confluence(w: World, n: Net, schedule: seq<bool>, f: Net, other: seq<bool>) returns (rest: seq<bool>)
    requires w.Run(n, schedule) == Some(f) && w.Stuck(f) && w.Run(n, other).Some?
    ensures |other| + |rest| == |schedule| && w.Run(w.Run(n, other).value, rest) == Some(f)
    decreases |other|
  {
    if other == [] {
      rest := schedule;
    } else {
      var rest' := MoveFirst(w, n, schedule, f, other[0]);
      rest := Confluence(w, w.Move(n, other[0]).value, rest', f, other[1..]);
    }
  }

  // ----- one schedule that ends -----

  ghost predicate Reaches(w: World, n: Net, m: Net) {
    exists schedule :: w.Run(n, schedule) == Some(m)
  }

  lemma {:induction false} RunAppend(w: World, n: Net, a: seq<bool>, b: seq<bool>)
    requires w.Run(n, a).Some?
    decreases |a|
    ensures w.Run(n, a + b) == w.Run(w.Run(n, a).value, b)
  {
    if a == [] {
      assert a + b == b;
    } else {
      assert (a + b)[1..] == a[1..] + b;
      RunAppend(w, w.Move(n, a[0]).value, a[1..], b);
    }
  }

  lemma Then(w: World, n: Net, m: Net, k: Net)
    requires Reaches(w, n, m) && Reaches(w, m, k)
    ensures Reaches(w, n, k)
  {
    var a :| w.Run(n, a) == Some(m);
    var b :| w.Run(m, b) == Some(k);
    RunAppend(w, n, a, b);
  }

  lemma Stays(w: World, n: Net)
    ensures Reaches(w, n, n)
  {
    assert w.Run(n, []) == Some(n);
  }

  lemma First(w: World, n: Net, client: bool, k: Net)
    requires w.Move(n, client).Some? && Reaches(w, w.Move(n, client).value, k)
    ensures Reaches(w, n, k)
  {
    var b :| w.Run(w.Move(n, client).value, b) == Some(k);
    assert ([client] + b)[1..] == b;
    assert w.Run(n, [client] + b) == Some(k);
  }

  lemma {:induction false} ClientSpeaks(w: World, n: Net)
    ensures Reaches(w, n, n.(client := n.client.(out := []), c2s := n.c2s + n.client.out))
    decreases |n.client.out|
  {
    var m := n.(client := n.client.(out := []), c2s := n.c2s + n.client.out);
    if n.client.out == [] {
      assert n.c2s + [] == n.c2s;
      Stays(w, n);
    } else {
      var n' := w.ClientMove(n).value;
      assert n'.c2s + n'.client.out == n.c2s + n.client.out;
      ClientSpeaks(w, n');
      First(w, n, true, m);
    }
  }

  lemma {:induction false} ServerSpeaks(w: World, n: Net)
    ensures Reaches(w, n, n.(server := n.server.(out := []), s2c := n.s2c + n.server.out))
    decreases |n.server.out|
  {
    var m := n.(server := n.server.(out := []), s2c := n.s2c + n.server.out);
    if n.server.out == [] {
      assert n.s2c + [] == n.s2c;
      Stays(w, n);
    } else {
      var n' := w.ServerMove(n).value;
      assert n'.s2c + n'.server.out == n.s2c + n.server.out;
      ServerSpeaks(w, n');
      First(w, n, false, m);
    }
  }

  /** The server reads until an answer is due, and reacts. */
  lemma {:induction false} ServerListens(w: World, n: Net)
    requires n.server.out == [] && !n.server.stage.Ended? && Listening(n.server.ear)
    requires !Listening(Listen(n.server.ear, n.c2s).0)
    ensures var (ear, rest) := Listen(n.server.ear, n.c2s);
            Reaches(w, n, n.(server := React(w.job.v4, w.policy, n.server.(ear := ear)), c2s := rest))
    decreases |n.c2s|
  {
    var (ear, rest) := Listen(n.server.ear, n.c2s);
    var m := n.(server := React(w.job.v4, w.policy, n.server.(ear := ear)), c2s := rest);
    var n' := w.ServerMove(n).value;
    if Listening(Hear(n.server.ear, n.c2s[0])) {
      ServerListens(w, n');
    } else {
      Stays(w, n');
    }
    First(w, n, false, m);
  }

  /** The client reads a complete reply and reacts. */
  lemma {:induction false} ClientReads(w: World, n: Net, b: Bytes, rest: Bytes)
    requires n.client.out == [] && b != [] && |n.client.buf| + |b| == Need(n.client.phase) && n.s2c == b + rest
    ensures Reaches(w, n, n.(client := Advance(w.job, n.client.phase, n.client.buf + b), s2c := rest))
    decreases |b|
  {
    var m := n.(client := Advance(w.job, n.client.phase, n.client.buf + b), s2c := rest);
    var n' := w.ClientMove(n).value;
    assert n.s2c[0] == b[0] && n.s2c[1..] == b[1..] + rest;
    if |b| == 1 {
      assert b == [b[0]] && b[1..] + rest == rest;
      Stays(w, n');
    } else {
      assert n.client.buf + [b[0]] + b[1..] == n.client.buf + b;
      ClientReads(w, n', b[1..], rest);
    }
    First(w, n, true, m);
  }

  // ----- the conversation -----

  /** Quiet: nothing on the way, and the server waits for the message the client is about to send. */
  ghost predicate Quiet(n: Net) {
    n.c2s == [] && n.s2c == [] && n.server.out == [] && !n.server.stage.Ended? && Listening(n.server.ear)
  }

  /** After the client's message has been sent, understood and answered. */
  function Answered(w: World, n: Net): Net {
    var (ear, rest) := Listen(n.server.ear, n.client.out);
    var s := React(w.job.v4, w.policy, n.server.(ear := ear));
    Net(n.client.(out := []), s.(out := []), rest, s.out)
  }

  lemma Turn(w: World, n: Net)
    requires Quiet(n) && !Listening(Listen(n.server.ear, n.client.out).0)
    ensures Reaches(w, n, Answered(w, n))
  {
    var n1 := n.(client := n.client.(out := []), c2s := n.c2s + n.client.out);
    assert n.c2s + n.client.out == n.client.out;
    ClientSpeaks(w, n);
    var (ear, rest) := Listen(n.server.ear, n.client.out);
    var s := React(w.job.v4, w.policy, n.server.(ear := ear));
    var n2 := n1.(server := s, c2s := rest);
    ServerListens(w, n1);
    Then(w, n, n1, n2);
    ServerSpeaks(w, n2);
    assert n2.s2c + s.out == s.out;
    Then(w, n, n2, Answered(w, n));
  }

  /** The client takes in a whole reply. */
  lemma Take(w: World, n: Net, b: Bytes, rest: Bytes)
    requires n.client.out == [] && n.client.buf == [] && |b| == Need(n.client.phase) > 0 && n.s2c == b + rest
    ensures Reaches(w, n, n.(client := Advance(w.job, n.client.phase, b), s2c := rest))
  {
    assert n.client.buf + b == b;
    ClientReads(w, n, b, rest);
  }

  /** The state in which a dialogue about `heard` ends. */
  ghost predicate Agreed(w: World, n: Net, granted: bool) {
    && w.Stuck(n)
    && n.client.phase == Done(granted)
    && n.server.stage == Ended(granted)
    && (granted ==>
         && n.c2s == [] && n.s2c == w.policy.tunnel
         && n.server.ear.heard == Intended(w.job))
  }

  /** What the server should know in the end. */
  ghost function Intended(job: Job): Heard {
    if job.v4 then Heard(job.UserId(), [], job.host, job.port)
    else if job.credentials.enabled then Heard(job.credentials.username, job.credentials.password, job.host, job.port)
    else Heard([], [], job.host, job.port)
  }

  /** Whether the server grants: it accepts the method, the credentials and the destination. */
  ghost predicate Granted(w: World) {
    w.policy.Grants(w.job.v4) && (w.job.v4 || (w.policy.accepts && (w.job.credentials.enabled ==> w.policy.authStatus == 0)))
  }

  lemma Dialogue4(w: World) returns (f: Net)
    requires w.Valid() && w.job.v4
    ensures Reaches(w, w.Initial(), f) && Agreed(w, f, Granted(w))
  {
    var n, p := w.Initial(), w.policy;
    var job := w.job;
    Request4Heard(job.host, job.port, job.UserId(), []);
    assert n.client.out + [] == n.client.out;
    Turn(w, n);
    var n1 := Answered(w, n);
    var rest := if p.Grants(true) then p.tunnel else [];
    assert p.Reply(true) + rest == p.Verdict(true) by { assert p.Reply(true) + [] == p.Reply(true); }
    Take(w, n1, p.Reply(true), rest);
    f := n1.(client := Advance(job, Reply4, p.Reply(true)), s2c := rest);
    Then(w, n, n1, f);
  }

  lemma ReplySplit(p: Policy, rest: Bytes)
    ensures p.Reply(false) + rest ==
            [5, p.status, 0, p.kind] + ((if p.kind == 3 then [Low(|p.bound|)] else []) + ((p.bound + p.tail) + rest))
  {
  }

  /** The client reads a whole SOCKS5 reply, whatever its address, and not a byte more. */
  lemma Reply5Read(w: World, n: Net, rest: Bytes)
    requires w.policy.Valid(false) && n.client == Client([], ReplyHead, []) && n.s2c == w.policy.Reply(false) + rest
    ensures Reaches(w, n, n.(client := Client([], Done(w.policy.status == 0), []), s2c := rest))
  {
    var p := w.policy;
    var head := [5, p.status, 0, p.kind];
    var length := if p.kind == 3 then [Low(|p.bound|)] else [];
    var tail := p.bound + p.tail;
    ReplySplit(p, rest);
    Take(w, n, head, length + (tail + rest));
    var n1 := n.(client := Client([], ReplyTail(p.status, |tail|), []), s2c := tail + rest);
    if p.kind == 3 {
      var n0 := n.(client := Client([], ReplyName(p.status), []), s2c := length + (tail + rest));
      Take(w, n0, length, tail + rest);
      Then(w, n, n0, n1);
    } else {
      assert length + (tail + rest) == tail + rest;
    }
    Take(w, n1, tail, rest);
    Then(w, n, n1, n.(client := Client([], Done(p.status == 0), []), s2c := rest));
  }

  /** The end of every SOCKS5 dialogue: the request, and its reply. */
  lemma Finish5(w: World, n: Net, heard: Heard) returns (f: Net)
    requires w.Valid() && !w.job.v4 && Quiet(n)
    requires n.client == Client(Request5(w.job.host, w.job.port), ReplyHead, [])
    requires n.server == Server(Ear(Head5, [], heard), [], OnRequest)
    requires heard.(host := w.job.host, port := w.job.port) == Intended(w.job)
    requires w.policy.Grants(false) == Granted(w)
    ensures Reaches(w, n, f) && Agreed(w, f, Granted(w))
  {
    var p := w.policy;
    Request5Heard(w.job.host, w.job.port, heard, []);
    assert n.client.out + [] == n.client.out;
    Turn(w, n);
    var rest := if p.Grants(false) then p.tunnel else [];
    assert p.Reply(false) + rest == p.Verdict(false) by { assert p.Reply(false) + [] == p.Reply(false); }
    var n1 := Net(Client([], ReplyHead, []), Server(Ear(Answer(0), [], Intended(w.job)), [], Ended(p.Grants(false))), [],
                  p.Verdict(false));
    assert n1 == Answered(w, n);
    Reply5Read(w, n1, rest);
    f := n1.(client := Client([], Done(p.status == 0), []), s2c := rest);
    Then(w, n, n1, f);
  }

  /** A two-byte reply to a message of the SOCKS5 preamble. */
  lemma ShortTurn(w: World, n: Net, next: Client)
    requires Quiet(n) && !Listening(Listen(n.server.ear, n.client.out).0) && n.client.buf == []
    requires var b := Answered(w, n).s2c;
             |b| == Need(n.client.phase) == 2 && next == Advance(w.job, n.client.phase, b)
    ensures Reaches(w, n, Answered(w, n).(client := next, s2c := []))
  {
    Turn(w, n);
    var n1 := Answered(w, n);
    assert n1.s2c + [] == n1.s2c;
    Take(w, n1, n1.s2c, []);
    Then(w, n, n1, n1.(client := next, s2c := []));
  }

  /** The username and password, and what follows when they are accepted. */
  lemma Auth5(w: World, n: Net) returns (f: Net)
    requires w.Valid() && !w.job.v4 && Quiet(n) && w.job.credentials.enabled && w.policy.accepts
    requires n.client == Client(Auth(w.job.credentials), AuthReply, [])
    requires n.server == Server(Ear(UserLength, [], NOTHING), [], OnAuth)
    ensures Reaches(w, n, f) && Agreed(w, f, Granted(w))
  {
    var p, c := w.policy, w.job.credentials;
    var heard := NOTHING.(username := c.username, password := c.password);
    AuthHeard(c, NOTHING, []);
    assert Auth(c) + [] == Auth(c);
    if p.authStatus != 0 {
      ShortTurn(w, n, Client([], Done(false), []));
      f := Answered(w, n).(client := Client([], Done(false), []), s2c := []);
    } else {
      var n1 := Net(Client(Request5(w.job.host, w.job.port), ReplyHead, []), Server(Ear(Head5, [], heard), [], OnRequest), [], []);
      ShortTurn(w, n, n1.client);
      f := Finish5(w, n1, heard);
      Then(w, n, n1, f);
    }
  }

  lemma Dialogue5(w: World) returns (f: Net)
    requires w.Valid() && !w.job.v4
    ensures Reaches(w, w.Initial(), f) && Agreed(w, f, Granted(w))
  {
    var n, p, c := w.Initial(), w.policy, w.job.credentials;
    GreetingHeard(c, []);
    assert Greeting(c) + [] == Greeting(c);
    if !p.accepts {
      ShortTurn(w, n, Client([], Done(false), []));
      f := Answered(w, n).(client := Client([], Done(false), []), s2c := []);
    } else if c.enabled {
      var n1 := Net(Client(Auth(c), AuthReply, []), Server(Ear(UserLength, [], NOTHING), [], OnAuth), [], []);
      ShortTurn(w, n, n1.client);
      f := Auth5(w, n1);
      Then(w, n, n1, f);
    } else {
      var n1 := Net(Client(Request5(w.job.host, w.job.port), ReplyHead, []), Server(Ear(Head5, [], NOTHING), [], OnRequest), [], []);
      ShortTurn(w, n, n1.client);
      f := Finish5(w, n1, NOTHING);
      Then(w, n, n1, f);
    }
  }

  /** Main result: for every destination and credentials that the checks accept, every conforming
      server and every interleaving and fragmentation, the handshake cannot get stuck or go on
      forever: each schedule extends to one that ends in the same final state, after a fixed number
      of moves. There the client succeeds if and only if the server granted; then the server has
      heard exactly the port, host and credentials given to the client, and the bytes still on the
      way are exactly the tunnel's, so the first byte read next is the first tunnel byte. */
  lemma Agreement(w: World, schedule: seq<bool>) returns (f: Net, rest: seq<bool>)
    requires w.Valid() && w.Run(w.Initial(), schedule).Some?
    ensures w.Run(w.Run(w.Initial(), schedule).value, rest) == Some(f)
    ensures Agreed(w, f, Granted(w))
    ensures w.Stuck(w.Run(w.Initial(), schedule).value) ==> w.Run(w.Initial(), schedule) == Some(f)
  {
    if w.job.v4 {
      f := Dialogue4(w);
    } else {
      f := Dialogue5(w);
    }
    var full :| w.Run(w.Initial(), full) == Some(f);
    rest := Confluence(w, w.Initial(), full, f, schedule);
  }

  /** Schedules are bounded: none is longer than the one that ends. */
  lemma NoEndlessHandshake(w: World) returns (moves: nat)
    requires w.Valid()
    ensures forall schedule :: w.Run(w.Initial(), schedule).Some? ==> |schedule| <= moves
  {
    var f, full := Agreement(w, []);
    moves := |full|;
    forall schedule | w.Run(w.Initial(), schedule).Some? ensures |schedule| <= moves {
      var _ := Confluence(w, w.Initial(), full, f, schedule);
    }
  }

  // ----- the methods take part in this dialogue -----

  /** What the client reads in one move. */
  ghost function ReadIn(n: Net, client: bool): Bytes {
    if client && n.client.out == [] && n.s2c != [] then [n.s2c[0]] else []
  }

  /** What the client sends in one move. */
  ghost function SentIn(n: Net, client: bool): Bytes {
    if client && n.client.out != [] then [n.client.out[0]] else []
  }

  /** The bytes the client reads during a schedule. */
  ghost function Reads(w: World, n: Net, schedule: seq<bool>): Bytes
    requires w.Run(n, schedule).Some?
    decreases |schedule|
  {
    if schedule == [] then [] else
      ReadIn(n, schedule[0]) + Reads(w, w.Move(n, schedule[0]).value, schedule[1..])
  }

  /** The bytes the client sends during a schedule. */
  ghost function Writes(w: World, n: Net, schedule: seq<bool>): Bytes
    requires w.Run(n, schedule).Some?
    decreases |schedule|
  {
    if schedule == [] then [] else
      SentIn(n, schedule[0]) + Writes(w, w.Move(n, schedule[0]).value, schedule[1..])
  }

  /** In one move the client does what Drive says about the byte it reads, if it reads one. */
  lemma MoveFollowsDrive(w: World, n: Net, client: bool, ahead: Bytes)
    requires w.Move(n, client).Some?
    ensures Drive(w.job, n.client, ReadIn(n, client) + ahead)
            == Sends(SentIn(n, client), Drive(w.job, w.Move(n, client).value.client, ahead))
  {
    var t := Drive(w.job, n.client, ahead);
    assert [] + ahead == ahead && [] + t.sent == t.sent;
    if client && n.client.out != [] {
      assert n.client.out == [n.client.out[0]] + n.client.out[1..];
      DriveOut(w.job, n.client, ahead, [n.client.out[0]], n.client.out[1..]);
    } else if client {
      assert ([n.s2c[0]] + ahead)[1..] == ahead;
    }
  }

  lemma DriveOut(job: Job, c: Client, input: Bytes, sent: Bytes, out: Bytes)
    requires c.out == sent + out
    ensures Drive(job, c, input) == Sends(sent, Drive(job, c.(out := out), input))
  {
    if input != [] && |c.buf| < Need(c.phase) {
      var t := Drive(job, Feed(job, c, input[0]), input[1..]);
      assert sent + out + t.sent == sent + (out + t.sent);
    } else {
      assert sent + out == c.out;
    }
  }

  lemma SendsTwice(a: Bytes, b: Bytes, t: Trace)
    ensures Sends(a, Sends(b, t)) == Sends(a + b, t)
  {
    assert a + b + t.sent == a + (b + t.sent);
  }

  lemma FollowsOn(w: World, n: Net, client: bool, f: Net, whole: Bytes, input: Bytes, put: Bytes, ahead: Bytes)
    requires w.Move(n, client).Some? && whole == ReadIn(n, client) + input
    requires Drive(w.job, w.Move(n, client).value.client, input) == Sends(put, Drive(w.job, f.client, ahead))
    ensures Drive(w.job, n.client, whole) == Sends(SentIn(n, client) + put, Drive(w.job, f.client, ahead))
  {
    MoveFollowsDrive(w, n, client, input);
    SendsTwice(SentIn(n, client), put, Drive(w.job, f.client, ahead));
  }

  /** In every schedule the client does what Drive says about the bytes it has read. */
  lemma {:induction false} FollowsDrive(w: World, n: Net, schedule: seq<bool>, ahead: Bytes)
    requires w.Run(n, schedule).Some?
    ensures Drive(w.job, n.client, Reads(w, n, schedule) + ahead)
            == Sends(Writes(w, n, schedule), Drive(w.job, w.Run(n, schedule).value.client, ahead))
    decreases |schedule|
  {
    ReadsAhead(w, n, schedule, ahead);
    if schedule == [] {
      SendsNothing(Drive(w.job, n.client, ahead));
    } else {
      var who, later := schedule[0], schedule[1..];
      var m := w.Move(n, who).value;
      FollowsDrive(w, m, later, ahead);
      FollowsOn(w, n, who, w.Run(m, later).value, Reads(w, n, schedule) + ahead, Reads(w, m, later) + ahead,
                Writes(w, m, later), ahead);
    }
  }

  lemma SendsNothing(t: Trace)
    ensures Sends([], t) == t
  {
    assert [] + t.sent == t.sent;
  }

  lemma ReadsAhead(w: World, n: Net, schedule: seq<bool>, ahead: Bytes)
    requires w.Run(n, schedule).Some?
    ensures schedule == [] ==> Reads(w, n, schedule) + ahead == ahead
    ensures schedule != [] ==>
              Reads(w, n, schedule) + ahead == ReadIn(n, schedule[0]) + (Reads(w, w.Move(n, schedule[0]).value, schedule[1..]) + ahead)
  {
    if schedule != [] {
      Associative(ReadIn(n, schedule[0]), Reads(w, w.Move(n, schedule[0]).value, schedule[1..]), ahead);
    }
  }

  /** Main result: Drive, which the dialling methods are proved to follow, reads exactly the bytes of
      the handshake that any completed schedule delivers: whatever comes after them is left unread,
      and success means that the server granted. */
  lemma ExactConsumption(w: World, schedule: seq<bool>, ahead: Bytes)
    requires w.Valid() && w.Run(w.Initial(), schedule).Some? && w.Stuck(w.Run(w.Initial(), schedule).value)
    ensures Drive(w.job, Start(w.job), Reads(w, w.Initial(), schedule) + ahead)
            == Trace(Writes(w, w.Initial(), schedule), ahead, Done(Granted(w)))
  {
    var f, rest := Agreement(w, schedule);
    FollowsDrive(w, w.Initial(), schedule, ahead);
    assert f.client.out == [];
    var sent := Writes(w, w.Initial(), schedule);
    assert sent + [] == sent;
  }

  /** The dialling code against a conforming server: whatever the fragmentation, and whatever follows
      the handshake, it succeeds if and only if the server grants, unless a write is faulty; it then
      leaves exactly what follows unread, and has sent exactly what the server was to be sent. */
  method DialServer(connection: Connection, ghost w: World, ghost schedule: seq<bool>, ghost ahead: Bytes,
                    v4: bool, host: Host, port: nat, credentials: Credentials) returns (failure: Option<Failure>)
    requires w.Valid() && w.job == Job(v4, host, port, credentials)
    requires w.Run(w.Initial(), schedule).Some? && w.Stuck(w.Run(w.Initial(), schedule).value)
    requires connection.input == Reads(w, w.Initial(), schedule) + ahead
    modifies connection
    ensures failure == Some(Broken) <==> connection.Broke(old(connection.writeCount), connection.writeCount)
    ensures failure != Some(Broken) ==>
              && failure == (if Granted(w) then None else Some(Refused))
              && connection.input == ahead
              && connection.sent == old(connection.sent) + Writes(w, w.Initial(), schedule)
  {
    ExactConsumption(w, schedule, ahead);
    failure := Dial(connection, v4, host, port, credentials);
  }
}
