/** The reader of an upstream's CONNECT response in internal/proxy/connect.go: a status line and
    header lines under a byte budget, read through bufio.Reader.ReadLine, which hands out long
    lines in pieces. */
module ConnectReader {
  import opened Prelude

  const MAX_HEADER_BYTES := 65536

  const LF: byte := 10
  const CR: byte := 13
  const COLON: byte := 58

  /** How a status line is understood: its status, when it is well formed. The reader works for
      any such function; module StatusLine has the program's. */
  type StatusParser = Bytes -> Option<int>

  // ----- what the reader should do, on whole lines -----

  /** One line on the wire: its text and whether CR LF (13, 10) or a bare LF (10) ends it. */
  datatype Line = Line(text: Bytes, crlf: bool) {
    ghost predicate Valid() {
      10 !in text && (!crlf ==> text == [] || text[|text| - 1] != 13)
    }

    function Wire(): Bytes {
      text + if crlf then [13, 10] else [10]
    }
  }

  function Wire(lines: seq<Line>): Bytes {
    if lines == [] then [] else lines[0].Wire() + Wire(lines[1..])
  }

  /** What the lines charge against the budget: two bytes a line for its end. */
  function Cost(lines: seq<Line>): nat {
    if lines == [] then 0 else |lines[0].text| + 2 + Cost(lines[1..])
  }

  /** Header lines with a colon (58), then the empty line that ends the block. */
  ghost predicate HeaderLines(lines: seq<Line>) {
    && lines != []
    && lines[|lines| - 1].text == []
    && (forall i :: 0 <= i < |lines| ==> lines[i].Valid())
    && (forall i :: 0 <= i < |lines| - 1 ==> lines[i].text != [] && 58 in lines[i].text)
  }

  /** A complete response block with this status. */
  ghost predicate ResponseBlock(parse: StatusParser, lines: seq<Line>, status: int) {
    && lines != [] && lines[0].Valid()
    && parse(lines[0].text) == Some(status)
    && HeaderLines(lines[1..])
  }

  // ----- the parser on a byte string -----

  /** The index of the first LF at or after i, or the length when there is none. */
  function NextLF(s: Bytes, i: nat): (e: nat)
    requires i <= |s|
    ensures i <= e <= |s| && (e < |s| ==> s[e] == LF)
    decreases |s| - i
  {
    if i == |s| || s[i] == LF then i else NextLF(s, i + 1)
  }

  /** The length of the first line, without its LF. */
  function LineEnd(s: Bytes): (e: nat)
    ensures e <= |s| && (e < |s| ==> s[e] == LF)
  {
    NextLF(s, 0)
  }

  lemma {:induction false} NextLFFirst(s: Bytes, i: nat, j: nat)
    requires i <= |s| && i <= j < NextLF(s, i)
    ensures s[j] != LF && NextLF(s, j) == NextLF(s, i)
    decreases j - i
  {
    if i < j {
      NextLFFirst(s, i + 1, j);
    }
  }

  lemma {:induction false} NextLFIs(s: Bytes, i: nat, e: nat)
    requires i <= e <= |s| && (e < |s| ==> s[e] == LF) && forall j :: i <= j < e ==> s[j] != LF
    ensures NextLF(s, i) == e
    decreases e - i
  {
    if i < e {
      NextLFIs(s, i + 1, e);
    }
  }

  /** LineEnd is the end of a first line. */
  lemma LineEndIs(s: Bytes, e: nat)
    requires e <= |s| && (e < |s| ==> s[e] == LF) && forall j :: 0 <= j < e ==> s[j] != LF
    ensures LineEnd(s) == e
  {
    NextLFIs(s, 0, e);
  }

  lemma LineEndFirst(s: Bytes)
    ensures forall j :: 0 <= j < LineEnd(s) ==> s[j] != LF
  {
    forall j | 0 <= j < LineEnd(s) ensures s[j] != LF {
      NextLFFirst(s, 0, j);
    }
  }

  datatype Outcome = Rejected | Accepted(status: int, rest: Bytes)

  /** The text of a first line that ends with LF, and what follows it. */
  function FirstLine(s: Bytes): (Bytes, Bytes)
    requires LineEnd(s) < |s|
  {
    (TrimSuffix(s[..LineEnd(s)], CR), s[LineEnd(s) + 1..])
  }

  function ReadHeaders(s: Bytes, remaining: int, status: int): Outcome
    decreases |s|
  {
    if LineEnd(s) == |s| then Rejected else
    var (text, rest) := FirstLine(s);
    if |text| + 2 > remaining then Rejected
    else if text == [] then Accepted(status, rest)
    else if COLON !in text then Rejected
    else ReadHeaders(rest, remaining - |text| - 2, status)
  }

  function ReadStatus(parse: StatusParser, s: Bytes): Outcome {
    if LineEnd(s) == |s| then Rejected else
    var (text, rest) := FirstLine(s);
    if |text| + 2 > MAX_HEADER_BYTES || parse(text).None? then Rejected
    else ReadHeaders(rest, MAX_HEADER_BYTES - |text| - 2, parse(text).value)
  }

  // ----- bufio.Reader -----

  /** A buffered reader with the bytes that the upstream will still send before it closes or fails.
      Call i of ReadLine may look at window(i) bytes (4096 in the program) before it must return
      a piece. */
  class Reader {
    const window: nat -> nat
    const widest: nat
    var ahead: Bytes
    var calls: nat

    ghost predicate Valid() {
      forall i :: 2 <= window(i) <= widest
    }

    constructor (stream: Bytes, window: nat -> nat, widest: nat)
      requires forall i :: 2 <= window(i) <= widest
      ensures Valid() && ahead == stream && this.window == window && this.widest == widest
    {
      this.window := window;
      this.widest := widest;
      ahead := stream;
      calls := 0;
    }

    /** How many of the next `limit` bytes come before an LF or the end of the stream. */
    method Scan(limit: nat) returns (n: nat)
      ensures n <= limit && n <= LineEnd(ahead)
      ensures n < limit ==> n == LineEnd(ahead)
    {
      n := 0;
      while n < limit && n < |ahead| && ahead[n] != LF
        invariant n <= limit && n <= |ahead| && NextLF(ahead, n) == LineEnd(ahead)
      {
        n := n + 1;
      }
    }

    /** ReadLine with a given window, when the stream is not at its end. */
    method Cut(limit: nat) returns (part: Bytes, more: bool)
      requires ahead != [] && limit >= 2
      modifies this`ahead
      ensures IsReadLine(old(ahead), limit, part, more, ahead)
    {
      var n := Scan(limit);
      more := n == limit;
      if more {
        PieceIsReadLine(ahead, limit);
        if ahead[n - 1] == CR {
          n := n - 1;
        }
        part := ahead[..n];
      } else {
        LineIsReadLine(ahead, limit);
        part := ahead[..n];
        if n < |ahead| {
          part := TrimSuffix(part, CR);
          n := n + 1;
        }
      }
      ahead := ahead[n..];
    }

    /** ReadLine: a whole line without its end, or a piece of a line that does not fit the window.
        A CR at the end of a piece is left for the next call, in case LF follows. At the end of
        the stream it returns what is left, and fails when nothing is. */
    method ReadLine() returns (part: Bytes, more: bool, ok: bool)
      requires Valid()
      modifies this
      ensures ok == (old(ahead) != []) && calls == old(calls) + 1
      ensures ok ==> IsReadLine(old(ahead), window(old(calls)), part, more, ahead)
      ensures !ok ==> ahead == []
    {
      var limit := window(calls);
      calls := calls + 1;
      if ahead == [] {
        return [], false, false;
      }
      ok := true;
      part, more := Cut(limit);
    }
  }

  lemma PieceIsReadLine(s: Bytes, limit: nat)
    requires 2 <= limit <= LineEnd(s)
    ensures var n := if s[limit - 1] == CR then limit - 1 else limit;
            IsReadLine(s, limit, s[..n], true, s[n..])
  {
  }

  lemma LineIsReadLine(s: Bytes, limit: nat)
    requires LineEnd(s) < limit && s != []
    ensures var e := LineEnd(s);
            if e < |s| then IsReadLine(s, limit, TrimSuffix(s[..e], CR), false, s[e + 1..])
            else IsReadLine(s, limit, s[..e], false, s[e..])
  {
  }

  /** What ReadLine may return with `s` ahead and a window of `limit` bytes, leaving `rest`. */
  ghost predicate IsReadLine(s: Bytes, limit: nat, part: Bytes, more: bool, rest: Bytes) {
    var e := LineEnd(s);
    && |rest| <= |s| <= |rest| + limit
    && if more then
         && 0 < |part| <= e && part == s[..|part|] && rest == s[|part|..]
         && (|part| == e ==> part[|part| - 1] != CR)
       else if e < |s| then
         part == TrimSuffix(s[..e], CR) && rest == s[e + 1..]
       else
         part == s && rest == []
  }

  // ----- the code -----

  /** Cutting k bytes that hold no LF off a line leaves the rest of the line. */
  lemma LineEndFrom(s: Bytes, k: nat)
    requires k <= LineEnd(s)
    ensures LineEnd(s[k..]) == LineEnd(s) - k
  {
    LineEndFirst(s);
    LineEndIs(s[k..], LineEnd(s) - k);
  }

  /** Joining the pieces of a line and its end drops the same CR as reading it whole. */
  lemma LastPiece(s: Bytes, k: nat)
    requires k <= LineEnd(s) && (0 < k == LineEnd(s) ==> s[k - 1] != CR)
    ensures s[..k] + TrimSuffix(s[k..][..LineEnd(s) - k], CR) == TrimSuffix(s[..LineEnd(s)], CR)
  {
    assert s[..LineEnd(s)] == s[..k] + s[k..][..LineEnd(s) - k];
  }

  /** Where joining stands: k bytes of a line are joined, and they do not end between CR and LF. */
  ghost predicate Joined(s: Bytes, k: nat, line: Bytes, rest: Bytes) {
    k <= LineEnd(s) && line == s[..k] && rest == s[k..] && (0 < k == LineEnd(s) ==> s[k - 1] != CR)
  }

  lemma JoinPiece(s: Bytes, k: nat, line: Bytes, ahead: Bytes, limit: nat, part: Bytes, rest: Bytes)
    requires Joined(s, k, line, ahead) && IsReadLine(ahead, limit, part, true, rest)
    ensures Joined(s, k + |part|, line + part, rest) && |part| > 0 && |s| - |rest| == k + |part|
  {
    LineEndFrom(s, k);
    assert s[..k] + s[k..][..|part|] == s[..k + |part|];
    assert s[k..][|part|..] == s[k + |part|..];
  }

  /** A line is joined to its end, which may be that of the stream. */
  ghost predicate WholeLine(s: Bytes, line: Bytes, rest: Bytes) {
    if LineEnd(s) < |s| then (line, rest) == FirstLine(s) else line == s && rest == []
  }

  lemma JoinLast(s: Bytes, k: nat, line: Bytes, ahead: Bytes, limit: nat, part: Bytes, rest: Bytes)
    requires Joined(s, k, line, ahead) && IsReadLine(ahead, limit, part, false, rest)
    ensures WholeLine(s, line + part, rest) && |s| - |rest| <= k + |part| + 2
  {
    LineEndFrom(s, k);
    if LineEnd(s) < |s| {
      LastPiece(s, k);
      AfterLine(s, k);
    } else {
      assert s[..k] + s[k..] == s;
    }
  }

  lemma Join(s: Bytes, k: nat, line: Bytes, ahead: Bytes, limit: nat, part: Bytes, more: bool, rest: Bytes)
    requires Joined(s, k, line, ahead) && IsReadLine(ahead, limit, part, more, rest)
    ensures if more then Joined(s, k + |part|, line + part, rest) else WholeLine(s, line + part, rest)
    ensures |s| - |rest| <= k + limit && if more then |s| - |rest| == k + |part| > k else |s| - |rest| <= k + |part| + 2
  {
    if more {
      JoinPiece(s, k, line, ahead, limit, part, rest);
    } else {
      JoinLast(s, k, line, ahead, limit, part, rest);
    }
  }

  lemma AfterLine(s: Bytes, k: nat)
    requires k <= LineEnd(s) < |s|
    ensures s[k..][LineEnd(s) - k + 1..] == s[LineEnd(s) + 1..]
  {
  }

  /** readLimitedLine: one line, joined from pieces, charged against the budget. It gets a line that
      ends with LF exactly when the line fits the budget, however ReadLine cuts it up. */
  method ReadLimitedLine(reader: Reader, budget: int) returns (line: Bytes, remaining: int, ok: bool)
    requires reader.Valid()
    modifies reader
    ensures IsLimitedLine(old(reader.ahead), budget, line, remaining, ok, reader.ahead)
    ensures |old(reader.ahead)| - |reader.ahead| <=
            if ok then budget - remaining else (if budget < 0 then 0 else budget) + reader.widest
  {
    ghost var s := reader.ahead;
    ghost var k: nat := 0;
    line, remaining := [], budget;
    while true
      invariant Joined(s, k, line, reader.ahead)
      invariant remaining == budget - k && (k > 0 ==> remaining >= 0)
      decreases |reader.ahead|
    {
      ghost var ahead, limit := reader.ahead, reader.window(reader.calls);
      var part, more, got := reader.ReadLine();
      if !got {
        NothingLeft(s, k, line, budget, remaining);
        return line, remaining, false;
      }
      Join(s, k, line, ahead, limit, part, more, reader.ahead);
      remaining := remaining - |part|;
      if !more {
        remaining := remaining - 2;
      }
      if remaining < 0 {
        Overdrawn(s, k, line, part, more, reader.ahead, budget, remaining);
        return line, remaining, false;
      }
      line := line + part;
      if !more {
        Finished(s, line, reader.ahead, budget, remaining);
        return line, remaining, true;
      }
      k := k + |part|;
    }
  }

  /** A stream that ends before its line began has no line. */
  lemma NothingLeft(s: Bytes, k: nat, line: Bytes, budget: int, remaining: int)
    requires Joined(s, k, line, [])
    ensures IsLimitedLine(s, budget, line, remaining, false, [])
  {
  }

  /** A piece that overdraws the budget belongs to a line that does. */
  lemma Overdrawn(s: Bytes, k: nat, line: Bytes, part: Bytes, more: bool, rest: Bytes, budget: int, remaining: int)
    requires k == |line| && remaining < 0 && remaining == budget - k - |part| - if more then 0 else 2
    requires if more then Joined(s, k + |part|, line + part, rest) else WholeLine(s, line + part, rest)
    ensures IsLimitedLine(s, budget, line, remaining, false, rest)
  {
  }

  lemma Finished(s: Bytes, line: Bytes, rest: Bytes, budget: int, remaining: int)
    requires WholeLine(s, line, rest) && remaining == budget - |line| - 2 >= 0 && s != []
    ensures IsLimitedLine(s, budget, line, remaining, true, rest)
  {
  }

  /** What readLimitedLine may return with `s` ahead, leaving `rest`. */
  ghost predicate IsLimitedLine(s: Bytes, budget: int, line: Bytes, remaining: int, ok: bool, rest: Bytes) {
    && (ok ==> remaining == budget - |line| - 2 >= 0)
    && if LineEnd(s) < |s| then
         && (ok <==> |FirstLine(s).0| + 2 <= budget)
         && (ok ==> (line, rest) == FirstLine(s))
       else
         ok ==> line != [] && rest == []
  }

  /** readConnectStatus: the status line, then header lines up to the empty one. Its outcome and
      the position it leaves are ReadStatus of the bytes ahead, however ReadLine cuts lines up;
      it stops within the budget and one more window even when the stream goes on. */
  method ReadConnectStatus(reader: Reader, parse: StatusParser) returns (status: int, ok: bool)
    requires reader.Valid()
    modifies reader
    ensures ReadStatus(parse, old(reader.ahead)) == if ok then Accepted(status, reader.ahead) else Rejected
    ensures |old(reader.ahead)| - |reader.ahead| <= 65536 + reader.widest
  {
    ghost var s := reader.ahead;
    var line, remaining, got := ReadLimitedLine(reader, MAX_HEADER_BYTES);
    StatusRead(parse, s, line, remaining, got, reader.ahead);
    if !got || parse(line).None? {
      return 0, false;
    }
    status := parse(line).value;
    while true
      invariant ReadStatus(parse, s) == ReadHeaders(reader.ahead, remaining, status)
      invariant remaining >= 0 && |s| - |reader.ahead| <= MAX_HEADER_BYTES - remaining
      decreases remaining
    {
      ghost var ahead, budget := reader.ahead, remaining;
      line, remaining, got := ReadLimitedLine(reader, remaining);
      HeaderRead(ahead, budget, line, remaining, got, reader.ahead, status);
      if !got {
        return 0, false;
      }
      if line == [] {
        return status, true;
      }
      if COLON !in line {
        return 0, false;
      }
    }
  }

  /** The same for the status line. */
  lemma StatusRead(parse: StatusParser, s: Bytes, line: Bytes, remaining: int, ok: bool, rest: Bytes)
    requires IsLimitedLine(s, MAX_HEADER_BYTES, line, remaining, ok, rest)
    ensures ReadStatus(parse, s) ==
            if !ok || parse(line).None? then Rejected else ReadHeaders(rest, remaining, parse(line).value)
  {
  }

  /** What one limited line does to the outcome of the header block. */
  lemma HeaderRead(s: Bytes, budget: int, line: Bytes, remaining: int, ok: bool, rest: Bytes, status: int)
    requires IsLimitedLine(s, budget, line, remaining, ok, rest)
    ensures ReadHeaders(s, budget, status) ==
            if !ok then Rejected
            else if line == [] then Accepted(status, rest)
            else if COLON !in line then Rejected
            else ReadHeaders(rest, remaining, status)
  {
  }

  // ----- the exact acceptance condition -----

  lemma FirstLineOfWire(l: Line, t: Bytes)
    requires l.Valid()
    ensures LineEnd(l.Wire() + t) < |l.Wire() + t| && FirstLine(l.Wire() + t) == (l.text, t)
  {
    var s := l.Wire() + t;
    var e := |l.Wire()| - 1;
    assert s[..e] == if l.crlf then l.text + [CR] else l.text;
    forall j | 0 <= j < e ensures s[j] != LF {
      assert s[j] == s[..e][j];
    }
    LineEndIs(s, e);
    assert s[e + 1..] == t;
    if l.crlf {
      assert (l.text + [CR])[..|l.text|] == l.text;
    }
  }

  /** The line that a first line was. */
  lemma WireOfFirstLine(s: Bytes) returns (l: Line)
    requires LineEnd(s) < |s|
    ensures l.Valid() && l.text == FirstLine(s).0 && s == l.Wire() + FirstLine(s).1
  {
    var raw := s[..LineEnd(s)];
    LineEndFirst(s);
    assert s == raw + [LF] + s[LineEnd(s) + 1..];
    l := Line(TrimSuffix(raw, CR), raw != [] && raw[|raw| - 1] == CR);
    if l.crlf {
      assert raw == l.text + [CR];
      assert raw + [LF] == l.text + [CR, LF];
    }
  }

  lemma WireSplit(lines: seq<Line>, t: Bytes)
    requires lines != []
    ensures Wire(lines) + t == lines[0].Wire() + (Wire(lines[1..]) + t)
  {
    Associative(lines[0].Wire(), Wire(lines[1..]), t);
  }

  /** One header line at the front. */
  lemma HeaderStep(l: Line, t: Bytes, remaining: int, status: int)
    requires l.Valid()
    ensures ReadHeaders(l.Wire() + t, remaining, status) ==
            if |l.text| + 2 > remaining then Rejected
            else if l.text == [] then Accepted(status, t)
            else if COLON !in l.text then Rejected
            else ReadHeaders(t, remaining - |l.text| - 2, status)
  {
    FirstLineOfWire(l, t);
  }

  /** The status line at the front. */
  lemma StatusStep(parse: StatusParser, l: Line, t: Bytes)
    requires l.Valid()
    ensures ReadStatus(parse, l.Wire() + t) ==
            if |l.text| + 2 > MAX_HEADER_BYTES || parse(l.text).None? then Rejected
            else ReadHeaders(t, MAX_HEADER_BYTES - |l.text| - 2, parse(l.text).value)
  {
    FirstLineOfWire(l, t);
  }

  lemma {:induction false} HeadersSound(s: Bytes, remaining: int, status: int) returns (lines: seq<Line>)
    requires ReadHeaders(s, remaining, status).Accepted?
    ensures HeaderLines(lines) && Cost(lines) <= remaining
    ensures s == Wire(lines) + ReadHeaders(s, remaining, status).rest
    ensures ReadHeaders(s, remaining, status).status == status
    decreases |s|
  {
    var (text, rest) := FirstLine(s);
    var l := WireOfFirstLine(s);
    HeaderStep(l, rest, remaining, status);
    if text == [] {
      lines := [l];
      assert Wire(lines) == l.Wire() + [] == l.Wire();
    } else {
      var tail := HeadersSound(rest, remaining - |text| - 2, status);
      lines := [l] + tail;
      HeaderLinesCons(l, tail);
      WireSplit(lines, ReadHeaders(s, remaining, status).rest);
    }
  }

  lemma HeaderLinesCons(l: Line, tail: seq<Line>)
    requires l.Valid() && l.text != [] && COLON in l.text && HeaderLines(tail)
    ensures HeaderLines([l] + tail) && ([l] + tail)[1..] == tail
  {
  }

  lemma HeaderLinesTail(lines: seq<Line>)
    requires HeaderLines(lines)
    ensures lines[0].Valid() && (|lines| == 1 <==> lines[0].text == [])
    ensures |lines| > 1 ==> 58 in lines[0].text && HeaderLines(lines[1..])
  {
  }

  lemma {:induction false} HeadersComplete(lines: seq<Line>, t: Bytes, remaining: int, status: int)
    requires HeaderLines(lines)
    ensures ReadHeaders(Wire(lines) + t, remaining, status) == if Cost(lines) <= remaining then Accepted(status, t) else Rejected
  {
    WireSplit(lines, t);
    HeaderLinesTail(lines);
    HeaderStep(lines[0], Wire(lines[1..]) + t, remaining, status);
    if |lines| == 1 {
      assert Wire(lines[1..]) + t == t;
    } else {
      HeadersComplete(lines[1..], t, remaining - |lines[0].text| - 2, status);
    }
  }

  /** A complete block is accepted exactly when it fits, and tunnel bytes after it are untouched. */
  lemma {:induction false} BlockOutcome(parse: StatusParser, lines: seq<Line>, status: int, tunnel: Bytes)
    requires ResponseBlock(parse, lines, status)
    ensures ReadStatus(parse, Wire(lines) + tunnel) ==
            if Cost(lines) <= 65536 then Accepted(status, tunnel) else Rejected
  {
    WireSplit(lines, tunnel);
    StatusStep(parse, lines[0], Wire(lines[1..]) + tunnel);
    HeadersComplete(lines[1..], tunnel, MAX_HEADER_BYTES - |lines[0].text| - 2, status);
  }

  lemma BlockExists(parse: StatusParser, s: Bytes) returns (lines: seq<Line>)
    requires ReadStatus(parse, s).Accepted?
    ensures var o := ReadStatus(parse, s);
            ResponseBlock(parse, lines, o.status) && Cost(lines) <= MAX_HEADER_BYTES && s == Wire(lines) + o.rest
  {
    var (text, after) := FirstLine(s);
    var l := WireOfFirstLine(s);
    var tail := HeadersSound(after, MAX_HEADER_BYTES - |text| - 2, parse(text).value);
    lines := [l] + tail;
    assert lines[1..] == tail;
    WireSplit(lines, ReadStatus(parse, s).rest);
  }

  /** Main result: a response is accepted exactly when it starts with a complete block whose lines
      cost at most 65536 bytes, and the reader is left at the byte after the empty line. */
  lemma AcceptedExactly(parse: StatusParser, s: Bytes, status: int, rest: Bytes)
    ensures ReadStatus(parse, s) == Accepted(status, rest) <==>
            exists lines :: ResponseBlock(parse, lines, status) && Cost(lines) <= 65536 && s == Wire(lines) + rest
  {
    if ReadStatus(parse, s) == Accepted(status, rest) {
      var lines := BlockExists(parse, s);
    } else {
      forall lines | ResponseBlock(parse, lines, status) && Cost(lines) <= MAX_HEADER_BYTES && s == Wire(lines) + rest
        ensures false
      {
        BlockOutcome(parse, lines, status, rest);
      }
    }
  }

  lemma {:induction false} HasCost(lines: seq<Line>)
    ensures |Wire(lines)| <= Cost(lines) && 2 * |lines| <= Cost(lines)
  {
    if lines != [] {
      HasCost(lines[1..]);
    }
  }

  /** An accepted block has at most 32768 lines. */
  lemma AcceptedLines(lines: seq<Line>)
    requires Cost(lines) <= 65536
    ensures |lines| <= 32768 && |Wire(lines)| <= 65536
  {
    HasCost(lines);
  }

  /** Main result for endless streams: 65537 bytes decide. More bytes extend the tunnel data of an
      accepted response, and never rescue a rejected one. */
  lemma {:induction false} DecidedByPrefix(parse: StatusParser, s: Bytes, t: Bytes)
    requires |s| > 65536
    ensures ReadStatus(parse, s + t) ==
            match ReadStatus(parse, s) case Rejected => Rejected case Accepted(status, rest) => Accepted(status, rest + t)
  {
    if ReadStatus(parse, s).Accepted? {
      var o := ReadStatus(parse, s);
      var lines := BlockExists(parse, s);
      Associative(Wire(lines), o.rest, t);
      BlockOutcome(parse, lines, o.status, o.rest + t);
    } else if ReadStatus(parse, s + t).Accepted? {
      var o := ReadStatus(parse, s + t);
      var lines := BlockExists(parse, s + t);
      HasCost(lines);
      PrefixOf(s, t, Wire(lines), o.rest);
      BlockOutcome(parse, lines, o.status, s[|Wire(lines)|..]);
    }
  }

  lemma PrefixOf(s: Bytes, t: Bytes, a: Bytes, b: Bytes)
    requires s + t == a + b && |a| <= |s|
    ensures s == a + s[|a|..]
  {
    assert s == (s + t)[..|s|];
    assert a == (a + b)[..|a|] == s[..|a|];
  }
}
