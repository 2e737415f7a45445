/** The status line of an upstream's CONNECT response, as readConnectStatus understands it. */
module StatusLine {
  import opened Prelude
  import opened Unicode
  import opened ConnectReader

  /** The length of the white space character that starts the bytes, or 0; UTF-8 as unicode.IsSpace sees it.
      The first byte of such a character is never a later byte of any, so these bytes decide. */
  function SpaceAt(s: Bytes): (n: nat)
    requires s != []
    ensures n <= |s|
  {
    if 9 <= s[0] <= 13 || s[0] == 32 then 1
    else if 1 < |s| && s[0] == 0xc2 && (s[1] == 0x85 || s[1] == 0xa0) then 2
    else if 2 < |s| && IsWideSpace(s[0], s[1], s[2]) then 3
    else 0
  }

  /** U+1680, U+2000 to U+200A, U+2028, U+2029, U+202F, U+205F and U+3000. */
  predicate IsWideSpace(a: byte, b: byte, c: byte) {
    || (a == 0xe1 && b == 0x9a && c == 0x80)
    || (a == 0xe2 && b == 0x80 && (0x80 <= c <= 0x8a || c == 0xa8 || c == 0xa9 || c == 0xaf))
    || (a == 0xe2 && b == 0x81 && c == 0x9f)
    || (a == 0xe3 && b == 0x80 && c == 0x80)
  }

  /** The length of the word that starts the bytes. */
  function WordEnd(s: Bytes): (n: nat)
    ensures n <= |s| && Breaks(s[n..])
    ensures !Breaks(s) ==> n > 0
  {
    if Breaks(s) then
      assert s[0..] == s;
      0
    else
      var n := WordEnd(s[1..]);
      assert s[1 + n..] == s[1..][n..];
      1 + n
  }

  /** A word before these bytes ends. */
  predicate Breaks(s: Bytes) {
    s != [] ==> SpaceAt(s) > 0
  }

  /** strings.Fields. */
  function Fields(s: Bytes): seq<Bytes> {
    if s == [] then []
    else if SpaceAt(s) > 0 then Fields(s[SpaceAt(s)..])
    else [s[..WordEnd(s)]] + Fields(s[WordEnd(s)..])
  }

  /** The characters of an ASCII text; a byte beyond ASCII becomes one that is no digit. */
  function Characters(s: Bytes): string {
    seq(|s|, i requires 0 <= i < |s| => s[i] as int as char)
  }

  /** strconv.Atoi: an optional sign and at least one digit. */
  function Atoi(s: string): Option<int> {
    var signed := s != [] && (s[0] == '+' || s[0] == '-');
    var digits := if signed then s[1..] else s;
    if digits == [] || !AllDigits(digits) then None
    else
      var value: int := if signed && s[0] == '-' then 0 - Value(digits) as int else Value(digits) as int;
      Some(value)
  }

  const HTTP_11: Bytes := [72, 84, 84, 80, 47, 49, 46, 49]
  const HTTP_10: Bytes := [72, 84, 84, 80, 47, 49, 46, 48]

  function StatusOf(line: Bytes): (r: Option<int>)
    ensures r.Some? ==> 100 <= r.value <= 599
  {
    var parts := Fields(line);
    if |parts| < 2 || (parts[0] != HTTP_11 && parts[0] != HTTP_10) then None
    else match Atoi(Characters(parts[1]))
      case Some(status) => if 100 <= status <= 599 then Some(status) else None
      case None => None
  }

  // ----- white space and words -----

  /** The two tables of white space agree: exactly the bytes of such a character are taken for one. */
  lemma SpaceAtUtf8(c: char, rest: Bytes)
    ensures SpaceAt(Utf8(c) + rest) == if IsSpace(c) then |Utf8(c)| else 0
  {
    Utf8RoundTrip(c);
    var b := Utf8(c);
    forall k | 0 <= k < |b| ensures (b + rest)[k] == b[k] { }
  }

  /** The white space character that starts the bytes. */
  lemma SpaceIsUtf8(s: Bytes) returns (c: char)
    requires s != [] && SpaceAt(s) > 0
    ensures IsSpace(c) && s == Utf8(c) + s[SpaceAt(s)..] && |Utf8(c)| == SpaceAt(s)
  {
    var n := SpaceAt(s);
    var code := if n == 1 then s[0] as int
                else if n == 2 then (s[0] as int - 0xc0) * 64 + Bits(s[1])
                else (s[0] as int - 0xe0) * 4096 + Bits(s[1]) * 64 + Bits(s[2]);
    c := code as char;
    assert s == s[..n] + s[n..];
    if n == 1 {
      assert s[..n] == [s[0]];
    } else if n == 2 {
      assert s[..n] == [s[0], s[1]];
    } else {
      assert s[..n] == [s[0], s[1], s[2]];
    }
  }

  ghost predicate White(s: string) {
    forall i :: 0 <= i < |s| ==> IsSpace(s[i])
  }

  lemma SkipsOne(c: char, rest: Bytes)
    requires IsSpace(c)
    ensures Fields(Utf8(c) + rest) == Fields(rest)
  {
    SpaceAtUtf8(c, rest);
    assert (Utf8(c) + rest)[|Utf8(c)|..] == rest;
  }

  lemma {:induction false} SkipsWhite(blank: string, rest: Bytes)
    requires White(blank)
    ensures Fields(Encode(blank) + rest) == Fields(rest)
  {
    if blank == [] {
      assert Encode(blank) + rest == rest;
    } else {
      Associative(Utf8(blank[0]), Encode(blank[1..]), rest);
      SkipsOne(blank[0], Encode(blank[1..]) + rest);
      SkipsWhite(blank[1..], rest);
    }
  }

  lemma BlankBreaks(blank: string, rest: Bytes)
    requires White(blank) && blank != []
    ensures Breaks(Encode(blank) + rest)
  {
    Associative(Utf8(blank[0]), Encode(blank[1..]), rest);
    SpaceAtUtf8(blank[0], Encode(blank[1..]) + rest);
  }

  /** No white space starts inside the word at the front. */
  lemma {:induction false} PlainWord(s: Bytes, n: nat, j: nat)
    requires j < n == WordEnd(s)
    ensures SpaceAt(s[..n][j..]) == 0
  {
    if j == 0 {
      assert s[..n][j..] == s[..n];
    } else {
      PlainWord(s[1..], n - 1, j - 1);
      SliceShift(s, n, j);
    }
  }

  lemma SliceShift(s: Bytes, n: nat, j: nat)
    requires 0 < j <= n <= |s|
    ensures s[..n][j..] == s[1..][..n - 1][j - 1..]
  {
    assert s[1..][..n - 1] == s[..n][1..];
  }

  /** Every field is a word: not empty, and without white space. */
  lemma {:induction false} FieldsAreWords(s: Bytes)
    ensures forall w :: w in Fields(s) ==> w != [] && forall j :: 0 <= j < |w| ==> SpaceAt(w[j..]) == 0
    decreases |s|
  {
    if s != [] && SpaceAt(s) > 0 {
      FieldsAreWords(s[SpaceAt(s)..]);
    } else if s != [] {
      var n := WordEnd(s);
      FieldsAreWords(s[n..]);
      forall j | 0 <= j < n ensures SpaceAt(s[..n][j..]) == 0 {
        PlainWord(s, n, j);
      }
    }
  }

  /** Printing ASCII, other than the blank. */
  ghost predicate Visible(b: byte) {
    33 <= b < 127
  }

  ghost predicate IsWord(w: Bytes) {
    w != [] && forall k :: 0 <= k < |w| ==> Visible(w[k])
  }

  lemma VisibleStarts(w: Bytes, rest: Bytes)
    requires w != [] && Visible(w[0])
    ensures !Breaks(w + rest)
  {
    assert (w + rest)[0] == w[0];
  }

  lemma {:induction false} WordEndsAt(w: Bytes, rest: Bytes)
    requires (forall k :: 0 <= k < |w| ==> Visible(w[k])) && Breaks(rest)
    ensures WordEnd(w + rest) == |w|
  {
    if w == [] {
      assert w + rest == rest;
    } else {
      assert (w + rest)[1..] == w[1..] + rest;
      VisibleStarts(w, rest);
      WordEndsAt(w[1..], rest);
    }
  }

  /** A visible word at the front, up to white space or the end. */
  lemma OneField(w: Bytes, rest: Bytes)
    requires IsWord(w) && Breaks(rest)
    ensures Fields(w + rest) == [w] + Fields(rest)
  {
    WordEndsAt(w, rest);
    VisibleStarts(w, rest);
    assert (w + rest)[..|w|] == w && (w + rest)[|w|..] == rest;
  }

  /** The first field: white space, a word, and the other fields. */
  lemma {:induction false} FirstField(s: Bytes) returns (lead: string, w: Bytes, rest: Bytes)
    requires Fields(s) != []
    ensures White(lead) && s == Encode(lead) + (w + rest) && !Breaks(w + rest) && Breaks(rest)
    ensures Fields(s) == [w] + Fields(rest)
    decreases |s|
  {
    if SpaceAt(s) > 0 {
      var c := SpaceIsUtf8(s);
      lead, w, rest := FirstField(s[SpaceAt(s)..]);
      Associative(Utf8(c), Encode(lead), w + rest);
      lead := [c] + lead;
      assert lead[1..] == lead[1..] && Encode(lead) == Utf8(c) + Encode(lead[1..]);
    } else {
      lead, w, rest := [], s[..WordEnd(s)], s[WordEnd(s)..];
      assert s == w + rest && Encode(lead) + s == s;
    }
  }

  // ----- the status -----

  function Zeros(n: nat): string {
    seq(n, _ => '0')
  }

  /** The three digits of a number below 1000, the first of them not 0. */
  ghost predicate ThreeDigits(s: string, n: int) {
    && |s| == 3 && '1' <= s[0] <= '9' && '0' <= s[1] <= '9' && '0' <= s[2] <= '9'
    && n == 100 * (s[0] as int - 48) + 10 * (s[1] as int - 48) + (s[2] as int - 48)
  }

  /** A word for a number with three digits, as strconv.Atoi takes it: perhaps a plus sign, perhaps
      zeros, and the digits. */
  ghost predicate Denotes(word: string, n: int) {
    exists plus, zeros, digits :: Spells(word, n, plus, zeros, digits)
  }

  ghost predicate Spells(word: string, n: int, plus: bool, zeros: nat, digits: string) {
    ThreeDigits(digits, n) && word == (if plus then "+" else "") + (Zeros(zeros) + digits)
  }

  lemma {:induction false} ValueOfZeros(n: nat)
    ensures AllDigits(Zeros(n)) && Value(Zeros(n)) == 0
  {
    if n > 0 {
      ValueOfZeros(n - 1);
      assert Zeros(n)[..n - 1] == Zeros(n - 1);
    }
  }

  lemma {:induction false} ZeroValue(s: string)
    requires AllDigits(s) && Value(s) == 0
    ensures s == Zeros(|s|)
  {
    if s != [] {
      var n := |s| - 1;
      assert IsDigit(s[n]);
      ZeroValue(s[..n]);
      assert s == s[..n] + [s[n]];
    }
  }

  lemma LastDigit(s: string, n: nat)
    requires AllDigits(s) && n < |s|
    ensures IsDigit(s[n]) && AllDigits(s[..n]) && AllDigits(s[..n + 1])
    ensures Value(s[..n + 1]) == 10 * Value(s[..n]) + (s[n] as int - 48)
  {
    assert s[..n + 1][..n] == s[..n] && s[..n + 1][n] == s[n];
  }

  lemma LastThree(s: string, k: nat)
    requires AllDigits(s) && |s| == k + 3
    ensures AllDigits(s[..k])
    ensures Value(s) == 1000 * Value(s[..k]) + 100 * (s[k] as int - 48) + 10 * (s[k + 1] as int - 48) + (s[k + 2] as int - 48)
  {
    LastDigit(s, k);
    LastDigit(s, k + 1);
    LastDigit(s, k + 2);
    assert s[..k + 3] == s;
  }

  lemma FewDigits(s: string)
    requires AllDigits(s) && |s| <= 2
    ensures Value(s) < 100
  {
    assert s[..|s|] == s && s[..0] == [];
    if |s| >= 1 {
      LastDigit(s, 0);
    }
    if |s| == 2 {
      LastDigit(s, 1);
    }
  }

  /** The digits of a number from 100 to 999 are zeros and its three digits. */
  lemma DigitsDenote(s: string, n: int) returns (zeros: nat, digits: string)
    requires AllDigits(s) && Value(s) == n && 100 <= n <= 999
    ensures s == Zeros(zeros) + digits && ThreeDigits(digits, n)
  {
    if |s| < 3 {
      FewDigits(s);
      assert false;
    } else {
      zeros := |s| - 3;
      digits := s[zeros..];
      LastThree(s, zeros);
      assert IsDigit(s[zeros]) && IsDigit(s[zeros + 1]) && IsDigit(s[zeros + 2]);
      ZeroValue(s[..zeros]);
      assert s == s[..zeros] + digits;
    }
  }

  lemma DenotesDigits(zeros: nat, digits: string, n: int)
    requires ThreeDigits(digits, n)
    ensures AllDigits(Zeros(zeros) + digits) && Value(Zeros(zeros) + digits) == n
  {
    var s := Zeros(zeros) + digits;
    assert s[zeros] == digits[0] && s[zeros + 1] == digits[1] && s[zeros + 2] == digits[2];
    ValueOfZeros(zeros);
    LastThree(s, zeros);
    assert s[..zeros] == Zeros(zeros);
  }

  lemma AtoiOfDigits(plus: bool, s: string)
    requires AllDigits(s) && s != []
    ensures Atoi((if plus then "+" else "") + s) == Some(Value(s))
  {
    assert IsDigit(s[0]);
    assert "" + s == s && ("+" + s)[1..] == s;
  }

  lemma AtoiPositive(word: string, n: int) returns (plus: bool, s: string)
    requires Atoi(word) == Some(n) && n > 0
    ensures word == (if plus then "+" else "") + s && AllDigits(s) && Value(s) == n
  {
    plus := word[0] == '+';
    s := if plus then word[1..] else word;
  }

  lemma SpelledIsRead(word: string, n: int, plus: bool, zeros: nat, digits: string)
    requires Spells(word, n, plus, zeros, digits)
    ensures Atoi(word) == Some(n)
  {
    DenotesDigits(zeros, digits, n);
    AtoiOfDigits(plus, Zeros(zeros) + digits);
  }

  /** A number of three digits is read from exactly the words that denote it. */
  lemma AtoiExactly(word: string, n: int)
    requires 100 <= n <= 999
    ensures Atoi(word) == Some(n) <==> Denotes(word, n)
  {
    if Atoi(word) == Some(n) {
      var plus, s := AtoiPositive(word, n);
      var zeros, digits := DigitsDenote(s, n);
      assert Spells(word, n, plus, zeros, digits);
    }
    if Denotes(word, n) {
      var plus: bool, zeros: nat, digits: string :| Spells(word, n, plus, zeros, digits);
      SpelledIsRead(word, n, plus, zeros, digits);
    }
  }

  // ----- the status line -----

  /** The parts of a status line: white space, HTTP/1.0 or HTTP/1.1, white space, a word for a number from
      100 to 599, and nothing more or white space and any bytes. */
  ghost predicate Parts(line: Bytes, n: int, lead: string, minor: char, blank: string, word: string, tail: Bytes) {
    && line == Encode(lead) + (Encode("HTTP/1." + [minor]) + (Encode(blank) + (Encode(word) + tail)))
    && White(lead) && (minor == '0' || minor == '1') && White(blank) && blank != []
    && 100 <= n <= 599 && Denotes(word, n)
    && EndsWord(tail)
  }

  ghost predicate EndsWord(tail: Bytes) {
    tail == [] || exists c :: IsSpace(c) && Utf8(c) <= tail
  }

  /** The line says that the status is n. */
  ghost predicate Says(line: Bytes, n: int) {
    exists lead, minor, blank, word, tail :: Parts(line, n, lead, minor, blank, word, tail)
  }

  lemma VersionBytes(minor: char)
    requires minor == '0' || minor == '1'
    ensures Encode("HTTP/1." + [minor]) == if minor == '0' then HTTP_10 else HTTP_11
  {
    EncodeAscii("HTTP/1." + [minor]);
  }

  lemma WordBytes(word: string, n: int)
    requires Denotes(word, n)
    ensures IsAscii(word) && IsWord(Encode(word)) && Characters(Encode(word)) == word
  {
    var plus: bool, zeros: nat, digits: string :| Spells(word, n, plus, zeros, digits);
    DenotesDigits(zeros, digits, n);
    ShortAscii(plus, Zeros(zeros) + digits);
    EncodeAscii(word);
    assert forall i :: 0 <= i < |word| ==> Characters(Encode(word))[i] == word[i];
  }

  lemma ShortAscii(plus: bool, s: string)
    requires AllDigits(s)
    ensures var word := (if plus then "+" else "") + s; forall i :: 0 <= i < |word| ==> 33 <= word[i] as int < 127
  {
    var word := (if plus then "+" else "") + s;
    forall i | 0 <= i < |word| ensures 33 <= word[i] as int < 127 {
      assert word[i] == '+' || word[i] in s;
    }
  }

  lemma AsciiOfCharacters(b: Bytes)
    requires IsAscii(Characters(b))
    ensures Encode(Characters(b)) == b
  {
    EncodeAscii(Characters(b));
  }

  lemma BreaksAtTail(tail: Bytes)
    ensures EndsWord(tail) <==> Breaks(tail)
  {
    if EndsWord(tail) && tail != [] {
      var c :| IsSpace(c) && Utf8(c) <= tail;
      assert tail == Utf8(c) + tail[|Utf8(c)|..];
      SpaceAtUtf8(c, tail[|Utf8(c)|..]);
    }
    if Breaks(tail) && tail != [] {
      var c := SpaceIsUtf8(tail);
      assert IsSpace(c) && Utf8(c) <= tail;
    }
  }

  lemma TwoFields(lead: string, v: Bytes, blank: string, w: Bytes, tail: Bytes)
    requires White(lead) && IsWord(v) && White(blank) && blank != [] && IsWord(w) && Breaks(tail)
    ensures Fields(Encode(lead) + (v + (Encode(blank) + (w + tail)))) == [v] + ([w] + Fields(tail))
  {
    SkipsWhite(lead, v + (Encode(blank) + (w + tail)));
    BlankBreaks(blank, w + tail);
    OneField(v, Encode(blank) + (w + tail));
    SkipsWhite(blank, w + tail);
    OneField(w, tail);
  }

  lemma TwoFieldsOnly(s: Bytes) returns (lead: string, v: Bytes, blank: string, w: Bytes, tail: Bytes)
    requires |Fields(s)| >= 2
    ensures White(lead) && White(blank) && blank != [] && Breaks(tail)
    ensures s == Encode(lead) + (v + (Encode(blank) + (w + tail))) && Fields(s) == [v] + ([w] + Fields(tail))
  {
    var rest;
    lead, v, rest := FirstField(s);
    blank, w, tail := FirstField(rest);
    assert [] + (w + tail) == w + tail;
  }

  lemma StatusOfFields(line: Bytes, v: Bytes, w: Bytes, rest: seq<Bytes>, n: int)
    requires Fields(line) == [v] + ([w] + rest) && (v == HTTP_10 || v == HTTP_11)
    requires 100 <= n <= 599 && Atoi(Characters(w)) == Some(n)
    ensures StatusOf(line) == Some(n)
  {
  }

  /** Such a line is understood as its number. */
  lemma SaidIsRead(line: Bytes, n: int, lead: string, minor: char, blank: string, word: string, tail: Bytes)
    requires Parts(line, n, lead, minor, blank, word, tail)
    ensures StatusOf(line) == Some(n)
  {
    var v, w := Encode("HTTP/1." + [minor]), Encode(word);
    VersionBytes(minor);
    WordBytes(word, n);
    BreaksAtTail(tail);
    TwoFields(lead, v, blank, w, tail);
    AtoiExactly(word, n);
    StatusOfFields(line, v, w, Fields(tail), n);
  }

  /** Only such a line is understood as a number. */
  lemma ReadWasSaid(line: Bytes, n: int)
    requires StatusOf(line) == Some(n)
    ensures Says(line, n)
  {
    var lead, v, blank, w, tail := TwoFieldsOnly(line);
    var word, minor := Characters(w), if v == HTTP_10 then '0' else '1';
    AtoiExactly(word, n);
    WordBytes(word, n);
    AsciiOfCharacters(w);
    VersionBytes(minor);
    BreaksAtTail(tail);
    assert Parts(line, n, lead, minor, blank, word, tail);
  }

  /** A status line is understood exactly as the number that it says. */
  lemma StatusExactly(line: Bytes, n: int)
    ensures StatusOf(line) == Some(n) <==> Says(line, n)
  {
    if StatusOf(line) == Some(n) {
      ReadWasSaid(line, n);
    }
    if Says(line, n) {
      var lead: string, minor: char, blank: string, word: string, tail: Bytes :| Parts(line, n, lead, minor, blank, word, tail);
      SaidIsRead(line, n, lead, minor, blank, word, tail);
    }
  }

  // ----- the response -----

  /** A complete response block that says n and costs at most 65536 bytes. */
  ghost predicate Response(lines: seq<Line>, n: int) {
    lines != [] && lines[0].Valid() && Says(lines[0].text, n) && HeaderLines(lines[1..]) && Cost(lines) <= 65536
  }

  /** The two notions of a response block agree. */
  lemma ResponseIsBlock(lines: seq<Line>, n: int)
    ensures Response(lines, n) <==> ResponseBlock(StatusOf, lines, n) && Cost(lines) <= MAX_HEADER_BYTES
  {
    if lines != [] {
      StatusExactly(lines[0].text, n);
    }
  }

  /** Main result: the bytes are accepted with a status exactly when they start with a response that says
      it and fits, and what follows it is left. */
  lemma ResponseExactly(s: Bytes, n: int, rest: Bytes)
    ensures ReadStatus(StatusOf, s) == Accepted(n, rest) <==> exists lines :: Response(lines, n) && s == Wire(lines) + rest
  {
    AcceptedExactly(StatusOf, s, n, rest);
    forall lines: seq<Line> {
      ResponseIsBlock(lines, n);
    }
  }

  /** readConnectStatus: it returns the status that the upstream's response says, and leaves the reader at
      the byte after the empty line, exactly when there is such a response and it fits. */
  method ReadResponse(reader: Reader) returns (status: int, ok: bool)
    requires reader.Valid()
    modifies reader
    ensures ok ==> exists lines :: Response(lines, status) && old(reader.ahead) == Wire(lines) + reader.ahead
    ensures forall lines, n, rest :: Response(lines, n) && old(reader.ahead) == Wire(lines) + rest ==>
              ok && status == n && reader.ahead == rest
  {
    ghost var s := reader.ahead;
    status, ok := ReadConnectStatus(reader, StatusOf);
    if ok {
      ResponseExactly(s, status, reader.ahead);
    }
    forall lines, n, rest | Response(lines, n) && s == Wire(lines) + rest
      ensures ok && status == n && reader.ahead == rest
    {
      ResponseExactly(s, n, rest);
    }
  }

  /** The end of dialConnect: the upstream grants the tunnel exactly when it answers with a response that
      says 200 and fits, and then the reader stands at the tunnel's first byte. */
  method AwaitTunnel(reader: Reader) returns (granted: bool)
    requires reader.Valid()
    modifies reader
    ensures granted ==> exists lines :: Response(lines, 200) && old(reader.ahead) == Wire(lines) + reader.ahead
    ensures !granted ==> forall lines, rest :: Response(lines, 200) ==> old(reader.ahead) != Wire(lines) + rest
  {
    var status, ok := ReadResponse(reader);
    granted := ok && status == 200;
  }
}
