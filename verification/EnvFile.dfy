/** Reading configuration variables from an environment file and the process: readEnvValues and
    validEnvName of internal/config/env.go. Text is a sequence of Unicode characters; the scanner's
    limit counts their UTF-8 bytes. */
module EnvFile {
  import opened Prelude
  import opened Unicode

  datatype Error = Unreadable | TooLong | BadAssignment(line: nat) | Duplicate(key: string)

  datatype Result<T> = Ok(value: T) | Err(error: Error)

  /** A file is read to its end or, when `fails`, up to a read error. */
  datatype File = Missing | CannotOpen | Contents(text: string, fails: bool)

  type Values = map<string, string>

  // ----- characters -----

  predicate IsUpper(c: char) {
    'A' <= c <= 'Z'
  }

  function TrimLeft(s: string): (r: string)
    ensures r == [] || !IsSpace(r[0])
  {
    if s != [] && IsSpace(s[0]) then TrimLeft(s[1..]) else s
  }

  function TrimRight(s: string): (r: string)
    ensures r == [] || !IsSpace(r[|r| - 1])
    ensures r <= s
  {
    if s != [] && IsSpace(s[|s| - 1]) then TrimRight(s[..|s| - 1]) else s
  }

  /** strings.TrimSpace. */
  function TrimSpace(s: string): string {
    TrimRight(TrimLeft(s))
  }

  /** What readEnvValues makes of a line's end: the scanner drops one carriage return, and the loop
      another. */
  function Ended(s: string): string {
    TrimSuffix(TrimSuffix(s, '\r'), '\r')
  }

  /** The index of the first c in s, or |s|. */
  function IndexOf(s: string, c: char): (n: nat)
    ensures n <= |s| && (n < |s| ==> s[n] == c) && c !in s[..n]
  {
    if s == [] || s[0] == c then 0
    else
      var n := IndexOf(s[1..], c);
      assert s[..n + 1] == [s[0]] + s[1..][..n];
      n + 1
  }

  // ----- lines -----

  /** The lines of a text; a last line needs no newline, unless it is empty. */
  function Lines(text: string): seq<string>
    decreases |text|
  {
    if text == [] then []
    else
      var n := IndexOf(text, '\n');
      if n == |text| then [text] else [text[..n]] + Lines(text[n + 1..])
  }

  const MAX_TOKEN := 1048576

  predicate ValidName(name: string) {
    && name != [] && IsUpper(name[0])
    && forall i :: 1 <= i < |name| ==> IsUpper(name[i]) || IsDigit(name[i]) || name[i] == '_'
  }

  const PREFIX := "MUX_"

  /** What one line means. */
  datatype Meaning = Nothing | Invalid | Assigns(key: string, value: string)

  function Meant(line: string): Meaning {
    var trimmed := TrimSpace(line);
    if trimmed == [] || trimmed[0] == '#' then Nothing
    else
      var n := IndexOf(line, '=');
      var key := TrimSpace(line[..n]);
      if n == |line| || !ValidName(key) then Invalid
      else if !(PREFIX <= key) then Nothing
      else Assigns(key, line[n + 1..])
  }

  /** The scanner can deliver the line. */
  predicate Fits(raw: string) {
    |Encode(raw)| < 1048576
  }

  /** What the scanner and the loop together make of each raw line. */
  function Meanings(lines: seq<string>): (r: seq<Meaning>)
    ensures |r| == |lines|
  {
    seq(|lines|, i requires 0 <= i < |lines| => Meant(Ended(lines[i])))
  }

  predicate Assigned(m: Meaning, key: string) {
    m.Assigns? && m.key == key
  }

  /** The meaning at i is neither an error of its own nor a repetition of one before it. */
  predicate Sensible(ms: seq<Meaning>, i: nat)
    requires i < |ms|
  {
    !ms[i].Invalid? && (ms[i].Assigns? ==> forall j :: 0 <= j < i ==> !Assigned(ms[j], ms[i].key))
  }

  predicate Good(lines: seq<string>, ms: seq<Meaning>, i: nat)
    requires i < |lines| == |ms|
  {
    Fits(lines[i]) && Sensible(ms, i)
  }

  ghost predicate AllGood(lines: seq<string>, n: nat)
    requires n <= |lines|
  {
    forall i :: 0 <= i < n ==> Good(lines, Meanings(lines), i)
  }

  ghost predicate Mentions(ms: seq<Meaning>, key: string) {
    exists i :: 0 <= i < |ms| && Assigned(ms[i], key)
  }

  /** `values` holds exactly what the meanings assign. */
  ghost predicate Collects(values: Values, ms: seq<Meaning>) {
    && (forall i :: 0 <= i < |ms| && ms[i].Assigns? ==> ms[i].key in values && values[ms[i].key] == ms[i].value)
    && (forall k :: k in values ==> Mentions(ms, k))
  }

  /** The error of a bad line. */
  function ErrorOf(lines: seq<string>, ms: seq<Meaning>, i: nat): Error
    requires i < |lines| == |ms|
  {
    if !Fits(lines[i]) then TooLong else if ms[i].Assigns? then Duplicate(ms[i].key) else BadAssignment(i + 1)
  }

  /** `error` is that of the first bad line. */
  ghost predicate FirstError(lines: seq<string>, error: Error) {
    exists i :: 0 <= i < |lines| && !Good(lines, Meanings(lines), i) && AllGood(lines, i)
                && error == ErrorOf(lines, Meanings(lines), i)
  }

  /** The values with one more assignment. */
  function Inserted(values: Values, m: Meaning): Values {
    if m.Assigns? then values[m.key := m.value] else values
  }

  /** The loop over the file: the values of all lines, or the error of the first bad one. */
  method ReadLines(lines: seq<string>) returns (r: Result<Values>)
    ensures r.Ok? <==> AllGood(lines, |lines|)
    ensures r.Ok? ==> Collects(r.value, Meanings(lines))
    ensures r.Err? ==> FirstError(lines, r.error)
  {
    var values: Values := map[];
    for i := 0 to |lines|
      invariant AllGood(lines, i)
      invariant Collects(values, Meanings(lines)[..i])
    {
      if |Encode(lines[i])| >= MAX_TOKEN {
        IsFirstError(lines, i);
        return Err(TooLong);
      }
      var m := Meant(Ended(lines[i]));
      if m.Invalid? {
        IsFirstError(lines, i);
        return Err(BadAssignment(i + 1));
      }
      if m.Assigns? && m.key in values {
        Repeats(values, Meanings(lines), i);
        IsFirstError(lines, i);
        return Err(Duplicate(m.key));
      }
      GoesOn(values, lines, i);
      values := Inserted(values, m);
    }
    assert Meanings(lines)[..|lines|] == Meanings(lines);
    return Ok(values);
  }

  lemma IsFirstError(lines: seq<string>, i: nat)
    requires i < |lines| && AllGood(lines, i) && !Good(lines, Meanings(lines), i)
    ensures FirstError(lines, ErrorOf(lines, Meanings(lines), i)) && !AllGood(lines, |lines|)
  {
  }

  lemma GoesOn(values: Values, lines: seq<string>, i: nat)
    requires i < |lines| && AllGood(lines, i) && Collects(values, Meanings(lines)[..i]) && Fits(lines[i])
    requires var m := Meanings(lines)[i]; !m.Invalid? && (m.Assigns? ==> m.key !in values)
    ensures AllGood(lines, i + 1)
    ensures Collects(Inserted(values, Meanings(lines)[i]), Meanings(lines)[..i + 1])
  {
    SensibleNext(values, Meanings(lines), i);
    CollectsNext(values, Meanings(lines), i);
    OneMoreGood(lines, i);
  }

  lemma SensibleNext(values: Values, ms: seq<Meaning>, i: nat)
    requires i < |ms| && Collects(values, ms[..i])
    requires !ms[i].Invalid? && (ms[i].Assigns? ==> ms[i].key !in values)
    ensures Sensible(ms, i)
  {
    if ms[i].Assigns? {
      IsNew(values, ms, i);
    }
  }

  lemma CollectsNext(values: Values, ms: seq<Meaning>, i: nat)
    requires i < |ms| && Collects(values, ms[..i]) && (ms[i].Assigns? ==> ms[i].key !in values)
    ensures Collects(Inserted(values, ms[i]), ms[..i + 1])
  {
    CollectsMore(values, ms[..i], ms[i]);
    assert ms[..i + 1] == ms[..i] + [ms[i]];
  }

  lemma OneMoreGood(lines: seq<string>, i: nat)
    requires i < |lines| && AllGood(lines, i) && Fits(lines[i]) && Sensible(Meanings(lines), i)
    ensures AllGood(lines, i + 1)
  {
    assert Good(lines, Meanings(lines), i);
  }

  lemma Repeats(values: Values, ms: seq<Meaning>, i: nat)
    requires i < |ms| && Collects(values, ms[..i]) && ms[i].Assigns? && ms[i].key in values
    ensures !Sensible(ms, i)
  {
    assert Mentions(ms[..i], ms[i].key);
    var j :| 0 <= j < i && Assigned(ms[..i][j], ms[i].key);
    assert Assigned(ms[j], ms[i].key);
  }

  lemma IsNew(values: Values, ms: seq<Meaning>, i: nat)
    requires i < |ms| && Collects(values, ms[..i]) && ms[i].Assigns? && ms[i].key !in values
    ensures Sensible(ms, i)
  {
    forall j | 0 <= j < i ensures !Assigned(ms[j], ms[i].key) {
      assert ms[..i][j] == ms[j];
    }
  }

  lemma CollectsMore(values: Values, ms: seq<Meaning>, m: Meaning)
    requires Collects(values, ms) && (m.Assigns? ==> m.key !in values)
    ensures Collects(Inserted(values, m), ms + [m])
  {
    var values' := Inserted(values, m);
    var ms' := ms + [m];
    forall k | k in values' ensures Mentions(ms', k) {
      if k in values {
        assert Mentions(ms, k);
        var i :| 0 <= i < |ms| && Assigned(ms[i], k);
        assert Assigned(ms'[i], k);
      } else {
        assert Assigned(ms'[|ms|], k);
      }
    }
  }

  /** There is only one set of values that the lines can assign. */
  lemma CollectsUnique(a: Values, b: Values, ms: seq<Meaning>)
    requires Collects(a, ms) && Collects(b, ms)
    ensures a == b
  {
    forall k | k in a ensures k in b && b[k] == a[k] {
      CollectsAgree(a, b, ms, k);
    }
    forall k | k in b ensures k in a {
      CollectsAgree(b, a, ms, k);
    }
  }

  lemma CollectsAgree(a: Values, b: Values, ms: seq<Meaning>, k: string)
    requires Collects(a, ms) && Collects(b, ms) && k in a
    ensures k in b && b[k] == a[k]
  {
    assert Mentions(ms, k);
    var i :| 0 <= i < |ms| && Assigned(ms[i], k);
  }

  // ----- the process environment -----

  /** A variable of the process that counts. */
  predicate Overrides(assignment: string) {
    var n := IndexOf(assignment, '=');
    n < |assignment| && PREFIX <= assignment[..n]
  }

  /** The values with the process environment laid over them; the last assignment wins. */
  function Overlaid(values: Values, environ: seq<string>): Values {
    if environ == [] then values
    else
      var before := Overlaid(values, environ[..|environ| - 1]);
      var last := environ[|environ| - 1];
      var n := IndexOf(last, '=');
      if Overrides(last) then before[last[..n] := last[n + 1..]] else before
  }

  /** The lines of the file, if there is one, the last perhaps cut off by a read error. */
  function FileLines(file: File): seq<string> {
    if file.Contents? then Lines(file.text) else []
  }

  /** Opening the file, or reading it, fails. */
  predicate Fails(file: File) {
    file.CannotOpen? || (file.Contents? && file.fails)
  }

  method ReadEnvValues(file: File, environ: seq<string>) returns (r: Result<Values>)
    ensures r.Ok? <==> !Fails(file) && AllGood(FileLines(file), |FileLines(file)|)
    ensures r.Ok? ==> exists values :: Collects(values, Meanings(FileLines(file))) && r.value == Overlaid(values, environ)
    ensures r.Err? ==> if AllGood(FileLines(file), |FileLines(file)|) then r.error == Unreadable
                       else FirstError(FileLines(file), r.error)
  {
    if file.CannotOpen? {
      return Err(Unreadable);
    }
    var values: Values := map[];
    if file.Contents? {
      r := ReadLines(Lines(file.text));
      if r.Err? {
        return;
      }
      if file.fails {
        return Err(Unreadable);
      }
      values := r.value;
    }
    ghost var fromFile := values;
    for i := 0 to |environ|
      invariant values == Overlaid(fromFile, environ[..i])
    {
      assert environ[..i + 1][..i] == environ[..i];
      var n := IndexOf(environ[i], '=');
      if n < |environ[i]| && PREFIX <= environ[i][..n] {
        values := values[environ[i][..n] := environ[i][n + 1..]];
      }
    }
    assert environ[..|environ|] == environ;
    assert Collects(fromFile, Meanings(FileLines(file))) && values == Overlaid(fromFile, environ);
    return Ok(values);
  }

  // ----- printing and reading back -----

  function Entry(key: string, value: string): string {
    key + "=" + value
  }

  /** The variables in some order, one to a line. */
  function Print(order: seq<string>, m: Values): string
    requires forall k :: k in order ==> k in m
  {
    if order == [] then [] else Entry(order[0], m[order[0]]) + "\n" + Print(order[1..], m)
  }

  function Entries(order: seq<string>, m: Values): (r: seq<string>)
    requires forall k :: k in order ==> k in m
    ensures |r| == |order| && forall i :: 0 <= i < |order| ==> r[i] == Entry(order[i], m[order[i]])
  {
    seq(|order|, i requires 0 <= i < |order| => Entry(order[i], m[order[i]]))
  }

  lemma {:induction false} IndexOfUnique(s: string, c: char, n: nat)
    requires n <= |s| && c !in s[..n] && (n < |s| ==> s[n] == c)
    ensures IndexOf(s, c) == n
  {
    if n > 0 {
      assert s[0] == s[..n][0];
      assert s[1..][..n - 1] == s[..n][1..];
      IndexOfUnique(s[1..], c, n - 1);
    }
  }

  lemma FirstLine(line: string, rest: string)
    requires '\n' !in line
    ensures Lines(line + "\n" + rest) == [line] + Lines(rest)
  {
    var text := line + "\n" + rest;
    assert text[..|line|] == line && text[|line|] == '\n' && text[|line| + 1..] == rest;
    IndexOfUnique(text, '\n', |line|);
  }

  lemma EntryHasNoNewline(key: string, value: string)
    requires ValidName(key) && '\n' !in value
    ensures '\n' !in Entry(key, value)
  {
    NameHasNo(key, '\n');
  }

  lemma {:induction false} LinesOfPrint(order: seq<string>, m: Values)
    requires forall k :: k in order ==> k in m && ValidName(k) && '\n' !in m[k]
    ensures Lines(Print(order, m)) == Entries(order, m)
  {
    if order != [] {
      var k, rest := order[0], order[1..];
      assert order == [k] + rest;
      LinesOfPrint(rest, m);
      EntryHasNoNewline(k, m[k]);
      FirstLine(Entry(k, m[k]), Print(rest, m));
      EntriesCons(k, rest, m);
    }
  }

  lemma EntriesCons(k: string, rest: seq<string>, m: Values)
    requires forall q :: q in [k] + rest ==> q in m
    ensures Entries([k] + rest, m) == [Entry(k, m[k])] + Entries(rest, m)
  {
  }

  lemma NameHasNo(name: string, c: char)
    requires ValidName(name) && !IsUpper(c) && !IsDigit(c) && c != '_'
    ensures c !in name
  {
    forall i | 0 <= i < |name| ensures name[i] != c {
      assert i >= 1 ==> IsUpper(name[i]) || IsDigit(name[i]) || name[i] == '_';
    }
  }

  /** A valid name is its own trimming. */
  lemma NameTrims(name: string)
    requires ValidName(name)
    ensures TrimSpace(name) == name
  {
    assert !IsSpace(name[0]);
    var last := name[|name| - 1];
    assert !IsSpace(last);
  }

  lemma EndedEntry(key: string, value: string)
    requires ValidName(key)
    ensures Ended(Entry(key, value)) == Entry(key, Ended(value))
  {
    TrimEntry(key, value);
    TrimEntry(key, TrimSuffix(value, '\r'));
  }

  lemma TrimEntry(key: string, value: string)
    ensures TrimSuffix(Entry(key, value), '\r') == Entry(key, TrimSuffix(value, '\r'))
  {
    var e := Entry(key, value);
    assert e[|e| - 1] == if value == [] then '=' else value[|value| - 1];
    if value != [] && value[|value| - 1] == '\r' {
      assert e[..|e| - 1] == key + "=" + value[..|value| - 1];
    }
  }

  lemma {:induction false} TrimRightKeepsStart(s: string)
    requires s != [] && !IsSpace(s[0])
    ensures TrimRight(s) != [] && TrimRight(s)[0] == s[0]
  {
    if IsSpace(s[|s| - 1]) {
      assert |s| > 1;
      TrimRightKeepsStart(s[..|s| - 1]);
    }
  }

  lemma EntrySplits(key: string, value: string)
    requires ValidName(key)
    ensures var line := Entry(key, value);
            IndexOf(line, '=') == |key| && line[..|key|] == key && line[|key| + 1..] == value
  {
    var line := Entry(key, value);
    assert line[..|key|] == key && line[|key|] == '=' && line[|key| + 1..] == value;
    NameHasNo(key, '=');
    IndexOfUnique(line, '=', |key|);
  }

  lemma EntryIsNoComment(key: string, value: string)
    requires ValidName(key)
    ensures var trimmed := TrimSpace(Entry(key, value)); trimmed != [] && trimmed[0] != '#'
  {
    var line := Entry(key, value);
    assert line[0] == key[0] && IsUpper(line[0]);
    assert TrimLeft(line) == line;
    TrimRightKeepsStart(line);
  }

  /** A printed line means what it was printed from, up to carriage returns at its end. */
  lemma EntryMeans(key: string, value: string)
    requires ValidName(key) && "MUX_" <= key
    ensures Meant(Ended(Entry(key, value))) == Assigns(key, Ended(value))
  {
    EndedEntry(key, value);
    EntrySplits(key, Ended(value));
    EntryIsNoComment(key, Ended(value));
    NameTrims(key);
  }

  ghost predicate Printable(order: seq<string>, m: Values) {
    && Distinct(order) && (forall k :: k in order <==> k in m)
    && forall k :: k in m ==> ValidName(k) && "MUX_" <= k
  }

  /** The values as they come back: without the carriage returns at their end. */
  ghost function Returned(m: Values): Values {
    map k | k in m :: Ended(m[k])
  }

  lemma PrintedMeans(order: seq<string>, m: Values, i: nat)
    requires Printable(order, m) && i < |order|
    ensures order[i] in m && Meanings(Entries(order, m))[i] == Assigns(order[i], Ended(m[order[i]]))
  {
    assert order[i] in order;
    EntryMeans(order[i], m[order[i]]);
  }

  lemma PrintedIsSensible(order: seq<string>, m: Values, i: nat)
    requires Printable(order, m) && i < |order|
    ensures Sensible(Meanings(Entries(order, m)), i)
  {
    PrintedMeans(order, m, i);
    forall j | 0 <= j < i ensures !Assigned(Meanings(Entries(order, m))[j], order[i]) {
      PrintedMeans(order, m, j);
      DistinctIndices(order, j, i);
    }
  }

  lemma PrintedCollects(order: seq<string>, m: Values)
    requires Printable(order, m)
    ensures Collects(Returned(m), Meanings(Entries(order, m)))
  {
    var ms := Meanings(Entries(order, m));
    forall i | 0 <= i < |ms| ensures ms[i] == Assigns(order[i], Ended(m[order[i]])) && order[i] in m {
      PrintedMeans(order, m, i);
    }
    forall k | k in Returned(m) ensures Mentions(ms, k) {
      assert k in order;
      var i :| 0 <= i < |order| && order[i] == k;
      assert Assigned(ms[i], k);
    }
  }

  /** Reading a text as a file, without a process environment, gives these values. */
  ghost predicate Reads(text: string, values: Values) {
    AllGood(Lines(text), |Lines(text)|) && Collects(values, Meanings(Lines(text)))
  }

  lemma {:induction false} LinesHaveNoNewline(text: string)
    ensures forall i :: 0 <= i < |Lines(text)| ==> '\n' !in Lines(text)[i]
    decreases |text|
  {
    if text != [] {
      var n := IndexOf(text, '\n');
      if n == |text| {
        assert text[..n] == text;
      } else {
        LinesHaveNoNewline(text[n + 1..]);
      }
    }
  }

  lemma MeantHasNoNewline(line: string)
    requires '\n' !in line && Meant(Ended(line)).Assigns?
    ensures '\n' !in Meant(Ended(line)).value
  {
    var e := Ended(line);
    assert e <= line;
    assert forall i :: 0 <= i < |e| ==> e[i] == line[i];
    var n := IndexOf(e, '=');
    var value := e[n + 1..];
    forall i | 0 <= i < |value| ensures value[i] != '\n' {
      assert value[i] == line[n + 1 + i];
    }
  }

  /** No value read from a file has a newline. */
  lemma {:induction false} ReadsHasNoNewline(text: string, values: Values, k: string)
    requires Reads(text, values) && k in values
    ensures '\n' !in values[k]
  {
    var lines := Lines(text);
    assert Mentions(Meanings(lines), k);
    var i :| 0 <= i < |lines| && Assigned(Meanings(lines)[i], k);
    LinesHaveNoNewline(text);
    MeantHasNoNewline(lines[i]);
  }

  /** A value that a line of the file can carry. */
  predicate Carries(key: string, value: string) {
    && '\n' !in value
    && (value != [] ==> value[|value| - 1] != '\r')
    && Fits(Entry(key, value))
  }

  lemma CarriedComeBack(order: seq<string>, m: Values)
    requires Printable(order, m) && forall k :: k in m ==> Carries(k, m[k])
    ensures Reads(Print(order, m), m)
  {
    LinesOfPrint(order, m);
    forall i | 0 <= i < |order| ensures Good(Entries(order, m), Meanings(Entries(order, m)), i) {
      CarriedIsGood(order, m, i);
    }
    PrintedCollects(order, m);
    CarriedUnchanged(m);
  }

  lemma CarriedIsGood(order: seq<string>, m: Values, i: nat)
    requires Printable(order, m) && i < |order| && forall k :: k in m ==> Carries(k, m[k])
    ensures Good(Entries(order, m), Meanings(Entries(order, m)), i)
  {
    assert order[i] in order;
    PrintedIsSensible(order, m, i);
  }

  lemma CarriedUnchanged(m: Values)
    requires forall k :: k in m ==> Carries(k, m[k])
    ensures Returned(m) == m
  {
  }

  lemma ReadBackLines(order: seq<string>, m: Values)
    requires Printable(order, m) && Reads(Print(order, m), m)
    ensures Lines(Print(order, m)) == Entries(order, m) && forall k :: k in m ==> '\n' !in m[k]
  {
    forall k | k in m ensures '\n' !in m[k] {
      ReadsHasNoNewline(Print(order, m), m, k);
    }
    LinesOfPrint(order, m);
  }

  lemma ReadBackUnchanged(order: seq<string>, m: Values)
    requires Printable(order, m) && Reads(Print(order, m), m)
    ensures Returned(m) == m
  {
    ReadBackLines(order, m);
    PrintedCollects(order, m);
    CollectsUnique(m, Returned(m), Meanings(Entries(order, m)));
  }

  lemma ReadBackFits(order: seq<string>, m: Values, k: string)
    requires Printable(order, m) && Reads(Print(order, m), m) && k in m
    ensures Fits(Entry(k, m[k]))
  {
    ReadBackLines(order, m);
    assert k in order;
    var i :| 0 <= i < |order| && order[i] == k;
    assert Good(Entries(order, m), Meanings(Entries(order, m)), i);
  }

  lemma ReadBackCarries(order: seq<string>, m: Values, k: string)
    requires Printable(order, m) && Reads(Print(order, m), m) && k in m
    ensures Carries(k, m[k])
  {
    ReadBackLines(order, m);
    ReadBackUnchanged(order, m);
    ReadBackFits(order, m, k);
    assert Returned(m)[k] == Ended(m[k]);
  }

  /** Round trip: printing a map of valid MUX_ names and reading it back gives the map if and only
      if no value has a newline or ends in a carriage return and every line is below the scanner's
      limit. */
  lemma {:induction false} RoundTrip(order: seq<string>, m: Values)
    requires Printable(order, m)
    ensures Reads(Print(order, m), m) <==> forall k :: k in m ==> Carries(k, m[k])
  {
    if forall k :: k in m ==> Carries(k, m[k]) {
      CarriedComeBack(order, m);
    }
    if Reads(Print(order, m), m) {
      forall k | k in m ensures Carries(k, m[k]) {
        ReadBackCarries(order, m, k);
      }
    }
  }

  /** The same through ReadEnvValues: a printed map that lines can carry comes back with the process
      environment laid over it. */
  method ReadPrinted(order: seq<string>, m: Values, environ: seq<string>) returns (r: Result<Values>)
    requires Printable(order, m)
    ensures (forall k :: k in m ==> Carries(k, m[k])) ==> r == Ok(Overlaid(m, environ))
  {
    var file := Contents(Print(order, m), false);
    r := ReadEnvValues(file, environ);
    if forall k :: k in m ==> Carries(k, m[k]) {
      CarriedComeBack(order, m);
      ghost var values :| Collects(values, Meanings(FileLines(file))) && r.value == Overlaid(values, environ);
      CollectsUnique(values, m, Meanings(FileLines(file)));
    }
  }

  // ----- precedence -----

  /** The assignment gives a MUX_ variable this value; a name ends at the first equals sign. */
  ghost predicate Sets(assignment: string, key: string, value: string) {
    assignment == key + "=" + value && '=' !in key && "MUX_" <= key
  }

  /** Assignment i of the process is the last one to this variable. */
  ghost predicate SetsLast(environ: seq<string>, i: nat, key: string, value: string)
    requires i < |environ|
  {
    Sets(environ[i], key, value) && !SetsAny(environ[i + 1..], key)
  }

  ghost predicate SetsAny(environ: seq<string>, key: string) {
    exists i, value :: 0 <= i < |environ| && Sets(environ[i], key, value)
  }

  lemma SetsExactly(assignment: string, key: string, value: string)
    ensures Sets(assignment, key, value) <==>
            Overrides(assignment) &&
            (var n := IndexOf(assignment, '='); assignment[..n] == key && assignment[n + 1..] == value)
  {
    if Sets(assignment, key, value) {
      assert assignment[..|key|] == key && assignment[|key| + 1..] == value;
      IndexOfUnique(assignment, '=', |key|);
    }
    var n := IndexOf(assignment, '=');
    if n < |assignment| {
      assert assignment == assignment[..n] + "=" + assignment[n + 1..];
    }
  }

  lemma SetsNone(environ: seq<string>, key: string)
    requires environ != [] && !SetsAny(environ, key)
    ensures var n := |environ| - 1; !SetsAny(environ[..n], key) && forall v :: !Sets(environ[n], key, v)
  {
    var n := |environ| - 1;
    forall i, v | 0 <= i < n ensures !Sets(environ[..n][i], key, v) {
      assert !Sets(environ[i], key, v);
    }
  }

  /** Laying one more assignment over the values. */
  lemma OneMore(values: Values, environ: seq<string>, key: string)
    requires environ != []
    ensures var n := |environ| - 1; var before, after := Overlaid(values, environ[..n]), Overlaid(values, environ);
            && (forall v :: Sets(environ[n], key, v) ==> key in after && after[key] == v)
            && ((forall v :: !Sets(environ[n], key, v)) ==>
                  (key in after <==> key in before) && (key in after ==> after[key] == before[key]))
  {
    var last := environ[|environ| - 1];
    forall v {
      SetsExactly(last, key, v);
    }
    var n := IndexOf(last, '=');
    if Overrides(last) && last[..n] == key {
      assert Sets(last, key, last[n + 1..]);
    }
  }

  lemma {:induction false} NotSet(values: Values, environ: seq<string>, key: string)
    requires !SetsAny(environ, key)
    ensures var r := Overlaid(values, environ);
            (key in r <==> key in values) && (key in r ==> r[key] == values[key])
  {
    if environ != [] {
      SetsNone(environ, key);
      OneMore(values, environ, key);
      NotSet(values, environ[..|environ| - 1], key);
    }
  }

  /** A MUX_ variable of the process takes precedence over the file, its last assignment over earlier
      ones, and every other variable keeps the file's value. */
  lemma {:induction false} ProcessWins(values: Values, environ: seq<string>, key: string)
    ensures var r := Overlaid(values, environ);
            && (forall i, v :: 0 <= i < |environ| && SetsLast(environ, i, key, v) ==> key in r && r[key] == v)
            && (!SetsAny(environ, key) ==> (key in r <==> key in values) && (key in r ==> r[key] == values[key]))
  {
    forall i, v | 0 <= i < |environ| && SetsLast(environ, i, key, v)
      ensures key in Overlaid(values, environ) && Overlaid(values, environ)[key] == v
    {
      LastWins(values, environ, i, key, v);
    }
    if !SetsAny(environ, key) {
      NotSet(values, environ, key);
    }
  }

  lemma {:induction false} LastWins(values: Values, environ: seq<string>, i: nat, key: string, v: string)
    requires i < |environ| && SetsLast(environ, i, key, v)
    ensures key in Overlaid(values, environ) && Overlaid(values, environ)[key] == v
  {
    var n := |environ| - 1;
    OneMore(values, environ, key);
    if i < n {
      SetsNone(environ[i + 1..], key);
      assert environ[i + 1..][..n - i - 1] == environ[..n][i + 1..];
      assert environ[i + 1..][n - i - 1] == environ[n];
      LastWins(values, environ[..n], i, key, v);
    }
  }

  /** A variable that the process sets has a last assignment. */
  lemma {:induction false} LastExists(environ: seq<string>, key: string) returns (i: nat, v: string)
    requires SetsAny(environ, key)
    ensures i < |environ| && SetsLast(environ, i, key, v)
    decreases |environ|
  {
    if SetsAny(environ[1..], key) {
      i, v := LastExists(environ[1..], key);
      assert environ[1..][i + 1..] == environ[i + 2..];
      i := i + 1;
    } else {
      forall j, w | 1 <= j < |environ| ensures !Sets(environ[j], key, w) {
        assert !Sets(environ[1..][j - 1], key, w);
      }
      i := 0;
      v :| Sets(environ[0], key, v);
    }
  }
}
