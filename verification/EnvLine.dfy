/** What a line of an environment file and an assignment of the process mean, by their texts alone:
    module EnvFile understands them in exactly this way. */
module EnvLine {
  import opened Prelude
  import opened Unicode
  import opened EnvFile

  // ----- lines -----

  /** The lines with a newline after each. */
  function Unlines(lines: seq<string>): string {
    if lines == [] then [] else lines[0] + "\n" + Unlines(lines[1..])
  }

  ghost predicate AreLines(lines: seq<string>) {
    forall i :: 0 <= i < |lines| ==> '\n' !in lines[i]
  }

  /** A text is its lines, each ended by a newline; a last line that is not empty needs none. */
  ghost predicate Splits(text: string, lines: seq<string>) {
    && AreLines(lines)
    && (text == Unlines(lines) || (lines != [] && lines[|lines| - 1] != [] && text + "\n" == Unlines(lines)))
  }

  lemma SplitsCons(line: string, rest: string, lines: seq<string>)
    requires '\n' !in line && Splits(rest, lines)
    ensures Splits(line + "\n" + rest, [line] + lines)
  {
    var all := [line] + lines;
    assert all[1..] == lines;
    if rest != Unlines(lines) {
      Associative(line + "\n", rest, "\n");
    }
  }

  lemma {:induction false} LinesSplit(text: string)
    ensures Splits(text, Lines(text))
    decreases |text|
  {
    if text != [] {
      var n := IndexOf(text, '\n');
      if n == |text| {
        assert text[..n] == text;
        assert [text][1..] == [] && text + "\n" + [] == text + "\n";
      } else {
        LinesSplit(text[n + 1..]);
        SplitsCons(text[..n], text[n + 1..], Lines(text[n + 1..]));
        assert text == text[..n] + "\n" + text[n + 1..];
      }
    }
  }

  lemma DropNewline(text: string, first: string, tail: string) returns (rest: string)
    requires text + "\n" == first + tail && tail != []
    ensures text == first + rest && tail == rest + "\n"
  {
    rest := tail[..|tail| - 1];
    assert text == (first + tail)[..|text|] == first + rest;
    assert tail[|tail| - 1] == (text + "\n")[|text|];
  }

  /** The text after the first newline. */
  lemma SplitsTail(text: string, lines: seq<string>) returns (rest: string)
    requires Splits(text, lines) && lines != [] && text != lines[0]
    ensures text == lines[0] + "\n" + rest && Splits(rest, lines[1..])
  {
    var first, tail := lines[0] + "\n", Unlines(lines[1..]);
    if text == Unlines(lines) {
      rest := tail;
    } else {
      assert tail != [] by {
        assert text == (text + "\n")[..|text|] && lines[0] == first[..|first| - 1];
      }
      assert lines[|lines| - 1] == lines[1..][|lines| - 2];
      rest := DropNewline(text, first, tail);
    }
  }

  lemma {:induction false} SplitsOnce(text: string, lines: seq<string>)
    requires Splits(text, lines)
    ensures Lines(text) == lines
    decreases |lines|
  {
    if lines == [] {
    } else if text == lines[0] {
      OnlyLine(text, lines);
    } else {
      var rest := SplitsTail(text, lines);
      FirstLine(lines[0], rest);
      SplitsOnce(rest, lines[1..]);
    }
  }

  lemma OnlyLine(text: string, lines: seq<string>)
    requires Splits(text, lines) && lines != [] && text == lines[0]
    ensures Lines(text) == lines
  {
    var tail := Unlines(lines[1..]);
    assert |Unlines(lines)| == |text| + 1 + |tail|;
    assert tail == [] && lines[1..] == [] && lines == [text];
    IndexOfUnique(text, '\n', |text|);
  }

  /** A text has exactly the lines that it splits into. */
  lemma LinesExactly(text: string, lines: seq<string>)
    ensures Lines(text) == lines <==> Splits(text, lines)
  {
    LinesSplit(text);
    if Splits(text, lines) {
      SplitsOnce(text, lines);
    }
  }

  // ----- white space around a text -----

  ghost predicate Blank(s: string) {
    forall i :: 0 <= i < |s| ==> IsSpace(s[i])
  }

  /** No white space at either end. */
  ghost predicate Tight(s: string) {
    s != [] ==> !IsSpace(s[0]) && !IsSpace(s[|s| - 1])
  }

  lemma {:induction false} TrimLeftOf(blank: string, s: string)
    requires Blank(blank) && (s == [] || !IsSpace(s[0]))
    ensures TrimLeft(blank + s) == s
  {
    if blank == [] {
      assert blank + s == s;
    } else {
      assert (blank + s)[1..] == blank[1..] + s;
      TrimLeftOf(blank[1..], s);
    }
  }

  lemma {:induction false} TrimRightOf(s: string, blank: string)
    requires Blank(blank) && (s == [] || !IsSpace(s[|s| - 1]))
    ensures TrimRight(s + blank) == s
  {
    if blank == [] {
      assert s + blank == s;
    } else {
      var n := |blank| - 1;
      assert (s + blank)[..|s| + n] == s + blank[..n];
      TrimRightOf(s, blank[..n]);
    }
  }

  lemma TrimOf(before: string, s: string, after: string)
    requires Blank(before) && Blank(after) && s != [] && Tight(s)
    ensures TrimSpace(before + (s + after)) == s
  {
    TrimLeftOf(before, s + after);
    TrimRightOf(s, after);
  }

  lemma {:induction false} LeftPart(s: string) returns (blank: string)
    ensures Blank(blank) && s == blank + TrimLeft(s)
  {
    if s != [] && IsSpace(s[0]) {
      blank := LeftPart(s[1..]);
      blank := [s[0]] + blank;
    } else {
      blank := [];
    }
  }

  lemma {:induction false} RightPart(s: string) returns (blank: string)
    ensures Blank(blank) && s == TrimRight(s) + blank
  {
    if s != [] && IsSpace(s[|s| - 1]) {
      blank := RightPart(s[..|s| - 1]);
      blank := blank + [s[|s| - 1]];
    } else {
      blank := [];
    }
  }

  /** What TrimSpace cuts off. */
  lemma TrimParts(s: string) returns (before: string, after: string)
    ensures Blank(before) && Blank(after) && s == before + (TrimSpace(s) + after)
  {
    before := LeftPart(s);
    after := RightPart(TrimLeft(s));
  }

  lemma BlankTrims(s: string)
    ensures TrimSpace(s) == [] <==> Blank(s)
  {
    if Blank(s) {
      TrimLeftOf(s, []);
      assert s + [] == s;
    }
    var before, after := TrimParts(s);
    assert [] + after == after;
  }

  // ----- one line -----

  /** A name by its characters. */
  ghost predicate IsName(name: string) {
    && name != [] && 'A' <= name[0] <= 'Z'
    && forall i :: 0 <= i < |name| ==> 'A' <= name[i] <= 'Z' || '0' <= name[i] <= '9' || name[i] == '_'
  }

  lemma ValidNameExactly(name: string)
    ensures ValidName(name) <==> IsName(name)
  {
  }

  ghost predicate Comment(line: string, before: string, rest: string) {
    Blank(before) && line == before + ("#" + rest)
  }

  /** White space may stand around the name, but what follows the equals sign is the value. */
  ghost predicate Assignment(line: string, name: string, value: string, before: string, after: string) {
    Blank(before) && Blank(after) && IsName(name) && line == (before + (name + after)) + ("=" + value)
  }

  ghost predicate IsComment(line: string) {
    exists before, rest :: Comment(line, before, rest)
  }

  ghost predicate IsAssignment(line: string, name: string, value: string) {
    exists before, after :: Assignment(line, name, value, before, after)
  }

  /** A line is blank, a comment, or an assignment, of which only those to a name that starts with
      MUX_ count; every other line is an error. */
  ghost predicate Means(line: string, m: Meaning) {
    match m
    case Assigns(key, value) => "MUX_" <= key && IsAssignment(line, key, value)
    case Nothing =>
      || Blank(line) || IsComment(line)
      || exists name, value :: IsAssignment(line, name, value) && !("MUX_" <= name)
    case Invalid => !Blank(line) && !IsComment(line) && forall name, value :: !IsAssignment(line, name, value)
  }

  lemma StartsWith(line: string, before: string, c: char, rest: string)
    requires Blank(before) && !IsSpace(c) && line == before + ([c] + rest)
    ensures TrimSpace(line) != [] && TrimSpace(line)[0] == c
  {
    TrimLeftOf(before, [c] + rest);
    TrimRightKeepsStart([c] + rest);
  }

  lemma CommentExactly(line: string)
    ensures IsComment(line) <==> TrimSpace(line) != [] && TrimSpace(line)[0] == '#'
  {
    if IsComment(line) {
      var before, rest :| Comment(line, before, rest);
      StartsWith(line, before, '#', rest);
    }
    var trimmed := TrimSpace(line);
    if trimmed != [] && trimmed[0] == '#' {
      var before, after := TrimParts(line);
      assert trimmed + after == "#" + (trimmed[1..] + after);
      assert Comment(line, before, trimmed[1..] + after);
    }
  }

  /** How the code takes an assignment apart. */
  ghost predicate CutsInto(line: string, name: string, value: string) {
    var n := IndexOf(line, '=');
    n < |line| && TrimSpace(line[..n]) == name && ValidName(name) && line[n + 1..] == value
  }

  lemma NoEquals(before: string, name: string, after: string)
    requires Blank(before) && Blank(after) && IsName(name)
    ensures '=' !in before + (name + after)
  {
    NameHasNo(name, '=');
  }

  lemma NameIsTight(name: string)
    requires IsName(name)
    ensures Tight(name)
  {
    assert 'A' <= name[|name| - 1] <= 'Z' || '0' <= name[|name| - 1] <= '9' || name[|name| - 1] == '_';
  }

  lemma CutAssignment(line: string, name: string, value: string, before: string, after: string)
    requires Assignment(line, name, value, before, after)
    ensures CutsInto(line, name, value)
  {
    var front := before + (name + after);
    assert line[..|front|] == front && line[|front|] == '=' && line[|front| + 1..] == value;
    ValidNameExactly(name);
    NoEquals(before, name, after);
    IndexOfUnique(line, '=', |front|);
    NameIsTight(name);
    TrimOf(before, name, after);
  }

  lemma AssignmentExactly(line: string, name: string, value: string)
    ensures IsAssignment(line, name, value) <==> CutsInto(line, name, value)
  {
    if IsAssignment(line, name, value) {
      var before, after :| Assignment(line, name, value, before, after);
      CutAssignment(line, name, value, before, after);
    }
    if CutsInto(line, name, value) {
      var n := IndexOf(line, '=');
      var before, after := TrimParts(line[..n]);
      ValidNameExactly(name);
      assert line == line[..n] + ("=" + value);
      assert Assignment(line, name, value, before, after);
    }
  }

  /** An assignment is no comment and not blank. */
  lemma AssignmentIsNoComment(line: string, name: string, value: string)
    requires IsAssignment(line, name, value)
    ensures !IsComment(line) && !Blank(line)
  {
    var before, after :| Assignment(line, name, value, before, after);
    var rest := name[1..] + after + ("=" + value);
    assert line == before + ([name[0]] + rest);
    StartsWith(line, before, name[0], rest);
    CommentExactly(line);
    BlankTrims(line);
  }

  lemma MeantMeans(line: string)
    ensures Means(line, Meant(line))
  {
    BlankTrims(line);
    CommentExactly(line);
    forall name, value {
      AssignmentExactly(line, name, value);
    }
    var n := IndexOf(line, '=');
    if n < |line| {
      assert CutsInto(line, TrimSpace(line[..n]), line[n + 1..]) <==> ValidName(TrimSpace(line[..n]));
    }
  }

  lemma AssignedOnce(line: string, name: string, value: string, name': string, value': string)
    requires IsAssignment(line, name, value) && IsAssignment(line, name', value')
    ensures name == name' && value == value'
  {
    AssignmentExactly(line, name, value);
    AssignmentExactly(line, name', value');
  }

  /** A line has one meaning. */
  lemma MeansOnce(line: string, m: Meaning, m': Meaning)
    requires Means(line, m) && Means(line, m')
    ensures m == m'
  {
    forall name, value | IsAssignment(line, name, value) ensures !IsComment(line) && !Blank(line) {
      AssignmentIsNoComment(line, name, value);
    }
    forall name, value, name', value' | IsAssignment(line, name, value) && IsAssignment(line, name', value')
      ensures name == name' && value == value'
    {
      AssignedOnce(line, name, value, name', value');
    }
  }

  /** Main result: a line is understood as exactly what it means. */
  lemma MeantExactly(line: string, m: Meaning)
    ensures Meant(line) == m <==> Means(line, m)
  {
    MeantMeans(line);
    if Means(line, m) {
      MeansOnce(line, m, Meant(line));
    }
  }

  ghost predicate EndsInReturn(s: string) {
    s != [] && s[|s| - 1] == '\r'
  }

  /** The line without what ends it: a carriage return for the scanner and another for the loop. */
  ghost predicate Stripped(raw: string, line: string) {
    raw == line + "\r\r" || ((raw == line + "\r" || raw == line) && !EndsInReturn(line))
  }

  lemma TrimReturn(s: string, t: string)
    ensures TrimSuffix(s, '\r') == t <==> s == t + "\r" || (s == t && !EndsInReturn(t))
  {
    assert (t + "\r")[..|t|] == t;
    assert EndsInReturn(s) ==> s == s[..|s| - 1] + "\r";
  }

  lemma EndedExactly(raw: string, line: string)
    ensures Ended(raw) == line <==> Stripped(raw, line)
  {
    TrimReturn(raw, TrimSuffix(raw, '\r'));
    TrimReturn(TrimSuffix(raw, '\r'), line);
    TrimReturn(raw, line + "\r");
    TrimReturn(raw, line);
    TrimReturn(line + "\r", line);
    assert line + "\r" + "\r" == line + "\r\r";
  }

  ghost predicate RawMeans(raw: string, m: Meaning) {
    exists line :: Stripped(raw, line) && Means(line, m)
  }

  /** Main result: the lines of a file are understood as exactly what each of them means. */
  lemma MeaningsExactly(lines: seq<string>, ms: seq<Meaning>)
    ensures Meanings(lines) == ms <==> |ms| == |lines| && forall i :: 0 <= i < |lines| ==> RawMeans(lines[i], ms[i])
  {
    forall i, m | 0 <= i < |lines| ensures Meanings(lines)[i] == m <==> RawMeans(lines[i], m) {
      RawExactly(lines[i], m);
    }
  }

  lemma RawExactly(raw: string, m: Meaning)
    ensures Meant(Ended(raw)) == m <==> RawMeans(raw, m)
  {
    forall line {
      EndedExactly(raw, line);
    }
    MeantExactly(Ended(raw), m);
  }
}
