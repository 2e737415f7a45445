/** Applying environment variables to a configuration: applyEnvOverrides of internal/config/env.go.

    A field of the configuration is named by the variable that overrides it. The conversions of
    strconv and time are parameters. */
module EnvOverrides {
  import opened Prelude
  import opened Unicode
  import opened EnvFile

  const UNAPPLIED := ["MUX_PUBLISH_HOST", "MUX_PUBLISH_PORT", "MUX_UPSTREAM_COUNT"]

  const STRINGS := [
    "MUX_SERVER_HOST", "MUX_SERVER_TLS_CERT_FILE", "MUX_SERVER_TLS_KEY_FILE", "MUX_AUTH_USERNAME",
    "MUX_AUTH_PASSWORD", "MUX_PROXY_ALGORITHM", "MUX_PROXY_NETWORK"]

  const BOOLEANS := [
    "MUX_SERVER_ALLOW_INSECURE_PUBLIC_HTTP", "MUX_SERVER_ALLOW_UNAUTHENTICATED_PUBLIC_PROXY", "MUX_AUTH_ENABLED"]

  const INTEGERS := [
    "MUX_SERVER_PORT", "MUX_SERVER_MAX_CONNECTIONS", "MUX_SERVER_MAX_CONNECTIONS_PER_IP",
    "MUX_SERVER_MAX_HEADER_BYTES", "MUX_SERVER_HTTP2_MAX_CONCURRENT_STREAMS", "MUX_PROXY_TIMEOUT",
    "MUX_AUTH_MAX_FAILED_ATTEMPTS", "MUX_AUTH_MAX_TRACKED_IPS", "MUX_PROXY_MAX_IDLE_CONNS",
    "MUX_PROXY_MAX_IDLE_CONNS_PER_HOST", "MUX_PROXY_MAX_CONNS_PER_HOST", "MUX_PROXY_MAX_TUNNELS",
    "MUX_PROXY_MAX_TUNNELS_PER_IP"]

  const DURATIONS := [
    "MUX_SERVER_READ_HEADER_TIMEOUT", "MUX_SERVER_IDLE_TIMEOUT", "MUX_SERVER_SHUTDOWN_TIMEOUT",
    "MUX_SERVER_HTTP2_SEND_PING_TIMEOUT", "MUX_SERVER_HTTP2_PING_TIMEOUT", "MUX_SERVER_HTTP2_WRITE_BYTE_TIMEOUT",
    "MUX_PROXY_DIAL_TIMEOUT", "MUX_PROXY_DIAL_KEEP_ALIVE", "MUX_PROXY_TLS_HANDSHAKE_TIMEOUT",
    "MUX_PROXY_RESPONSE_HEADER_TIMEOUT", "MUX_PROXY_RESPONSE_BODY_IDLE_TIMEOUT", "MUX_PROXY_IDLE_CONN_TIMEOUT",
    "MUX_PROXY_EXPECT_CONTINUE_TIMEOUT", "MUX_PROXY_TUNNEL_IDLE_TIMEOUT", "MUX_PROXY_FAILOVER_COOLDOWN",
    "MUX_AUTH_FAILURE_WINDOW", "MUX_AUTH_BLOCK_DURATION"]

  const COUNT := "MUX_UPSTREAM_COUNT"

  const MAX_UPSTREAMS := 1024

  datatype Field = Url | Username | Password | CaFile | AuthEnabled

  function Suffix(f: Field): string {
    match f
    case Url => "URL"
    case Username => "AUTH_USERNAME"
    case Password => "AUTH_PASSWORD"
    case CaFile => "TLS_CA_FILE"
    case AuthEnabled => "AUTH_ENABLED"
  }

  // ----- decimal numbers -----

  function Decimal(n: nat): (s: string)
    ensures s != [] && AllDigits(s) && (n > 0 ==> s[0] != '0')
    ensures n == 0 ==> s == "0"
  {
    if n < 10 then [Digit(n)] else Decimal(n / 10) + [Digit(n % 10)]
  }

  function Digit(d: nat): (c: char)
    requires d < 10
    ensures IsDigit(c) && c as int == d + 48
  {
    (d + 48) as char
  }

  lemma {:induction false} ValueOfDecimal(n: nat)
    ensures Value(Decimal(n)) == n
  {
    var s := Decimal(n);
    if n < 10 {
      assert s[..0] == [];
    } else {
      ValueOfDecimal(n / 10);
      assert s[..|s| - 1] == Decimal(n / 10);
    }
  }

  // ----- names -----

  const UPSTREAM := "MUX_UPSTREAM_"

  /** The variable for a field of the upstream with that number. */
  function IndexedName(number: nat, f: Field): string {
    UPSTREAM + Decimal(number) + "_" + Suffix(f)
  }

  lemma SuffixInjective(f: Field, g: Field)
    requires Suffix(f) == Suffix(g)
    ensures f == g
  {
    assert |"URL"| == 3 && |"AUTH_USERNAME"| == 13 && |"AUTH_PASSWORD"| == 13 && |"TLS_CA_FILE"| == 11;
    assert |"AUTH_ENABLED"| == 12;
    assert "AUTH_USERNAME"[5] != "AUTH_PASSWORD"[5];
  }

  lemma TailSplits(start: string, number: string, rest: string)
    requires '_' !in number
    ensures var tail := (start + number + "_" + rest)[|start|..];
            IndexOf(tail, '_') == |number| && tail[..|number|] == number && tail[|number| + 1..] == rest
  {
    var tail := number + "_" + rest;
    assert (start + number + "_" + rest)[|start|..] == tail;
    assert tail[..|number|] == number && tail[|number|] == '_' && tail[|number| + 1..] == rest;
    IndexOfUnique(tail, '_', |number|);
  }

  lemma DecimalHasNoUnderscore(n: nat)
    ensures '_' !in Decimal(n)
  {
    var d := Decimal(n);
    forall i | 0 <= i < |d| ensures d[i] != '_' {
      assert IsDigit(d[i]);
    }
  }

  /** A name shows its number and its field: they stand around the first underscore after the start. */
  lemma NameTail(number: nat, f: Field)
    ensures var tail := IndexedName(number, f)[|UPSTREAM|..];
            var n := IndexOf(tail, '_');
            n < |tail| && tail[..n] == Decimal(number) && tail[n + 1..] == Suffix(f)
  {
    DecimalHasNoUnderscore(number);
    TailSplits(UPSTREAM, Decimal(number), Suffix(f));
  }

  /** Indexed names are pairwise distinct. */
  lemma IndexedNamesDistinct(i: nat, f: Field, j: nat, g: Field)
    requires IndexedName(i, f) == IndexedName(j, g)
    ensures i == j && f == g
  {
    NameTail(i, f);
    NameTail(j, g);
    ValueOfDecimal(i);
    ValueOfDecimal(j);
    SuffixInjective(f, g);
  }

  predicate IsFixed(name: string) {
    name in UNAPPLIED || name in STRINGS || name in BOOLEANS || name in INTEGERS || name in DURATIONS
  }

  ghost function NamesOf(number: nat): set<string> {
    var start := "MUX_UPSTREAM_" + Decimal(number) + "_";
    {start + "URL", start + "AUTH_USERNAME", start + "AUTH_PASSWORD", start + "TLS_CA_FILE", start + "AUTH_ENABLED"}
  }

  /** A name for one of the upstreams from 1 to `count`. */
  ghost predicate IsIndexed(name: string, count: nat) {
    exists number :: 1 <= number <= count && name in NamesOf(number)
  }

  ghost function FixedNames(): set<string> {
    Elements(UNAPPLIED) + Elements(STRINGS) + Elements(BOOLEANS) + Elements(INTEGERS) + Elements(DURATIONS)
  }

  lemma InFixedNames(name: string)
    ensures name in FixedNames() <==> IsFixed(name)
  {
  }

  predicate LooksElsewhere(name: string) {
    |name| > 4 && name[4] != 'U'
  }

  lemma StringsLookElsewhere(name: string)
    requires name in STRINGS || name in BOOLEANS || (name in UNAPPLIED && name != COUNT)
    ensures LooksElsewhere(name)
  {
  }

  lemma IntegersLookElsewhere(name: string)
    requires name in INTEGERS
    ensures LooksElsewhere(name)
  {
  }

  lemma DurationsLookElsewhere(name: string)
    requires name in DURATIONS
    ensures LooksElsewhere(name)
  {
  }

  /** An indexed name goes on with a digit. */
  lemma IndexedLooks(number: nat, f: Field)
    ensures !LooksElsewhere(IndexedName(number, f)) && IndexedName(number, f) != COUNT
  {
    var name, start := IndexedName(number, f), UPSTREAM;
    assert name[4] == start[4] && name[|start|] == Decimal(number)[0];
    assert IsDigit(name[13]) && !IsDigit(COUNT[13]);
  }

  /** No variable is both a fixed one and one for an upstream. */
  lemma FixedNotIndexed(name: string, number: nat)
    requires IsFixed(name)
    ensures name !in NamesOf(number)
  {
    if name in NamesOf(number) {
      IndexedLooks(number, FieldOf(number, name));
      if name in INTEGERS {
        IntegersLookElsewhere(name);
      } else if name in DURATIONS {
        DurationsLookElsewhere(name);
      } else {
        StringsLookElsewhere(name);
      }
    }
  }

  // ----- the configuration -----

  datatype Upstream = Upstream(url: string, username: string, password: string, caFile: string, authEnabled: bool)

  const ZERO := Upstream("", "", "", "", false)

  datatype Parsers = Parsers(bools: string -> Option<bool>, ints: string -> Option<int>, durations: string -> Option<int>)

  datatype Problem = Unparsed(name: string) | BadCount | NoUrl(number: nat) | Unknown(name: string)

  class Config {
    var strings: map<string, string>
    var bools: map<string, bool>
    var ints: map<string, int>
    var durations: map<string, int>
    var upstreams: seq<Upstream>
  }

  function Text(s: string): Option<string> {
    Some(s)
  }

  /** The variables of a table that are set can be converted. */
  ghost predicate Parse<T>(values: Values, names: seq<string>, parse: string -> Option<T>) {
    forall n :: n in names && n in values ==> parse(values[n]).Some?
  }

  /** Every field is its override or its old value. */
  ghost predicate Applied<T(!new)>(values: Values, names: seq<string>, parse: string -> Option<T>, before: map<string, T>,
                                   after: map<string, T>) {
    && (forall n :: n in after <==> n in before || (n in names && n in values))
    && (forall n :: n in after ==>
          if n in names && n in values then Some(after[n]) == parse(values[n]) else after[n] == before[n])
  }

  /** The same for texts, which need no conversion. */
  ghost predicate Copied(values: Values, names: seq<string>, before: map<string, string>, after: map<string, string>) {
    && (forall n :: n in after <==> n in before || (n in names && n in values))
    && (forall n :: n in after ==> after[n] == if n in names && n in values then values[n] else before[n])
  }

  /** One of the four table loops: the fields and the known names, or the variable that is wrong. */
  method ApplyTable<T(!new)>(values: Values, names: seq<string>, parse: string -> Option<T>, fields: map<string, T>,
                             known: set<string>)
    returns (after: map<string, T>, allKnown: set<string>, wrong: Option<string>)
    ensures wrong.None? <==> Parse(values, names, parse)
    ensures wrong.None? ==> Applied(values, names, parse, fields, after) && allKnown == known + Elements(names)
    ensures wrong.Some? ==> wrong.value in names && wrong.value in values && parse(values[wrong.value]).None?
  {
    after, allKnown := fields, known;
    for i := 0 to |names|
      invariant Parse(values, names[..i], parse)
      invariant Applied(values, names[..i], parse, fields, after)
      invariant allKnown == known + Elements(names[..i])
    {
      var n := names[i];
      ghost var before := names[..i];
      assert names[..i + 1] == before + [n];
      assert forall x :: x in before + [n] <==> x in before || x == n;
      allKnown := allKnown + {n};
      if n in values {
        var parsed := parse(values[n]);
        if parsed.None? {
          return after, allKnown, Some(n);
        }
        AppliedMore(values, before, parse, fields, after, n);
        after := after[n := parsed.value];
      }
    }
    assert names[..|names|] == names;
    wrong := None;
  }

  lemma AppliedMore<T(!new)>(values: Values, names: seq<string>, parse: string -> Option<T>, before: map<string, T>,
                             after: map<string, T>, n: string)
    requires Applied(values, names, parse, before, after) && n in values && parse(values[n]).Some?
    ensures Applied(values, names + [n], parse, before, after[n := parse(values[n]).value])
  {
    assert forall x :: x in names + [n] <==> x in names || x == n;
  }

  function Or(values: Values, name: string, otherwise: string): string {
    if name in values then values[name] else otherwise
  }

  /** The upstream that the variables with that number describe. */
  ghost function Described(values: Values, parse: string -> Option<bool>, number: nat): Option<Upstream> {
    var start := "MUX_UPSTREAM_" + Decimal(number) + "_";
    var auth := start + "AUTH_ENABLED";
    var enabled := if auth in values then parse(values[auth]) else Some(false);
    if enabled.None? then None
    else
      Some(Upstream(Or(values, start + "URL", ""), Or(values, start + "AUTH_USERNAME", ""),
                    Or(values, start + "AUTH_PASSWORD", ""), Or(values, start + "TLS_CA_FILE", ""), enabled.value))
  }

  /** The upstream's variables can be converted and give it a URL. */
  ghost predicate Complete(values: Values, parse: string -> Option<bool>, number: nat) {
    var u := Described(values, parse, number);
    u.Some? && u.value.url != ""
  }

  /** The body of the loop over upstreams. */
  method ReadUpstream(values: Values, parse: string -> Option<bool>, number: nat)
    returns (upstream: Upstream, names: set<string>, problem: Option<Problem>)
    ensures problem.None? <==> Complete(values, parse, number)
    ensures problem.None? ==> Some(upstream) == Described(values, parse, number) && names == NamesOf(number)
    ensures problem.Some? ==>
              problem.value == if Described(values, parse, number).Some? then NoUrl(number)
                               else Unparsed("MUX_UPSTREAM_" + Decimal(number) + "_" + "AUTH_ENABLED")
  {
    upstream, names := ZERO, {};
    var url := IndexedName(number, Url);
    names := names + {url};
    if url in values {
      upstream := upstream.(url := values[url]);
    }
    var username := IndexedName(number, Username);
    names := names + {username};
    if username in values {
      upstream := upstream.(username := values[username]);
    }
    var password := IndexedName(number, Password);
    names := names + {password};
    if password in values {
      upstream := upstream.(password := values[password]);
    }
    var caFile := IndexedName(number, CaFile);
    names := names + {caFile};
    if caFile in values {
      upstream := upstream.(caFile := values[caFile]);
    }
    var auth := IndexedName(number, AuthEnabled);
    names := names + {auth};
    if auth in values {
      var parsed := parse(values[auth]);
      if parsed.None? {
        return upstream, names, Some(Unparsed(auth));
      }
      upstream := upstream.(authEnabled := parsed.value);
    }
    if upstream.url == "" {
      return upstream, names, Some(NoUrl(number));
    }
    problem := None;
  }

  /** The number of upstreams that the variables ask for; None when it is malformed. */
  ghost function Count(values: Values, parse: string -> Option<int>): Option<nat>
    requires "MUX_UPSTREAM_COUNT" in values
  {
    var count := parse(values["MUX_UPSTREAM_COUNT"]);
    if count.Some? && 0 <= count.value <= 1024 then Some(count.value) else None
  }

  /** The variables of the upstreams from 1 to `count` are in order. */
  ghost predicate AllComplete(values: Values, parse: string -> Option<bool>, count: nat) {
    forall number :: 1 <= number <= count ==> Complete(values, parse, number)
  }

  /** These upstreams are the ones that the variables with numbers from 1 on describe. */
  ghost predicate AreDescribed(values: Values, parse: string -> Option<bool>, upstreams: seq<Upstream>) {
    forall i :: 0 <= i < |upstreams| ==> Some(upstreams[i]) == Described(values, parse, i + 1)
  }

  lemma OneMoreDescribed(values: Values, parse: string -> Option<bool>, upstreams: seq<Upstream>, upstream: Upstream)
    requires AreDescribed(values, parse, upstreams) && Some(upstream) == Described(values, parse, |upstreams| + 1)
    ensures AreDescribed(values, parse, upstreams + [upstream])
  {
  }

  lemma OneMoreComplete(values: Values, parse: string -> Option<bool>, count: nat)
    ensures AllComplete(values, parse, count + 1) <==> AllComplete(values, parse, count) && Complete(values, parse, count + 1)
  {
  }

  lemma FewerComplete(values: Values, parse: string -> Option<bool>, count: nat, number: nat)
    requires 1 <= number <= count && !Complete(values, parse, number)
    ensures !AllComplete(values, parse, count)
  {
  }

  /** The upstreams' part of the variables is in order. */
  ghost predicate UpstreamsFit(values: Values, p: Parsers) {
    "MUX_UPSTREAM_COUNT" in values ==>
      && Count(values, p.ints).Some?
      && AllComplete(values, p.bools, Count(values, p.ints).value)
  }

  /** The upstreams whose variables are read. */
  ghost function Numbered(values: Values, p: Parsers): nat {
    if "MUX_UPSTREAM_COUNT" in values && Count(values, p.ints).Some? then Count(values, p.ints).value else 0
  }

  ghost predicate Replaced(values: Values, p: Parsers, before: seq<Upstream>, after: seq<Upstream>) {
    if "MUX_UPSTREAM_COUNT" in values then
      |after| == Numbered(values, p) && AreDescribed(values, p.bools, after)
    else
      after == before
  }

  /** The loop over upstreams. */
  method ReadEach(values: Values, parse: string -> Option<bool>, count: nat, known: set<string>)
    returns (upstreams: seq<Upstream>, allKnown: set<string>, problem: Option<Problem>)
    ensures problem.None? <==> AllComplete(values, parse, count)
    ensures problem.None? ==> |upstreams| == count && AreDescribed(values, parse, upstreams)
    ensures problem.None? ==> KnowsTo(known, allKnown, count)
    ensures problem.Some? ==> problem.value.Unparsed? || problem.value.NoUrl?
    ensures problem.Some? && problem.value.Unparsed? ==> problem.value.name in values
  {
    upstreams, allKnown, problem := [], known, None;
    for i := 0 to count
      invariant |upstreams| == i && AreDescribed(values, parse, upstreams)
      invariant AllComplete(values, parse, i)
      invariant KnowsTo(known, allKnown, i)
      invariant problem.None?
    {
      var upstream, names, wrong := ReadUpstream(values, parse, i + 1);
      if wrong.Some? {
        FewerComplete(values, parse, count, i + 1);
        return upstreams, allKnown, wrong;
      }
      OneMoreComplete(values, parse, i);
      OneMoreDescribed(values, parse, upstreams, upstream);
      upstreams := upstreams + [upstream];
      KnowsMore(known, allKnown, i);
      allKnown := allKnown + names;
    }
  }

  method ReadUpstreams(values: Values, p: Parsers, present: seq<Upstream>, known: set<string>)
    returns (upstreams: seq<Upstream>, allKnown: set<string>, problem: Option<Problem>)
    ensures problem.None? <==> UpstreamsFit(values, p)
    ensures problem.None? ==> Replaced(values, p, present, upstreams)
    ensures problem.None? ==> KnowsTo(known, allKnown, Numbered(values, p))
    ensures problem.Some? ==> "MUX_UPSTREAM_COUNT" in values && !problem.value.Unknown?
    ensures problem.Some? && problem.value.Unparsed? ==> problem.value.name in values
    ensures problem == Some(BadCount) <==> "MUX_UPSTREAM_COUNT" in values && Count(values, p.ints).None?
  {
    upstreams, allKnown, problem := present, known, None;
    if COUNT in values {
      var count := p.ints(values[COUNT]);
      if count.None? || count.value < 0 || count.value > MAX_UPSTREAMS {
        return upstreams, allKnown, Some(BadCount);
      }
      upstreams, allKnown, problem := ReadEach(values, p.bools, count.value, known);
    }
  }

  lemma IndexedMore(name: string, count: nat)
    ensures IsIndexed(name, count + 1) <==> IsIndexed(name, count) || name in NamesOf(count + 1)
  {
    if IsIndexed(name, count) {
      var number :| 1 <= number <= count && name in NamesOf(number);
      assert 1 <= number <= count + 1;
    }
  }

  ghost predicate KnowsTo(known: set<string>, allKnown: set<string>, count: nat) {
    forall n :: n in allKnown <==> n in known || IsIndexed(n, count)
  }

  lemma KnowsMore(known: set<string>, allKnown: set<string>, count: nat)
    requires KnowsTo(known, allKnown, count)
    ensures KnowsTo(known, allKnown + NamesOf(count + 1), count + 1)
  {
    forall n ensures n in allKnown + NamesOf(count + 1) <==> n in known || IsIndexed(n, count + 1) {
      IndexedMore(n, count);
    }
  }

  /** A variable for an upstream belongs to one upstream and one field only. */
  lemma OneFieldEach(i: nat, j: nat, name: string)
    requires name in NamesOf(i) && name in NamesOf(j)
    ensures i == j && exists f :: IndexedName(i, f) == name && forall g :: IndexedName(i, g) == name ==> g == f
  {
    var f := FieldOf(i, name);
    var g := FieldOf(j, name);
    IndexedNamesDistinct(i, f, j, g);
    forall g | IndexedName(i, g) == name ensures g == f {
      IndexedNamesDistinct(i, f, i, g);
    }
  }

  ghost function FieldOf(number: nat, name: string): (f: Field)
    requires name in NamesOf(number)
    ensures IndexedName(number, f) == name
  {
    if name == IndexedName(number, Url) then Url
    else if name == IndexedName(number, Username) then Username
    else if name == IndexedName(number, Password) then Password
    else if name == IndexedName(number, CaFile) then CaFile
    else AuthEnabled
  }

  /** Every variable is one that the program knows. */
  ghost predicate AllKnown(values: Values, count: nat) {
    forall n :: n in values ==> IsFixed(n) || IsIndexed(n, count)
  }

  ghost predicate AllParse(values: Values, p: Parsers) {
    Parse(values, BOOLEANS, p.bools) && Parse(values, INTEGERS, p.ints) && Parse(values, DURATIONS, p.durations)
  }

  /** The four table loops. */
  method ApplyTables(cfg: Config, values: Values, p: Parsers) returns (known: set<string>, wrong: Option<string>)
    modifies cfg
    ensures cfg.upstreams == old(cfg.upstreams)
    ensures wrong.None? <==> AllParse(values, p)
    ensures wrong.None? ==> known == FixedNames()
    ensures wrong.Some? ==> wrong.value in values
    ensures wrong.None? ==>
              && Copied(values, STRINGS, old(cfg.strings), cfg.strings)
              && Applied(values, BOOLEANS, p.bools, old(cfg.bools), cfg.bools)
              && Applied(values, INTEGERS, p.ints, old(cfg.ints), cfg.ints)
              && Applied(values, DURATIONS, p.durations, old(cfg.durations), cfg.durations)
  {
    known := set n | n in UNAPPLIED;
    assert known == Elements(UNAPPLIED);
    var strings, bools, ints, durations;
    strings, known, wrong := ApplyTable(values, STRINGS, Text, cfg.strings, known);
    cfg.strings := strings;
    bools, known, wrong := ApplyTable(values, BOOLEANS, p.bools, cfg.bools, known);
    cfg.bools := bools;
    if wrong.Some? {
      return;
    }
    ints, known, wrong := ApplyTable(values, INTEGERS, p.ints, cfg.ints, known);
    cfg.ints := ints;
    if wrong.Some? {
      return;
    }
    durations, known, wrong := ApplyTable(values, DURATIONS, p.durations, cfg.durations, known);
    cfg.durations := durations;
  }

  /** The last loop: some variable that is not known. */
  method FindUnknown(values: Values, known: set<string>) returns (unknown: Option<string>)
    ensures unknown.None? <==> values.Keys <= known
    ensures unknown.Some? ==> unknown.value in values && unknown.value !in known
  {
    var left := values.Keys;
    while left != {}
      invariant left <= values.Keys && values.Keys - left <= known
      decreases |left|
    {
      var name :| name in left;
      if name !in known {
        return Some(name);
      }
      left := left - {name};
    }
    unknown := None;
  }

  /** Succeeds exactly when every variable converts, the upstreams are complete, and every variable
      is a fixed name or one for an upstream from 1 to the count; then every field is its override
      or its old value. */
  method ApplyEnvOverrides(cfg: Config, values: Values, p: Parsers) returns (problem: Option<Problem>)
    modifies cfg
    ensures problem.None? <==> AllParse(values, p) && UpstreamsFit(values, p) && AllKnown(values, Numbered(values, p))
    ensures problem.None? ==>
              && Copied(values, STRINGS, old(cfg.strings), cfg.strings)
              && Applied(values, BOOLEANS, p.bools, old(cfg.bools), cfg.bools)
              && Applied(values, INTEGERS, p.ints, old(cfg.ints), cfg.ints)
              && Applied(values, DURATIONS, p.durations, old(cfg.durations), cfg.durations)
              && Replaced(values, p, old(cfg.upstreams), cfg.upstreams)
    ensures problem.Some? && problem.value.Unknown? ==>
              problem.value.name in values && !IsFixed(problem.value.name) && !IsIndexed(problem.value.name, Numbered(values, p))
    ensures problem.Some? && problem.value.Unparsed? ==> problem.value.name in values
  {
    var known, wrong := ApplyTables(cfg, values, p);
    if wrong.Some? {
      return Some(Unparsed(wrong.value));
    }
    var upstreams;
    upstreams, known, problem := ReadUpstreams(values, p, cfg.upstreams, known);
    if problem.Some? {
      return;
    }
    cfg.upstreams := upstreams;
    var unknown := FindUnknown(values, known);
    problem := if unknown.Some? then Some(Unknown(unknown.value)) else None;
    forall n ensures n in known <==> IsFixed(n) || IsIndexed(n, Numbered(values, p)) {
      InFixedNames(n);
    }
  }
}
