/** Parsing of `host`, `host:port`, `[host]`, `[host]:port` and bare IPv6 literals. */
module HostPort {
  import opened Words

  const HOST_CAPACITY: nat := 256

  datatype Endpoint = Endpoint(host: string, port: nat)

  // ----- decimal ports

  predicate Digits(s: string) {
    forall i | 0 <= i < |s| :: '0' <= s[i] <= '9'
  }

  function Digit(c: char): nat
    requires '0' <= c <= '9'
  {
    (c - '0') as int
  }

  /** The number a digit string denotes, leading zeros included. */
  function Value(s: string): nat
    requires Digits(s)
  {
    if s == [] then 0 else 10 * Value(s[..|s| - 1]) + Digit(s[|s| - 1])
  }

  predicate IsPort(s: string) {
    s != [] && Digits(s) && Value(s) <= 65535
  }

  lemma {:induction false} ValueOfPrefix(s: string, k: nat)
    requires Digits(s) && k <= |s|
    ensures Value(s[..k]) <= Value(s)
    decreases |s|
  {
    if k < |s| {
      assert s[..|s| - 1][..k] == s[..k];
      ValueOfPrefix(s[..|s| - 1], k);
    } else {
      assert s[..k] == s;
    }
  }

  function Decimal(n: nat): (s: string)
    ensures s != [] && Digits(s) && Value(s) == n
  {
    if n < 10 then [n as char + '0'] else
    var s := Decimal(n / 10) + [(n % 10) as char + '0'];
    assert s[..|s| - 1] == Decimal(n / 10);
    s
  }

  // ----- the documented forms

  predicate HostFits(h: string) {
    0 < |h| < HOST_CAPACITY
  }

  predicate Bare(h: string) {
    HostFits(h) && h[0] != '['
  }

  function Colons(s: string): nat {
    if s == [] then 0 else Colons(s[..|s| - 1]) + if s[|s| - 1] == ':' then 1 else 0
  }

  /** What a text means: nothing when it is none of the documented forms. */
  ghost predicate Means(input: string, defaultPort: nat, e: Endpoint) {
    || (input == "[" + e.host + "]" && HostFits(e.host) && ']' !in e.host && e.port == defaultPort)
    || (HostFits(e.host) && ']' !in e.host
        && exists p :: input == "[" + e.host + "]:" + p && IsPort(p) && e.port == Value(p))
    || (input == e.host && Bare(e.host) && Colons(e.host) != 1 && e.port == defaultPort)
    || (exists p :: input == e.host + ":" + p && Bare(e.host) && ':' !in e.host && IsPort(p) && e.port == Value(p))
  }

  /** A text whose host can be read, followed by something that is not its port: it means nothing. */
  ghost predicate HalfRead(input: string, h: string) {
    && HostFits(h)
    && ((exists t :: input == "[" + h + "]" + t && ']' !in h && t != [] && !(t[0] == ':' && IsPort(t[1..])))
        || (exists p :: input == h + ":" + p && Bare(h) && ':' !in h && ':' !in p && p != [] && !IsPort(p)))
  }

  lemma {:induction false} ColonCount(s: string)
    ensures Colons(s) == 0 <==> ':' !in s
    decreases |s|
  {
    if s != [] {
      var front := s[..|s| - 1];
      ColonCount(front);
      assert s == front + [s[|s| - 1]];
    }
  }

  lemma {:induction false} ColonsJoin(a: string, b: string)
    ensures Colons(a + b) == Colons(a) + Colons(b)
    decreases |b|
  {
    if b == [] {
      assert a + b == a;
    } else {
      assert (a + b)[..|a + b| - 1] == a + b[..|b| - 1];
      ColonsJoin(a, b[..|b| - 1]);
    }
  }

  /** The parse of a text in brackets is determined by its first closing bracket. */
  lemma BracketSplit(h: string, t: string, h': string, t': string)
    requires ']' !in h && ']' !in h'
    requires "[" + h + "]" + t == "[" + h' + "]" + t'
    ensures h == h' && t == t'
  {
    var s := "[" + h + "]" + t;
    assert s[|h| + 1] == ']' && s[|h'| + 1] == ']';
    assert forall j | 1 <= j <= |h| :: s[j] == h[j - 1] && h[j - 1] in h;
    assert forall j | 1 <= j <= |h'| :: s[j] == h'[j - 1] && h'[j - 1] in h';
    assert h == s[1..|h| + 1] && h' == s[1..|h'| + 1];
    assert t == s[|h| + 2..] && t' == s[|h'| + 2..];
  }

  lemma ColonSplit(h: string, p: string, h': string, p': string)
    requires ':' !in h && ':' !in h'
    requires h + ":" + p == h' + ":" + p'
    ensures h == h' && p == p'
  {
    var s := h + ":" + p;
    assert s[|h|] == ':' && s[|h'|] == ':';
    assert forall j | 0 <= j < |h| :: s[j] == h[j] && h[j] in h;
    assert forall j | 0 <= j < |h'| :: s[j] == h'[j] && h'[j] in h';
    assert h == s[..|h|] && h' == s[..|h'|];
    assert p == s[|h| + 1..] && p' == s[|h'| + 1..];
  }

  lemma ColonAlone()
    ensures Colons(":") == 1
  {
    assert ":"[..0] == [];
  }

  lemma ColonForm(h: string, p: string)
    requires ':' !in h && ':' !in p
    ensures Colons(h + ":" + p) == 1
  {
    hide Colons, Value;
    ColonsJoin(h, ":");
    ColonsJoin(h + ":", p);
    ColonAlone();
    ColonCount(h);
    ColonCount(p);
  }

  /** A text has at most one meaning. */
  lemma MeaningUnique(input: string, defaultPort: nat, e: Endpoint, e': Endpoint)
    requires Means(input, defaultPort, e) && Means(input, defaultPort, e')
    ensures e == e'
  {
    hide Value, Colons;
    if input[0] == '[' {
      var t := BracketForm(input, defaultPort, e);
      var t' := BracketForm(input, defaultPort, e');
      BracketSplit(e.host, t, e'.host, t');
    } else if input != e.host && input != e'.host {
      var p :| input == e.host + ":" + p && ':' !in e.host && IsPort(p) && e.port == Value(p);
      var p' :| input == e'.host + ":" + p' && ':' !in e'.host && IsPort(p') && e'.port == Value(p');
      ColonSplit(e.host, p, e'.host, p');
    } else {
      PlainIsNotColon(input, e.host);
      PlainIsNotColon(input, e'.host);
    }
  }

  lemma PlainIsNotColon(input: string, h: string)
    ensures (exists p :: input == h + ":" + p && ':' !in h && (':' !in p || IsPort(p))) ==> Colons(input) == 1
  {
    if p :| input == h + ":" + p && ':' !in h && (':' !in p || IsPort(p)) {
      ColonForm(h, p);
    }
  }

  /** A host that can be read without its port is the only one, and its text has no meaning. */
  lemma HalfReadOnly(input: string, h: string)
    requires HalfRead(input, h)
    ensures forall h' | HalfRead(input, h') :: h' == h
    ensures forall defaultPort, e :: !Means(input, defaultPort, e)
  {
    hide Value, Colons;
    if input[0] == '[' {
      var t := HalfBracketForm(input, h);
      forall h' | HalfRead(input, h')
        ensures h' == h
      {
        var t' := HalfBracketForm(input, h');
        BracketSplit(h, t, h', t');
      }
      forall defaultPort, e
        ensures !Means(input, defaultPort, e)
      {
        if Means(input, defaultPort, e) {
          var t' := BracketForm(input, defaultPort, e);
          BracketSplit(h, t, e.host, t');
        }
      }
    } else {
      var p :| input == h + ":" + p && ':' !in h && ':' !in p && !IsPort(p);
      PlainIsNotColon(input, h);
      forall h' | HalfRead(input, h')
        ensures h' == h
      {
        var p' :| input == h' + ":" + p' && ':' !in h';
        ColonSplit(h, p, h', p');
      }
      forall defaultPort, e
        ensures !Means(input, defaultPort, e)
      {
        if Means(input, defaultPort, e) {
          var p' :| input == e.host + ":" + p' && ':' !in e.host && IsPort(p');
          ColonSplit(h, p, e.host, p');
        }
      }
    }
  }

  lemma HalfBracketForm(input: string, h: string) returns (t: string)
    requires HalfRead(input, h) && input[0] == '['
    ensures input == "[" + h + "]" + t && ']' !in h && t != [] && !(t[0] == ':' && IsPort(t[1..]))
  {
    t :| input == "[" + h + "]" + t && ']' !in h && t != [] && !(t[0] == ':' && IsPort(t[1..]));
  }

  lemma BracketForm(input: string, defaultPort: nat, e: Endpoint) returns (t: string)
    requires Means(input, defaultPort, e) && input[0] == '['
    ensures input == "[" + e.host + "]" + t && ']' !in e.host
    ensures if t == [] then e.port == defaultPort else t[0] == ':' && IsPort(t[1..]) && e.port == Value(t[1..])
  {
    hide Value, Colons;
    if input == "[" + e.host + "]" {
      t := [];
    } else {
      var p :| input == "[" + e.host + "]:" + p && IsPort(p) && e.port == Value(p);
      t := ":" + p;
      assert t[1..] == p;
      assert "[" + e.host + "]:" + p == "[" + e.host + "]" + t;
    }
  }

  // ----- the parser

  /** The endpoint a caller hands in to be filled. */
  class Output {
    var host: string
    var port: nat

    constructor ()
      ensures host == [] && port == 0
    {
      host, port := [], 0;
    }

    /** What a parse that fails after clearing the output leaves: the default port, and the host if it was read. */
    ghost predicate LeftBy(input: string, defaultPort: nat)
      reads this
    {
      && port == defaultPort
      && if host != [] then HalfRead(input, host) else forall h :: !HalfRead(input, h)
    }

    ghost predicate Parsed(input: string, defaultPort: nat, ok: bool)
      reads this
    {
      if ok then Means(input, defaultPort, Endpoint(host, port))
      else LeftBy(input, defaultPort) && forall e :: !Means(input, defaultPort, e)
    }
  }

  /**
   * `samp_net_parse_hostport`: succeeds on exactly the documented forms, with what they mean. When it fails, the empty
   * text leaves the output alone, and any other leaves the default port and whatever host was read before the failure.
   */
  method Parse(input: string, defaultPort: nat, out: Output) returns (ok: bool)
    modifies out
    ensures ok ==> Means(input, defaultPort, Endpoint(out.host, out.port))
    ensures !ok ==> forall e :: !Means(input, defaultPort, e)
    ensures !ok && input == [] ==> out.host == old(out.host) && out.port == old(out.port)
    ensures !ok && input != [] ==> out.LeftBy(input, defaultPort)
  {
    hide Value, Colons;
    if input == [] {
      return false;
    }
    out.host := [];
    out.port := defaultPort;
    if input[0] == '[' {
      ok := ParseBracketed(input, out);
      return;
    }
    var colons, single := 0, 0;
    EmptyColons();
    for i := 0 to |input|
      invariant out.host == [] && out.port == defaultPort
      invariant colons == Colons(input[..i])
      invariant colons > 0 ==> single < i && input[single] == ':' && ':' !in input[single + 1..i]
      invariant colons == 1 ==> ':' !in input[..single]
    {
      NextColon(input, i);
      if input[i] == ':' {
        colons := colons + 1;
        single := i;
      }
    }
    assert input[..|input|] == input;
    if colons == 1 {
      ok := ParseWithPort(input, single, out);
      return;
    }
    PlainForms(input, defaultPort);
    ok := CopyHost(input, out);
  }

  /** Without exactly one colon, a text outside brackets can only be a host. */
  lemma PlainForms(input: string, defaultPort: nat)
    requires input != [] && input[0] != '[' && Colons(input) != 1
    ensures forall e :: Means(input, defaultPort, e) <==> e == Endpoint(input, defaultPort) && HostFits(input)
    ensures forall h :: !HalfRead(input, h)
  {
    hide Value, Colons;
    forall h
      ensures !HalfRead(input, h)
      ensures !exists p :: input == h + ":" + p && ':' !in h && IsPort(p)
    {
      PlainIsNotColon(input, h);
    }
    forall e
      ensures Means(input, defaultPort, e) <==> e == Endpoint(input, defaultPort) && HostFits(input)
    {
    }
  }

  lemma EmptyColons()
    ensures Colons([]) == 0
  {
  }

  lemma NextColon(s: string, i: nat)
    requires i < |s|
    ensures Colons(s[..i + 1]) == Colons(s[..i]) + if s[i] == ':' then 1 else 0
    ensures Colons(s[..i]) == 0 <==> ':' !in s[..i]
  {
    assert s[..i + 1][..i] == s[..i];
    ColonCount(s[..i]);
  }

  /** `copy_host` */
  method CopyHost(source: string, out: Output) returns (ok: bool)
    modifies out`host
    ensures ok <==> HostFits(source)
    ensures out.host == if ok then source else old(out.host)
  {
    if |source| == 0 || |source| >= HOST_CAPACITY {
      return false;
    }
    out.host := source;
    ok := true;
  }

  /** `parse_u16_port`: the loop gives up as soon as the value is too large, whatever follows. */
  method ParsePort(text: string, out: Output) returns (ok: bool)
    modifies out`port
    ensures ok <==> IsPort(text)
    ensures out.port == if ok then Value(text) else old(out.port)
  {
    if text == [] {
      return false;
    }
    var value := 0;
    for i := 0 to |text|
      invariant Digits(text[..i]) && value == Value(text[..i]) <= 65535
    {
      var c := text[i];
      assert text[..i + 1] == text[..i] + [c] && text[..i + 1][..i] == text[..i];
      if c < '0' || c > '9' {
        assert !Digits(text);
        return false;
      }
      value := value * 10 + (c - '0') as int;
      assert value == Value(text[..i + 1]);
      if value > 65535 {
        if Digits(text) {
          ValueOfPrefix(text, i + 1);
        }
        return false;
      }
    }
    assert text[..|text|] == text;
    out.port := value;
    ok := true;
  }

  /** What a bracketed text can mean, given its first closing bracket. */
  ghost predicate BracketsMean(input: string, end: nat, defaultPort: nat, e: Endpoint)
    requires 1 <= end < |input|
  {
    var h, t := input[1..end], input[end + 1..];
    && e.host == h && HostFits(h)
    && if t == [] then e.port == defaultPort else t[0] == ':' && IsPort(t[1..]) && e.port == Value(t[1..])
  }

  lemma BracketForms(input: string, end: nat, defaultPort: nat)
    requires input != [] && input[0] == '[' && 1 <= end < |input| && input[end] == ']' && ']' !in input[1..end]
    ensures forall e :: Means(input, defaultPort, e) <==> BracketsMean(input, end, defaultPort, e)
    ensures forall h :: HalfRead(input, h) <==>
      h == input[1..end] && HostFits(h) && end + 1 < |input| && !(input[end + 1] == ':' && IsPort(input[end + 2..]))
  {
    hide Value, Colons;
    var h, t := input[1..end], input[end + 1..];
    assert input == "[" + h + "]" + t;
    assert t != [] ==> t[0] == input[end + 1] && t[1..] == input[end + 2..];
    forall e | Means(input, defaultPort, e)
      ensures BracketsMean(input, end, defaultPort, e)
    {
      var t' := BracketForm(input, defaultPort, e);
      BracketSplit(e.host, t', h, t);
    }
    forall e | BracketsMean(input, end, defaultPort, e)
      ensures Means(input, defaultPort, e)
    {
      if t != [] {
        assert input == "[" + e.host + "]:" + t[1..];
      }
    }
    forall h' | HalfRead(input, h')
      ensures h' == h && t != [] && !(t[0] == ':' && IsPort(t[1..]))
    {
      var t' := HalfBracketForm(input, h');
      BracketSplit(h', t', h, t);
    }
  }

  lemma IsClosed(h: string, t: string)
    ensures ']' in ("[" + h + "]" + t)[1..]
  {
    assert ("[" + h + "]" + t)[1..][|h|] == ']';
  }

  /** A text that opens a bracket and never closes it has no host. */
  lemma NeverClosed(input: string, defaultPort: nat)
    requires input != [] && input[0] == '[' && ']' !in input[1..]
    ensures forall e :: !Means(input, defaultPort, e)
    ensures forall h :: !HalfRead(input, h)
  {
    hide Value, Colons;
    forall e
      ensures !Means(input, defaultPort, e)
    {
      if Means(input, defaultPort, e) {
        var t := BracketForm(input, defaultPort, e);
        IsClosed(e.host, t);
      }
    }
    forall h
      ensures !HalfRead(input, h)
    {
      if HalfRead(input, h) {
        var t := HalfBracketForm(input, h);
        IsClosed(h, t);
      }
    }
  }

  method ParseBracketed(input: string, out: Output) returns (ok: bool)
    requires input != [] && input[0] == '[' && out.host == []
    modifies out
    ensures out.Parsed(input, old(out.port), ok)
  {
    hide Value, Colons, Means, HalfRead;
    var end := 1;
    while end < |input| && input[end] != ']'
      invariant 1 <= end <= |input| && ']' !in input[1..end]
    {
      end := end + 1;
    }
    if end == |input| {
      NeverClosed(input, out.port);
      return false;
    }
    BracketForms(input, end, out.port);
    ok := CopyHost(input[1..end], out);
    if !ok || end + 1 == |input| {
      return;
    }
    if input[end + 1] != ':' {
      return false;
    }
    var text := input[end + 2..];
    if text == [] {
      return false;
    }
    ok := ParsePort(text, out);
  }

  /** A text with exactly one colon is a host and a port. */
  lemma ColonForms(input: string, single: nat, defaultPort: nat)
    requires single < |input| && input[single] == ':' && ':' !in input[..single] && ':' !in input[single + 1..]
    requires input[0] != '['
    ensures forall e :: Means(input, defaultPort, e) <==>
      e.host == input[..single] && HostFits(e.host) && IsPort(input[single + 1..])
        && e.port == Value(input[single + 1..])
    ensures forall h :: HalfRead(input, h) <==>
      h == input[..single] && HostFits(h) && input[single + 1..] != [] && !IsPort(input[single + 1..])
  {
    hide Value, Colons;
    var h, p := input[..single], input[single + 1..];
    assert input == h + ":" + p;
    ColonForm(h, p);
    forall e | Means(input, defaultPort, e)
      ensures e.host == h && HostFits(h) && IsPort(p) && e.port == Value(p)
    {
      var p' :| input == e.host + ":" + p' && ':' !in e.host && IsPort(p') && e.port == Value(p');
      ColonSplit(e.host, p', h, p);
    }
    forall h' | HalfRead(input, h')
      ensures h' == h && p != [] && !IsPort(p)
    {
      var p' :| input == h' + ":" + p' && ':' !in h' && p' != [] && !IsPort(p');
      ColonSplit(h', p', h, p);
    }
  }

  method ParseWithPort(input: string, single: nat, out: Output) returns (ok: bool)
    requires single < |input| && input[single] == ':' && ':' !in input[..single] && ':' !in input[single + 1..]
    requires input[0] != '[' && out.host == []
    modifies out
    ensures out.Parsed(input, old(out.port), ok)
  {
    hide Value, Colons, Means, HalfRead;
    ColonForms(input, single, out.port);
    var text := input[single + 1..];
    if single == 0 || text == [] {
      return false;
    }
    ok := CopyHost(input[..single], out);
    if !ok {
      return;
    }
    ok := ParsePort(text, out);
  }

  /** A failed parse into a fresh output leaves a host there exactly when that host is half read. */
  method HostLeftBehind(input: string, defaultPort: nat) returns (ok: bool, left: Endpoint)
    ensures forall h :: HalfRead(input, h) <==> !ok && left.host == h && h != []
    ensures !ok && left.host != [] ==> left.port == defaultPort
  {
    hide Means;
    var out := new Output();
    ok := Parse(input, defaultPort, out);
    left := Endpoint(out.host, out.port);
    forall h | HalfRead(input, h)
      ensures !ok && left.host == h
    {
      HalfReadOnly(input, h);
    }
  }

  /** A rejected port leaves a host behind, against the documented failure behaviour. */
  lemma HostWithoutPort()
    ensures HalfRead("a:x", "a")
  {
    assert "a:x" == "a" + ":" + "x";
  }

  // ----- printing and parsing back

  /** Bracketing is needed when the host has a colon, or starts like a bracketed one. */
  function Print(e: Endpoint): string
    requires e.host != []
  {
    if ':' in e.host || e.host[0] == '[' then "[" + e.host + "]:" + Decimal(e.port) else e.host + ":" + Decimal(e.port)
  }

  /** Any endpoint whose host can be written at all is printed to a text that means it, whatever the default port. */
  lemma PrintMeans(e: Endpoint, defaultPort: nat)
    requires HostFits(e.host) && e.port <= 65535
    requires ']' !in e.host || (':' !in e.host && e.host[0] != '[')
    ensures Means(Print(e), defaultPort, e)
  {
    assert IsPort(Decimal(e.port));
  }

  /** Parsing what was printed gives the endpoint back. */
  method PrintAndParse(e: Endpoint, defaultPort: nat) returns (back: Option<Endpoint>)
    requires HostFits(e.host) && e.port <= 65535
    requires ']' !in e.host || (':' !in e.host && e.host[0] != '[')
    ensures back == Some(e)
  {
    hide Means, Print;
    PrintMeans(e, defaultPort);
    var out := new Output();
    var ok := Parse(Print(e), defaultPort, out);
    MeaningUnique(Print(e), defaultPort, e, Endpoint(out.host, out.port));
    back := if ok then Some(Endpoint(out.host, out.port)) else None;
  }

  /** The form with brackets, which any host without a closing bracket may take. */
  function PrintBracketed(e: Endpoint): string {
    "[" + e.host + "]:" + Decimal(e.port)
  }

  lemma BracketedMeans(e: Endpoint, defaultPort: nat)
    requires HostFits(e.host) && ']' !in e.host && e.port <= 65535
    ensures Means(PrintBracketed(e), defaultPort, e)
  {
    assert IsPort(Decimal(e.port));
  }

  method PrintBracketedAndParse(e: Endpoint, defaultPort: nat) returns (back: Option<Endpoint>)
    requires HostFits(e.host) && ']' !in e.host && e.port <= 65535
    ensures back == Some(e)
  {
    hide Means, PrintBracketed;
    BracketedMeans(e, defaultPort);
    var out := new Output();
    var ok := Parse(PrintBracketed(e), defaultPort, out);
    MeaningUnique(PrintBracketed(e), defaultPort, e, Endpoint(out.host, out.port));
    back := if ok then Some(Endpoint(out.host, out.port)) else None;
  }

  // ----- examples

  /** A port is at most 65535 ... */
  lemma LargestPort()
    ensures IsPort("65535") && !IsPort("65536")
  {
    hide Value;
    ValueOf("6", '5');
    ValueOf("65", '5');
    ValueOf("655", '3');
    ValueOf("6553", '5');
    ValueOf("6553", '6');
    assert "6" + "5" == "65" && "65" + "5" == "655" && "655" + "3" == "6553";
    assert "6553" + "5" == "65535" && "6553" + "6" == "65536";
  }

  /** ... may have leading zeros ... */
  lemma PaddedPort()
    ensures IsPort("0") && IsPort("0777") && Value("0777") == 777
  {
    hide Value;
    ValueOf("0", '7');
    ValueOf("07", '7');
    ValueOf("077", '7');
    assert "0" + "7" == "07" && "07" + "7" == "077" && "077" + "7" == "0777";
  }

  /** ... and is written in decimal digits only. */
  lemma NoPort()
    ensures !IsPort("") && !IsPort("80a") && !IsPort("-1")
  {
    assert "80a"[2] == 'a' && "-1"[0] == '-';
  }

  lemma ValueOf(s: string, c: char)
    requires Digits(s) && '0' <= c <= '9'
    ensures Digits(s + [c]) && Value(s + [c]) == 10 * Value(s) + (c - '0') as int
    ensures |s| == 1 ==> Value(s) == (s[0] - '0') as int
  {
    assert (s + [c])[..|s|] == s;
    if |s| == 1 {
      assert s[..0] == [];
    }
  }

  /** A host has at most 255 characters. */
  lemma HostLimit(h: string)
    ensures HostFits(h) <==> 1 <= |h| <= 255
  {
  }

  /** A host name, or anything else without a colon or a bracket, with and without a port. */
  lemma HostAndPort(h: string, p: string, defaultPort: nat)
    requires 1 <= |h| <= 255 && ':' !in h && h[0] != '['
    ensures Means(h, defaultPort, Endpoint(h, defaultPort))
    ensures IsPort(p) ==> Means(h + ":" + p, defaultPort, Endpoint(h, Value(p)))
    ensures !IsPort(p) && ':' !in p ==> forall e :: !Means(h + ":" + p, defaultPort, e)
  {
    hide Value, Colons;
    ColonCount(h);
    if !IsPort(p) && ':' !in p {
      var s := h + ":" + p;
      assert s[..|h|] == h && s[|h| + 1..] == p && s[0] == h[0];
      ColonForms(s, |h|, defaultPort);
    }
  }

  /** More than one colon without brackets: a bare address, never a port. */
  lemma BareAddress(a: string, defaultPort: nat)
    requires 1 <= |a| <= 255 && a[0] != '[' && Colons(a) > 1
    ensures forall e :: Means(a, defaultPort, e) <==> e == Endpoint(a, defaultPort)
  {
    hide Colons;
    PlainForms(a, defaultPort);
  }

  /** A bracketed address, with and without a port; what is not closed, or followed by anything else, means nothing. */
  lemma BracketedAddress(a: string, p: string, defaultPort: nat)
    requires 1 <= |a| <= 255 && ']' !in a
    ensures Means("[" + a + "]", defaultPort, Endpoint(a, defaultPort))
    ensures IsPort(p) ==> Means("[" + a + "]:" + p, defaultPort, Endpoint(a, Value(p)))
    ensures !IsPort(p) ==> forall e :: !Means("[" + a + "]:" + p, defaultPort, e)
    ensures forall e :: !Means("[" + a, defaultPort, e)
  {
    hide Value, Colons;
    var s := "[" + a + "]:" + p;
    assert s[1..|a| + 1] == a && s[|a| + 1] == ']' && s[|a| + 2] == ':' && s[|a| + 3..] == p;
    BracketForms(s, |a| + 1, defaultPort);
    assert ("[" + a)[1..] == a;
    NeverClosed("[" + a, defaultPort);
  }
}
