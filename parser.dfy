/**
 * What LegacyConfigParser does with each line of a legacy definition, as
 * functions on the parser's state: the state after a line, or the error
 * the line raises. The class in storage.dfy performs the same steps in
 * place and is proved to agree with these functions.
 */
module Parser {
  import opened Outcomes
  import opened Text
  import opened Expr
  import opened Header
  import opened Graph
  import opened Errors

  /** The parser between two lines: line counter, file name, configuration and forward references. */
  datatype State = State(lineNumber: nat, filename: string, config: Config, missing: seq<Pending>)

  predicate StateValid(st: State) {
    Valid(st.config) && ParentsIn(st.missing, |st.config.nodes|)
  }

  /** The parser right after construction, for an in-memory definition: no file name. */
  function Initial(name: string, metadata: Metadata): (st: State)
    ensures StateValid(st) && st.config.nodes == [] && st.missing == []
  {
    State(0, "", EmptyConfig(name, metadata), [])
  }

  /** Name, metadata and file name stay as they were. */
  predicate SameFrame(st: State, st': State) {
    st'.filename == st.filename && st'.config.name == st.config.name && st'.config.metadata == st.config.metadata
  }

  /** parseError: a parse error at the current line. */
  function Fail(st: State, reason: string): Error {
    ParseError(SourceName(st.filename), st.lineNumber, reason)
  }

  /** `empty($line) || $line[0] === '#'` on a trimmed line; empty() also holds of "0". */
  predicate Skipped(line: string) {
    line == [] || line == "0" || line[0] == '#'
  }

  /** A missing element of a list() destructuring is null; PHP uses null as "" where a string is needed. */
  function Field(parts: seq<string>, i: nat): (r: Option<string>)
    ensures r.Some? <==> i < |parts|
    ensures r.Some? ==> r.value == parts[i]
  {
    if i < |parts| then Some(parts[i]) else None
  }

  function OrEmpty(o: Option<string>): string {
    match o
    case Some(s) => s
    case None => ""
  }

  // ---------------------------------------------------------------- directives

  datatype Directive = Display | ExternalInfo | ExtraInfo | InfoUrl | StateOverrides | Template

  function Keyword(d: Directive): string {
    match d
    case Display => "display"
    case ExternalInfo => "external_info"
    case ExtraInfo => "extra_info"
    case InfoUrl => "info_url"
    case StateOverrides => "state_overrides"
    case Template => "template"
  }

  /**
   * parseExtraLine's dispatch on the text before the first space: any word
   * that starts with `display` is a display line; the others must match a
   * keyword exactly.
   */
  function DirectiveOf(kind: string): (r: Option<Directive>)
    ensures r.Some? ==> |Keyword(r.value)| <= |kind| && kind[..|Keyword(r.value)|] == Keyword(r.value)
    ensures r.Some? && r.value != Display ==> kind == Keyword(r.value)
  {
    if |kind| >= 7 && kind[..7] == "display" then Some(Display)
    else if kind == "external_info" then Some(ExternalInfo)
    else if kind == "extra_info" then Some(ExtraInfo)
    else if kind == "info_url" then Some(InfoUrl)
    else if kind == "state_overrides" then Some(StateOverrides)
    else if kind == "template" then Some(Template)
    else None
  }

  /**
   * parseDisplay: `display <rank>;<name>;<alias>`. The named process (created
   * when unknown) gets the alias and the rank; a positive rank makes it a
   * root.
   */
  function ParseDisplay(c: Config, payload: string): (r: Config)
    requires Valid(c)
    ensures Valid(r) && r.name == c.name && r.metadata == c.metadata
  {
    var parts := SplitAround(payload, ';', 3);
    var name := OrEmpty(Field(parts, 1));
    var rank := PhpInt(parts[0]);
    var g := GetBpNode(c, name);
    var c1 := Update(g.0, g.1, g.0.nodes[g.1].(alias := Field(parts, 2), display := Some(rank)));
    if rank > 0 then AddRoot(c1, name) else c1
  }

  /** parseExternalInfo: `external_info <name>;<command>`. */
  function ParseExternalInfo(c: Config, payload: string): (r: Config)
    requires Valid(c)
    ensures Valid(r) && r.name == c.name && r.metadata == c.metadata
  {
    var parts := SplitAround(payload, ';', 2);
    var g := GetBpNode(c, parts[0]);
    Update(g.0, g.1, g.0.nodes[g.1].(infoCommand := Field(parts, 1)))
  }

  /** parseInfoUrl: `info_url <name>;<url>`. */
  function ParseInfoUrl(c: Config, payload: string): (r: Config)
    requires Valid(c)
    ensures Valid(r) && r.name == c.name && r.metadata == c.metadata
  {
    var parts := SplitAround(payload, ';', 2);
    var g := GetBpNode(c, parts[0]);
    Update(g.0, g.1, g.0.nodes[g.1].(infoUrl := Field(parts, 1)))
  }

  /** One `from-to` pair of a state override, read with PHP's (int) cast; a missing `to` is null, i.e. 0. */
  function OverridePair(item: string): (int, int) {
    var parts := SplitAround(item, '-', 2);
    (PhpInt(parts[0]), PhpInt(OrEmpty(Field(parts, 1))))
  }

  /** `$stateOverrides[(int) $from] = (int) $to` for each pair in order. */
  function OverrideMap(items: seq<string>): map<int, int>
    decreases |items|
  {
    if items == [] then map[]
    else
      var last := OverridePair(items[|items| - 1]);
      OverrideMap(items[..|items| - 1])[last.0 := last.1]
  }

  /** One more pair extends the map built from the pairs before it. */
  lemma OverrideMapStep(items: seq<string>, i: nat, from: int, to: int)
    requires i < |items|
    requires var parts := SplitAround(items[i], '-', 2);
      from == PhpInt(parts[0]) && to == PhpInt(if 1 < |parts| then parts[1] else "")
    ensures OverrideMap(items[..i + 1]) == OverrideMap(items[..i])[from := to]
  {
    assert items[..i + 1][..i] == items[..i];
  }

  /** The overrides of `<child>|n-n[,n-n]`: the child name and its map. */
  function ChildOverride(def: string): (string, map<int, int>) {
    var parts := SplitAround(def, '|', 2);
    (parts[0], OverrideMap(SplitAround(OrEmpty(Field(parts, 1)), ',', 0)))
  }

  /** setStateOverrides for each `<child>|…` segment in order. */
  function ApplyOverrides(acc: map<string, map<int, int>>, defs: seq<string>): map<string, map<int, int>>
    decreases |defs|
  {
    if defs == [] then acc
    else
      var o := ChildOverride(defs[0]);
      ApplyOverrides(acc[o.0 := o.1], defs[1..])
  }

  /** One segment's child and map, then the rest of the segments. */
  lemma ApplyOverridesStep(acc: map<string, map<int, int>>, defs: seq<string>, k: nat, child: string, m: map<int, int>)
    requires k < |defs|
    requires var parts := SplitAround(defs[k], '|', 2);
      child == parts[0] && m == OverrideMap(SplitAround(if 1 < |parts| then parts[1] else "", ',', 0))
    ensures ApplyOverrides(acc, defs[k..]) == ApplyOverrides(acc[child := m], defs[k + 1..])
  {
    assert defs[k..][1..] == defs[k + 1..];
  }

  /** parseStateOverrides: `state_overrides <node>!<child>|n-n[,n-n]!…`; the node must exist. */
  function ParseStateOverrides(c: Config, payload: string): (r: Result<Config, Error>)
    requires Valid(c)
    ensures r.Ok? ==> Valid(r.value) && r.value.name == c.name && r.value.metadata == c.metadata
  {
    var segments := SplitAround(payload, '!', 0);
    var target := segments[0];
    if target !in c.index then Err(UnknownNode(target))
    else
      var i := c.index[target];
      var n := c.nodes[i];
      Ok(Update(c, i, n.(overrides := ApplyOverrides(n.overrides, segments[1..]))))
  }

  /** parseExtraLine once the directive is known; `payload` follows the keyword and one character. */
  function ApplyDirective(c: Config, d: Directive, payload: string): (r: Result<Config, Error>)
    requires Valid(c)
    ensures r.Ok? ==> Valid(r.value) && r.value.name == c.name && r.value.metadata == c.metadata
  {
    match d
    case Display => Ok(ParseDisplay(c, payload))
    case ExternalInfo => Ok(ParseExternalInfo(c, payload))
    case InfoUrl => Ok(ParseInfoUrl(c, payload))
    case StateOverrides => ParseStateOverrides(c, payload)
    case ExtraInfo => Ok(c)
    case Template => Ok(c)
  }

  // ---------------------------------------------------------------- children

  /** How a token of an expression becomes a child. */
  datatype Child =
    | Existing(index: nat)               // a defined node, linked directly
    | Leaf(kind: Kind, registered: bool) // a new leaf; host and service leaves get the token as name
    | BadImport                          // `@config` without a node
    | Forward                            // not defined yet: remembered in missingNodes

  /** `host;service` split at the first `;`: a host leaf for `Hoststatus`, else a service leaf. */
  function MonitoredLeaf(token: string): (k: Kind)
    requires ';' in token
    ensures k.HostLeaf? || k.ServiceLeaf?
  {
    var e := IndexOf(token, ';');
    var host := token[..e];
    var service := token[e + 1..];
    if service == "Hoststatus" then HostLeaf(host) else ServiceLeaf(host, service)
  }

  /** `@config:node`: preg_split('~:\s*~', substr($val, 1), 2). */
  function ImportedLeaf(token: string): (k: Kind)
    requires token != [] && ':' in token[1..]
    ensures k.ImportedLeaf?
  {
    var s := token[1..];
    var e := IndexOf(s, ':');
    Kind.ImportedLeaf(s[..e], LTrimSpace(s[e + 1..]))
  }

  /** The branches of parseLine's token loop, in the order the source tries them. */
  function Classify(c: Config, token: string): (r: Child)
    requires token != []
    ensures r.Existing? <==> token in c.index && (';' in token || token[0] != '@')
    ensures r.Existing? ==> r.index == c.index[token]
    ensures r.Leaf? ==> (r.registered <==> ';' in token)
    ensures r == BadImport <==> ';' !in token && token[0] == '@' && ':' !in token
    ensures r == Forward <==> ';' !in token && token[0] != '@' && token !in c.index
  {
    if ';' in token then
      if token in c.index then Existing(c.index[token]) else Leaf(MonitoredLeaf(token), true)
    else if token[0] == '@' then
      if ':' !in token then BadImport else Leaf(ImportedLeaf(token), false)
    else if token in c.index then Existing(c.index[token])
    else Forward
  }

  /** The leaf a token becomes: split at `;` when it has one, else an import split at `:`. */
  lemma ClassifyLeafKind(c: Config, token: string)
    requires token != [] && Classify(c, token).Leaf?
    ensures ';' in token ==> Classify(c, token).kind == MonitoredLeaf(token)
    ensures ';' !in token ==> ':' in token[1..] && Classify(c, token).kind == ImportedLeaf(token)
  {
  }

  function ImportMessage(token: string): string {
    "I'm unable to import full external configs, a node needs to be provided for '" + token + "'"
  }

  /** One token of the expression of process `p`, already unescaped. */
  function ResolveToken(c: Config, m: seq<Pending>, p: nat, token: string): (r: Result<(Config, seq<Pending>), Error>)
    requires Valid(c) && ParentsIn(m, |c.nodes|) && p < |c.nodes| && token != []
    ensures r.Ok? ==> Valid(r.value.0) && ParentsIn(r.value.1, |r.value.0.nodes|)
    ensures r.Ok? ==> |c.nodes| <= |r.value.0.nodes| && r.value.0.name == c.name && r.value.0.metadata == c.metadata
  {
    match Classify(c, token)
    case Existing(i) => Ok((Link(c, p, i), m))
    case Leaf(kind, registered) =>
      var i := |c.nodes|;
      var c1 := Append(c, NewNode(token, kind));
      var c2 := if registered then AddNode(c1, token, i) else c1;
      Ok((Link(c2, p, i), m))
    case BadImport => Err(ConfigurationError(ImportMessage(token)))
    case Forward =>
      AddPendingParentsIn(m, token, p, |c.nodes|);
      Ok((c, AddPending(m, token, p)))
  }

  /** The tokens of an expression, unescaped and resolved left to right; the first failure stops. */
  function ResolveTokens(c: Config, m: seq<Pending>, p: nat, tokens: seq<string>): (r: Result<(Config, seq<Pending>), Error>)
    requires Valid(c) && ParentsIn(m, |c.nodes|) && p < |c.nodes|
    requires forall k :: 0 <= k < |tokens| ==> tokens[k] != []
    ensures r.Ok? ==> Valid(r.value.0) && ParentsIn(r.value.1, |r.value.0.nodes|)
    ensures r.Ok? ==> |c.nodes| <= |r.value.0.nodes| && r.value.0.name == c.name && r.value.0.metadata == c.metadata
    decreases |tokens|
  {
    if tokens == [] then Ok((c, m))
    else
      match ResolveToken(c, m, p, Unescape(tokens[0]))
      case Err(e) => Err(e)
      case Ok(res) => ResolveTokens(res.0, res.1, p, tokens[1..])
  }

  /** The token loop from token `i` on. */
  function ResolveFrom(c: Config, m: seq<Pending>, p: nat, tokens: seq<string>, i: nat): (r: Result<(Config, seq<Pending>), Error>)
    requires Valid(c) && ParentsIn(m, |c.nodes|) && p < |c.nodes| && i <= |tokens|
    requires forall k :: 0 <= k < |tokens| ==> tokens[k] != []
  {
    assert forall k :: 0 <= k < |tokens[i..]| ==> tokens[i..][k] == tokens[i + k];
    ResolveTokens(c, m, p, tokens[i..])
  }

  /** Token `i` either stops the loop with its error or hands its result to the tokens after it. */
  lemma ResolveFromStep(c: Config, m: seq<Pending>, p: nat, tokens: seq<string>, i: nat)
    requires Valid(c) && ParentsIn(m, |c.nodes|) && p < |c.nodes| && i < |tokens|
    requires forall k :: 0 <= k < |tokens| ==> tokens[k] != []
    ensures var first := ResolveToken(c, m, p, Unescape(tokens[i]));
      && (first.Err? ==> ResolveFrom(c, m, p, tokens, i) == Err(first.error))
      && (first.Ok? ==> ResolveFrom(c, m, p, tokens, i) == ResolveFrom(first.value.0, first.value.1, p, tokens, i + 1))
  {
    assert tokens[i..][0] == tokens[i];
    assert tokens[i..][1..] == tokens[i + 1..];
  }

  // ---------------------------------------------------------------- assignments

  const ThresholdSyntax := "syntax: <var> = <num> of: <var1> + <var2> [+ <varn>]*"

  /** A new process `name` with operator `opr` whose children are the `op`-separated tokens of `value`. */
  function Define(st: State, name: string, opr: Operator, op: char, value: string): (r: Result<State, Error>)
    requires StateValid(st)
    ensures r.Ok? ==> StateValid(r.value) && SameFrame(st, r.value) && r.value.lineNumber == st.lineNumber
  {
    var p := |st.config.nodes|;
    var c := Append(st.config, NewNode(name, Process(opr)));
    match ResolveTokens(c, st.missing, p, OpSplit(value, op))
    case Err(e) => Err(e)
    case Ok(res) => Ok(st.(config := AddNode(res.0, name, p), missing := res.1))
  }

  /** The assignment `name = expression` on a trimmed line that is not a directive. */
  function Assign(st: State, line: string): (r: Result<State, Error>)
    requires StateValid(st)
    ensures r.Ok? ==> StateValid(r.value) && SameFrame(st, r.value) && r.value.lineNumber == st.lineNumber
  {
    var e := IndexOf(line, '=');
    if e < 0 then Err(Fail(st, "Got invalid line"))
    else
      var name := RTrimSpace(line[..e]);
      var value := LTrimSpace(line[e + 1..]);
      if ';' in name then Err(Fail(st, "No semicolon allowed in varname"))
      else
        match DetectOperator(value)
        case None => Err(Fail(st, "Mixing operators is not allowed"))
        case Some(op) =>
          if op != '+' then Define(st, name, Op(op), op, value)
          else
            match MatchThreshold(value)
            case None => Err(Fail(st, ThresholdSyntax))
            case Some(t) => Define(st, name, AtLeast(t.min), '+', t.rest)
  }

  /** The directive a trimmed line starts with, if its first space is below column 16. */
  function LineDirective(line: string): (r: Option<Directive>)
    ensures r.Some? ==> |Keyword(r.value)| < |line|
  {
    var pos := IndexOf(line, ' ');
    if 0 <= pos < 16 then DirectiveOf(line[..pos]) else None
  }

  /** parseLine: the state after one raw line, or the error it raises. */
  function Step(st: State, raw: string): (r: Result<State, Error>)
    requires StateValid(st)
    ensures r.Ok? ==> StateValid(r.value) && SameFrame(st, r.value) && r.value.lineNumber == st.lineNumber + 1
  {
    LineStep(st.(lineNumber := st.lineNumber + 1), Trim(raw))
  }

  /** parseLine counts every line before it looks at it. */
  lemma StepCounts(st: State, raw: string)
    requires StateValid(st)
    ensures Step(st, raw) == LineStep(st.(lineNumber := st.lineNumber + 1), Trim(raw))
  {
    var st1 := st.(lineNumber := st.lineNumber + 1);
    assert StateValid(st1);
  }

  /** parseLine after trimming and counting the line. */
  function LineStep(st: State, line: string): (r: Result<State, Error>)
    requires StateValid(st)
    ensures r.Ok? ==> StateValid(r.value) && SameFrame(st, r.value) && r.value.lineNumber == st.lineNumber
  {
    if Skipped(line) then Ok(st)
    else
      match LineDirective(line)
      case Some(d) => DirectiveStep(st, d, line[|Keyword(d)| + 1..])
      case None => Assign(st, line)
  }

  /** A method's outcome agrees with a function's: the same error, or no error and the same state. */
  predicate Agrees(r: Result<State, Error>, err: Option<Error>, st: State) {
    match r
    case Ok(s) => err == None && st == s
    case Err(e) => err == Some(e)
  }

  /** A directive line: the configuration changes, the forward references do not. */
  function DirectiveStep(st: State, d: Directive, payload: string): (r: Result<State, Error>)
    requires StateValid(st)
    ensures r.Ok? ==> StateValid(r.value) && SameFrame(st, r.value) && r.value.lineNumber == st.lineNumber
    ensures r.Ok? ==> r.value.missing == st.missing
  {
    match ApplyDirective(st.config, d, payload)
    case Ok(c) => Ok(st.(config := c))
    case Err(e) => Err(e)
  }

  /** parseLine over the lines in order; the first error stops the parse. */
  function Run(st: State, lines: seq<string>): (r: Result<State, Error>)
    requires StateValid(st)
    ensures r.Ok? ==> StateValid(r.value) && SameFrame(st, r.value) && r.value.lineNumber == st.lineNumber + |lines|
    decreases |lines|
  {
    if lines == [] then Ok(st)
    else
      match Step(st, lines[0])
      case Err(e) => Err(e)
      case Ok(st') => Run(st', lines[1..])
  }

  // ---------------------------------------------------------------- forward references

  /** addChild of `child` to each parent in order. */
  function Attach(c: Config, parents: seq<nat>, child: nat): (r: Config)
    requires Valid(c) && child < |c.nodes|
    requires forall k :: 0 <= k < |parents| ==> parents[k] < |c.nodes|
    ensures Valid(r) && |r.nodes| == |c.nodes| && r.index == c.index && r.roots == c.roots
    ensures r.name == c.name && r.metadata == c.metadata
    decreases |parents|
  {
    if parents == [] then c else Attach(Link(c, parents[0], child), parents[1..], child)
  }

  /**
   * resolveMissingNodes: every waiting parent gets the node its name now
   * denotes, entry by entry and parent by parent; a name still undefined
   * is an error.
   */
  function ResolveMissing(c: Config, ps: seq<Pending>): (r: Result<Config, Error>)
    requires Valid(c) && ParentsIn(ps, |c.nodes|)
    ensures r.Ok? ==> Valid(r.value) && |r.value.nodes| == |c.nodes|
    ensures r.Ok? ==> r.value.index == c.index && r.value.roots == c.roots
    ensures r.Ok? ==> r.value.name == c.name && r.value.metadata == c.metadata
    decreases |ps|
  {
    if ps == [] then Ok(c)
    else if ps[0].parents == [] then ResolveMissing(c, ps[1..])
    else if ps[0].name !in c.index then Err(UnknownNode(ps[0].name))
    else
      assert forall k :: 0 <= k < |ps[0].parents| ==> ps[0].parents[k] < |c.nodes|;
      ResolveMissing(Attach(c, ps[0].parents, c.index[ps[0].name]), ps[1..])
  }

  /** parseString: header, every line, then the forward references. */
  function ParseText(name: string, text: string): (r: Result<Config, Error>)
    ensures r.Ok? ==> Valid(r.value) && r.value.name == name && r.value.metadata == ScanHeader(name, text)
  {
    var st := Initial(name, ScanHeader(name, text));
    match Run(st, SplitLines(text))
    case Err(e) => Err(e)
    case Ok(st') => ResolveMissing(st'.config, st'.missing)
  }
}
