/**
 * LegacyConfigParser as an object: the line counter, the configuration and
 * the forward references are fields that parseLine and resolveMissingNodes
 * update in place. Each method is proved to leave the state that the
 * functions of module Parser describe.
 */
module Storage {
  import opened Outcomes
  import opened Text
  import opened Expr
  import opened Header
  import opened Graph
  import opened Errors
  import opened Parser

  /**
   * The loop of parseStateOverrides that builds one child's map: every
   * `from-to` pair of the comma-separated list, later pairs replacing
   * earlier ones.
   */
  method BuildOverrides(overrides: string) returns (m: map<int, int>)
    ensures m == OverrideMap(SplitAround(overrides, ',', 0))
  {
    var items := SplitAround(overrides, ',', 0);
    m := map[];
    var i := 0;
    while i < |items|
      invariant 0 <= i <= |items|
      invariant m == OverrideMap(items[..i])
    {
      var parts := SplitAround(items[i], '-', 2);
      var from, to := PhpInt(parts[0]), PhpInt(if 1 < |parts| then parts[1] else "");
      OverrideMapStep(items, i, from, to);
      m := m[from := to];
      i := i + 1;
    }
    assert items[..|items|] == items;
  }

  class LegacyConfigParser {
    var lineNumber: nat
    var filename: string
    var name: string
    var config: Config
    var missing: seq<Pending>

    /** The parser's state as a value. */
    function Snapshot(): State
      reads this
    {
      State(lineNumber, filename, config, missing)
    }

    /** A parser for the definition `name`, with an empty configuration of that name. */
    constructor (name: string)
      ensures this.name == name
      ensures Snapshot() == Initial(name, NewMetadata(name))
    {
      this.name := name;
      lineNumber := 0;
      filename := "";
      config := EmptyConfig(name, NewMetadata(name));
      missing := [];
    }

    /** BpConfig::setMetadata on the configuration being built. */
    method SetMetadata(md: Metadata)
      modifies this`config
      ensures config == old(config).(metadata := md)
    {
      config := config.(metadata := md);
    }

    /** parseStateOverrides: the segment loop over `<child>|…`, each map built by BuildOverrides. */
    method ParseStateOverrides(payload: string) returns (err: Option<Error>)
      requires Valid(config)
      modifies this`config
      ensures match Parser.ParseStateOverrides(old(config), payload)
        case Ok(c) => err == None && config == c
        case Err(e) => err == Some(e)
    {
      var segments := SplitAround(payload, '!', 0);
      var target := segments[0];
      if target !in config.index {
        return Some(UnknownNode(target));
      }
      var i := config.index[target];
      var node := config.nodes[i];
      var k := 1;
      while k < |segments|
        invariant 1 <= k <= |segments|
        invariant config == old(config) && i < |config.nodes|
        invariant node == config.nodes[i].(overrides := node.overrides)
        invariant ApplyOverrides(node.overrides, segments[k..]) == ApplyOverrides(config.nodes[i].overrides, segments[1..])
      {
        var parts := SplitAround(segments[k], '|', 2);
        var child := parts[0];
        var overrides := BuildOverrides(if 1 < |parts| then parts[1] else "");
        ApplyOverridesStep(node.overrides, segments, k, child, overrides);
        node := node.(overrides := node.overrides[child := overrides]);
        k := k + 1;
      }
      config := Update(config, i, node);
      err := None;
    }

    /**
     * parseExtraLine: `typeLength` is the column of the first space. Reports
     * whether the line was a directive, and applies it.
     */
    method ParseExtraLine(line: string, typeLength: nat) returns (handled: bool, err: Option<Error>)
      requires typeLength < |line| && StateValid(Snapshot())
      modifies this`config
      ensures handled <==> DirectiveOf(line[..typeLength]).Some?
      ensures !handled ==> config == old(config) && err == None
      ensures handled ==>
        var d := DirectiveOf(line[..typeLength]).value;
        Agrees(DirectiveStep(old(Snapshot()), d, line[|Keyword(d)| + 1..]), err, Snapshot())
    {
      var found := DirectiveOf(line[..typeLength]);
      if found.None? {
        return false, None;
      }
      var d := found.value;
      var payload := line[|Keyword(d)| + 1..];
      handled, err := true, None;
      match d {
        case Display => config := Parser.ParseDisplay(config, payload);
        case ExternalInfo => config := Parser.ParseExternalInfo(config, payload);
        case InfoUrl => config := Parser.ParseInfoUrl(config, payload);
        case StateOverrides => err := ParseStateOverrides(payload);
        case ExtraInfo =>
        case Template =>
      }
    }

    /** The assignment branch of parseLine: the node, its children and the forward references. */
    method ParseAssignment(line: string) returns (err: Option<Error>)
      requires StateValid(Snapshot())
      modifies this`config, this`missing
      ensures Agrees(Assign(old(Snapshot()), line), err, Snapshot())
    {
      var e := IndexOf(line, '=');
      if e < 0 {
        return Some(Fail(Snapshot(), "Got invalid line"));
      }
      var name := RTrimSpace(line[..e]);
      var value := LTrimSpace(line[e + 1..]);
      if ';' in name {
        return Some(Fail(Snapshot(), "No semicolon allowed in varname"));
      }
      var found := ScanOperators(value);
      if found.None? {
        return Some(Fail(Snapshot(), "Mixing operators is not allowed"));
      }
      var op := found.value;
      if op != '+' {
        err := DefineNode(name, Op(op), op, value);
        return;
      }
      var t := MatchThreshold(value);
      if t.None? {
        return Some(Fail(Snapshot(), ThresholdSyntax));
      }
      err := DefineNode(name, AtLeast(t.value.min), op, t.value.rest);
    }

    /** The new process node of an assignment, its children left to right, then addNode. */
    method DefineNode(name: string, opr: Operator, op: char, expression: string) returns (err: Option<Error>)
      requires StateValid(Snapshot())
      modifies this`config, this`missing
      ensures Agrees(Define(old(Snapshot()), name, opr, op, expression), err, Snapshot())
    {
      var p := |config.nodes|;
      config := Append(config, NewNode(name, Process(opr)));
      var tokens := OpSplit(expression, op);
      err := AddTokens(p, tokens);
      if err.None? {
        config := AddNode(config, name, p);
      }
    }

    /** The token loop of parseLine: each token in turn, stopping at the first failure. */
    method AddTokens(p: nat, tokens: seq<string>) returns (err: Option<Error>)
      requires Valid(config) && ParentsIn(missing, |config.nodes|) && p < |config.nodes|
      requires forall k :: 0 <= k < |tokens| ==> tokens[k] != []
      modifies this`config, this`missing
      ensures match ResolveTokens(old(config), old(missing), p, tokens)
        case Ok(res) => err == None && config == res.0 && missing == res.1
        case Err(e) => err == Some(e)
    {
      ghost var whole := ResolveTokens(config, missing, p, tokens);
      assert tokens[0..] == tokens;
      err := None;
      var i := 0;
      while i < |tokens|
        invariant 0 <= i <= |tokens| && err == None
        invariant Valid(config) && ParentsIn(missing, |config.nodes|) && p < |config.nodes|
        invariant ResolveFrom(config, missing, p, tokens, i) == whole
      {
        ResolveFromStep(config, missing, p, tokens, i);
        err := AddToken(p, Unescape(tokens[i]));
        if err.Some? {
          return;
        }
        i := i + 1;
      }
      assert tokens[|tokens|..] == [];
    }

    /** One token of the loop in parseLine, by the first branch that applies. */
    method AddToken(p: nat, token: string) returns (err: Option<Error>)
      requires Valid(config) && ParentsIn(missing, |config.nodes|) && p < |config.nodes| && token != []
      modifies this`config, this`missing
      ensures match ResolveToken(old(config), old(missing), p, token)
        case Ok(res) => err == None && config == res.0 && missing == res.1
        case Err(e) => err == Some(e)
    {
      err := None;
      if ';' in token {
        if token in config.index {
          config := Link(config, p, config.index[token]);
        } else {
          var leaf := |config.nodes|;
          config := Append(config, NewNode(token, MonitoredLeaf(token)));
          config := AddNode(config, token, leaf);
          config := Link(config, p, leaf);
        }
      } else if token[0] == '@' {
        if ':' !in token {
          return Some(ConfigurationError(ImportMessage(token)));
        }
        var leaf := |config.nodes|;
        config := Append(config, NewNode(token, Parser.ImportedLeaf(token)));
        config := Link(config, p, leaf);
      } else if token in config.index {
        config := Link(config, p, config.index[token]);
      } else {
        AddPendingParentsIn(missing, token, p, |config.nodes|);
        missing := AddPending(missing, token, p);
      }
    }

    /** parseLine: trim, count the line, then handle it. */
    method ParseLine(raw: string) returns (err: Option<Error>)
      requires StateValid(Snapshot())
      modifies this`lineNumber, this`config, this`missing
      ensures Agrees(Step(old(Snapshot()), raw), err, Snapshot())
    {
      StepCounts(Snapshot(), raw);
      var line := Trim(raw);
      lineNumber := lineNumber + 1;
      err := ParseTrimmedLine(line);
    }

    /** The body of parseLine after the line counter: skip blanks and comments, then a directive or an assignment. */
    method ParseTrimmedLine(line: string) returns (err: Option<Error>)
      requires StateValid(Snapshot())
      modifies this`config, this`missing
      ensures Agrees(LineStep(old(Snapshot()), line), err, Snapshot())
    {
      if Skipped(line) {
        return None;
      }
      var pos := IndexOf(line, ' ');
      if 0 <= pos < 16 {
        var handled;
        handled, err := ParseExtraLine(line, pos);
        if handled {
          return;
        }
      }
      err := ParseAssignment(line);
    }

    /** resolveMissingNodes: for each forward reference and each waiting parent, addChild(getNode(name)). */
    method ResolveMissingNodes() returns (err: Option<Error>)
      requires StateValid(Snapshot())
      modifies this`config
      ensures match ResolveMissing(old(config), missing)
        case Ok(c) => err == None && config == c
        case Err(e) => err == Some(e)
    {
      var i := 0;
      while i < |missing|
        invariant 0 <= i <= |missing|
        invariant Valid(config) && |config.nodes| == |old(config).nodes|
        invariant ResolveMissing(config, missing[i..]) == ResolveMissing(old(config), missing)
      {
        assert missing[i..][1..] == missing[i + 1..];
        var entry := missing[i];
        assert forall k :: 0 <= k < |entry.parents| ==> entry.parents[k] < |config.nodes|;
        ghost var before := config;
        var j := 0;
        while j < |entry.parents|
          invariant 0 <= j <= |entry.parents|
          invariant Valid(config) && |config.nodes| == |before.nodes| && config.index == before.index
          invariant j == 0 ==> config == before
          invariant j > 0 ==> entry.name in config.index
          invariant entry.name in config.index ==>
            Attach(config, entry.parents[j..], config.index[entry.name]) == Attach(before, entry.parents, before.index[entry.name])
        {
          assert entry.parents[j..][1..] == entry.parents[j + 1..];
          if entry.name !in config.index {
            return Some(UnknownNode(entry.name));
          }
          config := Link(config, entry.parents[j], config.index[entry.name]);
          j := j + 1;
        }
        i := i + 1;
      }
      err := None;
    }
  }

  /** LegacyConfigParser::parseString: header, every line, then the forward references. */
  method ParseString(name: string, text: string) returns (r: Result<Config, Error>)
    ensures r == ParseText(name, text)
  {
    var parser := new LegacyConfigParser(name);
    var md := ReadMetadataFromString(name, text);
    parser.SetMetadata(md);
    var lines := SplitLines(text);
    var i := 0;
    while i < |lines|
      invariant 0 <= i <= |lines|
      invariant StateValid(parser.Snapshot())
      invariant Run(parser.Snapshot(), lines[i..]) == Run(Initial(name, md), lines)
    {
      assert lines[i..][1..] == lines[i + 1..];
      var err := parser.ParseLine(lines[i]);
      if err.Some? {
        return Err(err.value);
      }
      i := i + 1;
    }
    var err := parser.ResolveMissingNodes();
    if err.Some? {
      return Err(err.value);
    }
    r := Ok(parser.config);
  }
}
