/**
 * What the parse guarantees, stated over the functions of module Parser:
 * which lines change nothing, which raise which error, how tokens become
 * children, what a display line does, and what the forward-reference pass
 * adds.
 */
module Properties {
  import opened Outcomes
  import opened Text
  import opened Expr
  import opened Header
  import opened Graph
  import opened Errors
  import opened Parser

  // ---------------------------------------------------------------- forward references

  /** The children `child` gives to node `q` when attached to `parents` in order. */
  function AttachedTo(parents: seq<nat>, child: nat, q: nat): seq<nat>
    decreases |parents|
  {
    if parents == [] then [] else (if parents[0] == q then [child] else []) + AttachedTo(parents[1..], child, q)
  }

  /** The children the forward references give to node `q`, entry by entry. */
  function Deferred(index: map<string, nat>, ps: seq<Pending>, q: nat): seq<nat>
    decreases |ps|
  {
    if ps == [] then []
    else
      (if ps[0].name in index then AttachedTo(ps[0].parents, index[ps[0].name], q) else [])
      + Deferred(index, ps[1..], q)
  }

  /** Attaching appends `child` to each parent once per occurrence, and changes nothing else. */
  lemma {:induction false} AttachChildren(c: Config, parents: seq<nat>, child: nat, q: nat)
    requires Valid(c) && child < |c.nodes| && q < |c.nodes|
    requires forall k :: 0 <= k < |parents| ==> parents[k] < |c.nodes|
    ensures Attach(c, parents, child).nodes[q]
      == c.nodes[q].(children := c.nodes[q].children + AttachedTo(parents, child, q))
    decreases |parents|
  {
    if parents != [] {
      var c1 := Link(c, parents[0], child);
      AttachChildren(c1, parents[1..], child, q);
      var here := if parents[0] == q then [child] else [];
      assert c1.nodes[q].children == c.nodes[q].children + here;
      assert AttachedTo(parents, child, q) == here + AttachedTo(parents[1..], child, q);
      assert c.nodes[q].children + here + AttachedTo(parents[1..], child, q)
        == c.nodes[q].children + (here + AttachedTo(parents[1..], child, q));
    }
  }

  /** resolveMissingNodes succeeds exactly when every name with a waiting parent is defined by then. */
  lemma {:induction false} ResolveMissingSucceeds(c: Config, ps: seq<Pending>)
    requires Valid(c) && ParentsIn(ps, |c.nodes|)
    ensures ResolveMissing(c, ps).Ok? <==>
      forall i :: 0 <= i < |ps| && ps[i].parents != [] ==> ps[i].name in c.index
    ensures ResolveMissing(c, ps).Err? ==>
      exists i :: 0 <= i < |ps| && ps[i].parents != [] && ResolveMissing(c, ps).error == UnknownNode(ps[i].name)
    decreases |ps|
  {
    if ps != [] {
      var c1 := if ps[0].parents != [] && ps[0].name in c.index
        then Attach(c, ps[0].parents, c.index[ps[0].name]) else c;
      assert ParentsIn(ps[1..], |c1.nodes|);
      ResolveMissingSucceeds(c1, ps[1..]);
      assert forall i :: 1 <= i < |ps| ==> ps[i] == ps[1..][i - 1];
      if ResolveMissing(c, ps).Err? && ps[0].parents != [] && ps[0].name in c.index {
        var i :| 0 <= i < |ps[1..]| && ps[1..][i].parents != [] && ResolveMissing(c1, ps[1..]).error == UnknownNode(ps[1..][i].name);
        assert ps[i + 1] == ps[1..][i];
      }
    }
  }

  /**
   * On success, each node keeps everything but its children, and its
   * children gain, in order, one entry per waiting occurrence: the node the
   * name denotes at the end of the parse.
   */
  lemma {:induction false} ResolveMissingChildren(c: Config, ps: seq<Pending>, q: nat)
    requires Valid(c) && ParentsIn(ps, |c.nodes|) && q < |c.nodes|
    requires ResolveMissing(c, ps).Ok?
    ensures ResolveMissing(c, ps).value.nodes[q]
      == c.nodes[q].(children := c.nodes[q].children + Deferred(c.index, ps, q))
    decreases |ps|
  {
    if ps != [] {
      var c1 := if ps[0].parents != [] then Attach(c, ps[0].parents, c.index[ps[0].name]) else c;
      assert ParentsIn(ps[1..], |c1.nodes|);
      ResolveMissingChildren(c1, ps[1..], q);
      var here := if ps[0].name in c.index then AttachedTo(ps[0].parents, c.index[ps[0].name], q) else [];
      if ps[0].parents != [] {
        AttachChildren(c, ps[0].parents, c.index[ps[0].name], q);
      }
      assert c1.nodes[q].children == c.nodes[q].children + here;
      assert Deferred(c.index, ps, q) == here + Deferred(c.index, ps[1..], q);
      assert c.nodes[q].children + here + Deferred(c.index, ps[1..], q)
        == c.nodes[q].children + (here + Deferred(c.index, ps[1..], q));
    }
  }

  lemma {:induction false} AttachedToHas(parents: seq<nat>, child: nat, k: nat)
    requires k < |parents|
    ensures child in AttachedTo(parents, child, parents[k])
    decreases |parents|
  {
    if k > 0 {
      AttachedToHas(parents[1..], child, k - 1);
    }
  }

  lemma {:induction false} DeferredHas(index: map<string, nat>, ps: seq<Pending>, i: nat, k: nat)
    requires i < |ps| && k < |ps[i].parents| && ps[i].name in index
    ensures index[ps[i].name] in Deferred(index, ps, ps[i].parents[k])
    decreases |ps|
  {
    if i == 0 {
      AttachedToHas(ps[0].parents, index[ps[0].name], k);
    } else {
      DeferredHas(index, ps[1..], i - 1, k);
    }
  }

  /**
   * Every parent that waited for a name receives the node the name denotes,
   * whether or not the parent can still be reached through its own name:
   * the parent is the node object of the line that mentioned the name.
   */
  lemma EveryWaitingParentResolved(c: Config, ps: seq<Pending>, i: nat, k: nat)
    requires Valid(c) && ParentsIn(ps, |c.nodes|)
    requires ResolveMissing(c, ps).Ok? && i < |ps| && k < |ps[i].parents|
    ensures ps[i].name in c.index
    ensures c.index[ps[i].name] in ResolveMissing(c, ps).value.nodes[ps[i].parents[k]].children
  {
    ResolveMissingSucceeds(c, ps);
    var q := ps[i].parents[k];
    ResolveMissingChildren(c, ps, q);
    DeferredHas(c.index, ps, i, k);
  }

  lemma {:induction false} AttachedToNone(parents: seq<nat>, child: nat, q: nat)
    requires q !in parents
    ensures AttachedTo(parents, child, q) == []
    decreases |parents|
  {
    if parents != [] {
      assert q !in parents[1..];
      AttachedToNone(parents[1..], child, q);
    }
  }

  lemma {:induction false} DeferredNone(index: map<string, nat>, ps: seq<Pending>, q: nat)
    requires forall i :: 0 <= i < |ps| ==> q !in ps[i].parents
    ensures Deferred(index, ps, q) == []
    decreases |ps|
  {
    if ps != [] {
      if ps[0].name in index {
        AttachedToNone(ps[0].parents, index[ps[0].name], q);
      }
      assert forall i :: 0 <= i < |ps[1..]| ==> ps[1..][i] == ps[i + 1];
      DeferredNone(index, ps[1..], q);
    }
  }

  /** A node no forward reference waits on is left exactly as it was. */
  lemma NotWaitingUntouched(c: Config, ps: seq<Pending>, q: nat)
    requires Valid(c) && ParentsIn(ps, |c.nodes|) && q < |c.nodes|
    requires ResolveMissing(c, ps).Ok?
    requires forall i :: 0 <= i < |ps| ==> q !in ps[i].parents
    ensures ResolveMissing(c, ps).value.nodes[q] == c.nodes[q]
  {
    ResolveMissingChildren(c, ps, q);
    DeferredNone(c.index, ps, q);
    assert c.nodes[q].children + [] == c.nodes[q].children;
  }

  // ---------------------------------------------------------------- tokens

  /** From `c` to `c2` only node `p` changed, and only by gaining children at the end; names only gained. */
  predicate OnlyParentGrew(c: Config, c2: Config, p: nat) {
    && p < |c.nodes| <= |c2.nodes|
    && c2.roots == c.roots
    && (forall n :: n in c.index ==> n in c2.index && c2.index[n] == c.index[n])
    && (forall q :: 0 <= q < |c.nodes| && q != p ==> c2.nodes[q] == c.nodes[q])
    && c2.nodes[p].(children := c.nodes[p].children) == c.nodes[p]
    && c.nodes[p].children <= c2.nodes[p].children
  }

  lemma OnlyParentGrewTrans(c1: Config, c2: Config, c3: Config, p: nat)
    requires OnlyParentGrew(c1, c2, p) && OnlyParentGrew(c2, c3, p)
    ensures OnlyParentGrew(c1, c3, p)
  {
    assert c2.nodes[p].(children := c1.nodes[p].children) == c1.nodes[p];
    assert c3.nodes[p].(children := c2.nodes[p].children) == c2.nodes[p];
  }

  lemma ResolveTokenFrame(c: Config, m: seq<Pending>, p: nat, token: string)
    requires Valid(c) && ParentsIn(m, |c.nodes|) && p < |c.nodes| && token != []
    requires ResolveToken(c, m, p, token).Ok?
    ensures OnlyParentGrew(c, ResolveToken(c, m, p, token).value.0, p)
  {
  }

  /**
   * The token loop changes no node but the new process `p`, which only
   * gains children at the end; names already defined keep their nodes and
   * no root is added.
   */
  lemma {:induction false} ResolveTokensFrame(c: Config, m: seq<Pending>, p: nat, tokens: seq<string>)
    requires Valid(c) && ParentsIn(m, |c.nodes|) && p < |c.nodes|
    requires forall k :: 0 <= k < |tokens| ==> tokens[k] != []
    requires ResolveTokens(c, m, p, tokens).Ok?
    ensures OnlyParentGrew(c, ResolveTokens(c, m, p, tokens).value.0, p)
    decreases |tokens|
  {
    if tokens != [] {
      var res := ResolveToken(c, m, p, Unescape(tokens[0])).value;
      ResolveTokenFrame(c, m, p, Unescape(tokens[0]));
      ResolveTokensFrame(res.0, res.1, p, tokens[1..]);
      OnlyParentGrewTrans(c, res.0, ResolveTokens(c, m, p, tokens).value.0, p);
    }
  }

  /** A token that is an `@` import without a node. */
  predicate BadImportToken(t: string) {
    t != [] && ';' !in t && t[0] == '@' && ':' !in t
  }

  /** A plain token that names nothing yet. */
  predicate ForwardToken(index: map<string, nat>, t: string) {
    t != [] && ';' !in t && t[0] != '@' && t !in index
  }

  /** A token naming a defined node, as Classify tells them apart. */
  predicate KnownToken(index: map<string, nat>, t: string) {
    t != [] && t in index && (';' in t || t[0] != '@')
  }

  /** What one unescaped token links directly: its node, the next arena slot for a new leaf, or nothing. */
  function DirectOne(index: map<string, nat>, size: nat, t: string): seq<nat> {
    if t == [] || ForwardToken(index, t) then []
    else if KnownToken(index, t) then [index[t]]
    else [size]
  }

  /** The name index after one token: a new `host;service` leaf is registered under the token. */
  function IndexAfter(index: map<string, nat>, size: nat, t: string): map<string, nat> {
    if t != [] && !KnownToken(index, t) && ';' in t then index[t := size] else index
  }

  /** The arena size after one token: a new leaf takes one slot. */
  function SizeAfter(index: map<string, nat>, size: nat, t: string): nat {
    if t == [] || ForwardToken(index, t) || KnownToken(index, t) then size else size + 1
  }

  /**
   * The children a token list links directly, given the name index and the
   * arena size before it, in the order the tokens are written.
   */
  function Direct(index: map<string, nat>, size: nat, tokens: seq<string>): seq<nat>
    decreases |tokens|
  {
    if tokens == [] then []
    else
      var t := Unescape(tokens[0]);
      DirectOne(index, size, t) + Direct(IndexAfter(index, size, t), SizeAfter(index, size, t), tokens[1..])
  }

  /** One token that is not a bad import: what it links, how the index and arena grow, and who waits. */
  lemma TokenLinks(c: Config, m: seq<Pending>, p: nat, t: string)
    requires Valid(c) && ParentsIn(m, |c.nodes|) && p < |c.nodes| && t != [] && !BadImportToken(t)
    ensures ResolveToken(c, m, p, t).Ok?
    ensures var r := ResolveToken(c, m, p, t).value;
      && r.0.nodes[p].children == c.nodes[p].children + DirectOne(c.index, |c.nodes|, t)
      && r.0.index == IndexAfter(c.index, |c.nodes|, t)
      && |r.0.nodes| == SizeAfter(c.index, |c.nodes|, t)
      && (!ForwardToken(c.index, t) ==> r.1 == m)
  {
  }

  /**
   * Without a bad import the token loop succeeds, and the process's
   * children are the directly linked ones in the order written; when no
   * token waits, the forward references are unchanged.
   */
  lemma {:induction false} KnownTokensInOrder(c: Config, m: seq<Pending>, p: nat, tokens: seq<string>)
    requires Valid(c) && ParentsIn(m, |c.nodes|) && p < |c.nodes|
    requires forall k :: 0 <= k < |tokens| ==> tokens[k] != [] && Unescape(tokens[k]) != [] && !BadImportToken(Unescape(tokens[k]))
    ensures ResolveTokens(c, m, p, tokens).Ok?
    ensures var r := ResolveTokens(c, m, p, tokens).value;
      r.0.nodes[p].children == c.nodes[p].children + Direct(c.index, |c.nodes|, tokens)
    ensures (forall k :: 0 <= k < |tokens| ==> !ForwardToken(c.index, Unescape(tokens[k]))) ==>
      ResolveTokens(c, m, p, tokens).value.1 == m
    decreases |tokens|
  {
    if tokens != [] {
      var t := Unescape(tokens[0]);
      TokenLinks(c, m, p, t);
      var res := ResolveToken(c, m, p, t).value;
      var c1 := res.0;
      forall k | 0 <= k < |tokens[1..]|
        ensures tokens[1..][k] != [] && Unescape(tokens[1..][k]) != [] && !BadImportToken(Unescape(tokens[1..][k]))
      {
        assert tokens[1..][k] == tokens[k + 1];
      }
      assert ResolveTokens(c, m, p, tokens) == ResolveTokens(c1, res.1, p, tokens[1..]);
      assert Direct(c.index, |c.nodes|, tokens) == DirectOne(c.index, |c.nodes|, t) + Direct(c1.index, |c1.nodes|, tokens[1..]);
      KnownTokensInOrder(c1, res.1, p, tokens[1..]);
      if forall k :: 0 <= k < |tokens| ==> !ForwardToken(c.index, Unescape(tokens[k])) {
        assert !ForwardToken(c.index, t);
        forall k | 0 <= k < |tokens[1..]| ensures !ForwardToken(c1.index, Unescape(tokens[1..][k])) {
          assert tokens[1..][k] == tokens[k + 1];
          assert !ForwardToken(c.index, Unescape(tokens[k + 1]));
        }
      }
      var before, first, later := c.nodes[p].children, DirectOne(c.index, |c.nodes|, t), Direct(c1.index, |c1.nodes|, tokens[1..]);
      Assoc3(before, first, later);
    } else {
      assert c.nodes[p].children + Direct(c.index, |c.nodes|, tokens) == c.nodes[p].children;
    }
  }

  /** `host;Hoststatus` is a host leaf and `host;service` a service leaf, split at the first `;`. */
  lemma MonitoredLeafOf(host: string, service: string)
    requires ';' !in host
    ensures MonitoredLeaf(host + [';'] + service)
      == if service == "Hoststatus" then HostLeaf(host) else ServiceLeaf(host, service)
  {
    IndexOfJoined(host, ';', service);
    JoinedParts(host, ';', service);
  }

  /** `@config:node` is an imported leaf of that node in that configuration. */
  lemma ImportedLeafOf(configName: string, nodeName: string)
    requires ':' !in configName && (nodeName == [] || !IsSpace(nodeName[0]))
    ensures (['@'] + configName + [':'] + nodeName)[1..] == configName + [':'] + nodeName
    ensures Parser.ImportedLeaf(['@'] + configName + [':'] + nodeName) == Kind.ImportedLeaf(configName, nodeName)
  {
    IndexOfJoined(configName, ':', nodeName);
    JoinedParts(configName, ':', nodeName);
    LTrimSpaceKeeps(nodeName);
  }

  /**
   * A `host;service` token naming nothing yet becomes a new host or service
   * leaf at the end of the arena, registered under the token and linked as
   * the next child of the process; nobody starts waiting.
   */
  lemma MonitoredTokenLinks(c: Config, m: seq<Pending>, p: nat, host: string, service: string)
    requires Valid(c) && ParentsIn(m, |c.nodes|) && p < |c.nodes|
    requires ';' !in host && host + [';'] + service !in c.index
    ensures ResolveToken(c, m, p, host + [';'] + service).Ok?
    ensures var r := ResolveToken(c, m, p, host + [';'] + service).value;
      var kind := if service == "Hoststatus" then HostLeaf(host) else ServiceLeaf(host, service);
      && |r.0.nodes| == |c.nodes| + 1
      && r.0.nodes[|c.nodes|] == NewNode(host + [';'] + service, kind)
      && r.0.nodes[p].children == c.nodes[p].children + [|c.nodes|]
      && r.0.index == c.index[host + [';'] + service := |c.nodes|]
      && r.1 == m
  {
    var token := host + [';'] + service;
    assert token[|host|] == ';';
    MonitoredLeafOf(host, service);
  }

  /**
   * An `@config:node` token becomes a new imported leaf at the end of the
   * arena, linked as the next child of the process but not registered under
   * any name, so a second mention makes a second leaf.
   */
  lemma ImportedTokenLinks(c: Config, m: seq<Pending>, p: nat, configName: string, nodeName: string)
    requires Valid(c) && ParentsIn(m, |c.nodes|) && p < |c.nodes|
    requires ':' !in configName && ';' !in configName && ';' !in nodeName
    requires nodeName == [] || !IsSpace(nodeName[0])
    ensures ResolveToken(c, m, p, ['@'] + configName + [':'] + nodeName).Ok?
    ensures var r := ResolveToken(c, m, p, ['@'] + configName + [':'] + nodeName).value;
      && |r.0.nodes| == |c.nodes| + 1
      && r.0.nodes[|c.nodes|] == NewNode(['@'] + configName + [':'] + nodeName, Kind.ImportedLeaf(configName, nodeName))
      && r.0.nodes[p].children == c.nodes[p].children + [|c.nodes|]
      && r.0.index == c.index
      && r.1 == m
  {
    var token := ['@'] + configName + [':'] + nodeName;
    assert token[1 + |configName|] == ':';
    assert token[0] == '@';
    ImportedLeafOf(configName, nodeName);
    assert ';' !in token by {
      assert token == ['@'] + (configName + [':'] + nodeName);
    }
  }

  /** A token naming nothing yet puts the process at the end of that name's waiting list. */
  lemma ForwardTokenWaits(c: Config, m: seq<Pending>, p: nat, token: string)
    requires Valid(c) && ParentsIn(m, |c.nodes|) && p < |c.nodes| && token != []
    requires ';' !in token && token[0] != '@' && token !in c.index
    ensures ResolveToken(c, m, p, token).Ok?
    ensures var r := ResolveToken(c, m, p, token).value;
      && r.0 == c
      && Waiting(r.1, token) == Waiting(m, token) + [p]
      && forall n :: n != token ==> Waiting(r.1, n) == Waiting(m, n)
  {
  }

  // ---------------------------------------------------------------- lines

  /** The text before the first `=`, without trailing whitespace. */
  function NameOf(line: string): string
    requires '=' in line
  {
    RTrimSpace(line[..IndexOf(line, '=')])
  }

  /** The expression after the first `=`, without leading whitespace. */
  function ValueOf(line: string): string
    requires '=' in line
  {
    LTrimSpace(line[IndexOf(line, '=') + 1..])
  }

  /** A trimmed line parseLine treats as an assignment. */
  predicate AssignmentLine(line: string) {
    !Skipped(line) && LineDirective(line).None?
  }

  /** The error parseError raises for the line after `st`. */
  function NextLineError(st: State, reason: string): Error {
    ParseError(SourceName(st.filename), st.lineNumber + 1, reason)
  }

  /** Blank lines, `0` and comments only advance the line counter. */
  lemma SkippedLineOnlyCounts(st: State, raw: string)
    requires StateValid(st) && Skipped(Trim(raw))
    ensures Step(st, raw) == Ok(st.(lineNumber := st.lineNumber + 1))
  {
    StepCounts(st, raw);
  }

  /** Any other non-directive line is an assignment. */
  lemma AssignmentStep(st: State, raw: string)
    requires StateValid(st) && AssignmentLine(Trim(raw))
    ensures Step(st, raw) == Assign(st.(lineNumber := st.lineNumber + 1), Trim(raw))
  {
    StepCounts(st, raw);
  }

  /** A line without `=` is an invalid line; the message names the line. */
  lemma InvalidLineRejected(st: State, raw: string)
    requires StateValid(st) && AssignmentLine(Trim(raw)) && '=' !in Trim(raw)
    ensures Step(st, raw) == Err(NextLineError(st, "Got invalid line"))
    ensures LineOf(Message(Step(st, raw).error), SourceName(st.filename)) == Some(st.lineNumber + 1)
  {
    AssignmentStep(st, raw);
    ParseErrorNamesLine(SourceName(st.filename), st.lineNumber + 1, "Got invalid line");
  }

  /** A name holding `;` is rejected before the expression is looked at. */
  lemma SemicolonInNameRejected(st: State, raw: string)
    requires StateValid(st) && AssignmentLine(Trim(raw)) && '=' in Trim(raw) && ';' in NameOf(Trim(raw))
    ensures Step(st, raw) == Err(NextLineError(st, "No semicolon allowed in varname"))
  {
    AssignmentStep(st, raw);
  }

  /** Two different unescaped operators in one expression are rejected. */
  lemma MixedOperatorsRejected(st: State, raw: string, i: nat, j: nat)
    requires StateValid(st) && AssignmentLine(Trim(raw)) && '=' in Trim(raw) && ';' !in NameOf(Trim(raw))
    requires var value := ValueOf(Trim(raw));
      i < |value| && j < |value| && OperatorAt(value, i) && OperatorAt(value, j) && value[i] != value[j]
    ensures Step(st, raw) == Err(NextLineError(st, "Mixing operators is not allowed"))
  {
    AssignmentStep(st, raw);
    DetectOperatorSpec(ValueOf(Trim(raw)));
  }

  /** A `+` expression must be a threshold `N of: …`; one that does not start with a digit is rejected. */
  lemma ThresholdSyntaxRejected(st: State, raw: string, i: nat)
    requires StateValid(st) && AssignmentLine(Trim(raw)) && '=' in Trim(raw) && ';' !in NameOf(Trim(raw))
    requires var value := ValueOf(Trim(raw));
      && i < |value| && OperatorAt(value, i) && value[i] == '+'
      && (forall j :: 0 <= j < |value| && OperatorAt(value, j) ==> value[j] == '+')
      && !IsDigit(value[0])
    ensures Step(st, raw) == Err(NextLineError(st, ThresholdSyntax))
  {
    AssignmentStep(st, raw);
    var value := ValueOf(Trim(raw));
    DetectOperatorSpec(value);
    assert DetectOperator(value) == Some('+');
  }

  /** A `+` expression that is not `N[:M] of: …` is a syntax error. */
  lemma ThresholdMismatchRejected(st: State, raw: string)
    requires StateValid(st) && AssignmentLine(Trim(raw)) && '=' in Trim(raw) && ';' !in NameOf(Trim(raw))
    requires DetectOperator(ValueOf(Trim(raw))) == Some('+') && MatchThreshold(ValueOf(Trim(raw))).None?
    ensures Step(st, raw) == Err(NextLineError(st, ThresholdSyntax))
  {
    AssignmentStep(st, raw);
  }

  /** A token fails only as an import without a node. */
  lemma ResolveTokenErrors(c: Config, m: seq<Pending>, p: nat, token: string)
    requires Valid(c) && ParentsIn(m, |c.nodes|) && p < |c.nodes| && token != []
    requires ResolveToken(c, m, p, token).Err?
    ensures ResolveToken(c, m, p, token).error == ConfigurationError(ImportMessage(token))
  {
  }

  /** The token loop fails only on an import without a node. */
  lemma {:induction false} ResolveTokensErrors(c: Config, m: seq<Pending>, p: nat, tokens: seq<string>)
    requires Valid(c) && ParentsIn(m, |c.nodes|) && p < |c.nodes|
    requires forall k :: 0 <= k < |tokens| ==> tokens[k] != []
    requires ResolveTokens(c, m, p, tokens).Err?
    ensures ResolveTokens(c, m, p, tokens).error.ConfigurationError?
    decreases |tokens|
  {
    var t := Unescape(tokens[0]);
    var r := ResolveToken(c, m, p, t);
    if r.Ok? {
      ResolveTokensErrors(r.value.0, r.value.1, p, tokens[1..]);
    } else {
      ResolveTokenErrors(c, m, p, t);
    }
  }

  /** An assignment fails with a parse error at the current line or a configuration error. */
  lemma AssignErrors(st: State, line: string)
    requires StateValid(st) && Assign(st, line).Err?
    ensures var e := Assign(st, line).error;
      || (e.ParseError? && e.file == SourceName(st.filename) && e.line == st.lineNumber)
      || e.ConfigurationError?
  {
    if '=' in line {
      var name, value := NameOf(line), ValueOf(line);
      if ';' !in name && DetectOperator(value).Some? {
        var op := DetectOperator(value).value;
        if op != '+' || MatchThreshold(value).Some? {
          var opr := if op != '+' then Op(op) else AtLeast(MatchThreshold(value).value.min);
          var expr := if op != '+' then value else MatchThreshold(value).value.rest;
          assert Assign(st, line) == Define(st, name, opr, op, expr);
          var c := Append(st.config, NewNode(name, Process(opr)));
          ResolveTokensErrors(c, st.missing, |st.config.nodes|, OpSplit(expr, op));
        }
      }
    }
  }

  /**
   * Every error of a line is a parse error naming that line, an import
   * without a node, or state overrides for an unknown node.
   */
  lemma StepErrors(st: State, raw: string)
    requires StateValid(st) && Step(st, raw).Err?
    ensures var e := Step(st, raw).error;
      || (e.ParseError? && e.file == SourceName(st.filename) && e.line == st.lineNumber + 1)
      || e.ConfigurationError?
      || e.UnknownNode?
    ensures Step(st, raw).error.ParseError? ==>
      LineOf(Message(Step(st, raw).error), SourceName(st.filename)) == Some(st.lineNumber + 1)
  {
    StepCounts(st, raw);
    var st1 := st.(lineNumber := st.lineNumber + 1);
    var line := Trim(raw);
    if AssignmentLine(line) {
      AssignErrors(st1, line);
    }
    var e := Step(st, raw).error;
    if e.ParseError? {
      ParseErrorNamesLine(e.file, e.line, e.reason);
    }
  }

  /** The process a successful `Define` adds: named, with that operator, registered under its name. */
  lemma DefineSpec(st: State, name: string, opr: Operator, op: char, value: string)
    requires StateValid(st) && Define(st, name, opr, op, value).Ok?
    ensures var c, c2 := st.config, Define(st, name, opr, op, value).value.config;
      var p := |c.nodes|;
      && p < |c2.nodes| && c2.index[name] == p
      && c2.nodes[p].name == name && c2.nodes[p].kind == Process(opr)
      && (forall n :: n in c.index && n != name ==> n in c2.index && c2.index[n] == c.index[n])
      && (forall q :: 0 <= q < p ==> c2.nodes[q] == c.nodes[q])
      && c2.roots == c.roots
  {
    var p := |st.config.nodes|;
    var c := Append(st.config, NewNode(name, Process(opr)));
    ResolveTokensFrame(c, st.missing, p, OpSplit(value, op));
  }

  /**
   * An assignment defines a new process under its name, replacing any
   * earlier definition and changing no existing node. Its operator is `&`
   * for a single child, the one operator written, or "at least N" for a
   * threshold expression.
   */
  lemma AssignmentDefines(st: State, line: string)
    requires StateValid(st) && '=' in line && Assign(st, line).Ok?
    ensures var c, c2 := st.config, Assign(st, line).value.config;
      var p, name, value := |c.nodes|, NameOf(line), ValueOf(line);
      && p < |c2.nodes| && c2.index[name] == p && c2.nodes[p].name == name
      && (forall n :: n in c.index && n != name ==> n in c2.index && c2.index[n] == c.index[n])
      && (forall q :: 0 <= q < p ==> c2.nodes[q] == c.nodes[q])
      && c2.roots == c.roots
      && ((forall i :: 0 <= i < |value| ==> !OperatorAt(value, i)) ==> c2.nodes[p].kind == Process(Op('&')))
      && (forall i :: 0 <= i < |value| && OperatorAt(value, i) && value[i] != '+' ==> c2.nodes[p].kind == Process(Op(value[i])))
      && (forall i :: 0 <= i < |value| && OperatorAt(value, i) && value[i] == '+' ==>
            MatchThreshold(value).Some? && c2.nodes[p].kind == Process(AtLeast(MatchThreshold(value).value.min)))
  {
    var name, value := NameOf(line), ValueOf(line);
    DetectOperatorSpec(value);
    var op := DetectOperator(value).value;
    if op != '+' {
      DefineSpec(st, name, Op(op), op, value);
    } else {
      var t := MatchThreshold(value).value;
      DefineSpec(st, name, AtLeast(t.min), '+', t.rest);
    }
  }

  /** The canonical assignment `name = value` is read back as that name and value. */
  lemma AssignmentParts(name: string, value: string)
    requires '=' !in name && (name == [] || !IsSpace(name[|name| - 1]))
    requires value == [] || !IsSpace(value[0])
    ensures '=' in name + " = " + value
    ensures NameOf(name + " = " + value) == name && ValueOf(name + " = " + value) == value
  {
    var lhs := name + [' '];
    assert name + " = " + value == lhs + ['='] + ([' '] + value);
    IndexOfJoined(lhs, '=', [' '] + value);
    JoinedParts(lhs, '=', [' '] + value);
    assert lhs[..|name|] == name;
    RTrimSpaceKeeps(name);
    LTrimSpaceSkips(' ', value);
    LTrimSpaceKeeps(value);
  }

  /** The threshold `name = N of: rest` gives an "at least N" process over the tokens of `rest`. */
  lemma ThresholdAssignment(st: State, name: string, n: nat, rest: string)
    requires StateValid(st) && rest != [] && !IsSpace(rest[0])
    requires ';' !in name && '=' !in name && (name == [] || !IsSpace(name[|name| - 1]))
    requires DetectOperator(NatToString(n) + " of: " + rest) == Some('+')
    ensures Assign(st, name + " = " + (NatToString(n) + " of: " + rest))
      == Define(st, name, AtLeast(n), '+', rest)
  {
    var value := NatToString(n) + " of: " + rest;
    AssignmentParts(name, value);
    ThresholdRoundTrip(n, rest);
  }

  // ---------------------------------------------------------------- directives

  /** `<keyword> <payload>` is that directive, and its handler reads exactly the payload. */
  lemma DirectiveLine(d: Directive, payload: string)
    ensures LineDirective(Keyword(d) + " " + payload) == Some(d)
    ensures (Keyword(d) + " " + payload)[|Keyword(d)| + 1..] == payload
    ensures d == Display ==> |Keyword(d)| + 1 == 8
    ensures d == ExternalInfo ==> |Keyword(d)| + 1 == 14
    ensures d == InfoUrl ==> |Keyword(d)| + 1 == 9
    ensures d == StateOverrides ==> |Keyword(d)| + 1 == 16
  {
    var kw := Keyword(d);
    assert kw + " " + payload == kw + [' '] + payload;
    IndexOfJoined(kw, ' ', payload);
    JoinedParts(kw, ' ', payload);
  }

  /**
   * parseDisplay: the named process (a new `&` process when the name is
   * unknown) gets the rank and alias and keeps everything else; it becomes
   * a root exactly when the rank is positive or it already was one. No
   * other node and no other name changes.
   */
  lemma DisplaySets(c: Config, payload: string)
    requires Valid(c)
    ensures var parts := SplitAround(payload, ';', 3);
      var name, rank, r := OrEmpty(Field(parts, 1)), PhpInt(parts[0]), ParseDisplay(c, payload);
      && name in r.index
      && r.nodes[r.index[name]].display == Some(rank)
      && r.nodes[r.index[name]].alias == Field(parts, 2)
      && (name in c.index ==>
            r.index == c.index && r.nodes[c.index[name]] == c.nodes[c.index[name]].(alias := Field(parts, 2), display := Some(rank)))
      && (name !in c.index ==>
            r.index == c.index[name := |c.nodes|]
            && r.nodes[|c.nodes|] == NewNode(name, Process(Op('&'))).(alias := Field(parts, 2), display := Some(rank)))
      && (forall q :: 0 <= q < |c.nodes| && q != r.index[name] ==> r.nodes[q] == c.nodes[q])
      && (forall n :: n in r.roots <==> n in c.roots || (n == name && rank > 0))
  {
  }

  /**
   * parseExternalInfo: the process named first (created when unknown) gets
   * the command; nothing else changes.
   */
  lemma ExternalInfoSets(c: Config, payload: string)
    requires Valid(c)
    ensures var parts := SplitAround(payload, ';', 2);
      var name, r := parts[0], Parser.ParseExternalInfo(c, payload);
      && name in r.index && r.roots == c.roots
      && (name in c.index ==>
            r.index == c.index && r.nodes[c.index[name]] == c.nodes[c.index[name]].(infoCommand := Field(parts, 1)))
      && (name !in c.index ==>
            r.index == c.index[name := |c.nodes|]
            && r.nodes[|c.nodes|] == NewNode(name, Process(Op('&'))).(infoCommand := Field(parts, 1)))
      && (forall q :: 0 <= q < |c.nodes| && q != r.index[name] ==> r.nodes[q] == c.nodes[q])
  {
  }

  /** parseInfoUrl: the process named first (created when unknown) gets the URL; nothing else changes. */
  lemma InfoUrlSets(c: Config, payload: string)
    requires Valid(c)
    ensures var parts := SplitAround(payload, ';', 2);
      var name, r := parts[0], Parser.ParseInfoUrl(c, payload);
      && name in r.index && r.roots == c.roots
      && (name in c.index ==>
            r.index == c.index && r.nodes[c.index[name]] == c.nodes[c.index[name]].(infoUrl := Field(parts, 1)))
      && (name !in c.index ==>
            r.index == c.index[name := |c.nodes|]
            && r.nodes[|c.nodes|] == NewNode(name, Process(Op('&'))).(infoUrl := Field(parts, 1)))
      && (forall q :: 0 <= q < |c.nodes| && q != r.index[name] ==> r.nodes[q] == c.nodes[q])
  {
  }

  /** A printed integer survives a split on `;` unchanged. */
  lemma IntToStringClean(rank: int)
    ensures CleanPiece(IntToString(rank), ';')
  {
    var n: nat := if rank < 0 then -rank else rank;
    var d := NatToString(n);
    assert AllDigits(d);
    assert IntToString(rank) == d || IntToString(rank) == "-" + d;
    assert IntToString(rank)[|IntToString(rank)| - 1] == d[|d| - 1];
  }

  /** `<rank>;<name>;<alias>` splits into its three parts. */
  lemma DisplayPayloadParts(rank: int, name: string, alias: string)
    requires CleanPiece(name, ';') && (alias == [] || !IsSpace(alias[0]))
    ensures SplitAround(IntToString(rank) + ";" + name + ";" + alias, ';', 3) == [IntToString(rank), name, alias]
  {
    var d := IntToString(rank);
    IntToStringClean(rank);
    var tail := name + [';'] + alias;
    assert d + ";" + name + ";" + alias == d + [';'] + tail;
    assert tail[0] == if name != [] then name[0] else ';';
    SplitStep(d, ';', tail, 3);
    SplitStep(name, ';', alias, 2);
  }

  /** The canonical display line `<rank>;<name>;<alias>` sets that rank and alias; a positive rank makes a root. */
  lemma DisplayLine(c: Config, rank: int, name: string, alias: string)
    requires Valid(c) && CleanPiece(name, ';') && (alias == [] || !IsSpace(alias[0]))
    ensures var r := ParseDisplay(c, IntToString(rank) + ";" + name + ";" + alias);
      && name in r.index
      && r.nodes[r.index[name]].display == Some(rank)
      && r.nodes[r.index[name]].alias == Some(alias)
      && (name in r.roots <==> name in c.roots || rank > 0)
  {
    DisplayPayloadParts(rank, name, alias);
    PhpIntRoundTrip(rank);
    DisplaySets(c, IntToString(rank) + ";" + name + ";" + alias);
  }

  /** Any word that starts with `display` selects the display directive. */
  lemma DisplayWordsArePrefixes(word: string)
    ensures DirectiveOf("display" + word) == Some(Display)
  {
    assert ("display" + word)[..7] == "display";
  }

  /** parseStateOverrides fails exactly when the target node is not defined. */
  lemma StateOverridesTarget(c: Config, payload: string)
    requires Valid(c)
    ensures var target := SplitAround(payload, '!', 0)[0];
      && (Parser.ParseStateOverrides(c, payload).Err? <==> target !in c.index)
      && (Parser.ParseStateOverrides(c, payload).Err? ==> Parser.ParseStateOverrides(c, payload).error == UnknownNode(target))
      && (target in c.index ==>
            var r := Parser.ParseStateOverrides(c, payload).value;
            var i := c.index[target];
            && r.index == c.index && r.roots == c.roots
            && r.nodes[i] == c.nodes[i].(overrides := ApplyOverrides(c.nodes[i].overrides, SplitAround(payload, '!', 0)[1..]))
            && forall q :: 0 <= q < |c.nodes| && q != i ==> r.nodes[q] == c.nodes[q])
  {
  }

  /** Segments naming other children leave a child's overrides as they were, present or absent. */
  lemma {:induction false} ApplyOverridesKeeps(acc: map<string, map<int, int>>, defs: seq<string>, child: string)
    requires forall k :: 0 <= k < |defs| ==> ChildOverride(defs[k]).0 != child
    ensures child in ApplyOverrides(acc, defs) <==> child in acc
    ensures child in acc ==> ApplyOverrides(acc, defs)[child] == acc[child]
    decreases |defs|
  {
    if defs != [] {
      assert ChildOverride(defs[0]).0 != child;
      var o := ChildOverride(defs[0]);
      forall k | 0 <= k < |defs[1..]| ensures ChildOverride(defs[1..][k]).0 != child {
        assert defs[1..][k] == defs[k + 1];
      }
      ApplyOverridesKeeps(acc[o.0 := o.1], defs[1..], child);
    }
  }

  /**
   * A child named by segment `j` and by no later segment ends with that
   * segment's map: a later segment for the same child replaces an earlier
   * one instead of merging with it.
   */
  lemma {:induction false} ApplyOverridesLastWins(acc: map<string, map<int, int>>, defs: seq<string>, j: nat)
    requires j < |defs|
    requires forall k :: j < k < |defs| ==> ChildOverride(defs[k]).0 != ChildOverride(defs[j]).0
    ensures ChildOverride(defs[j]).0 in ApplyOverrides(acc, defs)
    ensures ApplyOverrides(acc, defs)[ChildOverride(defs[j]).0] == ChildOverride(defs[j]).1
    decreases |defs|
  {
    var o := ChildOverride(defs[0]);
    if j == 0 {
      forall k | 0 <= k < |defs[1..]| ensures ChildOverride(defs[1..][k]).0 != o.0 {
        assert defs[1..][k] == defs[k + 1];
      }
      ApplyOverridesKeeps(acc[o.0 := o.1], defs[1..], o.0);
    } else {
      assert defs[1..][j - 1] == defs[j];
      forall k | j - 1 < k < |defs[1..]| ensures ChildOverride(defs[1..][k]).0 != ChildOverride(defs[1..][j - 1]).0 {
        assert defs[1..][k] == defs[k + 1];
      }
      ApplyOverridesLastWins(acc[o.0 := o.1], defs[1..], j - 1);
    }
  }

  /** The text `from-to` of one state override. */
  function PairText(from: nat, to: nat): string {
    NatToString(from) + "-" + NatToString(to)
  }

  /** Digits hold no delimiter and no whitespace. */
  lemma DigitsAreClean(d: string, c: char)
    requires AllDigits(d) && !IsDigit(c)
    ensures CleanPiece(d, c)
  {
    assert forall k :: 0 <= k < |d| ==> d[k] != c;
  }

  /** A `from-to` pair reads back as the two numbers. */
  lemma OverridePairText(from: nat, to: nat)
    ensures OverridePair(PairText(from, to)) == (from, to)
  {
    var f, t := NatToString(from), NatToString(to);
    assert f + "-" + t == f + ['-'] + t;
    DigitsAreClean(f, '-');
    SplitStep(f, '-', t, 2);
    PhpIntRoundTrip(from);
    PhpIntRoundTrip(to);
  }

  /** A `from-to` pair holds no `,` and no outer whitespace. */
  lemma PairTextClean(from: nat, to: nat)
    ensures CleanPiece(PairText(from, to), ',')
  {
    var f, t := NatToString(from), NatToString(to);
    DigitsAreClean(f, ',');
    DigitsAreClean(t, ',');
    assert PairText(from, to) == f + ['-'] + t;
    JoinedParts(f, '-', t);
  }

  /** Two clean pieces joined by the delimiter split back into the two. */
  lemma TwoPieces(p1: string, c: char, p2: string, limit: nat)
    requires CleanPiece(p1, c) && CleanPiece(p2, c) && p2 != [] && limit != 1
    ensures SplitAround(p1 + [c] + p2, c, limit) == [p1, p2]
  {
    SplitStep(p1, c, p2, limit);
    assert SplitAround(p2, c, if limit == 0 then 0 else limit - 1) == [p2];
  }

  /** Two pairs in order: the second wins when both name the same state. */
  lemma OverrideMapOfTwo(p1: string, p2: string)
    ensures OverrideMap([p1, p2]) == map[OverridePair(p1).0 := OverridePair(p1).1, OverridePair(p2).0 := OverridePair(p2).1]
  {
    var o1, o2 := OverridePair(p1), OverridePair(p2);
    assert [p1, p2][..1] == [p1];
    assert [p1][..0] == [];
    assert OverrideMap([p1]) == map[][o1.0 := o1.1];
    assert OverrideMap([p1, p2]) == OverrideMap([p1])[o2.0 := o2.1];
  }

  /** `child|rest` splits, at most in two, into the child and the rest. */
  lemma ChildPart(child: string, rest: string)
    requires CleanPiece(child, '|') && rest != [] && !IsSpace(rest[0])
    ensures SplitAround(child + "|" + rest, '|', 2) == [child, rest]
  {
    assert child + "|" + rest == child + ['|'] + rest;
    SplitStep(child, '|', rest, 2);
    assert SplitAround(rest, '|', 1) == [rest];
  }

  /** `a-b,c-d` splits into its two pairs, and starts with a digit. */
  lemma PairsPart(a: nat, b: nat, c: nat, d: nat)
    ensures var rest := PairText(a, b) + "," + PairText(c, d);
      && rest != [] && !IsSpace(rest[0])
      && SplitAround(rest, ',', 0) == [PairText(a, b), PairText(c, d)]
  {
    var p1, p2 := PairText(a, b), PairText(c, d);
    assert p1 + "," + p2 == p1 + [','] + p2;
    assert (p1 + [','] + p2)[0] == NatToString(a)[0];
    PairTextClean(a, b);
    PairTextClean(c, d);
    TwoPieces(p1, ',', p2, 0);
  }

  /**
   * `child|a-b,c-d` gives `child` the map a -> b, c -> d, the second pair
   * winning when both name the same state.
   */
  lemma ChildOverrideOfPairs(child: string, a: nat, b: nat, c: nat, d: nat)
    requires CleanPiece(child, '|')
    ensures ChildOverride(child + "|" + (PairText(a, b) + "," + PairText(c, d))) == (child, map[a := b, c := d])
  {
    var p1, p2 := PairText(a, b), PairText(c, d);
    PairsPart(a, b, c, d);
    ChildPart(child, p1 + "," + p2);
    OverridePairText(a, b);
    OverridePairText(c, d);
    OverrideMapOfTwo(p1, p2);
  }

  /** Every `from` value given is a key of the map. */
  lemma {:induction false} OverrideMapHasFrom(items: seq<string>, j: nat)
    requires j < |items|
    ensures OverridePair(items[j]).0 in OverrideMap(items)
    decreases |items|
  {
    var init := items[..|items| - 1];
    var last := OverridePair(items[|items| - 1]);
    assert OverrideMap(items) == OverrideMap(init)[last.0 := last.1];
    if j < |init| {
      OverrideMapHasFrom(init, j);
      assert init[j] == items[j];
    }
  }

  /** Every key of the map is a `from` value given. */
  lemma {:induction false} OverrideMapKeyGiven(items: seq<string>, k: int) returns (j: nat)
    requires k in OverrideMap(items)
    ensures j < |items| && OverridePair(items[j]).0 == k
    decreases |items|
  {
    var init := items[..|items| - 1];
    var last := OverridePair(items[|items| - 1]);
    assert OverrideMap(items) == OverrideMap(init)[last.0 := last.1];
    if k == last.0 {
      j := |items| - 1;
    } else {
      j := OverrideMapKeyGiven(init, k);
      assert init[j] == items[j];
    }
  }

  /** The `from` values of an override list are exactly the keys of its map. */
  lemma OverrideMapKeys(items: seq<string>)
    ensures forall k :: k in OverrideMap(items) <==> exists j :: 0 <= j < |items| && OverridePair(items[j]).0 == k
  {
    forall k | k in OverrideMap(items)
      ensures exists j :: 0 <= j < |items| && OverridePair(items[j]).0 == k
    {
      var j := OverrideMapKeyGiven(items, k);
    }
    forall j | 0 <= j < |items|
      ensures OverridePair(items[j]).0 in OverrideMap(items)
    {
      OverrideMapHasFrom(items, j);
    }
  }

  /** When a `from` value is given twice, the later pair wins. */
  lemma {:induction false} OverrideMapLastWins(items: seq<string>, j: nat)
    requires j < |items|
    requires forall l :: j < l < |items| ==> OverridePair(items[l]).0 != OverridePair(items[j]).0
    ensures var pair := OverridePair(items[j]);
      pair.0 in OverrideMap(items) && OverrideMap(items)[pair.0] == pair.1
    decreases |items|
  {
    var init := items[..|items| - 1];
    assert OverrideMap(items) == OverrideMap(init)[OverridePair(items[|items| - 1]).0 := OverridePair(items[|items| - 1]).1];
    if j < |init| {
      forall l | j < l < |init| ensures OverridePair(init[l]).0 != OverridePair(init[j]).0 {
        assert init[l] == items[l];
      }
      OverrideMapLastWins(init, j);
      assert init[j] == items[j];
    }
  }

  // ---------------------------------------------------------------- whole definitions

  /** The lines before the `k`-th parse without error, and the `k`-th line raises the error of the run. */
  lemma {:induction false} FailingLine(st: State, lines: seq<string>) returns (k: nat)
    requires StateValid(st) && Run(st, lines).Err?
    ensures k < |lines| && Run(st, lines[..k]).Ok?
    ensures Run(st, lines[..k]).value.lineNumber == st.lineNumber + k
    ensures SameFrame(st, Run(st, lines[..k]).value)
    ensures Step(Run(st, lines[..k]).value, lines[k]) == Run(st, lines)
    decreases |lines|
  {
    assert lines[..0] == [];
    match Step(st, lines[0])
    case Err(_) =>
      k := 0;
    case Ok(st1) =>
      var j := FailingLine(st1, lines[1..]);
      k := j + 1;
      assert lines[..k][0] == lines[0] && lines[..k][1..] == lines[1..][..j];
      assert lines[k] == lines[1..][j];
  }

  /**
   * A parse error of an in-memory definition names the `[given string]`
   * stand-in and the 1-based position of the line that raised it; every
   * line before that one parses.
   */
  lemma ParseErrorLine(name: string, text: string) returns (k: nat)
    requires ParseText(name, text).Err? && ParseText(name, text).error.ParseError?
    ensures var lines, st := SplitLines(text), Initial(name, ScanHeader(name, text));
      && k < |lines|
      && Run(st, lines[..k]).Ok?
      && Step(Run(st, lines[..k]).value, lines[k]) == Err(ParseText(name, text).error)
    ensures ParseText(name, text).error.line == k + 1
    ensures ParseText(name, text).error.file == "[given string]"
  {
    var lines, st := SplitLines(text), Initial(name, ScanHeader(name, text));
    if Run(st, lines).Ok? {
      var st' := Run(st, lines).value;
      ResolveMissingSucceeds(st'.config, st'.missing);
      assert false;
    }
    k := FailingLine(st, lines);
    var before := Run(st, lines[..k]).value;
    StepErrors(before, lines[k]);
  }
}
