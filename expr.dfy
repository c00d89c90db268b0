/**
 * The right-hand side of an assignment line `name = expr`: which operator
 * it uses, the `N[:M] of:` threshold form, the split into child tokens on
 * the unescaped operator, and the removal of backslash escapes.
 */
module Expr {
  import opened Text
  import opened Outcomes

  /** The operator characters `| + & ! %`. */
  predicate IsOpChar(c: char) {
    c == '|' || c == '+' || c == '&' || c == '!' || c == '%'
  }

  /** Index `i` of `s` is not preceded by a backslash: the lookbehind `(?<!\\)`. */
  predicate Unescaped(s: string, i: nat)
    requires i < |s|
  {
    i == 0 || s[i - 1] != '\\'
  }

  /** Index `i` of `s` holds an operator character that the parser sees. */
  predicate OperatorAt(s: string, i: nat)
    requires i < |s|
  {
    IsOpChar(s[i]) && Unescaped(s, i)
  }

  /**
   * preg_match_all('~(?<!\\\\)([\|\+&\!\%])~', s) restricted to the first
   * `n` characters: the unescaped operator characters in textual order.
   */
  function OperatorCharsUpTo(s: string, n: nat): seq<char>
    requires n <= |s|
  {
    if n == 0 then []
    else OperatorCharsUpTo(s, n - 1) + (if OperatorAt(s, n - 1) then [s[n - 1]] else [])
  }

  function OperatorChars(s: string): seq<char> {
    OperatorCharsUpTo(s, |s|)
  }

  /** The collected characters are exactly those at positions where OperatorAt holds. */
  lemma {:induction false} OperatorCharsUpToPositions(s: string, n: nat)
    requires n <= |s|
    ensures forall i :: 0 <= i < n && OperatorAt(s, i) ==> s[i] in OperatorCharsUpTo(s, n)
    ensures forall x :: x in OperatorCharsUpTo(s, n) ==> exists i :: 0 <= i < n && OperatorAt(s, i) && s[i] == x
  {
    if n > 0 {
      OperatorCharsUpToPositions(s, n - 1);
    }
  }

  /**
   * The operator of an assignment: `&` when the expression holds no unescaped
   * operator character, the one character when all of them are the same, and
   * None ("Mixing operators is not allowed") otherwise.
   */
  function DetectOperator(value: string): Option<char> {
    var ops := OperatorChars(value);
    if ops == [] then Some('&')
    else if forall k :: 0 <= k < |ops| ==> ops[k] == ops[0] then Some(ops[0])
    else None
  }

  /** What DetectOperator decides, stated over the positions of the expression. */
  lemma DetectOperatorSpec(value: string)
    ensures (forall i :: 0 <= i < |value| ==> !OperatorAt(value, i)) ==> DetectOperator(value) == Some('&')
    ensures DetectOperator(value) == None <==>
      exists i, j :: 0 <= i < |value| && 0 <= j < |value| && OperatorAt(value, i) && OperatorAt(value, j) && value[i] != value[j]
    ensures forall c :: DetectOperator(value) == Some(c) ==>
      forall i :: 0 <= i < |value| && OperatorAt(value, i) ==> value[i] == c
  {
    var ops := OperatorChars(value);
    OperatorCharsUpToPositions(value, |value|);
    if ops != [] {
      assert ops[0] in ops;
    }
    if DetectOperator(value) == None {
      var k :| 0 <= k < |ops| && ops[k] != ops[0];
      assert ops[k] in ops && ops[0] in ops;
      var i :| 0 <= i < |value| && OperatorAt(value, i) && value[i] == ops[k];
      var j :| 0 <= j < |value| && OperatorAt(value, j) && value[j] == ops[0];
    } else {
      forall i, j | 0 <= i < |value| && 0 <= j < |value| && OperatorAt(value, i) && OperatorAt(value, j)
        ensures value[i] == value[j]
      {
        assert value[i] in ops && value[j] in ops;
      }
    }
  }

  /**
   * The mixing check of the parser: the characters collected by
   * preg_match_all are compared pairwise with their predecessors.
   */
  method ScanOperators(value: string) returns (r: Option<char>)
    ensures r == DetectOperator(value)
  {
    var ops := OperatorChars(value);
    if ops == [] {
      return Some('&');
    }
    var i := 1;
    while i < |ops|
      invariant 1 <= i <= |ops|
      invariant forall k :: 0 <= k < i ==> ops[k] == ops[0]
    {
      if ops[i] != ops[i - 1] {
        return None;
      }
      i := i + 1;
    }
    r := Some(ops[0]);
  }

  /** The parts of a matched threshold expression `N[:M] of: rest`. */
  datatype Threshold = Threshold(min: nat, rest: string)

  /** The optional group `(?::(\d+))?`: a colon and digits are skipped when both are there. */
  function SkipMinimum(after: string): (r: string)
    ensures |r| <= |after|
  {
    if after != [] && after[0] == ':' && 0 < DigitPrefixLen(after[1..]) then
      after[1 + DigitPrefixLen(after[1..])..]
    else after
  }

  /**
   * The tail `\s*of:\s*(.+?)$`. Inside a line no character is a newline,
   * so `(.+?)$` takes the rest, which must be non-empty; the greedy `\s*`
   * before it gives back one character when nothing else is left.
   */
  function MatchOf(t: string): (r: Option<string>)
    ensures r.Some? ==> r.value != []
  {
    var t1 := LTrimSpace(t);
    if |t1| < 3 || t1[..3] != "of:" then None
    else
      var u := t1[3..];
      var w := LTrimSpace(u);
      if w != [] then Some(w)
      else if u != [] then Some(u[|u| - 1..])
      else None
  }

  /**
   * preg_match('~^(\d+)(?::(\d+))?\s*of:\s*(.+?)$~', value): the first
   * number and the text to tokenize. The optional second number is
   * matched and dropped.
   */
  function MatchThreshold(value: string): (r: Option<Threshold>)
    ensures r.Some? ==> value != [] && IsDigit(value[0]) && r.value.rest != []
  {
    var d := DigitPrefixLen(value);
    if d == 0 then None
    else
      match MatchOf(SkipMinimum(value[d..]))
      case None => None
      case Some(rest) => Some(Threshold(DigitsValue(value[..d]), rest))
  }

  /** How the tail ` of: rest` of a threshold expression is read. */
  lemma MatchOfRoundTrip(rest: string)
    requires rest != [] && !IsSpace(rest[0])
    ensures MatchOf(" of: " + rest) == Some(rest)
  {
    assert " of: " + rest == [' '] + ("of: " + rest);
    LTrimSpaceSkips(' ', "of: " + rest);
    LTrimSpaceKeeps("of: " + rest);
    assert ("of: " + rest)[..3] == "of:";
    assert ("of: " + rest)[3..] == [' '] + rest;
    LTrimSpaceSkips(' ', rest);
    LTrimSpaceKeeps(rest);
  }

  /** MatchThreshold on a number followed by a non-digit tail. */
  lemma MatchThresholdParts(d: string, tail: string)
    requires d != [] && AllDigits(d)
    requires tail != [] && !IsDigit(tail[0])
    ensures MatchThreshold(d + tail) ==
      match MatchOf(SkipMinimum(tail))
      case None => None
      case Some(rest) => Some(Threshold(DigitsValue(d), rest))
  {
    DigitPrefixOfDigits(d, tail);
    assert (d + tail)[|d|..] == tail;
  }

  // Sequence re-association, stated once so that proofs below need not rediscover it.
  lemma Assoc4<T>(a: seq<T>, b: seq<T>, c: seq<T>, d: seq<T>)
    ensures a + b + c + d == a + (b + (c + d))
  {
  }

  // Sequence re-association, stated once so that proofs below need not rediscover it.
  lemma Assoc3<T>(a: seq<T>, b: seq<T>, c: seq<T>)
    ensures a + b + c == a + (b + c)
  {
  }

  /** The text `N of: rest` matches with N and rest. */
  lemma ThresholdRoundTrip(n: nat, rest: string)
    requires rest != [] && !IsSpace(rest[0])
    ensures MatchThreshold(NatToString(n) + " of: " + rest) == Some(Threshold(n, rest))
  {
    var d := NatToString(n);
    var tl := " of: " + rest;
    Assoc3(d, " of: ", rest);
    MatchThresholdParts(d, tl);
    NatToStringRoundTrip(n);
    assert SkipMinimum(tl) == tl;
    MatchOfRoundTrip(rest);
  }

  lemma SkipMinimumDigits(e: string, tl: string)
    requires e != [] && AllDigits(e)
    requires tl != [] && !IsDigit(tl[0])
    ensures SkipMinimum([':'] + (e + tl)) == tl
  {
    var after := [':'] + (e + tl);
    assert after[1..] == e + tl;
    DigitPrefixOfDigits(e, tl);
    assert (e + tl)[|e|..] == tl;
  }

  /** The text `N:M of: rest` matches with N and rest; M is dropped. */
  lemma ThresholdWithMinimumRoundTrip(n: nat, m: nat, rest: string)
    requires rest != [] && !IsSpace(rest[0])
    ensures MatchThreshold(NatToString(n) + ":" + NatToString(m) + " of: " + rest) == Some(Threshold(n, rest))
  {
    var d := NatToString(n);
    var e := NatToString(m);
    var tl := " of: " + rest;
    var after := [':'] + (e + tl);
    Assoc4(d, ":", e, tl);
    Assoc3(d + ":" + e, " of: ", rest);
    MatchThresholdParts(d, after);
    NatToStringRoundTrip(n);
    SkipMinimumDigits(e, tl);
    MatchOfRoundTrip(rest);
  }

  /** What SkipMinimum drops is nothing, or a colon and digits. */
  lemma SkipMinimumShape(after: string) returns (sep: string)
    ensures after == sep + SkipMinimum(after)
    ensures sep == [] || (2 <= |sep| && sep[0] == ':' && AllDigits(sep[1..]))
  {
    if after != [] && after[0] == ':' && 0 < DigitPrefixLen(after[1..]) {
      var k := DigitPrefixLen(after[1..]);
      sep := after[..1 + k];
      assert sep[1..] == after[1..][..k];
      assert after == sep + after[1 + k..];
    } else {
      sep := [];
    }
  }

  /** A matched tail is whitespace, `of:`, whitespace, then the text returned. */
  lemma MatchOfShape(t: string) returns (ws: string, sp: string)
    requires MatchOf(t).Some?
    ensures AllSpace(ws) && AllSpace(sp)
    ensures t == ws + ("of:" + (sp + MatchOf(t).value))
  {
    var rest := MatchOf(t).value;
    ws := LTrimSpaceShape(t);
    var t1 := LTrimSpace(t);
    var u := t1[3..];
    assert t1 == "of:" + u;
    var sp0 := LTrimSpaceShape(u);
    if LTrimSpace(u) != [] {
      sp := sp0;
    } else {
      sp := u[..|u| - 1];
      assert u == sp + rest;
    }
    assert u == sp + rest;
  }

  /**
   * Every matched threshold expression is digits with the value returned,
   * an optional `:digits`, whitespace, `of:`, whitespace and the returned
   * text, which takes the rest of the value.
   */
  lemma MatchThresholdShape(value: string) returns (d: string, sep: string, ws: string, sp: string)
    requires MatchThreshold(value).Some?
    ensures d != [] && AllDigits(d) && DigitsValue(d) == MatchThreshold(value).value.min
    ensures sep == [] || (2 <= |sep| && sep[0] == ':' && AllDigits(sep[1..]))
    ensures AllSpace(ws) && AllSpace(sp)
    ensures value == d + (sep + (ws + ("of:" + (sp + MatchThreshold(value).value.rest))))
  {
    var n := DigitPrefixLen(value);
    d := value[..n];
    var tail := value[n..];
    assert value == d + tail;
    sep := SkipMinimumShape(tail);
    ws, sp := MatchOfShape(SkipMinimum(tail));
    assert MatchOf(SkipMinimum(tail)).value == MatchThreshold(value).value.rest;
  }

  /** The first index of an unescaped `op` at or after `i`, or -1. */
  function FindUnescapedFrom(s: string, op: char, i: nat): (r: int)
    requires i <= |s|
    ensures r == -1 || i <= r < |s|
    ensures 0 <= r ==> s[r] == op && Unescaped(s, r)
    ensures forall k :: i <= k < |s| && (r < 0 || k < r) ==> !(s[k] == op && Unescaped(s, k))
    decreases |s| - i
  {
    if i == |s| then -1
    else if s[i] == op && Unescaped(s, i) then i
    else FindUnescapedFrom(s, op, i + 1)
  }

  /**
   * preg_split('~\s*(?<!\\\\)\\' . op . '\s*~', s, -1, PREG_SPLIT_NO_EMPTY):
   * the pieces between unescaped occurrences of `op`, with the whitespace
   * around each separator absorbed and empty pieces dropped.
   */
  function OpSplit(s: string, op: char): (r: seq<string>)
    ensures forall k :: 0 <= k < |r| ==> r[k] != []
    decreases |s|
  {
    var e := FindUnescapedFrom(s, op, 0);
    if e < 0 then (if s == [] then [] else [s])
    else
      var piece := RTrimSpace(s[..e]);
      (if piece == [] then [] else [piece]) + OpSplit(LTrimSpace(s[e + 1..]), op)
  }

  /** A token that survives OpSplit unchanged when joined with `op`. */
  predicate CleanToken(t: string, op: char) {
    && t != []
    && !IsSpace(t[0]) && !IsSpace(t[|t| - 1]) && t[|t| - 1] != '\\'
    && forall i :: 0 <= i < |t| && t[i] == op ==> 0 < i && t[i - 1] == '\\'
  }

  /**
   * The tokens joined with `op`, the run of whitespace `before` in front of
   * each operator and the run `after` behind it: `b&c` and `b & c` alike.
   */
  function JoinOp(ts: seq<string>, op: char, before: string, after: string): string
    requires 1 <= |ts|
  {
    if |ts| == 1 then ts[0] else ts[0] + before + [op] + after + JoinOp(ts[1..], op, before, after)
  }

  lemma FindInCleanToken(t: string, op: char, gap: string, rest: string)
    requires CleanToken(t, op) && AllSpace(gap) && !IsSpace(op)
    ensures FindUnescapedFrom(t, op, 0) == -1
    ensures FindUnescapedFrom(t + gap + [op] + rest, op, 0) == |t| + |gap|
  {
    var s := t + gap + [op] + rest;
    var e := |t| + |gap|;
    forall k | 0 <= k < e && s[k] == op
      ensures !Unescaped(s, k)
    {
      if k < |t| {
        assert t[k] == op;
      }
    }
    assert s[e] == op;
    assert s[e - 1] != '\\' by {
      if gap == [] { assert s[e - 1] == t[|t| - 1]; } else { assert s[e - 1] == gap[|gap| - 1]; }
    }
    assert Unescaped(s, e);
  }

  /** OpSplit at its first split point: the trimmed piece before it, then the rest split. */
  lemma OpSplitAt(x: string, op: char, u: string)
    requires FindUnescapedFrom(x + [op] + u, op, 0) == |x|
    ensures OpSplit(x + [op] + u, op)
      == (if RTrimSpace(x) == [] then [] else [RTrimSpace(x)]) + OpSplit(LTrimSpace(u), op)
  {
    var s := x + [op] + u;
    assert s[..|x|] == x;
    assert s[|x| + 1..] == u;
  }

  lemma OpSplitStep(t: string, op: char, before: string, after: string, rest: string)
    requires CleanToken(t, op) && AllSpace(before) && AllSpace(after) && !IsSpace(op)
    requires rest != [] && !IsSpace(rest[0])
    ensures OpSplit(t + before + [op] + after + rest, op) == [t] + OpSplit(rest, op)
  {
    assert t + before + [op] + after + rest == (t + before) + [op] + (after + rest);
    FindInCleanToken(t, op, before, after + rest);
    RTrimSpaceDrops(t, before);
    LTrimSpaceDrops(after, rest);
    OpSplitAt(t + before, op, after + rest);
  }

  /**
   * Splitting tokens joined with their operator gives them back, whatever
   * whitespace surrounds the operator: the split absorbs it.
   */
  lemma {:induction false} OpSplitRoundTrip(ts: seq<string>, op: char, before: string, after: string)
    requires 1 <= |ts| && !IsSpace(op) && AllSpace(before) && AllSpace(after)
    requires forall k :: 0 <= k < |ts| ==> CleanToken(ts[k], op)
    ensures OpSplit(JoinOp(ts, op, before, after), op) == ts
  {
    assert CleanToken(ts[0], op);
    FindInCleanToken(ts[0], op, [], []);
    if 1 < |ts| {
      var rest := JoinOp(ts[1..], op, before, after);
      assert CleanToken(ts[1..][0], op);
      JoinOpStart(ts[1..], op, before, after);
      OpSplitStep(ts[0], op, before, after, rest);
      OpSplitRoundTrip(ts[1..], op, before, after);
      HeadTail(ts);
    } else {
      assert ts[0] + [] + [op] + [] == ts[0] + [op];
    }
  }

  lemma {:induction false} JoinOpStart(ts: seq<string>, op: char, before: string, after: string)
    requires 1 <= |ts| && ts[0] != []
    ensures JoinOp(ts, op, before, after) != [] && JoinOp(ts, op, before, after)[0] == ts[0][0]
  {
  }

  /**
   * preg_replace('~(\\\\([\|\+&\!\%]))~', '$2', t): every backslash that
   * stands before an operator character is removed, scanning left to right.
   */
  function Unescape(t: string): (r: string)
    ensures t != [] ==> r != []
  {
    if |t| >= 2 && t[0] == '\\' && IsOpChar(t[1]) then [t[1]] + Unescape(t[2..])
    else if t == [] then []
    else [t[0]] + Unescape(t[1..])
  }

  /** A backslash before every operator character: how a name is written inside an expression. */
  function Escape(name: string): string {
    if name == [] then []
    else (if IsOpChar(name[0]) then ['\\', name[0]] else [name[0]]) + Escape(name[1..])
  }

  lemma {:induction false} EscapeNeverStartsWithOp(name: string)
    ensures Escape(name) == [] || !IsOpChar(Escape(name)[0])
  {
  }

  /** Removing escapes undoes adding them. */
  lemma {:induction false} UnescapeEscape(name: string)
    ensures Unescape(Escape(name)) == name
  {
    if name != [] {
      var tail := Escape(name[1..]);
      UnescapeEscape(name[1..]);
      if IsOpChar(name[0]) {
        assert Escape(name) == ['\\', name[0]] + tail;
        assert Escape(name)[2..] == tail;
      } else {
        assert Escape(name) == [name[0]] + tail;
        EscapeNeverStartsWithOp(name[1..]);
        assert Escape(name)[1..] == tail;
      }
    }
  }
}
