/**
 * String helpers used by the legacy parser: PHP's trim(), the PCRE
 * whitespace class, first-occurrence search, the `\s*c\s*` splits that the
 * parser performs with preg_split, line splitting on `\r?\n`, and PHP's
 * decimal integer casts.
 */
module Text {

  /** Characters removed by PHP's trim(): space, tab, LF, CR, NUL, VT. */
  predicate IsTrimChar(c: char) {
    c == ' ' || c == '\t' || c == '\n' || c == '\r' || c == '\0' || c == '\U{000B}'
  }

  /** Characters matched by the PCRE class `\s`: space, tab, LF, VT, FF, CR. */
  predicate IsSpace(c: char) {
    c == ' ' || c == '\t' || c == '\n' || c == '\r' || c == '\U{000B}' || c == '\U{000C}'
  }

  predicate IsDigit(c: char) {
    '0' <= c <= '9'
  }

  predicate AllDigits(s: string) {
    forall i :: 0 <= i < |s| ==> IsDigit(s[i])
  }

  /** The two whitespace sets the parser strips: PHP's trim() and PCRE's `\s`. */
  datatype Blank = TrimSet | SpaceSet

  predicate IsBlank(b: Blank, c: char) {
    match b
    case TrimSet => IsTrimChar(c)
    case SpaceSet => IsSpace(c)
  }

  /** `s` without its longest prefix of blanks of kind `b`. */
  function DropLeading(s: string, b: Blank): (r: string)
    ensures |r| <= |s|
    ensures r == [] || !IsBlank(b, r[0])
  {
    if s != [] && IsBlank(b, s[0]) then DropLeading(s[1..], b) else s
  }

  /** `s` without its longest suffix of blanks of kind `b`. */
  function DropTrailing(s: string, b: Blank): (r: string)
    ensures |r| <= |s|
    ensures r == [] || !IsBlank(b, r[|r| - 1])
  {
    if s != [] && IsBlank(b, s[|s| - 1]) then DropTrailing(s[..|s| - 1], b) else s
  }

  /** PHP trim(). */
  function Trim(s: string): string {
    DropTrailing(DropLeading(s, TrimSet), TrimSet)
  }

  /** What a leading `\s*` of a regular expression consumes is removed. */
  function LTrimSpace(s: string): string {
    DropLeading(s, SpaceSet)
  }

  predicate AllSpace(s: string) {
    forall i :: 0 <= i < |s| ==> IsSpace(s[i])
  }

  /** What LTrimSpace removes is a run of whitespace in front of what it keeps. */
  lemma {:induction false} LTrimSpaceShape(s: string) returns (sp: string)
    ensures AllSpace(sp) && s == sp + LTrimSpace(s)
    decreases |s|
  {
    if s != [] && IsSpace(s[0]) {
      var sp1 := LTrimSpaceShape(s[1..]);
      sp := [s[0]] + sp1;
      assert s == [s[0]] + s[1..];
    } else {
      sp := [];
    }
  }

  lemma LTrimSpaceKeeps(s: string)
    requires s == [] || !IsSpace(s[0])
    ensures LTrimSpace(s) == s
  {
  }

  lemma LTrimSpaceSkips(c: char, s: string)
    requires IsSpace(c)
    ensures LTrimSpace([c] + s) == LTrimSpace(s)
  {
    assert ([c] + s)[1..] == s;
  }

  lemma RTrimSpaceKeeps(s: string)
    requires s == [] || !IsSpace(s[|s| - 1])
    ensures RTrimSpace(s) == s
  {
  }

  /** A run of whitespace after a text that does not end in whitespace is trimmed away. */
  lemma {:induction false} RTrimSpaceDrops(s: string, gap: string)
    requires AllSpace(gap) && (s == [] || !IsSpace(s[|s| - 1]))
    ensures RTrimSpace(s + gap) == s
    decreases |gap|
  {
    if gap == [] {
      assert s + gap == s;
      RTrimSpaceKeeps(s);
    } else {
      var shorter := gap[..|gap| - 1];
      assert (s + gap)[..|s + gap| - 1] == s + shorter;
      assert (s + gap)[|s + gap| - 1] == gap[|gap| - 1];
      RTrimSpaceDrops(s, shorter);
    }
  }

  /** A run of whitespace before a text that does not start with whitespace is trimmed away. */
  lemma {:induction false} LTrimSpaceDrops(gap: string, s: string)
    requires AllSpace(gap) && (s == [] || !IsSpace(s[0]))
    ensures LTrimSpace(gap + s) == s
    decreases |gap|
  {
    if gap == [] {
      assert gap + s == s;
      LTrimSpaceKeeps(s);
    } else {
      assert gap + s == [gap[0]] + (gap[1..] + s);
      LTrimSpaceSkips(gap[0], gap[1..] + s);
      LTrimSpaceDrops(gap[1..], s);
    }
  }

  /** What a `\s*` before a delimiter consumes is removed. */
  function RTrimSpace(s: string): string {
    DropTrailing(s, SpaceSet)
  }

  /** PHP strpos() for one character: the first index of `c`, or -1. */
  function IndexOf(s: string, c: char): (r: int)
    ensures -1 <= r < |s|
    ensures r == -1 <==> c !in s
    ensures 0 <= r ==> s[r] == c && c !in s[..r]
  {
    if s == [] then -1
    else if s[0] == c then 0
    else
      var k := IndexOf(s[1..], c);
      if k < 0 then -1 else k + 1
  }

  lemma {:induction false} IndexOfJoined(p: string, c: char, rest: string)
    requires c !in p
    ensures IndexOf(p + [c] + rest, c) == |p|
  {
    if p != [] {
      assert (p + [c] + rest)[1..] == p[1..] + [c] + rest;
      IndexOfJoined(p[1..], c, rest);
    }
  }

  /**
   * preg_split('~\s*c\s*~', s, limit) for a non-space delimiter `c`, where
   * limit 0 stands for "no limit". The leftmost match of `\s*c\s*` starts
   * at the whitespace run before the first `c` and ends after the whitespace
   * run behind it, so each piece is the text before the first `c` with its
   * trailing whitespace removed and the split goes on after the whitespace
   * that follows `c`.
   */
  function SplitAround(s: string, c: char, limit: nat): (r: seq<string>)
    ensures 1 <= |r|
    ensures 0 < limit ==> |r| <= limit
    decreases |s|
  {
    var e := IndexOf(s, c);
    if e < 0 || limit == 1 then [s]
    else
      [RTrimSpace(s[..e])] + SplitAround(LTrimSpace(s[e + 1..]), c, if limit == 0 then 0 else limit - 1)
  }

  /** The pieces joined with `c` between them. */
  function Join(ps: seq<string>, c: char): string
    requires 1 <= |ps|
  {
    if |ps| == 1 then ps[0] else ps[0] + [c] + Join(ps[1..], c)
  }

  /** A piece that survives a `\s*c\s*` split unchanged. */
  predicate CleanPiece(p: string, c: char) {
    c !in p && (p == [] || (!IsSpace(p[0]) && !IsSpace(p[|p| - 1])))
  }

  // A sequence fact the solver misses inside larger proofs; it models nothing itself.
  lemma HeadTail<T>(s: seq<T>)
    requires 1 <= |s|
    ensures s == [s[0]] + s[1..]
  {
  }

  // The two sides of a delimiter; a sequence fact for the split proofs, modelling nothing itself.
  lemma JoinedParts<T>(p: seq<T>, c: T, rest: seq<T>)
    ensures (p + [c] + rest)[..|p|] == p && (p + [c] + rest)[|p| + 1..] == rest
  {
  }

  /** SplitAround with room for another piece, one step unfolded. */
  lemma SplitAroundUnfold(s: string, c: char, limit: nat, e: int)
    requires e == IndexOf(s, c) && 0 <= e && limit != 1
    ensures SplitAround(s, c, limit)
      == [RTrimSpace(s[..e])] + SplitAround(LTrimSpace(s[e + 1..]), c, if limit == 0 then 0 else limit - 1)
  {
  }

  /** One step of the split: a clean piece, the delimiter, and the rest. */
  lemma SplitStep(p: string, c: char, rest: string, limit: nat)
    requires CleanPiece(p, c) && limit != 1
    requires rest == [] || !IsSpace(rest[0])
    ensures SplitAround(p + [c] + rest, c, limit) == [p] + SplitAround(rest, c, if limit == 0 then 0 else limit - 1)
  {
    var s := p + [c] + rest;
    IndexOfJoined(p, c, rest);
    SplitAroundUnfold(s, c, limit, |p|);
    JoinedParts(p, c, rest);
    RTrimSpaceKeeps(p);
    LTrimSpaceKeeps(rest);
  }

  /** Splitting joined clean pieces on their delimiter gives them back. */
  lemma {:induction false} SplitJoinRoundTrip(ps: seq<string>, c: char)
    requires 1 <= |ps| && !IsSpace(c)
    requires forall i :: 0 <= i < |ps| ==> CleanPiece(ps[i], c)
    ensures SplitAround(Join(ps, c), c, 0) == ps
  {
    if |ps| == 1 {
      assert IndexOf(ps[0], c) == -1;
    } else {
      var rest := Join(ps[1..], c);
      assert Join(ps, c) == ps[0] + [c] + rest;
      assert CleanPiece(ps[0], c) && CleanPiece(ps[1..][0], c);
      JoinStart(ps[1..], c);
      SplitStep(ps[0], c, rest, 0);
      SplitJoinRoundTrip(ps[1..], c);
      HeadTail(ps);
    }
  }

  lemma {:induction false} JoinStart(ps: seq<string>, c: char)
    requires 1 <= |ps|
    ensures ps[0] != [] ==> |Join(ps, c)| > 0 && Join(ps, c)[0] == ps[0][0]
    ensures ps[0] == [] && 1 < |ps| ==> |Join(ps, c)| > 0 && Join(ps, c)[0] == c
    ensures ps[0] == [] && |ps| == 1 ==> Join(ps, c) == []
  {
  }

  /** A line as preg_split('/\r?\n/') leaves it: one CR before the LF is dropped. */
  function DropCR(p: string): string {
    if |p| > 0 && p[|p| - 1] == '\r' then p[..|p| - 1] else p
  }

  /** preg_split('/\r?\n/', s): the lines of `s` without their terminators. */
  function SplitLines(s: string): (r: seq<string>)
    ensures 1 <= |r|
    ensures forall i :: 0 <= i < |r| ==> '\n' !in r[i]
    decreases |s|
  {
    var k := IndexOf(s, '\n');
    if k < 0 then [s]
    else
      assert '\n' !in DropCR(s[..k]) by {
        assert DropCR(s[..k]) == s[..k] || DropCR(s[..k]) == s[..k][..k - 1];
      }
      [DropCR(s[..k])] + SplitLines(s[k + 1..])
  }

  /** Lines joined with CR LF terminators. */
  function JoinCrLf(ls: seq<string>): string
    requires 1 <= |ls|
  {
    if |ls| == 1 then ls[0] else ls[0] + "\r\n" + JoinCrLf(ls[1..])
  }

  /** Splitting CR LF-joined lines gives the lines back, when no line holds a LF. */
  lemma {:induction false} SplitLinesRoundTrip(ls: seq<string>)
    requires 1 <= |ls|
    requires forall i :: 0 <= i < |ls| ==> '\n' !in ls[i]
    ensures SplitLines(JoinCrLf(ls)) == ls
  {
    if |ls| == 1 {
      assert IndexOf(ls[0], '\n') == -1;
    } else {
      var p := ls[0] + "\r";
      var rest := JoinCrLf(ls[1..]);
      assert '\n' !in p;
      assert JoinCrLf(ls) == p + ['\n'] + rest;
      IndexOfJoined(p, '\n', rest);
      assert JoinCrLf(ls)[..|p|] == p;
      assert JoinCrLf(ls)[|p| + 1..] == rest;
      assert DropCR(p) == ls[0];
      SplitLinesRoundTrip(ls[1..]);
    }
  }

  /** The number of leading decimal digits of `s`. */
  function DigitPrefixLen(s: string): (n: nat)
    ensures n <= |s| && AllDigits(s[..n])
    ensures n < |s| ==> !IsDigit(s[n])
  {
    if s != [] && IsDigit(s[0]) then
      var k := DigitPrefixLen(s[1..]);
      assert s[..k + 1] == [s[0]] + s[1..][..k];
      k + 1
    else 0
  }

  /** The value of a string of decimal digits. */
  function DigitsValue(d: string): nat
    requires AllDigits(d)
  {
    if d == [] then 0
    else DigitsValue(d[..|d| - 1]) * 10 + (d[|d| - 1] as int - '0' as int)
  }

  /** The decimal text of a natural number, without leading zeros. */
  function NatToString(n: nat): (r: string)
    ensures 1 <= |r| && AllDigits(r)
    ensures r[0] == '0' ==> n == 0
  {
    var last := ['0' + (n % 10) as char];
    if n < 10 then last else NatToString(n / 10) + last
  }

  lemma {:induction false} NatToStringRoundTrip(n: nat)
    ensures DigitsValue(NatToString(n)) == n
  {
    var s := NatToString(n);
    if n >= 10 {
      NatToStringRoundTrip(n / 10);
      assert s[..|s| - 1] == NatToString(n / 10);
    }
  }

  lemma {:induction false} DigitPrefixOfDigits(d: string, rest: string)
    requires AllDigits(d)
    requires rest == [] || !IsDigit(rest[0])
    ensures DigitPrefixLen(d + rest) == |d|
    ensures (d + rest)[..|d|] == d
  {
    if d != [] {
      assert (d + rest)[1..] == d[1..] + rest;
      DigitPrefixOfDigits(d[1..], rest);
    }
  }

  /**
   * PHP's (int) cast of a string and its loose comparison with an integer:
   * leading whitespace is skipped, an optional sign and the longest run of
   * decimal digits give the value, anything else gives 0.
   */
  function PhpInt(s: string): int {
    var t := LTrimSpace(s);
    if t != [] && (t[0] == '-' || t[0] == '+') then
      var u := t[1..];
      var v: int := DigitsValue(u[..DigitPrefixLen(u)]);
      if t[0] == '-' then -v else v
    else
      DigitsValue(t[..DigitPrefixLen(t)])
  }

  /** The decimal text of an integer, as PHP prints it. */
  function IntToString(i: int): (r: string)
    ensures 1 <= |r| && !IsSpace(r[0])
  {
    if i < 0 then "-" + NatToString(-i) else NatToString(i)
  }

  /** PHP's integer cast reads back what printing an integer wrote. */
  lemma PhpIntRoundTrip(i: int)
    ensures PhpInt(IntToString(i)) == i
  {
    var n: nat := if i < 0 then -i else i;
    var d := NatToString(n);
    NatToStringRoundTrip(n);
    WholeDigitPrefix(d);
    if i < 0 {
      var s := "-" + d;
      LTrimSpaceKeeps(s);
      assert s[1..] == d;
    } else {
      LTrimSpaceKeeps(d);
    }
  }

  lemma WholeDigitPrefix(d: string)
    requires AllDigits(d)
    ensures DigitPrefixLen(d) == |d| && d[..DigitPrefixLen(d)] == d
  {
    DigitPrefixOfDigits(d, []);
    assert d + [] == d;
  }
}
