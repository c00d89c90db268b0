/**
 * The header scan: `# Key: value` comment lines at the top of a process
 * definition set the recognised Metadata fields. Only the first 8092
 * characters of an in-memory definition are scanned.
 */
module Header {
  import opened Text
  import opened Outcomes

  /** The keys Metadata recognises (LegacyConfigParser::emptyHeader). */
  const HeaderKeys: seq<string> :=
    ["Title", "Description", "Owner", "AllowedUsers", "AllowedGroups",
     "AllowedRoles", "Backend", "Statetype", "SLAHosts"]

  /** How many characters of an in-memory definition the header scan reads. */
  const HeaderScanLimit: nat := 8092

  /** The metadata of one process definition; `fields` holds exactly the recognised keys. */
  datatype Metadata = Metadata(name: string, fields: map<string, Option<string>>)

  /** The default header: every recognised key unset, except Statetype = "soft". */
  function EmptyHeader(): (h: map<string, Option<string>>)
    ensures h.Keys == set k | k in HeaderKeys
    ensures "Statetype" in h && h["Statetype"] == Some("soft")
    ensures forall k :: k in h && k != "Statetype" ==> h[k] == None
  {
    map k | k in HeaderKeys :: if k == "Statetype" then Some("soft") else None
  }

  function NewMetadata(name: string): Metadata {
    Metadata(name, EmptyHeader())
  }

  predicate Recognised(md: Metadata) {
    md.fields.Keys == set k | k in HeaderKeys
  }

  /** A `# Key: value` line split into its two parts. */
  datatype HeaderField = HeaderField(key: string, value: string)

  /**
   * The part of `t` after `^\s*#\s+`, taking the whitespace run after `#`
   * whole. A match that gives back some of that whitespace has a key that
   * starts with whitespace, which is never a recognised key, so only this
   * reading matters.
   */
  function HeaderBody(t: string): Option<string> {
    var a := LTrimSpace(t);
    if a == [] || a[0] != '#' then None
    else
      var b := a[1..];
      var rest := LTrimSpace(b);
      if |rest| == |b| || rest == [] then None else Some(rest)
  }

  /**
   * `(.+?)\s*:\s*(.+)$` on a text that starts with a non-space: the lazy
   * key ends at the first colon after the key's first character that has a
   * character behind it; the key loses its trailing whitespace and the
   * value its leading whitespace (all but one character when only
   * whitespace is left).
   */
  function SplitKeyValue(rest: string): Option<HeaderField>
    requires rest != []
  {
    var k := IndexOf(rest[1..], ':');
    if k < 0 || k + 2 >= |rest| then None
    else
      var u := rest[k + 2..];
      var w := LTrimSpace(u);
      Some(HeaderField(RTrimSpace(rest[..k + 1]), if w != [] then w else u[|u| - 1..]))
  }

  /** preg_match('/^\s*#\s+(.+?)\s*:\s*(.+)$/', t) with its two groups. */
  function MatchHeader(t: string): Option<HeaderField> {
    match HeaderBody(t)
    case None => None
    case Some(rest) => SplitKeyValue(rest)
  }

  lemma HeaderBodyOf(body: string)
    requires body != [] && !IsSpace(body[0])
    ensures HeaderBody("# " + body) == Some(body)
  {
    var t := "# " + body;
    assert t == ['#'] + ([' '] + body);
    LTrimSpaceKeeps(t);
    assert t[1..] == [' '] + body;
    LTrimSpaceSkips(' ', body);
    LTrimSpaceKeeps(body);
  }

  lemma SplitKeyValueOf(key: string, value: string)
    requires key != [] && ':' !in key && !IsSpace(key[|key| - 1])
    requires value != [] && !IsSpace(value[0])
    ensures SplitKeyValue(key + (": " + value)) == Some(HeaderField(key, value))
  {
    var rest := key + ([':'] + ([' '] + value));
    assert key + (": " + value) == rest;
    assert rest[1..] == key[1..] + [':'] + ([' '] + value);
    IndexOfJoined(key[1..], ':', [' '] + value);
    assert rest[..|key|] == key;
    assert rest[|key| + 1..] == [' '] + value;
    RTrimSpaceKeeps(key);
    LTrimSpaceSkips(' ', value);
    LTrimSpaceKeeps(value);
  }

  /** The canonical header line `# Key: value` is read back as Key and value. */
  lemma HeaderRoundTrip(key: string, value: string)
    requires key != [] && ':' !in key && !IsSpace(key[0]) && !IsSpace(key[|key| - 1])
    requires value != [] && !IsSpace(value[0])
    ensures MatchHeader("# " + key + ": " + value) == Some(HeaderField(key, value))
  {
    var body := key + (": " + value);
    assert "# " + key + ": " + value == "# " + body;
    HeaderBodyOf(body);
    SplitKeyValueOf(key, value);
  }

  /** LegacyConfigParser::parseHeaderLine: only a recognised key is set. */
  function ParseHeaderLine(line: string, md: Metadata): (r: Metadata)
    ensures r.name == md.name && r.fields.Keys == md.fields.Keys
  {
    match MatchHeader(Trim(line))
    case Some(f) => if f.key in md.fields then md.(fields := md.fields[f.key := Some(f.value)]) else md
    case None => md
  }

  /** A line that is not a header line, or names an unknown key, changes nothing. */
  lemma UnrecognisedLineIgnored(line: string, md: Metadata)
    requires Recognised(md)
    requires MatchHeader(Trim(line)).None? || MatchHeader(Trim(line)).value.key !in HeaderKeys
    ensures ParseHeaderLine(line, md) == md
  {
  }

  /** The header lines folded in order over a metadata value. */
  function ScanLines(md: Metadata, lines: seq<string>): (r: Metadata)
    ensures r.name == md.name && r.fields.Keys == md.fields.Keys
    decreases |lines|
  {
    if lines == [] then md else ScanLines(ParseHeaderLine(lines[0], md), lines[1..])
  }

  /** Scanning one more line applies that line last. */
  lemma {:induction false} ScanLinesAppend(md: Metadata, lines: seq<string>, line: string)
    ensures ScanLines(md, lines + [line]) == ParseHeaderLine(line, ScanLines(md, lines))
    decreases |lines|
  {
    if lines != [] {
      assert (lines + [line])[1..] == lines[1..] + [line];
      ScanLinesAppend(ParseHeaderLine(lines[0], md), lines[1..], line);
    }
  }

  /** The last occurrence of a recognised key wins. */
  lemma LastOccurrenceWins(md: Metadata, lines: seq<string>, key: string, value: string)
    requires Recognised(md) && key in HeaderKeys
    requires key != [] && ':' !in key && !IsSpace(key[0]) && !IsSpace(key[|key| - 1])
    requires value != [] && !IsSpace(value[0]) && !IsTrimChar(value[|value| - 1])
    ensures ScanLines(md, lines + ["# " + key + ": " + value]).fields[key] == Some(value)
  {
    var line := "# " + key + ": " + value;
    ScanLinesAppend(md, lines, line);
    assert Trim(line) == line by {
      assert line[0] == '#' && line[|line| - 1] == value[|value| - 1];
    }
    HeaderRoundTrip(key, value);
  }

  /** The header of an in-memory definition: the lines of its first 8092 characters. */
  function ScanHeader(name: string, text: string): (r: Metadata)
    ensures r.name == name && Recognised(r)
  {
    var prefix := if |text| <= HeaderScanLimit then text else text[..HeaderScanLimit];
    ScanLines(NewMetadata(name), SplitLines(prefix))
  }

  /** Nothing after the first 8092 characters affects the header. */
  lemma ScanHeaderBounded(name: string, text: string, more: string)
    requires HeaderScanLimit <= |text|
    ensures ScanHeader(name, text + more) == ScanHeader(name, text)
  {
    var both := text + more;
    var p1 := if |both| <= HeaderScanLimit then both else both[..HeaderScanLimit];
    var p2 := if |text| <= HeaderScanLimit then text else text[..HeaderScanLimit];
    assert p1 == text[..HeaderScanLimit];
    assert p2 == text[..HeaderScanLimit];
    assert ScanHeader(name, both) == ScanLines(NewMetadata(name), SplitLines(p1));
  }

  /** LegacyConfigParser::readMetadataFromString: parseHeaderLine on each line of the prefix. */
  method ReadMetadataFromString(name: string, text: string) returns (md: Metadata)
    ensures md == ScanHeader(name, text)
  {
    var prefix := if |text| <= HeaderScanLimit then text else text[..HeaderScanLimit];
    var lines := SplitLines(prefix);
    md := NewMetadata(name);
    var i := 0;
    while i < |lines|
      invariant 0 <= i <= |lines|
      invariant ScanLines(md, lines[i..]) == ScanHeader(name, text)
    {
      assert lines[i..][1..] == lines[i + 1..];
      md := ParseHeaderLine(lines[i], md);
      i := i + 1;
    }
  }
}
