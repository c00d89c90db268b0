/**
 * The failures a parse can end with, and the message parseError builds:
 * `Parse error on <file>:<line>: <reason>`.
 */
module Errors {
  import opened Text
  import opened Outcomes

  datatype Error =
    /** parseError: a syntax error with the file (or its stand-in) and the line number. */
    | ParseError(file: string, line: nat, reason: string)
    /** A ConfigurationError thrown directly, without a line number. */
    | ConfigurationError(message: string)
    /** A node looked up by name (BpConfig::getNode) that is not defined. */
    | UnknownNode(name: string)

  /**
   * getFilename: the current file name, or `[given string]` when there is
   * none; PHP's `?:` treats the empty string and "0" as missing.
   */
  function SourceName(filename: string): string {
    if filename == "" || filename == "0" then "[given string]" else filename
  }

  const ParseErrorPrefix := "Parse error on "

  /** The message text of a failure. */
  function Message(e: Error): string {
    match e
    case ParseError(file, line, reason) => ParseErrorPrefix + file + ":" + NatToString(line) + ": " + reason
    case ConfigurationError(message) => message
    case UnknownNode(name) => "The node \"" + name + "\" doesn't exist"
  }

  /** Reads the line number back from a parse error message about `file`. */
  function LineOf(message: string, file: string): Option<nat> {
    var head := ParseErrorPrefix + file + ":";
    if |message| < |head| || message[..|head|] != head then None
    else
      var tail := message[|head|..];
      var d := DigitPrefixLen(tail);
      if d == 0 then None else Some(DigitsValue(tail[..d]))
  }

  /** The message of a parse error names the line it was raised on. */
  lemma ParseErrorNamesLine(file: string, line: nat, reason: string)
    ensures LineOf(Message(ParseError(file, line, reason)), file) == Some(line)
  {
    var head := ParseErrorPrefix + file + ":";
    var digits := NatToString(line);
    var tail := digits + (": " + reason);
    var m := Message(ParseError(file, line, reason));
    assert m == head + tail by {
      assert m == ParseErrorPrefix + file + ":" + digits + ": " + reason;
    }
    assert m[..|head|] == head && m[|head|..] == tail;
    DigitPrefixOfDigits(digits, ": " + reason);
    NatToStringRoundTrip(line);
  }

  /** The stand-in name is used exactly when no real file name is set. */
  lemma SourceNameSpec(filename: string)
    ensures SourceName(filename) == "[given string]" <==> filename in {"", "0", "[given string]"}
  {
  }
}
