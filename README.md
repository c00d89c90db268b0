# Legacy business-process definition parser, modelled in Dafny

This project models `LegacyConfigParser` of the Icinga Business Process module.
That class reads the legacy text format of a business-process definition and
builds the configuration graph (`BpConfig`). It makes one pass over the
lines, followed by one fix-up pass:

- Each line is trimmed and counted.
- Blank lines and `#` comments are skipped.
- A word before the first space (below column 16) may name a directive:
  `display`, `external_info`, `extra_info`, `info_url`, `state_overrides`
  or `template`.
- Any other line is an assignment `name = expression`. It defines a process
  node whose operator is `&`, `|`, `!` or `%`, or "at least N of" when the
  operators are `+`. A `+` expression must have the threshold form
  `N[:M] of: a + b …`, and any other `+` expression is a parse error, so no
  node has the operator `+`. While the line is read, its tokens are
  linked as children in the order written: a defined name, and a new host,
  service or imported leaf.
- A token that names nothing yet is remembered as a forward reference
  (`missingNodes`). After the last line, `resolveMissingNodes` appends to
  every waiting parent the node the name then denotes. Forward references
  therefore come after the children linked directly. For example, with the
  lines `b = h;s`, `a = x & b` and `x = h;t`, process `a` gets the children
  `b`, then `x`.
- The metadata header: the header-line match is applied to every line of the
  first 8092 characters of the definition, not only to leading comments. A
  `# Key: value` line for a recognised key sets that key wherever it appears
  within those characters.

The files, in dependency order:

| file | module | contents |
|---|---|---|
| outcomes.dfy | Outcomes | `Option`, `Result` |
| text.dfy | Text | the helpers listed below |
| expr.dfy | Expr | operator detection (the look-behind for `\`), the threshold match, the split on the operator, unescaping |
| header.dfy | Header | `emptyHeader`, `parseHeaderLine`, `readMetadataFromString` |
| errors.dfy | Errors | the failures, `getFilename`, the `parseError` message |
| graph.dfy | Graph | the configuration as an arena of nodes; see below |
| parser.dfy | Parser | each line as a function on the parser state, and `parseString` as a fold over the lines plus the fix-up pass |
| storage.dfy | Storage | the parser as a class proved equal to those functions |
| properties.dfy | Properties | the properties of the parse |

The helpers in text.dfy are:

- PHP `trim`;
- the `\s*c\s*` splits with their limits;
- `\r?\n` line splitting;
- PHP's `(int)` cast;
- decimal printing.

The arena in graph.dfy works like this:

- Children are indices into the arena.
- A name index says which node a name denotes now.
- Roots are kept in order.
- Forward references are kept in insertion order.

Nodes live in an arena and refer to their children by index. This is how
the model shows one behaviour of the source: a parent redefined later still
receives its deferred children. `missingNodes` holds the node object of the
line that mentioned the name, not the name of the parent
(`Properties.EveryWaitingParentResolved`).

`Storage.LegacyConfigParser` keeps the source's state as fields: the line
counter, the file name, the configuration and the forward references.
`ParseLine` and `ResolveMissingNodes` update those fields in place.
`Storage.ParseString` runs the line loop, and `Storage.BuildOverrides` runs
the loop that builds one override map. Each method's postcondition ties its
result or new state to the matching function in `Parser`. The properties
are proved about those functions.

How the model reads the source:

- **Lines.** A line of the definition is `preg_split('/\r?\n/')` of the text.
  The parser's line counter starts at 0, and the first line is line 1.
- **Structured errors.** Parse errors are values
  `ParseError(file, line, reason)`. `Errors.Message` gives their text,
  `Parse error on <file>:<line>: <reason>`.
- **File name.** An in-memory definition has no file name, so messages say
  `[given string]`.
- **Payload offsets.** A directive's payload starts one character after its
  keyword. This is the same as the fixed `substr` offsets of the source:
  8, 14, 9 and 16. Every word that starts with `display` is a display line,
  and its payload starts at offset 8 whatever the word's length.
- **Missing list() fields.** A field that `list()` leaves missing is PHP
  `null`. The model keeps it as `None` where it is stored (alias, command,
  URL) and reads it as `""` where it is used as a string.

## Model

| member | source | states |
|---|---|---|
| `Text.SplitJoinRoundTrip` | library/Businessprocess/Storage/LegacyConfigParser.php:239-246 | the `\s*c\s*` split gives back pieces that were joined with `c`, when no piece holds `c` or has whitespace at its ends |
| `Text.SplitLinesRoundTrip` | library/Businessprocess/Storage/LegacyConfigParser.php:79 | splitting on `\r?\n` gives back the lines that were joined with CRLF |
| `Text.PhpIntRoundTrip` | library/Businessprocess/Storage/LegacyConfigParser.php:246-247 | the `(int)` cast reads back what printing an integer wrote, negative numbers included |
| `Expr.DetectOperatorSpec` | library/Businessprocess/Storage/LegacyConfigParser.php:324-334 | with no unescaped operator the operator is `&`; mixing is reported exactly when two unescaped operator characters differ; otherwise every unescaped operator is the one detected |
| `Expr.ScanOperators` | library/Businessprocess/Storage/LegacyConfigParser.php:325-333 | the pairwise loop over the matched operator characters decides what `DetectOperator` decides |
| `Expr.ThresholdRoundTrip` | library/Businessprocess/Storage/LegacyConfigParser.php:336-343 | `N of: rest` matches with minimum N and tokens taken from `rest` only |
| `Expr.MatchThresholdShape` | library/Businessprocess/Storage/LegacyConfigParser.php:336-343 | conversely, a matched value is digits whose value is the minimum, an optional `:digits`, whitespace, `of:`, whitespace, and then the text returned as the rest, up to the end of the value |
| `Expr.ThresholdWithMinimumRoundTrip` | library/Businessprocess/Storage/LegacyConfigParser.php:337-341 | `N:M of: rest` matches with minimum N; the second number is dropped |
| `Expr.OpSplit` | library/Businessprocess/Storage/LegacyConfigParser.php:352 | the split on the unescaped operator never yields an empty token |
| `Expr.OpSplitRoundTrip` | library/Businessprocess/Storage/LegacyConfigParser.php:352 | tokens joined with the operator, with any run of whitespace before and after it (`b&c`, `b & c`), are split back into the same tokens: the split absorbs the whitespace around the operator |
| `Expr.UnescapeEscape` | library/Businessprocess/Storage/LegacyConfigParser.php:354 | unescaping undoes backslash-escaping of the operator characters |
| `Header.EmptyHeader` | library/Businessprocess/Storage/LegacyConfigParser.php:172-185 | exactly the nine recognised keys; `Statetype` is `soft`, every other key is unset |
| `Header.HeaderRoundTrip` | library/Businessprocess/Storage/LegacyConfigParser.php:193 | `# Key: value` is matched as that key and that value |
| `Header.UnrecognisedLineIgnored` | library/Businessprocess/Storage/LegacyConfigParser.php:191-198 | a line that is not a header line, or names an unknown key, leaves the metadata unchanged |
| `Header.LastOccurrenceWins` | library/Businessprocess/Storage/LegacyConfigParser.php:143-153 | after a `# Key: value` line for a recognised key, the key holds that value whatever came before |
| `Header.ScanHeaderBounded` | library/Businessprocess/Storage/LegacyConfigParser.php:147 | nothing after the first 8092 characters affects the metadata |
| `Header.ReadMetadataFromString` | library/Businessprocess/Storage/LegacyConfigParser.php:143-153 | the loop over the lines of the prefix computes `ScanHeader`, whose result has the definition's name and exactly the recognised keys |
| `Errors.ParseErrorNamesLine` | library/Businessprocess/Storage/LegacyConfigParser.php:398-407 | the message `Parse error on <file>:<line>: <reason>` names the line it was raised on |
| `Errors.SourceNameSpec` | library/Businessprocess/Storage/LegacyConfigParser.php:389-392 | `[given string]` stands in exactly when the file name is empty or `0` (or is literally `[given string]`) |
| `Graph.AddPending` | library/Businessprocess/Storage/LegacyConfigParser.php:379 | the parent joins the end of the waiting list of that name; other names' lists are unchanged; a new name comes after all names seen before |
| `Parser.DirectiveOf` | library/Businessprocess/Storage/LegacyConfigParser.php:254-283 | a directive is recognised only when the word starts with its keyword, and equals the keyword for every directive but `display` |
| `Properties.DirectiveLine` | library/Businessprocess/Storage/LegacyConfigParser.php:306-312 | `<keyword> <payload>` is that directive, and the handler reads exactly `<payload>`, which matches the fixed offsets 8, 14, 9 and 16 |
| `Properties.DisplayWordsArePrefixes` | library/Businessprocess/Storage/LegacyConfigParser.php:256-259 | any word starting with `display` selects the display directive |
| `Properties.DisplaySets` | library/Businessprocess/Storage/LegacyConfigParser.php:204-211 | the process named second (created as an `&` process when unknown) gets the alias and the rank and keeps everything else; the roots gain that name exactly when the rank is positive; no other node or name changes |
| `Properties.DisplayLine` | library/Businessprocess/Storage/LegacyConfigParser.php:204-211 | `display <rank>;<name>;<alias>` sets that rank and alias; the name is a root afterwards if and only if it was one already or the rank is positive |
| `Properties.ExternalInfoSets` | library/Businessprocess/Storage/LegacyConfigParser.php:217-221 | the process named first (created when unknown) gets the command; no other node, name or root changes |
| `Properties.InfoUrlSets` | library/Businessprocess/Storage/LegacyConfigParser.php:230-234 | the process named first (created when unknown) gets the URL; no other node, name or root changes |
| `Properties.StateOverridesTarget` | library/Businessprocess/Storage/LegacyConfigParser.php:236-252 | fails exactly when the target node is undefined, with that name; otherwise only the target's override maps change, each segment setting its child's map in order |
| `Properties.ApplyOverridesLastWins` | library/Businessprocess/Storage/LegacyConfigParser.php:241-251 | a child named by a segment and by no later one ends with the map of that segment: a later segment for the same child replaces the earlier map, it does not merge with it |
| `Properties.ApplyOverridesKeeps` | library/Businessprocess/Storage/LegacyConfigParser.php:241-251 | a child that no segment names keeps its override map, or stays without one |
| `Properties.ChildOverrideOfPairs` | library/Businessprocess/Storage/LegacyConfigParser.php:242-250 | `child\|a-b,c-d` gives `child` the map a → b, c → d (so `childX\|1-2,3-4` gives 1 → 2, 3 → 4) |
| `Properties.OverridePairText` | library/Businessprocess/Storage/LegacyConfigParser.php:246-247 | a pair `from-to` of decimal numbers is read back as those two numbers |
| `Properties.OverrideMapKeys` | library/Businessprocess/Storage/LegacyConfigParser.php:245-248 | the keys of a child's override map are exactly the `from` values given |
| `Properties.OverrideMapLastWins` | library/Businessprocess/Storage/LegacyConfigParser.php:245-248 | when a `from` value is given more than once, the last pair's `to` is kept |
| `Storage.BuildOverrides` | library/Businessprocess/Storage/LegacyConfigParser.php:244-248 | the loop over the comma-separated pairs builds `OverrideMap` of them |
| `Storage.LegacyConfigParser.ParseStateOverrides` | library/Businessprocess/Storage/LegacyConfigParser.php:236-252 | the segment loop leaves exactly the configuration `Parser.ParseStateOverrides` describes, or its error |
| `Storage.LegacyConfigParser.ParseExtraLine` | library/Businessprocess/Storage/LegacyConfigParser.php:254-283 | reports a directive exactly when the word is one; an unhandled word changes nothing; a handled one leaves the state `DirectiveStep` describes |
| `Properties.FailingLine` | library/Businessprocess/Storage/LegacyConfigParser.php:79-81 | a failing line loop stops at its first failing line: every line before it parses, the counter then stands at that line's position, and that line raises the loop's error |
| `Properties.ParseErrorLine` | library/Businessprocess/Storage/LegacyConfigParser.php:69-87 | a parse error of a definition names `[given string]` and the 1-based position of the line that raised it; every earlier line parses |
| `Properties.SkippedLineOnlyCounts` | library/Businessprocess/Storage/LegacyConfigParser.php:297-304 | a blank line, `0` or a comment only advances the line counter: nodes, names, roots and forward references are unchanged |
| `Properties.AssignmentStep` | library/Businessprocess/Storage/LegacyConfigParser.php:306-318 | a line that is neither skipped nor a directive is handled as an assignment |
| `Properties.InvalidLineRejected` | library/Businessprocess/Storage/LegacyConfigParser.php:314-316 | such a line without `=` fails with "Got invalid line" at its own line number, and the message names that line |
| `Properties.SemicolonInNameRejected` | library/Businessprocess/Storage/LegacyConfigParser.php:318-322 | a name holding `;` fails with "No semicolon allowed in varname" at the current line |
| `Properties.MixedOperatorsRejected` | library/Businessprocess/Storage/LegacyConfigParser.php:324-333 | two different unescaped operators fail with "Mixing operators is not allowed" at the current line |
| `Properties.ThresholdSyntaxRejected` | library/Businessprocess/Storage/LegacyConfigParser.php:336-339 | a `+` expression that does not start with a digit fails with the threshold syntax message |
| `Properties.ThresholdMismatchRejected` | library/Businessprocess/Storage/LegacyConfigParser.php:336-339 | any `+` expression the threshold pattern does not match fails with the threshold syntax message |
| `Properties.ThresholdAssignment` | library/Businessprocess/Storage/LegacyConfigParser.php:336-343 | `name = N of: rest` defines an "at least N" process whose tokens come from `rest` |
| `Properties.AssignmentDefines` | library/Businessprocess/Storage/LegacyConfigParser.php:318-383 | a successful assignment registers a new process under the name, replacing an earlier one; its operator is `&`, the one operator written when that is not `+`, or "at least N" for `+`; no existing node, other name or root changes |
| `Properties.StepErrors` | library/Businessprocess/Storage/LegacyConfigParser.php:294-407 | every error of a line is a parse error at that line's number (and its message names the line), an import without a node, or state overrides for an unknown node |
| `Properties.TokenLinks` | library/Businessprocess/Storage/LegacyConfigParser.php:355-380 | any token but an `@` import without a node succeeds; it links its node, the next arena slot for a new leaf, or nothing for a forward reference; only a new `host;service` leaf is registered; only a forward reference adds a waiting parent |
| `Properties.KnownTokensInOrder` | library/Businessprocess/Storage/LegacyConfigParser.php:352-380 | without an `@` import lacking a node the token loop succeeds, and the process's children are those the tokens link directly, in the order written (`Direct`); with no forward reference the waiting lists are unchanged |
| `Properties.MonitoredTokenLinks` | library/Businessprocess/Storage/LegacyConfigParser.php:356-364 | an undefined `host;service` token appends a new host leaf (for `Hoststatus`) or service leaf, registers it under the token and links it as the next child; nobody starts waiting |
| `Properties.ImportedTokenLinks` | library/Businessprocess/Storage/LegacyConfigParser.php:366-375 | `@config:node` appends a new imported leaf of that node of that configuration and links it as the next child, without registering any name |
| `Properties.ResolveTokensFrame` | library/Businessprocess/Storage/LegacyConfigParser.php:352-380 | the token loop only appends children to the new process; existing nodes, names and roots are kept |
| `Parser.Classify` | library/Businessprocess/Storage/LegacyConfigParser.php:355-380 | the branches in priority order: a defined name links unless it is an `@` token without `;`; a token with `;` that is not defined becomes a registered leaf; `@` without `:` is a configuration error; an undefined plain name is a forward reference |
| `Parser.ClassifyLeafKind` | library/Businessprocess/Storage/LegacyConfigParser.php:355-375 | a new leaf is a host or service leaf split at the `;` when the token has one, otherwise an import split at the `:` |
| `Properties.MonitoredLeafOf` | library/Businessprocess/Storage/LegacyConfigParser.php:355-365 | `host;Hoststatus` is a host leaf and `host;service` a service leaf, split at the first `;` |
| `Properties.ImportedLeafOf` | library/Businessprocess/Storage/LegacyConfigParser.php:366-375 | `@config:node` is an imported leaf of that node of that configuration |
| `Properties.ForwardTokenWaits` | library/Businessprocess/Storage/LegacyConfigParser.php:378-380 | an undefined plain name adds the process at the end of that name's waiting list and changes nothing else |
| `Properties.ResolveTokensErrors` | library/Businessprocess/Storage/LegacyConfigParser.php:366-372 | the token loop fails only with a configuration error |
| `Storage.LegacyConfigParser.AddToken` | library/Businessprocess/Storage/LegacyConfigParser.php:355-380 | one token leaves the state `ResolveToken` describes, or its error |
| `Storage.LegacyConfigParser.AddTokens` | library/Businessprocess/Storage/LegacyConfigParser.php:353-381 | the loop over the tokens leaves the state `ResolveTokens` describes, or stops with its error |
| `Storage.LegacyConfigParser.DefineNode` | library/Businessprocess/Storage/LegacyConfigParser.php:345-383 | the token loop, then `addNode`, leave the state `Define` describes, or its error |
| `Storage.LegacyConfigParser.ParseAssignment` | library/Businessprocess/Storage/LegacyConfigParser.php:314-383 | the assignment branch leaves the state `Assign` describes, or its error |
| `Storage.LegacyConfigParser.ParseTrimmedLine` | library/Businessprocess/Storage/LegacyConfigParser.php:302-312 | skips, dispatches to a directive, or falls back to an assignment, as `LineStep` describes |
| `Storage.LegacyConfigParser.ParseLine` | library/Businessprocess/Storage/LegacyConfigParser.php:294-384 | one line leaves the state `Step` describes, or its error |
| `Properties.ResolveMissingSucceeds` | library/Businessprocess/Storage/LegacyConfigParser.php:119-127 | the fix-up pass succeeds exactly when every name with a waiting parent is defined; when it fails, the error is the unknown-node error of such a name |
| `Properties.ResolveMissingChildren` | library/Businessprocess/Storage/LegacyConfigParser.php:119-127 | each node keeps all but its children, and its children gain, in order, one entry per time it waited: the node the name denotes after the last line |
| `Properties.EveryWaitingParentResolved` | library/Businessprocess/Storage/LegacyConfigParser.php:119-127 | every waiting parent, even one whose name was redefined later, receives the node its name denotes |
| `Properties.NotWaitingUntouched` | library/Businessprocess/Storage/LegacyConfigParser.php:119-127 | a node that waits for nothing is left exactly as it was |
| `Storage.LegacyConfigParser.ResolveMissingNodes` | library/Businessprocess/Storage/LegacyConfigParser.php:119-127 | the nested loops leave the configuration `ResolveMissing` describes, or its error |
| `Storage.LegacyConfigParser.constructor` | library/Businessprocess/Storage/LegacyConfigParser.php:33-38 | an empty configuration with the definition's name, no forward references, no file name, line 0 |
| `Parser.ParseText` | library/Businessprocess/Storage/LegacyConfigParser.php:69-87 | a successful parse is a well-formed configuration with the definition's name and the metadata the header scan reads |
| `Storage.ParseString` | library/Businessprocess/Storage/LegacyConfigParser.php:69-87 | the header scan, the line loop and the fix-up pass compute `ParseText` |

## Left out

- **File input.** `parseFile`, `reallyParseFile` and `readMetadataFromFileHeader` read through `fopen`/`fgets`. The model starts from the definition text, as `parseString` does. So it does not model the file name in messages, the 15-line header read from a file, or `SystemPermissionException`.
- **Benchmark.** The `Benchmark::measure` calls are instrumentation and are left out.
- **BpConfig, BpNode and Metadata.** These classes are not part of this model, so the operations the parser calls on them are modelled abstractly as arena, map and sequence updates:
  - `getBpNode` returns the existing node, or registers a new `&` process.
  - `addNode` re-binds the name.
  - `addRootNode` appends a name once.
  - `addChild` appends a child.
  - `setStateOverrides` sets one child's map.
  - `createHost`/`createService` append a leaf and register it under the token.
  - `createImportedNode` appends a leaf that is not registered.
  - `getNode` on a name that is not defined becomes the `UnknownNode` error, and the message text of that error is an assumption.
  - The recognised keys of a new `Metadata` are taken to be those of `emptyHeader`. `hasKey` is taken to be membership of those keys.
- **Exception class.** `parseError` throws a `ConfigurationError`. The model keeps its parts (file, line, reason) and builds the message text with `Errors.Message`.
- **Exception text.** The exception for an import without a node formats its message with `sprintf`; the model inlines the token.
- **State after an error.** A failed parse throws, and the partial configuration is discarded. The model returns only the error.
- **`display` rank.** `$display > 0` compares a string with an integer. The model compares PHP's integer reading of it, its leading optional sign and digits. It does not model the PHP 8 rules for non-numeric strings. The rank is stored as that integer.
- Properties.DisplaySets: decimal ranks differ from the source. PHP 8 compares a numeric string such as `0.5` as a number, so `display 0.5;a;A` makes `a` a root in the source. The model reads the rank as the integer 0 and adds no root.
- Properties.DisplayLine: the same deviation for decimal ranks. The rank is a printed integer there, so the lemma itself is exact.
- **`(int)` casts.** The model does not read float notation such as `1e3`, and does not model 64-bit overflow.
- **Threshold number.** The threshold minimum is stored as a natural number, so leading zeros are not kept. The optional second number `M` is matched and dropped, as in the source.
- **Characters.** Characters stand for bytes. `\s` is PCRE's ASCII set, and `trim` uses PHP's default set.
- **Unused helpers.** `splitCommaSeparated` and `readHeaderString` are not on the parse path and are left out.
- **`extra_info` and `template`.** These directives are recognised and have no effect, as in the source.
