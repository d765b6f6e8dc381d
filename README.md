# robots-util line parser, modelled in Dafny

This project models `lib/parser.ts` of robots-util. That file turns a
robots.txt document into a list of line objects and writes the list back out
as text. It has three parts:

- `RobotsLine` holds one raw line and its position. `parse()` fills in the key,
  value, comment and the padding around the value, in place. `serialize()`
  rebuilds one output line from those fields.
- `RobotsList` is an array of lines. Its `append` pushes a synthesised
  key/value line.
- `RobotsParser.parse` splits a document at line feeds, drops one trailing
  empty piece, and parses every piece. `RobotsParser.serialize` concatenates
  the serialised lines.

The model follows the code as written. The class doc comment says the
serialised output has a 1:1 relationship with the source document. The code
does not do that, and the model proves what it does instead:

- `hasKeyPair()` and `hasComment()` are always true, so every line is written
  in key/value form. A comment line comes out as `:` followed by its comment. Any
  other line without a `:`, a blank line among them, comes out as a lone `:`.
- `_after` is computed with `replace(/(\s+)$/, '$1')`. That call returns its
  input, so `_after` is the whole value region whenever the region ends with
  whitespace. `Disallow: /private/ # c` therefore comes out as
  `Disallow: /private/ /private/ # c`.
- `_before` is computed with `replace(/^(\s+).*/, '$1')`. It is the whole
  region when the region does not start with whitespace, so `Disallow:/x` comes
  out as `Disallow:/x/x`.
- A line serialises back to itself exactly when `RoundTrips` holds. A whole
  document comes back (with a final line feed) exactly when each of its raw
  lines round-trips.

Files and modules:

- `text.dfy`, module `JsText`: the JavaScript string primitives the parser
  uses.
  - The `\s` class, which is also the set `trim()` removes.
  - `indexOf`, `trim`, `split` and `join` on one character.
  - The two regular-expression replacements, written as functions. The `.` in
    `/^(\s+).*/` stops at line terminators, and the model keeps that.
- `robots_line.dfy`, module `RobotsLines`:
  - the `RobotsLine` and `RobotsList` classes;
  - the value model: `Fields` (the five fields `parse()` writes), `Parsed`
    (what `parse()` leaves in them) and `Render` (what `serialize()` writes);
  - the predicates `RebuildsRegion` and `RoundTrips`.
- `line_facts.dfy`, module `RobotsLineFacts`: what `parse()` and `serialize()`
  do to one line, and the lines from the documentation.
- `robots_parser.dfy`, module `RobotsParser`: the raw lines of a document,
  `Parse` and `Serialize`. The `RobotsParser` class has no state, so its two
  methods are module-level methods here.
- `document_facts.dfy`, module `RobotsDocumentFacts`: `serialize(parse(content))`
  for a whole document.

How the source's features map onto the model:

- `os.EOL` is the parameter `eol` of every serialising member.
- The getters `key`, `value`, `comment` and `line` read fields, which the model
  exposes directly.
- `hasComment()` and `hasKeyPair()` are predicates whose body is `true`,
  because a string field is never `undefined`. `Serialize` is proved with them
  in place.
- `parse()` keeps the old value of any field it does not assign. `Parsed`
  therefore takes the old fields as an argument.

## Model

| member | source | states |
|---|---|---|
| JsText.IndexOfFirst | lib/parser.ts:179 | `indexOf` is -1 exactly when the character is absent, and otherwise the position of its first occurrence |
| JsText.WsPrefixRun | lib/parser.ts:181 | the leading run that `^(\s+)` matches is all whitespace and is maximal |
| JsText.WsSuffixRun | lib/parser.ts:182 | the trailing run that `(\s+)$` matches is all whitespace and is maximal |
| JsText.LineEndStops | lib/parser.ts:181 | the `.*` after the leading run stops at the first line terminator, or at the end |
| JsText.LeadingRunReplacement | lib/parser.ts:197 | `replace(/^(\s+).*/, '$1')` returns text without leading whitespace unchanged; otherwise it keeps the run followed by the suffix of the text that starts at the first line terminator after the run (no terminator lies between the run and that suffix, and the suffix is empty or starts with one), and it is the run alone exactly when no line terminator follows the run |
| JsText.LeadingRunAvoids | lib/parser.ts:197 | the leading replacement adds no character that the text lacks |
| JsText.ReplaceTrailingRun | lib/parser.ts:199 | `replace(/(\s+)$/, '$1')` returns its input unchanged |
| JsText.TrimShape | lib/parser.ts:203 | `trim()` is empty exactly when the text is all whitespace; otherwise it is the slice after the leading whitespace, it starts and ends with non-whitespace, and only whitespace follows it |
| JsText.TrimInner | lib/parser.ts:203 | for text that is not all whitespace, the trim is non-empty, has non-whitespace ends and is followed only by whitespace |
| JsText.TrimSlice | lib/parser.ts:203 | for text that is not all whitespace, the trim is the slice between the two whitespace runs |
| JsText.TrimEnds | lib/parser.ts:203 | the trim neither starts nor ends with whitespace |
| JsText.TrimAvoids | lib/parser.ts:203 | the trim adds no character that the text lacks |
| JsText.TrimUnique | lib/parser.ts:203 | whitespace, then text with non-whitespace ends, then whitespace, trims to that middle text |
| JsText.Split | lib/parser.ts:305 | `split` gives at least one piece, no piece holds the separator, and joining the pieces gives the text back |
| JsText.SplitJoin | lib/parser.ts:305 | splitting undoes joining for pieces free of the separator |
| JsText.SplitCount | lib/parser.ts:305 | `split` gives one piece more than the text has separators |
| RobotsLines.CommentLineRegex | lib/parser.ts:180 | `/^\s*#/` holds exactly when some `#` has only whitespace before it, and then the first `#` ends the leading whitespace |
| RobotsLines.KeyOf | lib/parser.ts:189 | the key, the text before the first `:`, holds no `:` |
| RobotsLines.ValueRegion | lib/parser.ts:190-195 | the value region, the text after the first `:` and before the next `#`, holds no `#` |
| RobotsLines.Parsed | lib/parser.ts:177-207 | the fields `parse()` leaves, given the raw line and the old fields; its three cases are stated by the `ParsedCommentLine`, `ParsedNoColon` and `ParsedKeyValue` rows |
| RobotsLines.Render | lib/parser.ts:217-231 | the key/value form `serialize()` writes: key, `:`, before, value, after, comment, EOL; `RobotsLine.Serialize` is proved equal to it |
| RobotsLines.ParsedCommentLine | lib/parser.ts:183-186 | on a comment line only the comment is assigned, and it is the suffix from the first `#`, the one after the leading whitespace |
| RobotsLines.ParsedNoColon | lib/parser.ts:183-206 | a line that is neither a comment line nor holds a `:` leaves every field as it was |
| RobotsLines.ParsedKeyValue | lib/parser.ts:187-204 | on a key/value line, the fields become key, trimmed region, comment, leading replacement and (when the region ends with whitespace) the region; the old comment and `after` stay otherwise |
| RobotsLines.RobotsLine.constructor | lib/parser.ts:68-78 | the line keeps its raw text, index, key and value, with empty comment and padding |
| RobotsLines.RobotsLine.LineNo | lib/parser.ts:141-143 | `lineno` is at least 1 and is one more than the index |
| RobotsLines.RobotsLine.SetKey | lib/parser.ts:90-92 | the key setter changes the key and no other field |
| RobotsLines.RobotsLine.SetValue | lib/parser.ts:104-110 | the value setter stores its argument, because the only falsy string is `''`, and changes no other field |
| RobotsLines.RobotsLine.HasComment | lib/parser.ts:153-155 | always true: a string field is never `undefined` |
| RobotsLines.RobotsLine.HasKeyPair | lib/parser.ts:165-167 | always true: neither key nor value can be `undefined` |
| RobotsLines.RobotsLine.Parse | lib/parser.ts:177-207 | `parse()` returns the same object, keeps the raw line and index, and leaves the fields `Parsed` gives for the raw line and the old fields |
| RobotsLines.RobotsLine.Serialize | lib/parser.ts:217-231 | `serialize()` is always `key:` + before + value + after + comment + EOL, because `hasKeyPair()` and `hasComment()` always hold |
| RobotsLines.SynthesizedLine | lib/parser.ts:251 | the raw line `append` records is the given line when it is present and non-empty, `key: value` otherwise; either way the raw line is non-empty |
| RobotsLines.RobotsList.constructor | lib/parser.ts:235-240 | a new list is empty |
| RobotsLines.RobotsList.Push | lib/parser.ts:254 | `push` adds the line at the end and changes nothing else |
| RobotsLines.RobotsList.Append | lib/parser.ts:250-255 | `append` adds exactly one fresh line at the end and leaves the earlier lines and their fields untouched; the new line's index is the old length, its raw line is the given line or `key: value` when that is absent or empty, it holds the key and value with `before` a single space, it serialises to `key: value` + EOL, and numbering by position is kept |
| RobotsLineFacts.CommentLineFields | lib/parser.ts:183-186 | a comment line keeps key, value and padding; its comment starts with `#`, ends the line, and only whitespace precedes it, even when the line holds a `:` |
| RobotsLineFacts.KeyValueSplit | lib/parser.ts:187-195 | a key/value line is key + `:` + rest, the key holds no `:`, and the rest is the region followed by a comment that starts with `#`, or the region alone with the old comment kept |
| RobotsLineFacts.SplitAtColon | lib/parser.ts:189-190 | the line is the text before its first `:`, the `:`, and the text after it |
| RobotsLineFacts.SplitAtHash | lib/parser.ts:191-195 | the text after the `:` is the region followed by the comment from the first `#`, or the region alone |
| RobotsLineFacts.KeyValueValue | lib/parser.ts:203 | the value is the trimmed region, holds no `#`, and neither starts nor ends with whitespace |
| RobotsLineFacts.PaddingFields | lib/parser.ts:197-200 | `before` is the whole region unless the region starts with whitespace, and then it is the whole whitespace run followed by the rest of the region from the first line terminator after the run, and that run alone exactly when no line terminator follows; `after` is the whole region when the region ends with whitespace, and is otherwise unchanged |
| RobotsLineFacts.ComposedKeyValue | lib/parser.ts:187-204 | parsing `key:` + region + comment recovers that key, the trimmed region and that comment |
| RobotsLineFacts.RegionRebuilt | lib/parser.ts:197-203 | before + value + after, as a fresh parse leaves them, rebuild the region exactly when `RebuildsRegion` holds |
| RobotsLineFacts.CommentLineRender | lib/parser.ts:217-231 | a freshly parsed comment line serialises as `:` + its comment + EOL, never as itself |
| RobotsLineFacts.NoColonRender | lib/parser.ts:217-231 | a freshly parsed line without a comment and without a `:` serialises as `:` + EOL, never as itself |
| RobotsLineFacts.KeyValueRender | lib/parser.ts:217-231 | a freshly parsed key/value line serialises as itself exactly when its region `RebuildsRegion` |
| RobotsLineFacts.RenderAgainst | lib/parser.ts:220-222 | a key/value line serialises as itself exactly when before + value + after equal its region |
| RobotsLineFacts.RoundTripIff | lib/parser.ts:177-231 | `serialize(parse(line))` is the line + EOL exactly when `RoundTrips` holds (both directions) |
| RobotsLineFacts.RenderEol | lib/parser.ts:229 | EOL comes last in the serialised line |
| RobotsLineFacts.PiecesAvoid | lib/parser.ts:189-194 | key, region and comment are cut from the line and add no character |
| RobotsLineFacts.RenderAvoids | lib/parser.ts:217-231 | after a fresh parse, serialising writes no character other than `:` that the raw line lacks; in particular no line feed |
| RobotsLineFacts.SpacedPair | lib/parser.ts:189-222 | `key: value` parses to that key and value, with `before` a single space, and serialises as itself |
| RobotsLineFacts.SpacedPairWithComment | lib/parser.ts:189-222 | `key: value # comment` parses to that key, value and comment, and serialises with the value written twice |
| RobotsLineFacts.UnspacedPair | lib/parser.ts:189-222 | `key:value` leaves the whole value in `before` and serialises with the value written twice |
| RobotsLineFacts.UserAgentLine | lib/parser.ts:273-285 | the documented `User-Agent: *` parses to key `User-Agent` and value `*`, and serialises as itself |
| RobotsLineFacts.DisallowCommentLine | lib/parser.ts:274-291 | the documented `Disallow: /private/ # ...` parses to the documented key, value and comment, and serialises as `Disallow: /private/ /private/ # ...` |
| RobotsLineFacts.UnspacedLine | lib/parser.ts:197 | `Disallow:/x` serialises as `Disallow:/x/x` |
| RobotsLineFacts.BlankLine | lib/parser.ts:217-231 | a blank line serialises as `:` + EOL |
| RobotsParser.Segments | lib/parser.ts:305-309 | no raw line holds a line feed |
| RobotsParser.DropEmptyLast | lib/parser.ts:307-309 | the pieces are kept, or only the last one is removed and it was empty |
| RobotsParser.LastPiece | lib/parser.ts:305-309 | the last piece of the split is empty exactly when the document is empty or ends with a line feed |
| RobotsParser.SegmentsText | lib/parser.ts:305-309 | the raw lines, each followed by a line feed, are the document with a line feed added when it lacks one |
| RobotsParser.SegmentsJoin | lib/parser.ts:305-309 | the raw lines joined with line feeds, plus the line feed before the dropped piece, are the document |
| RobotsParser.SegmentsCount | lib/parser.ts:305-309 | there is one raw line per line feed, plus one when the document does not end with a line feed |
| RobotsParser.SegmentsOfTerminated | lib/parser.ts:305-309 | lines without line feeds, each followed by one, split back into the same lines |
| RobotsParser.NoSegments | lib/parser.ts:305-309 | the empty document has no raw line |
| RobotsParser.OneSegment | lib/parser.ts:305-309 | a line and a line feed give one raw line |
| RobotsParser.TwoSegments | lib/parser.ts:305-309 | a line and two line feeds give that line and an empty one: only one empty piece is dropped |
| RobotsParser.ParseLines | lib/parser.ts:310-313 | the loop creates one fresh, distinct line per raw line, in order, with index equal to its position, each holding the fields a fresh parse gives it |
| RobotsParser.Parse | lib/parser.ts:303-315 | `parse(content)` returns a fresh list of fresh, distinct lines, one per raw line, in order; each has its raw line, `lineno` = position + 1, and its freshly parsed fields |
| RobotsParser.Serialize | lib/parser.ts:326-332 | `serialize(list)` is the concatenation of the lines' `serialize()` outputs, in order |
| RobotsDocumentFacts.SerializedParsed | lib/parser.ts:326-332 | lines holding freshly parsed fields serialise to the raw lines rendered one after the other |
| RobotsDocumentFacts.ParseThenSerialize | lib/parser.ts:303-332 | `serialize(parse(content))` is every raw line rendered from its freshly parsed fields, in order |
| RobotsDocumentFacts.RenderedRoundTrips | lib/parser.ts:303-332 | when every raw line round-trips, the rendered document is the raw lines, each followed by EOL |
| RobotsDocumentFacts.DocumentRoundTrip | lib/parser.ts:303-332 | `serialize(parse(content))` with line feeds gives back the document (plus a final line feed when it lacks one) exactly when every raw line round-trips |

## Left out

- `os.EOL` (lib/parser.ts:1) is a platform lookup. It is the parameter `eol`.
- The `RobotsList` subclass plumbing (lib/parser.ts:234-242) is not modelled:
  - the variadic constructor, which is only ever called without arguments;
  - `Object.setPrototypeOf`;
  - the unused `test` field.

  The list is a class holding a sequence of lines.
- The regular-expression engine is replaced by the explicit functions in
  `JsText`.
- JavaScript `undefined` is not modelled. Every field holds a string, so
  `hasComment()` and `hasKeyPair()` always hold and the raw-line branch of
  `serialize()` (lib/parser.ts:225-227) is never taken.
- Strings are sequences of Dafny `char`, which are Unicode scalar values, not
  UTF-16 code units. A character outside the Basic Multilingual Plane is one
  `char` here and two code units in JavaScript, and a lone surrogate cannot be
  written at all. No result changes: every character the parser looks for (`:`,
  `#`, `\n` and the `\s` class) is a single code unit, and each position the
  parser computes is used only to cut the text it was computed in.
- rollup.config.ts is build configuration. It is not part of this model.
