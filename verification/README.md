# MinecraftServerInfo in Dafny

This project models `MinecraftServerInfo`, the class of the MinecraftWeb site that
queries a Minecraft server with the legacy server-list ping and turns the
server's message of the day (MOTD) into HTML. The model proves properties of
that behaviour.

The model has seven modules. Each lives in its own file:

- `FormatRegex` (`format_regex.dfy`) holds the two fixed regular expressions
  of the MOTD formatter, as the .NET engine runs them:
  - style: `§([k-oK-O])(.*?)(§[0-9a-fA-Fk-oK-OrR]|$)`
  - colour: `§([0-9a-fA-F])(.*?)(§[0-9a-fA-FrR]|$)`

  A section sign `§` followed by a group-1 code opens a match. The lazy group 2
  takes the fewest characters, none of them a line feed, up to group 3. Group 3
  is either a section sign with an end code, or `$` (the end of the text, or
  just before a final line feed). `IsMatch` says declaratively what a match is.
  `ScanEnd`, `MatchAt` and `NextMatch` compute the leftmost match and are proved
  against `IsMatch`.
- `MotdFormat` (`motd_format.dfy`) holds:
  - the two code tables;
  - the evaluator, which wraps group 2 in a `<span style="…">` and writes
    group 3 back verbatim;
  - `Regex.Replace` (`ReplaceFrom`): non-overlapping matches, left to right,
    with replaced text never rescanned;
  - the loop "replace while the pattern matches" (`RunPass`);
  - the two passes in order (`FormatMotd`).

  A code that matches a pattern but has no table entry (every upper-case code)
  makes the dictionary throw `KeyNotFoundException`. Here that is the outcome
  `KeyNotFound(code)`.
- `Utf16` (`utf16.dfy`) is `Encoding.BigEndianUnicode.GetString` with its
  default replacement fallback:
  - a valid surrogate pair decodes to one character;
  - an unpaired surrogate decodes to U+FFFD;
  - an odd trailing byte decodes to U+FFFD.

  `Encode` is its inverse, as a server writes it.
- `Wrappers` (`wrappers.dfy`) holds `Option`, which stands for a value or null.
- `TextSplit` (`text_split.dfy`) is `String.Split(char)`, which keeps empty
  fields, with `Join` as its inverse.
- `ServerQuery` (`server_query.dfy`) holds:
  - the record `MinecraftServerInfo`, a datatype because its private
    constructor sets the four fields once and nothing changes them;
  - its `MotdHtml` method, which keeps the two `while` loops of the source;
  - the decoding that follows the socket read, with the reply the socket
    delivers as a parameter;
  - both `GetServerInformation` overloads;
  - `EncodeResponse`, what a server writes, for the round trip.
- `MotdExample` (`motd_example.dfy`) works one MOTD, `§lA§mB§nC`, through
  both passes to its exact HTML.

Some behaviour the model reproduces, because the code does it:

- The terminator of a region is written back and handled only by a later
  iteration. So `§lA§mB§nC` becomes the `l` span around `A`, followed by the
  `m` span wrapping `B` and the `n` span (`MotdExample.NestedExample`).
- A colour code ends a style region.
- `§r` ends regions but is never replaced, so the table's `r` entry is never
  read.
- The bytes 1 and 2 of the reply (the length prefix) are never looked at.

Some facts about the code that shape the model:

- `GetServerInformation` returns null both for a server that cannot be reached
  and for a malformed reply. Only a null argument, or a port outside 0 to
  65535 given to the address-and-port overload, throws.
- The overloads take an `IPEndPoint`, or an address and a port. There is no
  host name. No time-out is set on the client or the stream, so a read from a
  server that stays silent waits forever.
- The doc comments of both overloads (lines 99 and 139) say that a failure
  throws an exception with details. The code catches every exception after the
  null check and returns null; the model follows the code.
- The MOTD is turned into one HTML string.
- An upper-case formatting code throws `KeyNotFoundException`.

## Model

| member | source | states |
|---|---|---|
| `MotdFormat.TableKeys` | src/MinecraftWeb/MinecraftServerInfo.cs:46-51 | The colour table has exactly the keys `0`-`9` and `a`-`f`. The style table has exactly `k`-`o` and `r`. Neither has an upper-case key. |
| `MotdFormat.ColoursArePlain` | src/MinecraftWeb/MinecraftServerInfo.cs:46 | No colour value holds a section sign or a line feed. |
| `MotdFormat.StylesArePlain` | src/MinecraftWeb/MinecraftServerInfo.cs:51 | No style value holds a section sign or a line feed. |
| `MotdFormat.ResetEntryUnreachable` | src/MinecraftWeb/MinecraftServerInfo.cs:51 | The style table has an `r` entry, but `r` is not a group-1 code of the style pattern, so no lookup reads it. |
| `FormatRegex.IsMatch` | src/MinecraftWeb/MinecraftServerInfo.cs:74-83 | Defines what either pattern accepts at a position: a section sign and a group-1 code, then the fewest characters, none a line feed or the start of a group-3 end code, then a section sign with an end code, or else `$`. |
| `FormatRegex.ScanEnd` | src/MinecraftWeb/MinecraftServerInfo.cs:74 | The lazy `(.*?)` followed by group 3 ends at the first position where group 3 matches. No earlier position holds a line feed or an end marker. When there is no such position, a line feed that is not final comes first. |
| `FormatRegex.MatchAt` | src/MinecraftWeb/MinecraftServerInfo.cs:74 | The result is a match at `i` exactly when the pattern accepts one there, and then it is the only one (the lazy group is determined). |
| `FormatRegex.NextMatch` | src/MinecraftWeb/MinecraftServerInfo.cs:76-77 | It returns the leftmost match at or after `i`. No match starts between `i` and it. `None` means no match starts at or after `i`. |
| `FormatRegex.HasMatch` | src/MinecraftWeb/MinecraftServerInfo.cs:76-84 | `regex.IsMatch(s)` holds exactly when some match of the pattern exists in `s`. |
| `FormatRegex.MatchIffMarker` | src/MinecraftWeb/MinecraftServerInfo.cs:76 | In a text without line feeds, `IsMatch` holds exactly when a section sign is followed by a group-1 code. |
| `MotdFormat.Evaluate` | src/MinecraftWeb/MinecraftServerInfo.cs:77-89 | Defines the evaluator: the opening tag with the pattern's property and the table value of group 1, then group 2 unescaped, then `</span>`, then group 3 verbatim. |
| `MotdFormat.OpenTag` | src/MinecraftWeb/MinecraftServerInfo.cs:79-80 | The opening tag starts with `<`, ends with `>`, and holds no section sign or line feed. |
| `MotdFormat.EvaluateDropsSection` | src/MinecraftWeb/MinecraftServerInfo.cs:80 | A replacement holds fewer section signs than the match it replaces. |
| `MotdFormat.ReplaceFrom` | src/MinecraftWeb/MinecraftServerInfo.cs:77-82 | Replacing never adds a section sign. It removes at least one whenever the pattern matches. |
| `MotdFormat.RunPass` | src/MinecraftWeb/MinecraftServerInfo.cs:76-82 | The loop terminates, with the number of section signs as its measure. When it ends without an error, the pattern no longer matches. |
| `MotdFormat.ReplaceKeepsNoMarker` | src/MinecraftWeb/MinecraftServerInfo.cs:77-82 | Replacing creates no marker: a code other than `<` gets no section sign in front of it that it did not already have. |
| `MotdFormat.ReplaceKeepsMarker` | src/MinecraftWeb/MinecraftServerInfo.cs:77-82 | If there is a marker whose code the pattern does not open, or opens but cannot look up, then at least one marker of that set remains after replacing. Codes `§` and line feed are excluded. |
| `MotdFormat.MarkerCountPositive` | src/MinecraftWeb/MinecraftServerInfo.cs:74 | The marker count of a text is positive exactly when the text has a marker of those codes. |
| `MotdFormat.ReplaceKeepsMarkerCount` | src/MinecraftWeb/MinecraftServerInfo.cs:77-82 | When replacing succeeds, the number of markers whose code the pattern does not open, or opens but cannot look up, is unchanged. Codes `§`, line feed and `<` are excluded. |
| `MotdFormat.ReplaceKeepsNoNewline` | src/MinecraftWeb/MinecraftServerInfo.cs:77-82 | Replacing adds no line feed. |
| `MotdFormat.ReplaceError` | src/MinecraftWeb/MinecraftServerInfo.cs:79 | A failed lookup is for a group-1 code that the table lacks, and that code follows a section sign in the text. |
| `MotdFormat.RunPassKeepsNoNewline` | src/MinecraftWeb/MinecraftServerInfo.cs:76-82 | A pass adds no line feed. |
| `MotdFormat.RunPassKeepsNoMarker` | src/MinecraftWeb/MinecraftServerInfo.cs:76-90 | A pass creates no marker. In particular, the colour pass brings back no style marker. |
| `MotdFormat.RunPassKeepsMarker` | src/MinecraftWeb/MinecraftServerInfo.cs:76-90 | If there is a marker whose code the pass does not open or cannot look up, then at least one marker of that set remains after the pass. Codes `§` and line feed are excluded. |
| `MotdFormat.RunPassKeepsMarkerCount` | src/MinecraftWeb/MinecraftServerInfo.cs:76-90 | When a pass succeeds, it keeps the exact number of markers whose code it does not open or cannot look up. Codes `§`, line feed and `<` are excluded. |
| `MotdFormat.RunPassError` | src/MinecraftWeb/MinecraftServerInfo.cs:79-87 | A pass fails only for a group-1 code that the table lacks, and only if the pass's input has a marker with that code. |
| `MotdFormat.MatchHasMarker` | src/MinecraftWeb/MinecraftServerInfo.cs:76 | The pattern matches only where a section sign is followed by a group-1 code. |
| `MotdFormat.FormatMotd` | src/MinecraftWeb/MinecraftServerInfo.cs:72-92 | The style pass, then the colour pass on its result. HTML comes only when the style pass succeeded, and in it the colour pattern no longer matches. |
| `MotdFormat.NoSectionUnchanged` | src/MinecraftWeb/MinecraftServerInfo.cs:72-92 | A MOTD without a section sign comes back unchanged. |
| `MotdFormat.FormattedHasNoCodes` | src/MinecraftWeb/MinecraftServerInfo.cs:76-90 | For a MOTD without line feeds, the HTML has no style marker and no colour marker left, and no line feed. |
| `MotdFormat.UnknownMarkersSurvive` | src/MinecraftWeb/MinecraftServerInfo.cs:74-84 | If the MOTD has `§r`, or a section sign before a character outside both patterns other than `§` and line feed, then at least one such marker remains in the HTML. |
| `MotdFormat.UnknownMarkersKept` | src/MinecraftWeb/MinecraftServerInfo.cs:74-84 | When formatting succeeds, the HTML holds exactly as many `§r` markers, and markers before a character outside both patterns other than `§`, line feed and `<`, as the MOTD. |
| `MotdFormat.FormatKeepsMarker` | src/MinecraftWeb/MinecraftServerInfo.cs:74-90 | When formatting succeeds and the MOTD has a marker whose code neither table can look up, at least one such marker remains in the HTML. Codes `§` and line feed are excluded. |
| `MotdFormat.FormatKeepsMarkerCount` | src/MinecraftWeb/MinecraftServerInfo.cs:74-90 | When formatting succeeds, the number of markers whose code neither table can look up is unchanged. Codes `§`, line feed and `<` are excluded. |
| `MotdFormat.UppercaseSurvives` | src/MinecraftWeb/MinecraftServerInfo.cs:74-90 | When a MOTD with an upper-case marker formats without an error, an upper-case marker is still in the HTML. With a line feed this can happen, because the lazy group stops at the line feed and the pattern then does not match. |
| `MotdFormat.NoUppercaseLeft` | src/MinecraftWeb/MinecraftServerInfo.cs:76-90 | For a MOTD without line feeds, HTML that was formatted without an error has no upper-case marker. |
| `MotdFormat.ReplaceMarkerOrigin` | src/MinecraftWeb/MinecraftServerInfo.cs:77-82 | Every marker after a replacement, for codes other than `<`, was already in the text before it. |
| `MotdFormat.KeyNotFoundIsUppercase` | src/MinecraftWeb/MinecraftServerInfo.cs:79-87 | A `KeyNotFoundException` is always for an upper-case code that the MOTD has after a section sign. |
| `MotdFormat.UppercaseFails` | src/MinecraftWeb/MinecraftServerInfo.cs:79-87 | For a MOTD without line feeds, formatting throws exactly when the MOTD has a marker with an upper-case code. |
| `MotdExample.SkipPlain` | src/MinecraftWeb/MinecraftServerInfo.cs:74-77 | The search for the leftmost match passes over text without a section sign: it finds the same match as a search starting after that text. |
| `MotdExample.ScanPlain` | src/MinecraftWeb/MinecraftServerInfo.cs:74 | Over text without a section sign or a line feed, the lazy group 2 runs to the end of the text, where `$` holds. |
| `MotdExample.ReplaceOneMarker` | src/MinecraftWeb/MinecraftServerInfo.cs:76-82 | A text with one marker of the pattern between plain pieces matches, and replacing wraps everything after the marker in one span that closes at the end. |
| `MotdExample.PlainPassUnchanged` | src/MinecraftWeb/MinecraftServerInfo.cs:76-77 | A pass leaves text without section signs or line feeds unchanged. |
| `MotdExample.NestedFirstReplace` | src/MinecraftWeb/MinecraftServerInfo.cs:77-82 | The first replacement of `§lA§mB§nC` turns `§lA` and `§nC` into spans and writes `§m` back between them. |
| `MotdExample.NestedExample` | src/MinecraftWeb/MinecraftServerInfo.cs:72-92 | `§lA§mB§nC` formats to the `l` span around `A`, then the `m` span holding `B` and the `n` span around `C`. |
| `ServerQuery.MinecraftServerInfo` | src/MinecraftWeb/MinecraftServerInfo.cs:16-66 | Defines the record: the MOTD, the maximum and current player counts and the version, as strings, which the private constructor sets once and nothing changes afterwards. |
| `ServerQuery.MinecraftServerInfo.MotdHtml` | src/MinecraftWeb/MinecraftServerInfo.cs:72-92 | The two loops compute `FormatMotd`. The method also states: a MOTD without a section sign is unchanged; an error is for an upper-case code present in the MOTD; for a MOTD without line feeds, it throws exactly when an upper-case marker is present, and otherwise no style or colour marker is left. On success, the HTML holds exactly as many `§r` and `§R` markers as the MOTD. |
| `Utf16.CodeUnits` | src/MinecraftWeb/MinecraftServerInfo.cs:117 | Byte pair k is read big-endian as code unit k. An odd trailing byte belongs to no unit. |
| `Utf16.Decode` | src/MinecraftWeb/MinecraftServerInfo.cs:117 | Decoding gives at most one character per code unit, plus one for an odd trailing byte. |
| `Utf16.DecodeEncode` | src/MinecraftWeb/MinecraftServerInfo.cs:117 | Decoding the UTF-16BE encoding of any text gives that text back. |
| `TextSplit.Split` | src/MinecraftWeb/MinecraftServerInfo.cs:120 | A split has at least one field, and no field holds the separator. |
| `TextSplit.SplitLength` | src/MinecraftWeb/MinecraftServerInfo.cs:120 | A text with n separators splits into n + 1 fields, so empty fields are kept. |
| `TextSplit.JoinSplit` | src/MinecraftWeb/MinecraftServerInfo.cs:120 | Joining the fields of a split with the separator gives the text back. |
| `TextSplit.SplitJoin` | src/MinecraftWeb/MinecraftServerInfo.cs:120 | Splitting a join of separator-free fields gives those fields back. |
| `ServerQuery.BytesRead` | src/MinecraftWeb/MinecraftServerInfo.cs:113-114 | One read delivers the whole reply when it fits the 2048-byte buffer, and the first 2048 bytes otherwise. |
| `ServerQuery.ReadBuffer` | src/MinecraftWeb/MinecraftServerInfo.cs:113-114 | The buffer holds the bytes read, then zeros up to 2048 bytes. |
| `ServerQuery.ParseResponse` | src/MinecraftWeb/MinecraftServerInfo.cs:115-125 | It gives null in each of these cases: a first byte other than `FF`; fewer than 3 bytes read (`GetString` is given a negative count); a decoded text that does not start with `§`. A record it returns is described by bytes 3 up to the number read: six or more NUL-free fields joined by NUL, with fields 3, 5, 4 and 2 in that order. |
| `ServerQuery.RecordNeedsSixFields` | src/MinecraftWeb/MinecraftServerInfo.cs:120-125 | A text that splits into fewer than six fields describes no record. Reading `packetdat[5]` would throw, so the result is null. |
| `ServerQuery.ParseResponseComplete` | src/MinecraftWeb/MinecraftServerInfo.cs:115-125 | Every buffer that starts with `FF` and whose text is six or more NUL-free fields, starting with `§`, gives exactly the record of fields 3, 5, 4 and 2. |
| `ServerQuery.GetServerInformation` | src/MinecraftWeb/MinecraftServerInfo.cs:100-131 | It throws `ArgumentNullException` exactly for a null endpoint. Otherwise it does not throw; the server the endpoint names is asked, and the result is null when that server is unreachable, sends nothing, or sends a first byte other than `FF`. |
| `ServerQuery.GetServerInformationAt` | src/MinecraftWeb/MinecraftServerInfo.cs:140-143 | It throws `ArgumentNullException` exactly for a null address and `ArgumentOutOfRangeException` exactly for a port outside 0..65535. Otherwise it is the endpoint overload. |
| `ServerQuery.ProbeRoundTrip` | src/MinecraftWeb/MinecraftServerInfo.cs:112-125 | A server reply that fits the buffer, built from a record whose fields hold no NUL, is read back as exactly that record. |

## Left out

- The socket work is not modelled: `TcpClient` connect, the write, the read and
  the two `Close` calls. The network is a parameter `server` mapping an
  endpoint and the request `FE 01` to a reply. `Unreachable` stands for any exception those
  calls throw, and a short read is a shorter reply. Time-outs and partial
  writes are not represented.
- `ParseResponse`: `packet.StartsWith("§")` is culture-sensitive in .NET. The
  model checks only the first character, so an ignorable character before the
  section sign, which .NET may skip, is not modelled.
- Text is a Dafny `string` of Unicode scalar values, while .NET strings are
  UTF-16 code units. The decoder turns every unpaired surrogate into U+FFFD,
  and every character the formatter and the split look at is outside the
  surrogate range, so matching and splitting agree with the code-unit view.
- The .NET regular-expression engine in general is not modelled, only the two
  fixed patterns. Its match time-out is not represented either.
- `ServerQuery.MinecraftServerInfo.MotdHtml`: the "no marker left" and the
  "fails exactly when" clauses are stated only for a MOTD without line feeds.
  With a line feed, `.` stops the lazy group and a marker can survive a pass.
  For that case the general property is the one `RunPass` states: the pattern
  no longer matches.
- `MotdFormat.ReplaceKeepsMarkerCount`, `MotdFormat.RunPassKeepsMarkerCount`,
  `MotdFormat.FormatKeepsMarkerCount` and `MotdFormat.UnknownMarkersKept` do not
  count markers of `<`. A section sign just before a match turns into a `§<`
  marker once the match becomes `<span`, so that count can grow.
- `MotdFormat.ReplaceKeepsMarker`, `MotdFormat.RunPassKeepsMarker`,
  `MotdFormat.FormatKeepsMarker`, `MotdFormat.UnknownMarkersSurvive` and the
  four counting lemmas above say nothing about markers whose code is `§` or a
  line feed. Both can be lost. In `§lA§` followed by a line feed, group 2 is
  `A§`, and the `</span>` written after it separates that `§` from the line
  feed. In `§§lA`, the second `§` opens the match and is replaced, so the `§§`
  marker goes away. Every code the tables leave verbatim is a letter, so these
  two cases never affect `§r` or an unknown letter code.
- `ServerQuery.GetServerInformation`: a server that accepts the connection
  and never writes makes `ns.Read` (line 114) block forever, since no time-out
  is set. `Reply` has no outcome for that, so the promise that the call does
  not throw is stated only for servers that answer or fail.
- The `ServerMotdHtml` property (line 26) only calls `MotdHtml`. It has no
  member of its own.
- The controllers (`HomeController`, `AdminController`, `RolesController`) are
  not part of this model. They handle DNS lookup, process management and
  identity storage, and have no logic of this class.
