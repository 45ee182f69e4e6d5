# Verification of the sender's core

A Dafny model, with proofs, of four parts of the program:

- the JSON reader and the two JSON writers the program talks to its peers with (`jsoncpp.cpp`),
- the bounded ring of video packets between the demuxer thread and the sender thread (`queue.cpp`),
- the sender's loop and the cutting of frames into datagrams (`sender.cpp`),
- base 64 (`base64.cpp`).

Code that changes state is modelled as methods on classes and arrays with the loops of the source; each
such method is proved against a function, and the promises are proved about the functions.

The main results, hardest first:

1. **Round trip.** Reading what a writer wrote gives `Echo` of the value: integers in their stored form, strings
   passed through `Repair`, doubles as the library's two conversions have it. It gives the very value exactly
   when the value is `Normal` (stored integers, ascending names) and `Clean` (UTF-8 of RFC 3629 throughout), its
   doubles come back as themselves, and it has at most 1000 levels; above that the parse throws. The writer may
   use any white space as indentation, either comment style and either colon. What is asked of the conversions is
   only that the text of a double is one number token or `null` (`Spelled`); values without doubles always are.
2. **Writer refinement.** The stateful styled writer (cached child texts, margin test, indentation string)
   writes in compact mode, byte for byte, what the plain recursive writer writes, and for values without comments,
   in every mode, byte for byte the text of a recursive function with a margin (`Styling.Styled`).
3. **Reader.** The cursor machine with its value stack, its error list, its recovery loop and its un-reading
   of a token does what the grammar-shaped functions of `Parser` say, for every byte string and every
   combination of features; it ends, stays inside the document and restores the stack. A parse that returns
   succeeds exactly when it has no error to report, and a failed one reports one error however deep it failed.
   A document without comments is accepted exactly when its tokens start with those of a syntax tree of the
   grammar of RFC 8259 (widened by a comma after a member with an empty name) of at most 1000 levels, and its
   value is what the tree denotes. A successful parse leaves a normal value of at most 1000 levels, whatever the
   root held before; so does a failed one, unless it leaves the root as it was. A parsed value is a fixed point
   of writing and reading exactly when its strings are UTF-8 and its doubles come back as themselves.
4. **Queue.** Over every interleaving of the producer's and the consumer's steps no packet is overwritten, and
   packets come out in the order they went in, none lost or doubled, with any number of changes of the time base.
5. **Delivery.** A frame is put together from its datagrams in any order and with repetitions, and from an
   incomplete set not at all; over every run without a seek the frames that come out at the far end are a front
   part of the frames put into the queue.

Every function that reads or writes bytes is also described in literal bytes, apart from its own body: tokens in
`Lexemes`, escapes in `Escapes`, integers in `Numbers`, UTF-8 units in `Utf8`, datagrams in `Datagrams`, base 64 in
`Base64`, and what a broken document leads to in `Diagnostics`.

Layout of the files: `Bytes`, `Utf8`, `Quoting`, `Unquoting`, `Escapes`, `StringTheorems` (strings); `JsonValue`,
`Numbers`; `Lexer`, `Lexemes`, `Parser`, `Reader`, `Nesting`, `Grammar`, `Leniency`, `Diagnostics` (reading);
`Rendering`, `Styling`, `Writers` (writing); `RoundTrip`, `Canonical`, `Conformance` (both together); `ValueOrder`, `ArrayMap` (values); `VideoQueue`, `QueueProtocol`,
`Datagrams`, `Delivery`, `Sender`; `Base64`. `dafny verify dfyconfig.toml` checks all of them.

Conventions: text is a sequence of bytes; masks and shifts of the source are written as remainders and
quotients by powers of two; `char` is signed on the target. `readDouble` and `realText` stand for the library's
conversions between text and doubles, which are never looked into: a double is a name, its text is whatever
`realText` says, and reading may fail, as it does for the text of an infinity. `hide` statements only keep the
proofs quick.

Where the code and what one would expect of it differ, the code is followed:

- The reader types a non-negative integer as signed only up to 2^31 - 1 (`Numbers.Stored`).
- A comma before the closing brace is accepted exactly when the last name is empty
  (`Leniency.TrailingCommaNeedsEmptyName`): `{"":1,}` parses, `{"a":1,}` does not; after a comment any token
  passes for the separator of two members (`Leniency.AnySeparatorAfterComment`); a lone minus sign is the integer zero (`Leniency.LoneMinusParses`).
- A numeric key, with `allowNumericKeys_` on, makes the reader throw, because it asks a number for its C string.
- Removing an element of an array with holes, or shrinking such an array, goes wrong in exactly the cases named
  by `ArrayMap.RemovedExactly` and `ArrayMap.ArrayValue.Resize`. An array that uses the last 32-bit index has
  the size zero, so that appending overwrites its first element (`ArrayMap.ArrayValue.Append`).
- The order of values cuts a difference of sizes down to 32 bits: an empty array and one of 2^31 elements are
  each below the other. It is an order up to the largest `int` and not beyond (`ValueOrder.OrdersWithinExactly`).
- Clearing the queue while the consumer holds a packet breaks its books (`QueueProtocol.ClearNeedsIdleConsumer`,
  with a run that gets there in `QueueProtocol.ClearWhileHolding`).
- A quoted byte that is no UTF-8 parses, but is not written back as it was (`Canonical.RawByteIsNoFixedPoint`).
- After a seek the frame that arrives together with the new time base is still sent, unless an earlier seek is
  still being skipped for (`Sender.SeekSkipsOneGroup`).

## Model

| member | source | states |
|---|---|---|
| `Conformance.SendAndReceive` | comm.cpp:362-366 | A compact reply read by the program's own reader: it fails with a double that cannot be converted, else throws exactly above 1000 levels, else the echo arrives, which is the value itself if and only if it is normal, UTF-8 and its doubles come back |
| `Conformance.WriteString` | jsoncpp.cpp:5398-5403 | Compact settings give the plain writer's text; without comments the text is exactly the styled one; any white-space indentation, comment style and colon give a text whose tokens glued together are the plain text and that parses to the same value, doubles included |
| `Conformance.LayoutIsIrrelevant` | jsoncpp.cpp:5094-5264 | Deleting what is between the tokens of any layout leaves the plain text, and every layout parses alike |
| `Conformance.WriteBoth` | jsoncpp.cpp:4519-4579 | Each with its own conversion of doubles, the plain and the styled writer write the compact text; the same bytes when the default precision and that of the settings agree on the doubles inside, in particular when there are none |
| `Conformance.ColonIsPadded` | jsoncpp.cpp:5338-5343 | Whatever the settings, the colon symbol is one colon among spaces |
| `Conformance.SymbolsOfSettings` | jsoncpp.cpp:5338-5347 | The literal colon and null symbols of every combination of settings |
| `Canonical.RoundTripIsExact` | jsoncpp.cpp:352-391 | Writing and reading returns the value itself if and only if it is normal, UTF-8, at most 1000 levels tall, its doubles come back and, for a strict root, it is a container |
| `Canonical.EchoFixesExactly` | jsoncpp.cpp:822-829 | A value echoes as itself if and only if its integers are in stored form, its names ascend, its strings are UTF-8 and its doubles come back |
| `Canonical.EchoNamesAreClean` | jsoncpp.cpp:3536-3552 | Members that come back as they were are sorted and have UTF-8 names: repairing twice always gives UTF-8 |
| `Canonical.ParsedIsShaped` | jsoncpp.cpp:352-391 | Whatever the root held before, a successful parse leaves a normal root of at most 1000 levels; a failed one does too, or leaves the root as it was |
| `Canonical.ValueIsShaped` | jsoncpp.cpp:393-468 | A value read at a given depth is normal and no taller than the guard leaves room for, or a failed parse has not touched it |
| `Canonical.ParseWriteParse` | jsoncpp.cpp:352-391 | A parsed document is a fixed point of writing and reading if and only if its strings are UTF-8 and its doubles come back, whatever the root held before |
| `Canonical.RawByteIsNoFixedPoint` | jsoncpp.cpp:865-916 | The document of a quoted 0xFF parses to a string that is not UTF-8 |
| `RoundTrip.WriteThenParse` | jsoncpp.cpp:4527-4579 | Reading the compact text of a value, doubles included, yields its echo, or throws exactly above 1000 levels, or fails with a double that cannot be converted, under every feature setting |
| `RoundTrip.AnyLayoutParses` | jsoncpp.cpp:352-391 | Any text that spells a value's tokens reads as its echo, whatever follows it in the document |
| `RoundTrip.ParseTokens` | jsoncpp.cpp:393-468 | At any depth and in front of any tokens the value is read and exactly its tokens are consumed, unless height and depth exceed the limit or a double cannot be converted |
| `RoundTrip.ParseElemTokens` | jsoncpp.cpp:753-777 | The element loop collects the echoes in order |
| `RoundTrip.ParseMembersTokens` | jsoncpp.cpp:692-737 | The member loop writes the echoed members one after the other under their repaired names |
| `RoundTrip.RealFreeConverts` | jsoncpp.cpp:4284-4327 | Values without doubles meet every condition on the conversions |
| `Rendering.CompactSpells` | jsoncpp.cpp:4527-4579 | The plain text of a value lexes to the value's tokens in every context |
| `Rendering.GluedTokens` | jsoncpp.cpp:4527-4579 | The value's tokens glued together are the plain text |
| `Rendering.ScalarTexts` | jsoncpp.cpp:4527-4550 | What scalars and empty containers are written as, in literal bytes |
| `Styling.StyledIsCompact` | jsoncpp.cpp:5094-5264 | Without an indentation the styled text is the compact text, at any margin and in either state of the line |
| `Styling.OneMoreElem` | jsoncpp.cpp:5162-5187 | The text of one element more is appended after a comma, on a new line |
| `Styling.OneMoreMember` | jsoncpp.cpp:5126-5152 | The same for members |
| `Styling.OneMoreInRow` | jsoncpp.cpp:5191-5200 | On one line elements are separated by a comma and, with an indentation, a blank |
| `Styling.StyledRow` | jsoncpp.cpp:5188-5202 | An array with fewer than 25 leaves and less than 74 bytes is one line |
| `Writers.FastWriter.Write` | jsoncpp.cpp:4519-4525 | The document is the compact text and a line feed unless omitted |
| `Writers.FastWriter.WriteValue` | jsoncpp.cpp:4527-4579 | Appends exactly the compact text, in YAML mode and with dropped nulls too |
| `Writers.FastWriter.SymbolsOfSwitches` | jsoncpp.cpp:4527-4575 | The literal colon and null symbols of the two switches |
| `Writers.BuiltStyledStreamWriter.Write` | jsoncpp.cpp:5079-5093 | Appends a layout of the value, for a value without comments exactly the styled text at an empty margin, then the ending symbol |
| `Writers.BuiltStyledStreamWriter.WriteValue` | jsoncpp.cpp:5094-5154 | Into the cache one text of a scalar or empty container; into the stream a layout, the compact text itself without indentation; without comments exactly the styled text for the current margin; the indentation string is restored |
| `Writers.BuiltStyledStreamWriter.WriteMembers` | jsoncpp.cpp:5126-5152 | The object case: the members between braces, one to a line, a step further in |
| `Writers.BuiltStyledStreamWriter.WriteMemberList` | jsoncpp.cpp:5129-5148 | The object loop |
| `Writers.BuiltStyledStreamWriter.WriteArrayValue` | jsoncpp.cpp:5156-5204 | Both branches, whatever the margin test and comments decide, lay out the same array |
| `Writers.BuiltStyledStreamWriter.WriteLines` | jsoncpp.cpp:5162-5187 | The multi-line branch, from the cache or written now, lays out the elements in order, one to a line |
| `Writers.BuiltStyledStreamWriter.WriteElementList` | jsoncpp.cpp:5166-5184 | The loop over the lines of an array |
| `Writers.BuiltStyledStreamWriter.WriteOneLine` | jsoncpp.cpp:5188-5202 | The one-line branch: the cache has as many texts as there are elements, and they make up the array |
| `Writers.BuiltStyledStreamWriter.IsMultilineArray` | jsoncpp.cpp:5206-5231 | Writes nothing; leaves the cache empty or with the text of every element, and full whenever one line is chosen; without comments several lines are chosen exactly when the array does not fit on one |
| `Writers.BuiltStyledStreamWriter.PushValue` | jsoncpp.cpp:5233-5238 | One piece of text goes to the cache or to the stream, never to both |
| `Writers.BuiltStyledStreamWriter.WriteWithIndent` | jsoncpp.cpp:5252-5257 | At most white space in front of the text, none without an indentation |
| `Writers.BuiltStyledStreamWriter.Unindent` | jsoncpp.cpp:5261-5264 | Takes one unit off; the assertion that there is one always holds |
| `Reader.Reader.Parse` | jsoncpp.cpp:352-391 | Verdict, root and errors of a whole parse, or the exception, as `ParseDocument` has them, for every document, feature setting and earlier content of the root |
| `Reader.Reader.ReadValue` | jsoncpp.cpp:393-468 | The verdict, the top of the stack replaced and the rest restored, the errors added, the tokens left; the cursor stays in the document and never ends before its start |
| `Reader.Reader.StepBack` | jsoncpp.cpp:446-454 | Un-reading a one-byte token puts exactly that token back |
| `Reader.Reader.ReadArray` | jsoncpp.cpp:742-778 | The array loop with its peek at a closing bracket |
| `Reader.Reader.ReadElement` | jsoncpp.cpp:754-776 | One round: push, read, pop, and the token after the value, with comments passed over |
| `Reader.Reader.ReadObject` | jsoncpp.cpp:686-740 | The object loop |
| `Reader.Reader.ReadMember` | jsoncpp.cpp:692-711 | The name of a member, the end of the object, or an error and recovery |
| `Reader.Reader.ReadMemberValue` | jsoncpp.cpp:713-736 | Colon, value and separator of a member, each error with its recovery |
| `Reader.Reader.SkipCommentTokens` | jsoncpp.cpp:470-478 | The next token that is no comment, or simply the next one when comments are off |
| `Reader.Reader.RecoverFromError` | jsoncpp.cpp:981-992 | Ends; drops the tokens up to the one asked for; adds no error |
| `Reader.Reader.AddErrorAndRecover` | jsoncpp.cpp:994-999 | Exactly one error more, then recovery |
| `Reader.Reader.DecodeNumber` | jsoncpp.cpp:790-852 | The number's value, or one error when the conversion to double fails |
| `Reader.Reader.DecodeString` | jsoncpp.cpp:854-863 | The decoded string, or one error |
| `Reader.Reader.ReadToken` | jsoncpp.cpp:480-549 | The token at the front and the cursor after it; progress unless the stream has ended |
| `Reader.Reader.SkipSpaces` | jsoncpp.cpp:551-559 | The cursor is at the first byte that is no space |
| `Reader.Reader.Match` | jsoncpp.cpp:561-570 | The backward comparison finds the word exactly when it is there |
| `Reader.Reader.ReadComment` | jsoncpp.cpp:572-593 | Where a comment of either style ends |
| `Reader.Reader.ReadCStyleComment` | jsoncpp.cpp:627-634 | Where a block comment ends, the lone slash at the end of the document included |
| `Reader.Reader.ReadCppStyleComment` | jsoncpp.cpp:636-650 | Where a line comment ends, with both line endings |
| `Reader.Reader.ReadNumber` | jsoncpp.cpp:652-672 | Where a number ends: digits, fraction, exponent |
| `Reader.Reader.ReadString` | jsoncpp.cpp:674-684 | Where a string ends |
| `Parser.ParseReportsItsErrors` | jsoncpp.cpp:352-391 | A parse that returns succeeds exactly when there are no errors; a failed one has one, and a second only for a strict root |
| `Parser.ValueCountsErrors` | jsoncpp.cpp:393-468 | One error for a failed value, none for a good one |
| `Parser.ElementsCountErrors` | jsoncpp.cpp:742-778 | The same for arrays: recovery adds none |
| `Parser.MembersCountErrors` | jsoncpp.cpp:686-740 | The same for objects |
| `Nesting.PriorRootIsIrrelevant` | jsoncpp.cpp:352-391 | What the root held before influences neither the verdict nor the first error, nor the value of a successful parse; a second error only with a strict root |
| `Nesting.ThrowsOnlyWhenDeep` | jsoncpp.cpp:393-399 | With numeric keys off, fewer than 1000 openers in a document, however broken, never make the parse throw |
| `Nesting.ValueWithinOpeners` | jsoncpp.cpp:393-468 | Each level of nesting uses up an opener of the token sequence |
| `Diagnostics.ThousandLevels` | jsoncpp.cpp:398-399 | A thousand nested brackets are read as such, one more throws |
| `Diagnostics.NumericKey` | jsoncpp.cpp:699-710 | An integer for a name throws if numeric keys are allowed and is the error otherwise |
| `Diagnostics.DroppedNulls` | jsoncpp.cpp:446-454 | n commas in brackets are n + 1 nulls, or the first comma is the error |
| `Diagnostics.ValueWanted` | jsoncpp.cpp:455-459 | A token that begins no value is the error, and the value stays |
| `Diagnostics.CommaOrBracketWanted` | jsoncpp.cpp:762-774 | After an element: the error, the elements kept, and where the reader goes on |
| `Diagnostics.NameWanted` | jsoncpp.cpp:692-740 | Where a name should stand |
| `Diagnostics.ColonWanted` | jsoncpp.cpp:713-717 | After a name, comments included |
| `Diagnostics.CommaOrBraceWanted` | jsoncpp.cpp:725-732 | After a member's value |
| `Diagnostics.GoodEscapeWanted` | jsoncpp.cpp:854-863 | A bad escape in a value and in a name |
| `Diagnostics.FailedMemberStays` | jsoncpp.cpp:718-724 | A member whose value fails stays, as null if its name is new |
| `Diagnostics.RecoverStops` | jsoncpp.cpp:981-992 | Recovery goes on after the first token asked for or an end of the stream |
| `Grammar.AcceptsExactly` | jsoncpp.cpp:352-391 | A document without comments is accepted if and only if its tokens start with those of a syntax tree of at most 1000 levels (a container for a strict root), and its value is what the tree denotes |
| `Grammar.TreeIsRead` | jsoncpp.cpp:393-468 | The tokens of a syntax tree are read, in front of anything, as what the tree denotes, or the guard throws exactly when it is too tall |
| `Grammar.EntriesAreRead` | jsoncpp.cpp:692-737 | The members of a tree, with a trailing comma where the last name is empty, are read one after the other |
| `Grammar.ValueIsTree` | jsoncpp.cpp:393-468 | Whatever is read successfully has a syntax tree that spells exactly the tokens consumed |
| `Grammar.MembersAreEntries` | jsoncpp.cpp:686-740 | The same for the members of an object |
| `Grammar.ElementsAreTrees` | jsoncpp.cpp:742-778 | The same for the elements of an array |
| `Grammar.LexIsPlain` | jsoncpp.cpp:480-549 | Without comments, every token of punctuation in a document is its one byte |
| `Leniency.TrailingCommaNeedsEmptyName` | jsoncpp.cpp:698-711 | A comma after the last member is an error if and only if that member's name is not empty |
| `Leniency.TrailingCommaDocument` | jsoncpp.cpp:698-711 | The same for the text of a whole document |
| `Leniency.TrailingCommaBothWays` | jsoncpp.cpp:698-711 | The document `{"":1,}` is accepted and `{"a":1,}` is not |
| `Leniency.AnySeparatorAfterComment` | jsoncpp.cpp:725-736 | After a comment, any token but a closing brace stands for the comma |
| `Leniency.CommentBeforeValue` | jsoncpp.cpp:470-478 | A comment before a value is skipped if comments are allowed and is the error otherwise |
| `Leniency.CommentBeforeName` | jsoncpp.cpp:693-696 | A comment before a name is always skipped |
| `Leniency.CommentAfterElement` | jsoncpp.cpp:763-767 | A comment after an element is always skipped |
| `Leniency.LoneMinusParses` | jsoncpp.cpp:790-831 | The document `-` parses as the integer zero |
| `Lexer.LexFront` | jsoncpp.cpp:480-549 | Reading one token is taking the head of the document's token sequence |
| `Lexer.LexAfterSpaces` | jsoncpp.cpp:551-559 | Skipping spaces changes no token |
| `Lexer.LiteralSpells` | jsoncpp.cpp:674-684 | A quoted body is one string token in front of anything |
| `Lexer.NumberSpells` | jsoncpp.cpp:652-672 | An optional minus and digits are one number token in front of anything that does not prolong a number |
| `Lexer.StringTokenShape` | jsoncpp.cpp:498-501 | A string token is a body between two quotes |
| `Lexemes.NumbersAreTokens` | jsoncpp.cpp:652-672 | An optional minus, digits, an optional point with digits and an optional exponent are one number token in front of anything that does not continue them |
| `Lexemes.TokensAreNumbers` | jsoncpp.cpp:652-672 | Conversely every number token has these parts, and what follows does not continue it |
| `Lexemes.BlanksAreSkipped` | jsoncpp.cpp:551-559 | The four white-space bytes between tokens make no difference |
| `Lexemes.OthersBeginTokens` | jsoncpp.cpp:480-549 | Any other byte begins a token, which together with what is read next is the whole text |
| `Lexemes.Punctuation` | jsoncpp.cpp:484-541 | The six bytes of punctuation and the zero byte are tokens of their own |
| `Lexemes.StrayByte` | jsoncpp.cpp:541-546 | A byte that begins nothing else is an error of its own |
| `Lexemes.Words` | jsoncpp.cpp:518-529 | `true`, `false` and `null` are tokens whatever follows them |
| `Lexemes.BrokenWord` | jsoncpp.cpp:561-570 | The first letter of a word without the rest is an error of its own |
| `Lexemes.BlockComment` | jsoncpp.cpp:627-634 | A block comment ends at the first star and slash |
| `Lexemes.OpenComment` | jsoncpp.cpp:627-634 | One that is never closed takes the rest, and is a comment only if the last byte is a slash |
| `Lexemes.LineComment` | jsoncpp.cpp:636-650 | A line comment takes the line end with it, in each of its forms |
| `Lexemes.LoneSlash` | jsoncpp.cpp:572-579 | A slash with neither after it is an error, together with the next byte |
| `Lexemes.StringIsToken` | jsoncpp.cpp:674-684 | A string ends at the first quote that an even number of backslashes precedes |
| `Lexemes.OpenString` | jsoncpp.cpp:674-684 | Without such a quote the rest of the document is one error |
| `StringTheorems.AnyBytesQuote` | jsoncpp.cpp:4429-4496 | Any bytes quote to printable ASCII of at most 6n + 2 bytes that is one token and decodes, without error, to the repaired bytes |
| `StringTheorems.StringRoundTrip` | jsoncpp.cpp:865-916 | A string comes back byte for byte if and only if it is UTF-8 |
| `StringTheorems.QuoteIsStable` | jsoncpp.cpp:4429-4496 | Quoting the decoded text gives the same literal if and only if no unit exceeds U+10FFFF |
| `StringTheorems.TokenDecodesWithinQuotes` | jsoncpp.cpp:865-916 | On every string token the decoder never takes its inner quote break, not even at the last byte, and never its empty-escape error; a success ends at the closing quote |
| `Quoting.ValueToQuotedStringN` | jsoncpp.cpp:4429-4496 | The scan with its advancing pointer produces the quoted text and never passes the end |
| `Quoting.QuoteNext` | jsoncpp.cpp:4443-4492 | One round of the scan: a short escape, or one unit as itself, as one escape or as a pair |
| `Quoting.IsAnyCharRequiredQuoting` | jsoncpp.cpp:4338-4348 | With signed characters, true for every non-empty string |
| `Quoting.QuoteBodyIsShortAscii` | jsoncpp.cpp:4429-4496 | Length and alphabet of a literal's body |
| `Quoting.QuoteAfterRepair` | jsoncpp.cpp:4429-4496 | A repaired text within Unicode quotes like the original text |
| `Quoting.QuoteAfterRepairExactly` | jsoncpp.cpp:4429-4496 | The same as an if and only if: beyond U+10FFFF the literal changes |
| `Unquoting.DecodeString` | jsoncpp.cpp:865-916 | The decoding loop, its index never past the closing quote |
| `Unquoting.DecodeUnicodeCodePoint` | jsoncpp.cpp:918-943 | One escape or a surrogate pair, every error case, never past the end |
| `Unquoting.DecodeUnicodeEscapeSequence` | jsoncpp.cpp:945-970 | Four hexadecimal digits of either case |
| `Unquoting.DecodeEscape` | jsoncpp.cpp:918-943 | A decoded code point is at most 0x10FFFF, so its UTF-8 is never empty |
| `Unquoting.ScanFindsBody` | jsoncpp.cpp:674-684 | The tokeniser closes a string at the quote after a body |
| `Unquoting.ScanMeansBody` | jsoncpp.cpp:674-684 | What the tokeniser accepts is a body and a quote |
| `Unquoting.DecoderReadsWholeBody` | jsoncpp.cpp:865-916 | Tokeniser and decoder walk in step: a success stops at the end of the body, never at a quote inside |
| `Unquoting.UnitRoundTrip` | jsoncpp.cpp:4474-4491 | What stands for one unit decodes to that unit, through escapes and surrogate pairs |
| `Unquoting.QuoteRoundTrip` | jsoncpp.cpp:4429-4496 | A quoted body decodes to the repaired bytes |
| `Escapes.ShortEscapeDecodes` | jsoncpp.cpp:876-902 | Each of the eight two-character escapes of section 7 of RFC 8259 stands for its byte, the slash included |
| `Escapes.OtherEscapeFails` | jsoncpp.cpp:903-911 | Any other letter is an error |
| `Escapes.PlainByteDecodes` | jsoncpp.cpp:911-913 | Any byte but quote and backslash stands for itself |
| `Escapes.FourDigitsDecode` | jsoncpp.cpp:945-970 | Four digits of either case decode to the number they denote |
| `Escapes.BrokenDigitsFail` | jsoncpp.cpp:945-970 | Too few or other bytes are errors |
| `Escapes.UnicodeEscapeDecodes` | jsoncpp.cpp:918-943 | An escape that is no high surrogate stands for its code point |
| `Escapes.SurrogatesDecode` | jsoncpp.cpp:924-939 | A high surrogate and the escape after it stand for the code point made of their bits |
| `Escapes.LoneSurrogateFails` | jsoncpp.cpp:924-939 | A high surrogate without one is an error, case by case |
| `Escapes.PlainTextIsQuotedAsItIs` | jsoncpp.cpp:4478-4479 | Printable ASCII without quotes and backslashes is written as it is |
| `Escapes.ShortEscapeIsWritten` | jsoncpp.cpp:4445-4468 | The seven bytes with a short escape get it |
| `Escapes.UnitIsOneEscape` | jsoncpp.cpp:4476-4483 | Other control bytes and units up to U+FFFF get one escape with four lower-case digits of their number |
| `Escapes.UnitIsTwoEscapes` | jsoncpp.cpp:4484-4490 | Units above get the two escapes of their surrogates |
| `Utf8.Utf8ToCodepoint` | jsoncpp.cpp:4350-4399 | The pointer form computes the unit and stops at its last byte, inside the text |
| `Utf8.EncodeDecode` | jsoncpp.cpp:125-151 | The encoder's bytes are one group of RFC 3629 and decode to the code point |
| `Utf8.GroupRoundTrip` | jsoncpp.cpp:4350-4399 | On groups of RFC 3629 the lenient scan inverts the encoder |
| `Utf8.BadUnitChanges` | jsoncpp.cpp:4350-4399 | A unit that is no group of RFC 3629 is never reproduced |
| `Utf8.RepairFixesExactlyWellFormed` | jsoncpp.cpp:4350-4399 | A text survives if and only if it is UTF8-octets of RFC 3629 |
| `Utf8.RepairIsWellFormed` | jsoncpp.cpp:4350-4399 | Within the Unicode range the repaired text is well-formed |
| `Utf8.CutOffUnit` | jsoncpp.cpp:4350-4399 | A cut-off group and a byte that leads none are U+FFFD, one byte at a time |
| `Utf8.TwoByteUnit` | jsoncpp.cpp:4358-4367 | Two bytes by their bits, overlong ones replaced |
| `Utf8.ThreeByteUnit` | jsoncpp.cpp:4369-4384 | Three bytes by their bits, overlong ones and surrogates replaced |
| `Utf8.FourByteUnit` | jsoncpp.cpp:4386-4396 | Four bytes by their bits, overlong ones replaced |
| `Numbers.UintToString` | jsoncpp.cpp:167-173 | The digits, written backwards, fit the buffer and are the decimal numeral |
| `Numbers.IntToString` | jsoncpp.cpp:4251-4265 | The text of every signed 64-bit integer, the least one included |
| `Numbers.UIntToString` | jsoncpp.cpp:4267-4273 | The text of every unsigned 64-bit integer |
| `Numbers.DecodeNumber` | jsoncpp.cpp:790-831 | The guarded loop in wrapping 64-bit arithmetic returns the exact integer if it is in the range of its sign and leaves everything else to the double path |
| `Numbers.GuardIsExact` | jsoncpp.cpp:810-819 | Where the loop gives up, the numeral is out of range |
| `Numbers.IntTextRoundTrip` | jsoncpp.cpp:790-831 | Reading back the text of any 64-bit integer gives that integer in stored form |
| `Numbers.LoneMinusIsZero` | jsoncpp.cpp:790-831 | A minus without digits decodes to zero |
| `Numbers.IntegersExactly` | jsoncpp.cpp:790-831 | Which digits become a signed, an unsigned integer or a double, with the limits as literal numbers |
| `Numbers.OthersAreDoubles` | jsoncpp.cpp:804-809 | Any other byte makes a double |
| `Numbers.IntTextIsDecimal` | jsoncpp.cpp:4251-4273 | The text of an integer is its decimal digits without a leading zero, after a minus if it is negative |
| `JsonValue.SetMemberSorted` | jsoncpp.cpp:3536-3552 | Inserting at the lower bound keeps the names strictly ascending |
| `JsonValue.LookupAfterSet` | jsoncpp.cpp:3536-3552 | The member written is read back and no other is disturbed |
| `JsonValue.SetMemberAtEnd` | jsoncpp.cpp:3536-3552 | A name above all others goes to the end |
| `Bytes.TextLessTotal` | jsoncpp.cpp:2755-2770 | Two different keys are always ordered one way or the other |
| `Bytes.TextLessTransitive` | jsoncpp.cpp:2755-2770 | The key order is transitive |
| `Bytes.TextLessExactly` | jsoncpp.cpp:2755-2770 | One key is below another exactly when it has the smaller byte where they first differ, or ends there |
| `ValueOrder.StrictTotalOrder` | jsoncpp.cpp:2950-3014 | On values without doubles whose containers have fewer than 2^31 entries `<` is a strict total order, and `compare` is negative exactly below, 0 exactly for equal values, and changes sign with its arguments |
| `ValueOrder.OrdersWithinExactly` | jsoncpp.cpp:2997-3003 | `<` is a strict total order on all values with at most n entries in a container if and only if n fits an `int` |
| `ValueOrder.TooLargeToOrder` | jsoncpp.cpp:2997-3003 | Two arrays of which each is below the other |
| `ValueOrder.LessIsTotal` | jsoncpp.cpp:2958-3008 | Exactly one of below, same, above |
| `ValueOrder.LessIsTransitive` | jsoncpp.cpp:2958-3008 | Transitivity, through sizes, elements and name-value pairs |
| `ValueOrder.EqualIsIdentity` | jsoncpp.cpp:3016-3056 | On values without doubles `==` holds exactly for the same value |
| `ValueOrder.TypesAscend` | jsoncpp.cpp:2958-2961 | Types are ordered as in the enumeration |
| `ValueOrder.ScalarsAscend` | jsoncpp.cpp:2962-2996 | Integers ascend, false is below true, strings are ordered by their first difference |
| `ValueOrder.ArraysAscend` | jsoncpp.cpp:2997-3003 | The shorter array is below, else the one with the lower element at the first difference |
| `ValueOrder.ObjectsAscend` | jsoncpp.cpp:2997-3003 | The same with the lower name, or the lower value under the same name |
| `ArrayMap.ArrayValue.Touch` | jsoncpp.cpp:3404-3418 | Access past the end pads the array with nulls, access inside changes nothing that can be seen |
| `ArrayMap.ArrayValue.Append` | jsoncpp.cpp:3617-3617 | One element more at the end, or the first one overwritten when every index is used; density is kept |
| `ArrayMap.ArrayValue.Resize` | jsoncpp.cpp:3386-3402 | Growing pads with nulls; shrinking cuts, and passes the final check exactly when the new last element is present; with every index used nothing is cut |
| `ArrayMap.ArrayValue.RemoveIndex` | jsoncpp.cpp:3667-3689 | The shifting loop; on dense arrays exactly that element goes and the array stays dense |
| `ArrayMap.RemovedDense` | jsoncpp.cpp:3679-3687 | A dense array loses the element and nothing else |
| `ArrayMap.RemovedExactly` | jsoncpp.cpp:3679-3687 | With holes the same holds if and only if the element is not the last one or the one before it is present |
| `ArrayMap.RemovedAfterHole` | jsoncpp.cpp:3679-3687 | Removing index 2 of an array with that element only leaves an empty array |
| `ArrayMap.ExtentIs` | jsoncpp.cpp:3347-3353 | The extent is one more than the highest key |
| `VideoQueue.CQueue.Clear` | queue.cpp:53-84 | All slots empty, positions and count zero, output off |
| `VideoQueue.CQueue.PutVideo` | queue.cpp:101-145 | The new state and the returned size, for a full queue, an empty packet, a new time base and the wrap of the write position |
| `VideoQueue.CQueue.GetVideo` | queue.cpp:181-216 | The oldest packet moves out and its slot is emptied, but still counted |
| `VideoQueue.CQueue.RetVideo` | queue.cpp:262-280 | The read position advances with wrap-around and the count drops |
| `VideoQueue.PutExactly` | queue.cpp:101-145 | Field by field, with literal sizes: fewer than 120 counted packets leave room, and positions go round |
| `VideoQueue.PutAfterRebase` | queue.cpp:103-107 | Another time base stores into an empty queue with its output off |
| `VideoQueue.TakeAndReturnExactly` | queue.cpp:181-280 | Taking empties one slot, handing back moves the position and lowers the count, and nothing else |
| `QueueProtocol.NeverOverwrites` | queue.cpp:111-122 | In every interleaving the slot a packet is stored to is free, although the test for room was made without the mutex |
| `QueueProtocol.CountIsExact` | queue.cpp:101-145 | The count is the full slots plus the one held, and write is read plus count modulo 120 |
| `QueueProtocol.FirstInFirstOut` | queue.cpp:101-280 | Per time base: delivered followed by waiting equals accepted, in order; older ones were delivered up to some point |
| `QueueProtocol.OnlyNewAfterRebase` | queue.cpp:103-107 | After a change of the time base, however the run goes on: the packets delivered since are, per time base, a front part of the packets accepted since; none accepted before comes out |
| `QueueProtocol.RebaseStartsAfresh` | queue.cpp:103-107 | Until the next change, the packets delivered since the change and those that wait are exactly the packets accepted since, in order |
| `QueueProtocol.WaitingIsVisible` | queue.cpp:136-139 | A waiting packet passes the consumer's test, except in the moment between storing the first one and enabling output |
| `QueueProtocol.ClearNeedsIdleConsumer` | queue.cpp:53-84 | Clearing keeps the ring consistent if and only if the consumer holds nothing; otherwise handing back makes the count negative |
| `QueueProtocol.ClearWhileHolding` | queue.cpp:53-84 | A run of six steps after which a change of the time base leads to a negative count |
| `QueueProtocol.RunKeepsInv` | queue.cpp:101-280 | The invariant holds after every run |
| `QueueProtocol.StepKeepsInv` | queue.cpp:101-280 | Every step of either thread keeps the invariant |
| `QueueProtocol.PutIsItsSteps` | queue.cpp:101-145 | The uninterrupted call is the producer's steps in a row |
| `QueueProtocol.CommitKeepsRing` | queue.cpp:118-134 | Storing appends to what waits |
| `QueueProtocol.TakeKeepsRing` | queue.cpp:192-207 | Taking removes the oldest |
| `QueueProtocol.ReturnKeepsRing` | queue.cpp:269-279 | Handing back frees the slot |
| `Datagrams.SendBitstream` | sender.cpp:1015-1087 | Exactly the fragments before the first failing send go out, in order; the verdict says whether all did; what a fragment is in bytes, `Datagrams.DatagramBytes` says |
| `Datagrams.FillBuffer` | sender.cpp:1058-1066 | The buffer holds the 24-byte header and the piece |
| `Datagrams.PacketCount` | sender.cpp:1039-1046 | The least number of 4096-byte pieces that hold the frame |
| `Datagrams.HeaderFields` | sender.cpp:1058-1066 | Every datagram carries the number of pieces, its own number from 1 and its piece |
| `Datagrams.DatagramBytes` | sender.cpp:1058-1066 | At literal offsets: size of the frame, of the piece, number of pieces, own number, zeros, and the piece of at most 4096 bytes |
| `Datagrams.ReassembleExact` | sender.cpp:1047-1084 | From datagrams of a frame, in any order and repeated, the frame comes out if and only if none is missing |
| `Datagrams.ReassembleAnyOrder` | sender.cpp:1047-1084 | Every permutation of a frame's datagrams gives the frame |
| `Delivery.EndToEnd` | sender.cpp:185-266 | Without a seek and with every send succeeding, the frames put together from the wire are a front part of the accepted ones, and all of them once the count is zero |
| `Delivery.StepKeepsSteady` | sender.cpp:206-266 | What is on the wire is always the finished frames and a front part of the held one |
| `Delivery.DeframeAll` | sender.cpp:1047-1084 | A stream of whole frames splits back into them |
| `Sender.CSender.RunOnce` | sender.cpp:185-266 | One round: poll, skip or send, hand back; the state of the queue and of the skip count, and exactly the datagrams before the first failing send on the socket |
| `Sender.SeekSkipsOneGroup` | sender.cpp:195-242 | A seek, also one that comes while frames are still being skipped, leaves out one group of pictures, counted from the round after the one that first sees it |
| `Sender.SkipsAtTheFront` | sender.cpp:228-242 | While the time base stays, exactly the frames still to be skipped are left out |
| `Sender.NoSeekSendsAll` | sender.cpp:195-242 | Without a seek every frame taken is sent |
| `Base64.RoundTrip` | base64.cpp:45-129 | Decoding what was encoded gives the bytes back |
| `Base64.Base64Encode` | base64.cpp:45-86 | The accumulator loop and the tail compute the encoding |
| `Base64.Base64Decode` | base64.cpp:88-129 | The accumulator loop and the tail decode the digits up to the first other byte |
| `Base64.EncodeLength` | base64.cpp:45-86 | Four digits for every three bytes begun |
| `Base64.EncodePadding` | base64.cpp:69-83 | Digits first, then the pads of section 4 of RFC 4648 |
| `Base64.FieldsAreTheBits` | base64.cpp:58-61 | The four fields are the 24 bits of three bytes cut in four |
| `Base64.EncodeAt` | base64.cpp:45-86 | Every place of the encoding: six bits of its group in the table of RFC 4648, or a pad |
| `Base64.DecodeAt` | base64.cpp:88-129 | Every byte of the decoding of any digits: eight bits of its group; decoding stops at the first other byte |
| `Base64.TableIsTheAlphabet` | base64.cpp:36-39 | The table is the literal alphabet |

## Left out

- RoundTrip.WriteThenParse: what the conversions between text and doubles do, because they are foreign code; doubles whose text is neither one number token nor `null`, which only special floats give.
- Grammar.AcceptsExactly: documents with comments and readers that allow dropped nulls; what comments do between members is the subject of `Leniency.AnySeparatorAfterComment`.
- Writers.FastWriter.WriteValue: arrays of 2^32 and more elements, whose size the library takes to be smaller; lengths are unbounded here, also in the reader, which counts elements in an `int`.
- Quoting.ValueToQuotedStringN: strings longer than 2^32 bytes, and the library's cut of key lengths at 2^30.
- Reader.Reader.Parse: the stack holds values that are written back when they are popped, not pointers into the tree; tokens hold their bytes instead of two pointers, so positions in errors, comment collection and value offsets are not modelled.
- Writers.BuiltStyledStreamWriter.Write: comments are not written; a comment's only other effect, forcing several lines, is left to chance so that every outcome is covered, and the exact text is stated for values without comments.
- Conformance.WriteString: the comment style is one of the two valid ones; the exception for other settings, special floats and precision are left out.
- ValueOrder.StrictTotalOrder: doubles are excluded.
- QueueProtocol.FirstInFirstOut: clearing the queue, which the source does without the mutex, is one step, and is only taken while the consumer holds no packet.
- Delivery.EndToEnd: runs with a seek, whose skipped frames are the subject of `Sender.SeekSkipsOneGroup`, and failing sends, which are the subject of `Datagrams.SendBitstream`.
- Sender.CSender.RunOnce: the clocks are a parameter, and the audio branch and the logging are left out.
- Datagrams.Le32: the target's byte order is taken to be little-endian.
- The audio path of the queue, `CDemuxer`, `CCommMgr`, file and directory handling, sockets, threads and their lifetime.
- `OurReader`, `StyledWriter` and `StyledStreamWriter`, which nearly repeat the modelled classes; `Path`, iterators, `validate`.
- Memory management: allocation policies, string prefixes, packet reference counts.
