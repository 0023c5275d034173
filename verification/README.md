# A verified model of the JSON engine behind the device management bridge

Every configuration file and every TPM reply in this repository goes through `jsoncpp.cpp`. This
project models that engine in Dafny and proves what its users rely on: the reader
gives every JSON text its meaning and survives every other byte sequence, reader and printers undo
each other, offsets and line numbers point where they should, trees are totally ordered, and arrays
and paths behave like sequences and lenses although they are stored as maps with holes.

How it is built:

* Pure layer. `Lexer` and `ReaderSpec` say what the scanner and the recursive descent compute,
  `Grammar` has JSON texts as syntax trees with their printing and meaning, `WriterSyntax` the text a
  writer prints as such a tree, `Gaps`, `Separators` and `Repairs` what may stand between tokens, what may
  stand for a comma, and what becomes of bytes that are not UTF-8. All laws are proved here: `ReaderMeaning` (a text means what it denotes),
  `Acceptance` (which texts the features let through), `Language` with `TokenTexts` (nothing else is
  accepted), `Leniencies` and `ExtraText` (where the reader is more lenient than documented), `RoundTrip`, `Shift` and `Spans` (locality and offsets).
* What the pure layer computes is said once more without its own names, in bytes and ASCII: `Notation`, `Whitespace`
  and `Escapes` (tokens, blanks, strings), `PrintedText` and `Layout` (what the writers print), `OrderMeaning`
  (which of two values is below).
* Errors. `ErrorPlaces` (an error is at a token that is what the message says), `LeftToRight` with `Prefixes`
  (nothing behind it plays a part), `Completions` with `GoingOn` and `Roomier` (what stands before it can be
  completed as the message says).
* Imperative layer. `OurReader`, `FastWriter` and `BuiltStyledStreamWriter` are classes with the
  fields of the C++ classes, and their methods are proved to do to those fields what the pure layer
  says. `Pipelines` and `Canonical` compose them. The digit loops, the string codec, `ArrayValue`
  (`operator[]`, `append`, `resize`, `removeIndex`), the location scan and `NTServiceConfig` are
  methods in the same way.
* `Order`, `Arrays`, `Paths`, `Locations`, `WideStrings` and `ServiceWhitelist` are the remaining parts,
  one source component each. `PathsInPlace` has `Path::make` as a pointer walk over nodes on the heap.

Conventions. A `char` is an integer from 0 to 255 and bit masks are written with `%` and `/`; 64-bit
values are subset types, so every operation on them is checked for overflow. C++ exceptions and false
returns are results (`Threw`, `None`, a boolean). Two trees are compared by `Erase`, which forgets
offsets. `Norm` is what printing and reading keeps: integers are re-tagged by value, holes become
nulls. The C library conversions for doubles, case mapping, the UTF-8 to UTF-16 conversion and the
service name pattern are function parameters, about which only one thing is taken: case mapping sends
exactly the terminator to the terminator.

Where the code departs from its documentation, the model follows the code:

* `resize` (json.h:890-895) is documented for any size. After growing an array, cutting into the grown
  part throws (`Arrays.GrowThenCut`); `Arrays.ArrayValue.Resize` has the exact condition.
* `failIfExtra` (json.h:1715-1717) is documented to refuse any extra text. A NUL byte and everything
  behind it passes, and without `strictRoot` text that is not a token does
  (`ExtraText.ExtraTextRefusedIff`).
* `allowComments` (json.h:1699-1700) is documented to decide whether comments are allowed. With it off
  they are refused only before a value, in place of a dropped one and, with `failIfExtra`, behind the
  root (`Acceptance.TextAccepted`); behind elements, behind members and before keys the loops skip them
  (`Leniencies.CommentBehindElement`). With it on they are refused before a colon
  (`Leniencies.CommentBeforeColon`), and between the brackets of an empty array unless dropped nulls are
  allowed, where they leave a null (`Leniencies.CommentInBrackets`). Unless single quotes are allowed, an
  apostrophe begins a comment as a slash does (jsoncpp.cpp:1457-1466).
* Behind a comment that follows a member, any token passes for the comma (`Leniencies.SeparatorTaken`,
  `Leniencies.AnyTokenSeparates`).
* A comma may stand before a closing brace if the key before it is empty (`Leniencies.TrailingCommaIff`), a
  minus sign alone is 0 (`Leniencies.LoneMinusIsZero`), and zeros may lead. Digits missing around a point or
  an exponent are left to `sscanf`.
* All of these but the extra text are part of the grammar here, so that `Language.AcceptedIff` can say that
  it is the whole language of the reader.
* `compare` is 0 for a NaN and itself while `operator==` is false (`Order.EqualToItselfIff`).
* The column of a location inside a CRLF is 0, although columns count from 1.

## Model

| member | source | states |
|---|---|---|
| Integers.UIntToString | src/SharedUtilities/jsoncpp.cpp:167-173 | the buffer filled backwards ends up holding exactly the decimal digits and a terminator, every other byte of it is untouched, and digits plus one bytes suffice |
| Integers.DigitsFitBuffer | src/SharedUtilities/jsoncpp.cpp:153-158 | the digits of any 64-bit magnitude, a sign and the terminator fit `3 * sizeof + 1` bytes |
| Integers.ValueToStringSigned | src/SharedUtilities/jsoncpp.cpp:4264-4278 | every signed 64-bit value, the minimum included, is printed as its decimal numeral |
| Integers.ValueToStringUnsigned | src/SharedUtilities/jsoncpp.cpp:4280-4286 | every unsigned 64-bit value is printed as its decimal numeral |
| Integers.NatOfDigits | src/SharedUtilities/jsoncpp.cpp:167-173 | the numeral has the value it was made from |
| Integers.Accumulate | src/SharedUtilities/jsoncpp.cpp:1810-1828 | the threshold loop never leaves 64 bits and succeeds exactly on digit strings, of any length, whose value is at most the maximum |
| Integers.DecodeInteger | src/SharedUtilities/jsoncpp.cpp:1797-1836 | an integer token decodes to its exact value within -2^63 .. 2^64-1 and is handed to the double decoder in every other case; the two's complement negations are exact |
| Integers.DecodeIntegerLegacy | src/SharedUtilities/jsoncpp.cpp:801-842 | the older reader's version meets the same specification, so the two agree on every token |
| Integers.IntegerRoundTrip | src/SharedUtilities/jsoncpp.cpp:4264-4286 | printing any 64-bit integer and decoding the text gives the same number, re-tagged by value |
| Utf8.WellFormedHead | src/SharedUtilities/jsoncpp.cpp:4367-4416 | at a well-formed character the converter consumes exactly that character, returns a scalar value, and `codePointToUTF8` gives the same bytes back |
| Utf8.IllFormedHead | src/SharedUtilities/jsoncpp.cpp:4367-4416 | at anything else the converted code point never turns back into the bytes it came from |
| JsonStrings.HexRoundTrip | src/SharedUtilities/jsoncpp.cpp:4435-4444 | four hexadecimal digits of any 16-bit number read back as that number |
| JsonStrings.SplitSurrogates | src/SharedUtilities/jsoncpp.cpp:4500-4507 | the two halves written for a supplementary code point are a high surrogate and an escape that joins back to it |
| JsonStrings.IsAnyCharRequiredQuoting | src/SharedUtilities/jsoncpp.cpp:4355-4365 | with a signed `char` the test is true for every non-empty string |
| JsonStrings.ValueToQuotedStringN | src/SharedUtilities/jsoncpp.cpp:4446-4513 | the escaping loop writes the quoted form of any byte string and never steps past its end |
| JsonStrings.QuoteOne | src/SharedUtilities/jsoncpp.cpp:4461-4509 | one turn of the loop writes the escape of the character at the cursor and consumes exactly its bytes |
| JsonStrings.QuotedIsPrintable | src/SharedUtilities/jsoncpp.cpp:4446-4513 | the quoted form of arbitrary bytes uses only bytes 0x20 to 0x7F |
| JsonStrings.QuoteCharsMeaning | src/SharedUtilities/jsoncpp.cpp:4446-4513 | every quoted form is a string literal of section 7 of RFC 8259, and denotes the repaired string |
| JsonStrings.ScanLiteral | src/SharedUtilities/jsoncpp.cpp:1663-1673 | on any string literal followed by anything the scanner stops right behind the closing quote |
| JsonStrings.DecodeLiteral | src/SharedUtilities/jsoncpp.cpp:1897-1948 | decoding the body of any literal, whatever escapes it mixes, gives the bytes it denotes |
| JsonStrings.QuotedReadsBack | src/SharedUtilities/jsoncpp.cpp:1897-1948 | framing and decoding of a quoted form succeed for arbitrary bytes and arbitrary following text, and give the repaired string |
| JsonStrings.RepairedIffValid | src/SharedUtilities/jsoncpp.cpp:4367-4513 | the string round trip is the identity if and only if the string is valid UTF-8 (RFC 3629) |
| Repairs.RepairedTwiceIsValid | src/SharedUtilities/jsoncpp.cpp:4367-4513 | two trips through writer and reader leave valid UTF-8 whatever the bytes were |
| Repairs.RepairedOnceIsNot | src/SharedUtilities/jsoncpp.cpp:4500-4507 | four bytes that one trip turns into encoded surrogates |
| Repairs.RepairedKeysIffValid | src/SharedUtilities/jsoncpp.cpp:4581-4595 | a set of keys comes back as itself if and only if every key is valid UTF-8 |
| JsonStrings.DecodeString | src/SharedUtilities/jsoncpp.cpp:1897-1948 | the decoding loop computes the decoded string or the one error with its message and position, for arbitrary bytes |
| JsonStrings.DecodeUnicodeCodePoint | src/SharedUtilities/jsoncpp.cpp:1950-1975 | surrogate pairs are joined, and the second half is not range-checked |
| JsonStrings.DecodeUnicodeEscapeSequence | src/SharedUtilities/jsoncpp.cpp:1977-2002 | four digits give the number; a short or a non-hexadecimal escape gives its error at the right byte |
| Escapes.ShortEscapeReads | src/SharedUtilities/jsoncpp.cpp:1909-1945 | in numeric bytes: which byte each of the eight two-byte escapes stands for, that every other letter but `u` is a bad escape, found behind it, and that a backslash at the end is an empty one |
| Escapes.PlainByteReads | src/SharedUtilities/jsoncpp.cpp:1903-1946 | every byte but a quotation mark and a backslash stands for itself, and a quotation mark ends the string |
| Escapes.UnicodeEscapeReads | src/SharedUtilities/jsoncpp.cpp:1977-2002 | four hexadecimal digits, in either case, are the base-16 numeral of a code point and give its UTF-8 form |
| Escapes.SurrogatePairReads | src/SharedUtilities/jsoncpp.cpp:1950-1975 | a high surrogate and four more digits give the UTF-8 form of the code point they make, with the last ten bits of the second number whatever it is |
| Escapes.BadDigitFound | src/SharedUtilities/jsoncpp.cpp:1977-2002 | the first byte of four that is no hexadecimal digit is where decoding gives up |
| Escapes.DecodingBreaks | src/SharedUtilities/jsoncpp.cpp:1897-2002 | when decoding fails it is at the first broken escape: what stands before it decodes, and message and place say which byte breaks it |
| Escapes.ShortEscapeWritten | src/SharedUtilities/jsoncpp.cpp:4461-4487 | the seven bytes that are written with a letter, and their letters |
| Escapes.PlainTextWritten | src/SharedUtilities/jsoncpp.cpp:4461-4509 | printable ASCII but for the quotation mark and the backslash is written as it is, a solidus among it |
| Escapes.ControlWritten | src/SharedUtilities/jsoncpp.cpp:4495-4499 | any other control byte is written as four digits in lower case |
| Escapes.BytesTaken | src/SharedUtilities/jsoncpp.cpp:4367-4416 | the first byte alone decides how many bytes of a string are converted at once |
| Escapes.CharacterWritten | src/SharedUtilities/jsoncpp.cpp:4495-4507 | a well-formed character outside ASCII is written as the digits of its code point, or of its two surrogates |
| OurReader.OurReader.GetNextChar | src/SharedUtilities/jsoncpp.cpp:2037-2041 | the cursor never passes the end; there it yields NUL and stays |
| OurReader.OurReader.SkipSpaces | src/SharedUtilities/jsoncpp.cpp:1535-1543 | the loop stops at the first byte that is not a blank |
| OurReader.OurReader.Match | src/SharedUtilities/jsoncpp.cpp:1545-1554 | the backward comparison accepts exactly the pattern and moves only then |
| OurReader.OurReader.ReadCStyleComment | src/SharedUtilities/jsoncpp.cpp:1612-1619 | where the comment loop ends, the lenient end of input included |
| OurReader.OurReader.ReadComment | src/SharedUtilities/jsoncpp.cpp:1556-1577 | comment text is skipped, the rest is an error |
| OurReader.OurReader.ReadString | src/SharedUtilities/jsoncpp.cpp:1663-1685 | both string scanners compute the position behind the closing quote, or the end of input |
| OurReader.OurReader.ReadNumber | src/SharedUtilities/jsoncpp.cpp:1637-1662 | the look-ahead scanner takes the longest digits, fraction and exponent and no more |
| OurReader.OurReader.ReadToken | src/SharedUtilities/jsoncpp.cpp:1435-1533 | the token, its span and the cursor for every byte sequence and every feature setting |
| OurReader.OurReader.SkipCommentTokens | src/SharedUtilities/jsoncpp.cpp:1425-1433 | the next token that is not a comment |
| OurReader.OurReader.RecoverFromError | src/SharedUtilities/jsoncpp.cpp:2015-2026 | recovery terminates, leaves the errors as they were and the cursor inside the document |
| OurReader.OurReader.DecodeNumber | src/SharedUtilities/jsoncpp.cpp:1797-1836 | the decoded payload, or exactly one added error |
| OurReader.OurReader.ReadScalar | src/SharedUtilities/jsoncpp.cpp:1355-1416 | the value and offsets of a one-token value, the un-read of one character, or the error |
| OurReader.OurReader.ReadObject | src/SharedUtilities/jsoncpp.cpp:1687-1747 | refines the recursive specification: cursor, errors, and a node stack of its old height with only the top replaced |
| OurReader.OurReader.ReadArray | src/SharedUtilities/jsoncpp.cpp:1749-1785 | the same for arrays |
| OurReader.OurReader.ReadValue | src/SharedUtilities/jsoncpp.cpp:1334-1423 | terminates on every input; a failed read adds exactly one error however deep the failure, a successful one none, and both restore the node stack |
| OurReader.OurReader.Parse | src/SharedUtilities/jsoncpp.cpp:1286-1332 | a whole run of the object computes the pure specification, whatever the object was used for before; it returns true exactly when no error is recorded, leaves one node on the stack and, with the root checks off, exactly one error on failure |
| Whitespace.WhiteIsSkipped | src/SharedUtilities/jsoncpp.cpp:1535-1543 | in numeric bytes: a token is looked for behind space, tab, line feed and carriage return, and begins at any other byte |
| Whitespace.WhitespaceDoesNotMatter | src/SharedUtilities/jsoncpp.cpp:1535-1543 | more of these four bytes anywhere between the tokens of a text changes nothing about how its parse ends and which tree it builds |
| Whitespace.WhiteAround | src/SharedUtilities/jsoncpp.cpp:1535-1543 | in particular a document is read alike with any white space in front of it and behind it |
| Notation.MarkReads | src/SharedUtilities/jsoncpp.cpp:1441-1456 | which token each of the six structural characters is |
| Notation.WordReads | src/SharedUtilities/jsoncpp.cpp:1481-1511 | the words by their letters, and that what begins like one and goes on differently is an error |
| Notation.MinusWordReads | src/SharedUtilities/jsoncpp.cpp:1469-1480 | a minus sign and an `I` are the beginning of `-Infinity` or of an error |
| Notation.WordValue | src/SharedUtilities/jsoncpp.cpp:1360-1389 | the value each word stands for |
| Notation.NumberIs | src/SharedUtilities/jsoncpp.cpp:1637-1662 | in ASCII: the texts the grammar has for numbers |
| Notation.NumeralStep | src/SharedUtilities/jsoncpp.cpp:1810-1828 | digits have decimal place value |
| Notation.IntegerRange | src/SharedUtilities/jsoncpp.cpp:1797-1836 | which integers are exact, from -9223372036854775808 to 18446744073709551615, and from which on they are unsigned |
| Notation.NumericName | src/SharedUtilities/jsoncpp.cpp:1707-1713 | where numbers may be names, the name is the number printed, and elsewhere there is none |
| Notation.LongNameThrows | src/SharedUtilities/jsoncpp.cpp:1714-1731 | a name of 2^30 bytes throws at its colon, a shorter one that repeats a key is an error, and any other goes on |
| Notation.QuotedReads | src/SharedUtilities/jsoncpp.cpp:1663-1685 | a string token goes from quotation mark to quotation mark, or from apostrophe to apostrophe where that is allowed, with a backslash taking the next byte along |
| Notation.BlockCommentIs | src/SharedUtilities/jsoncpp.cpp:1612-1619 | a block comment ends at its first end mark |
| Notation.LineCommentIs | src/SharedUtilities/jsoncpp.cpp:1621-1635 | a line comment ends behind a line feed, a carriage return or both |
| Notation.NoCommentIs | src/SharedUtilities/jsoncpp.cpp:1556-1577 | nothing else begins a comment |
| ErrorPlaces.ErrorIsAtToken | src/SharedUtilities/jsoncpp.cpp:2004-2013 | the error a parse that fails in the tree records first is exactly a token that reading tokens one after the other comes by, and what its message says of the token is so |
| ErrorPlaces.StringErrorPlace | src/SharedUtilities/jsoncpp.cpp:1897-2002 | the further place of a bad string is behind the byte that breaks its first broken escape |
| ErrorPlaces.RecoverStops | src/SharedUtilities/jsoncpp.cpp:2015-2026 | recovery goes on behind the first token of the type it looks for, or at the end of the input |
| LeftToRight.ErrorLooksNoFurther | src/SharedUtilities/jsoncpp.cpp:1286-1332 | bytes behind the token have no part in the error: every document that begins with the same bytes and does not extend the token fails with the same error |
| LeftToRight.CutKeepsError | src/SharedUtilities/jsoncpp.cpp:1286-1332 | cutting the document off behind the token, or behind the colon of a repeated key, keeps the error |
| Completions.ErrorIsFirstFault | src/SharedUtilities/jsoncpp.cpp:1286-1332 | what stands in front of the token is the beginning of an accepted text, and it goes on with what the message names: a value, a colon, a name, a comma or a brace, a comma or a bracket, either of the two where it offers two; recovery goes on behind the ends of just the containers this completion closes |
| Grammar.LastDuplicateWins | src/SharedUtilities/jsoncpp.cpp:1720-1727 | in the meaning of an object text the last member with a key decides its value |
| Grammar.LastMemberWins | src/SharedUtilities/jsoncpp.cpp:1725-1727 | every key of an object text has a last member, and the object read from the text has that member's value for it |
| Gaps.SkipsGap | src/SharedUtilities/jsoncpp.cpp:1425-1433 | skipping comments from the front of any run of blanks and complete comments, which begin with a slash or, unless single quotes are allowed, an apostrophe, is skipping them from its end |
| Gaps.NextBehindGap | src/SharedUtilities/jsoncpp.cpp:1425-1433 | a value is found behind any such run where comments are allowed, and elsewhere behind blanks |
| Grammar.GapsDoNotMatter | src/SharedUtilities/jsoncpp.cpp:1535-1577 | taking the blanks and comments out of a text leaves it grammatical if and only if it was and has no dropped null alone in an array, and then changes neither what it denotes nor how deep it is |
| ReaderSpec.ReadValue | src/SharedUtilities/jsoncpp.cpp:1334-1423 | for every document and features the cursor does not go back and stays inside the document, and any error lies inside it |
| ReaderSpec.ReadMembers | src/SharedUtilities/jsoncpp.cpp:1687-1747 | the same for the loop over members |
| ReaderSpec.ReadElements | src/SharedUtilities/jsoncpp.cpp:1749-1785 | the same for the loop over elements |
| ReaderSpec.ErrorAccounting | src/SharedUtilities/jsoncpp.cpp:1286-1332 | a parse that does not throw returns true exactly when no error is recorded, with at most one error from the tree and one from the root checks |
| ReaderMeaning.ReadsValue | src/SharedUtilities/jsoncpp.cpp:1334-1423 | reading any grammatical value, laid out anywhere in a document, succeeds with the value it denotes and stops before its terminator, or throws exactly when the node stack does not suffice |
| ReaderMeaning.ReadsElements | src/SharedUtilities/jsoncpp.cpp:1760-1784 | the loop over elements builds the denoted elements in order |
| ReaderMeaning.ReadsMembers | src/SharedUtilities/jsoncpp.cpp:1693-1744 | the loop over members builds the denoted members, later duplicates winning |
| ReaderMeaning.ParseMeaning | src/SharedUtilities/jsoncpp.cpp:1286-1332 | for every text of the grammar, which takes in section 2 of RFC 8259 with blanks and escapes at will, comments wherever the reader skips them, any token for a comma behind a comment and a comma behind an empty last key: with enough stack the parse builds exactly what the text denotes and records no error, or the one of `strictRoot`, and without enough it throws |
| Grammar.WellFormedIff | src/SharedUtilities/jsoncpp.cpp:1720-1724 | `rejectDupKeys`, `allowComments` and `allowDroppedNullPlaceholders` take exactly this away from the most lenient grammar: repeated keys in an object, comments before a value or in place of a dropped one, and dropped values, at any depth |
| Acceptance.FailsValue | src/SharedUtilities/jsoncpp.cpp:1687-1785 | a value with a repeated key, an early comment or a dropped null that the features refuse, however deep, makes the reader fail and never succeed |
| Acceptance.TextAccepted | src/SharedUtilities/json/json.h:1699-1720 | of the texts that are grammatical but for repeated keys, early comments and dropped nulls, those are accepted, stack permitting, that the features admit, and no others; a refusal leaves one or two errors, and one with the root checks off |
| Acceptance.DuplicatesDecide | src/SharedUtilities/json/json.h:1718-1720 | with `rejectDupKeys`, the strict preset included, a text is accepted if and only if no object in it repeats a key and its root is a container if one is called for |
| Language.AcceptedIff | src/SharedUtilities/jsoncpp.cpp:1286-1332 | the language of the reader: with `failIfExtra` and the features that both presets leave off, a document made of tokens, comments included, is accepted if and only if it is a text of the grammar within the stack limit, and a container if one is called for; the tree is then what any such text denotes |
| Language.AcceptedText | src/SharedUtilities/jsoncpp.cpp:1286-1332 | the same half for every `failIfExtra`: whatever document made of tokens is accepted, it begins with a text of the grammar, whose syntax the proof recovers from the run |
| Language.ValueText | src/SharedUtilities/jsoncpp.cpp:1334-1423 | every value the reader reads has a text of the grammar behind it, at that place and no deeper than the stack |
| Language.MembersText | src/SharedUtilities/jsoncpp.cpp:1693-1744 | every object the loop reads to its end has members, separators and a closing as the grammar has them |
| Language.SoundSkip | src/SharedUtilities/jsoncpp.cpp:1425-1433 | what the reader skips before a token is blanks and complete comments |
| Separators.AnyTokenAt | src/SharedUtilities/jsoncpp.cpp:1435-1533 | a token that stands for a comma is recognised by its own bytes, whatever follows, unless it would make a number longer |
| TokenTexts.CharsFrom | src/SharedUtilities/jsoncpp.cpp:1897-1948 | what the string scanner delimits and the decoder accepts is the body of a string literal |
| TokenTexts.NumberFrom | src/SharedUtilities/jsoncpp.cpp:1637-1662 | what the scanner takes for a number is a number text, and all of it |
| Leniencies.CommentBehindElement | src/SharedUtilities/jsoncpp.cpp:1768-1773 | a comment behind an element is skipped whatever `allowComments` says: a document with one is accepted with comments off |
| Leniencies.CommentInBrackets | src/SharedUtilities/jsoncpp.cpp:1753-1760 | a comment, or any gap with one, between the brackets of an otherwise empty array is taken for a dropped null: accepted if and only if comments and dropped nulls are both allowed and the stack suffices, and then an array of one null |
| Leniencies.CommentBeforeColon | src/SharedUtilities/jsoncpp.cpp:1714-1718 | a comment between a key and its colon is an error even with comments on |
| Leniencies.SeparatorTaken | src/SharedUtilities/jsoncpp.cpp:1733-1742 | which token the object loop takes as a separator behind a member: the first one that is not a comment, whatever it is, unless it stands there without a comment and is neither a comma nor a closing brace |
| Leniencies.OnlySeparatorsIff | src/SharedUtilities/jsoncpp.cpp:1733-1742 | the loop takes nothing but commas and closing braces exactly where no comment stands first or the token behind the comments is one of them |
| Leniencies.AnyTokenSeparates | src/SharedUtilities/jsoncpp.cpp:1733-1742 | a document in which a number passes for a comma, and the tree it is read as |
| Leniencies.TrailingCommaIff | src/SharedUtilities/jsoncpp.cpp:1701-1703 | a closing brace where a member is called for passes exactly if the member before it, if any, has an empty key |
| Leniencies.TrailingCommaAccepted | src/SharedUtilities/jsoncpp.cpp:1701-1703 | a document with a comma before a closing brace that every reader accepts |
| Leniencies.LoneMinusIsZero | src/SharedUtilities/jsoncpp.cpp:1797-1836 | a minus sign without digits is accepted and read as 0 |
| ExtraText.ExtraTextRefusedIff | src/SharedUtilities/jsoncpp.cpp:1309-1315 | when `failIfExtra` accepts a document whose root was read, for every such document: exactly if the root is a container if one is called for and behind blanks and allowed comments the document ends, or goes on with a NUL, or without `strictRoot` with bytes that begin no good token |
| ExtraText.RootErrors | src/SharedUtilities/jsoncpp.cpp:1309-1330 | all errors of any parse that does not throw, with their places: that of the tree, and behind it that of the extra text or of the missing container |
| ExtraText.NextTokenIsText | src/SharedUtilities/jsoncpp.cpp:1425-1433 | behind the root the next token is the one that begins behind the blanks and allowed comments |
| ExtraText.ExtraTextAccepted | src/SharedUtilities/json/json.h:1715-1717 | a document with extra text that is accepted without `strictRoot`, although the documentation says it is refused |
| ExtraText.TextBehindNulAccepted | src/SharedUtilities/json/json.h:1715-1717 | a document with text behind a NUL that is accepted even with `strictRoot` |
| ExtraText.LoneSlashAccepted | src/SharedUtilities/json/json.h:1715-1717 | a document with a slash behind it that is accepted without `strictRoot` |
| ExtraText.LateCommentAccepted | src/SharedUtilities/json/json.h:1715-1717 | a comment behind the root that the end of the document ends: accepted if and only if comments are allowed |
| Values.Size | src/SharedUtilities/jsoncpp.cpp:3367-3373 | the size of an array is its highest index plus one |
| Keys.BytesLessAtFork | src/SharedUtilities/jsoncpp.cpp:2769-2784 | the `memcmp` order on keys decides at the first byte where two keys part, or by length |
| Keys.BytesLessIsStrictTotal | src/SharedUtilities/jsoncpp.cpp:2769-2784 | the key order is a strict total order on byte strings, NUL bytes included |
| WriterSyntax.CompactMeaning | src/SharedUtilities/jsoncpp.cpp:4544-4597 | the compact text of any tree without reals, for every reader, is grammatical but for dropped nulls and keys whose repairs coincide, and denotes the tree with strings and keys repaired, where the later of two coinciding keys wins |
| WriterSyntax.CompactDistinct | src/SharedUtilities/jsoncpp.cpp:4581-4595 | the text repeats a key in an object exactly where two keys of one object have the same repair |
| WriterSyntax.CompactDropped | src/SharedUtilities/jsoncpp.cpp:4546-4549 | the text leaves a null out exactly where nulls are dropped and a null or a hole is not alone in its array |
| WriterSyntax.ReadBackIsNorm | src/SharedUtilities/jsoncpp.cpp:4544-4597 | nothing is lost but integer tags and holes if and only if every string and key is valid UTF-8 and, with nulls dropped, no array consists of one null |
| FastWriter.FastWriter.Write | src/SharedUtilities/jsoncpp.cpp:4536-4542 | the document becomes exactly the compact text of the value, with a line feed unless omitted |
| FastWriter.FastWriter.WriteValue | src/SharedUtilities/jsoncpp.cpp:4544-4570 | appends exactly the text of the value |
| FastWriter.FastWriter.WriteArray | src/SharedUtilities/jsoncpp.cpp:4571-4580 | appends the elements below `size()` in order, holes as null |
| FastWriter.FastWriter.WriteObject | src/SharedUtilities/jsoncpp.cpp:4581-4595 | appends the members in key order |
| PrintedText.CompactPrints | src/SharedUtilities/jsoncpp.cpp:4536-4597 | the compact text against a definition in ASCII: brackets, commas, colons with a blank behind them only for YAML, words, numerals and quoted strings |
| PrintedText.StyledPrints | src/SharedUtilities/jsoncpp.cpp:5100-5285 | the indented text against a definition by depth: every member, every element of an array that does not fit on one line and every closing begins a line with one copy of the indentation per level, the others stand on one line |
| PrintedText.FitsIs | src/SharedUtilities/jsoncpp.cpp:5227-5252 | which arrays fit on one line: few elements, none with children, and less than 74 bytes with blanks and brackets |
| PrintedText.ColonIs | src/SharedUtilities/jsoncpp.cpp:5356-5369 | the three colons of the builder |
| Layout.IndentedTextIsLaidOut | src/SharedUtilities/jsoncpp.cpp:5261-5284 | a law about the bytes alone: outside strings every line feed is followed by as many copies of the indentation as containers are open, one fewer before a closing one, and no more |
| StyledWriter.BuildStyle | src/SharedUtilities/jsoncpp.cpp:5356-5369 | the colon symbol the builder chooses keeps a blank style blank |
| StyledWriter.StyledIsCompact | src/SharedUtilities/jsoncpp.cpp:5115-5225 | the indented text has the same tokens as the compact text |
| StyledWriter.StyledBlanks | src/SharedUtilities/jsoncpp.cpp:5115-5225 | with blank indentation everything the indented text adds is blank and outside strings |
| StyledWriter.BuiltStyledStreamWriter.Write | src/SharedUtilities/jsoncpp.cpp:5100-5114 | the stream receives exactly the styled text, whatever state an earlier call left |
| StyledWriter.BuiltStyledStreamWriter.WriteValue | src/SharedUtilities/jsoncpp.cpp:5115-5175 | writes the styled text of the value or, while the child buffer is being filled, appends its text there; `indentString_` is restored |
| StyledWriter.BuiltStyledStreamWriter.WriteArrayValue | src/SharedUtilities/jsoncpp.cpp:5177-5225 | writes the array in the layout its size and line length call for and restores `indentString_` |
| StyledWriter.BuiltStyledStreamWriter.IsMultilineArray | src/SharedUtilities/jsoncpp.cpp:5227-5252 | decides the layout, writes nothing, and leaves the child buffer empty or holding exactly the texts of this array's own elements in order |
| StyledWriter.BuiltStyledStreamWriter.FillChildValues | src/SharedUtilities/jsoncpp.cpp:5236-5249 | the buffer receives one text per element although the elements are written through the same method |
| StyledWriter.BuiltStyledStreamWriter.WriteLines | src/SharedUtilities/jsoncpp.cpp:5183-5208 | writes one element a line, from the buffer or by recursion |
| StyledWriter.BuiltStyledStreamWriter.WriteSingleLine | src/SharedUtilities/jsoncpp.cpp:5209-5223 | writes the buffered elements on one line |
| StyledWriter.BuiltStyledStreamWriter.WriteObject | src/SharedUtilities/jsoncpp.cpp:5147-5173 | writes one member a line and restores `indentString_` |
| RoundTrip.FastRoundTrip | src/SharedUtilities/jsoncpp.cpp:4536-4597 | for any tree without reals, any features of writer and reader and any previous root: parsing the compact text gives the repaired tree and no error but that of `strictRoot`, throws without enough stack, and is not accepted if keys are checked and two have become equal or a null is left out that the reader does not take |
| RoundTrip.FastRoundTripIff | src/SharedUtilities/jsoncpp.cpp:4544-4580 | when the compact round trip is exact, for every such tree, writer and reader: if and only if the stack suffices, the root is a container if one is called for, every string is valid UTF-8, dropped nulls are neither the root nor a whole array, and none is left out unless the reader takes dropped nulls |
| RoundTrip.StyledMeaning | src/SharedUtilities/jsoncpp.cpp:5115-5285 | compact and indented text of a value have the same tokens, meaning, keys, dropped nulls and depth |
| RoundTrip.StyledRoundTrip | src/SharedUtilities/jsoncpp.cpp:5115-5285 | parsing the indented text ends as parsing the compact text does and gives the same tree |
| Pipelines.DepthIsHeight | src/SharedUtilities/jsoncpp.cpp:1336-1337 | the node stack a printed value needs is the number of its levels |
| Pipelines.Recovery | src/SharedUtilities/jsoncpp.cpp:4536-4597 | given a tree without reals, how parsing its compact text ends for every writer and reader: it comes back exactly if it is valid UTF-8 and dropping loses nothing, unless a null is left out that the reader does not take, it has too many levels, which throws, or it is not the container that is called for |
| Pipelines.StyledRecovery | src/SharedUtilities/jsoncpp.cpp:5100-5114 | the same for the indented text, both branches |
| Pipelines.WriteAndRead | src/SharedUtilities/jsoncpp.cpp:4536-4542 | a `FastWriter` object followed by an `OurReader` object, whatever state and features they have: the value comes back in exactly the cases above |
| Pipelines.WriteStyledAndRead | src/SharedUtilities/jsoncpp.cpp:5100-5114 | the same for a `BuiltStyledStreamWriter` with any blank layout |
| Canonical.ParseBuildsCanonical | src/SharedUtilities/jsoncpp.cpp:1334-1423 | whatever the document and the features, a successful parse builds arrays without holes, integers tagged by value, and no more levels than `stackLimit_` |
| Canonical.CanonicalIsNormal | src/SharedUtilities/jsoncpp.cpp:1829-1834 | such a tree is its own normal form |
| Canonical.ReadWriteRead | src/SharedUtilities/jsoncpp.cpp:4536-4542 | for every document that parses, with any features, to a tree without reals: printing the tree and parsing the text gives the same tree if and only if every string is valid UTF-8, dropping nulls loses nothing, and none is left out unless the reader takes dropped nulls |
| Shift.ShiftToken | src/SharedUtilities/jsoncpp.cpp:1435-1533 | a token that ends inside a slice of the document is the same token of the slice |
| Spans.ShiftValue | src/SharedUtilities/jsoncpp.cpp:1334-1423 | with any features, what a successful read makes of a stretch of the document depends on those bytes alone, where a dropped null needs the byte that ends it: not on the rest, the current value or a higher stack |
| Spans.ValueSpan | src/SharedUtilities/jsoncpp.cpp:1347-1403 | a value's span starts at its first token and ends where the cursor stops; that of a dropped null is the byte before the separator or bracket in its place |
| Spans.ValueReparses | src/SharedUtilities/jsoncpp.cpp:1347-1403 | with any features, parsing just the bytes of a value's span builds the value again and fails only where `strictRoot` asks for a container; dropped nulls are the one exception |
| Spans.OffsetsFaithful | src/SharedUtilities/jsoncpp.cpp:1347-1403 | after a successful parse with any features every node lies strictly inside its parent, siblings are disjoint and elements in document order without gaps, and every node parses again from its own bytes; a dropped null has the span said above and may touch what precedes it |
| Spans.DroppedSpans | src/SharedUtilities/jsoncpp.cpp:1391-1403 | the two dropped nulls of `[,]` with their exact spans: the first is the bracket of its array |
| Order.EqualMeaning | src/SharedUtilities/jsoncpp.cpp:3034-3079 | `operator==` holds exactly when the trees agree up to offsets and contain no NaN |
| Order.UnorderedMeaning | src/SharedUtilities/jsoncpp.cpp:2976-3026 | without NaNs two trees are unordered exactly when they agree up to offsets, and never ordered both ways |
| Order.LessSplits | src/SharedUtilities/jsoncpp.cpp:2976-3026 | the lexicographic order has no gaps: below c means below b or b below c |
| Order.OrderIsStrictTotal | src/SharedUtilities/jsoncpp.cpp:2968-3079 | without NaNs `operator<` is a strict total order that agrees with `operator==`, and `compare` is antisymmetric and 0 exactly for equal trees |
| Order.EqualToItselfIff | src/SharedUtilities/jsoncpp.cpp:2968-3047 | a tree equals itself if and only if it contains no NaN, although `compare` of a tree with itself is 0 for every tree |
| OrderMeaning.ScalarsCompare | src/SharedUtilities/jsoncpp.cpp:2976-2993 | integers compare by value, `false` is below `true` |
| OrderMeaning.RealsCompare | src/SharedUtilities/jsoncpp.cpp:2987-2988 | doubles compare by value with the infinities outside, and a NaN is tied with everything |
| OrderMeaning.StringsCompare | src/SharedUtilities/jsoncpp.cpp:2991-3012 | strings compare at the first byte where they part, or by length |
| OrderMeaning.TypesCompare | src/SharedUtilities/json/json.h:552-561 | values of different types compare by the order of the types |
| OrderMeaning.SizesCompare | src/SharedUtilities/jsoncpp.cpp:3013-3018 | of two containers the one with fewer entries is below |
| OrderMeaning.ArraysCompare | src/SharedUtilities/jsoncpp.cpp:3013-3018 | of two arrays of one size the least index at which they part decides |
| OrderMeaning.ObjectsCompare | src/SharedUtilities/jsoncpp.cpp:3013-3018 | of two objects of one size the least key at which they part decides |
| OrderMeaning.FrontIsBelow | src/SharedUtilities/jsoncpp.cpp:3013-3018 | of two entry lists the one that is the front of the other is below |
| OrderMeaning.ArraysTied | src/SharedUtilities/jsoncpp.cpp:3013-3018 | two arrays of one size that part nowhere are tied |
| OrderMeaning.ObjectsTied | src/SharedUtilities/jsoncpp.cpp:3013-3018 | two objects of one size that part nowhere are tied |
| Arrays.WriteObserved | src/SharedUtilities/jsoncpp.cpp:3424-3438 | storing an element is, for the reader of the array, padding with nulls and replacing one position |
| Arrays.BelowObserved | src/SharedUtilities/jsoncpp.cpp:3416-3420 | erasing the indexes from n on leaves the first n elements if and only if n is 0 or position n - 1 is stored |
| Arrays.RemovedObserved | src/SharedUtilities/jsoncpp.cpp:3698-3719 | moving the elements down leaves the others in order, one fewer if and only if the removed one is not last or no hole precedes it |
| Arrays.ArrayValue.Index | src/SharedUtilities/jsoncpp.cpp:3424-3438 | the element, created as null when missing; a value that is neither null nor array throws and is unchanged |
| Arrays.ArrayValue.Assign | src/SharedUtilities/jsoncpp.cpp:3424-3438 | assignment through `operator[]` acts as padding and replacing |
| Arrays.ArrayValue.Append | src/SharedUtilities/jsoncpp.cpp:3640-3640 | appends one element to the sequence and keeps it free of holes |
| Arrays.ArrayValue.Resize | src/SharedUtilities/jsoncpp.cpp:3406-3422 | pads or cuts the sequence, and throws by its own assertion exactly when it cuts right behind a hole; never on an array without holes |
| Arrays.ArrayValue.RemoveIndex | src/SharedUtilities/jsoncpp.cpp:3698-3719 | removes exactly one position of the sequence, for every array and with the exact condition under which trailing holes go too |
| Arrays.GrowThenCut | src/SharedUtilities/json/json.h:890-895 | growing by `resize` and then cutting into the grown part always throws and undoes the growth, although the documentation allows any size |
| Paths.Resolve | src/SharedUtilities/jsoncpp.cpp:4093-4135 | the walk returns the node at the path, or the default when a step fails |
| Paths.MakeIffCompatible | src/SharedUtilities/jsoncpp.cpp:4138-4155 | `make` returns if and only if no node on the way is of the wrong kind, and when it throws the tree is unchanged |
| Paths.PutGetLaw | src/SharedUtilities/jsoncpp.cpp:4093-4155 | on a compatible tree an assigned value is found at its path and its parts behind it, and every path that neither extends nor precedes it resolves as before |
| Paths.FoundElsewhere | src/SharedUtilities/jsoncpp.cpp:4093-4155 | the one trace on other paths: positions an array gains by growing are then found and hold null |
| Paths.PutAbove | src/SharedUtilities/jsoncpp.cpp:4138-4155 | a node on the way is afterwards what the rest of the path makes of it alone |
| PathsInPlace.Subscript | src/SharedUtilities/jsoncpp.cpp:3424-3438 | `operator[]` on a node of the heap: the child, created in place when missing, with no other node changed; a node of the wrong kind throws and is unchanged |
| PathsInPlace.Reframe | src/SharedUtilities/jsoncpp.cpp:4138-4155 | when the subtree at a path has changed and shares no node with the rest, the root stands for the tree with that subtree assigned |
| PathsInPlace.MakeInPlace | src/SharedUtilities/jsoncpp.cpp:4138-4155 | the pointer walk returns the node at the path of the tree that `Paths.Make` describes, throws exactly when that does, and changes no node outside the tree |
| PathsInPlace.PutInPlace | src/SharedUtilities/jsoncpp.cpp:4138-4155 | assigning through the returned pointer makes the root stand for the tree of the get/put law if and only if the path is compatible, and otherwise leaves what it stood for |
| Locations.NormalizeEOL | src/SharedUtilities/jsoncpp.cpp:1579-1597 | the loop turns CRLF and CR into LF |
| Locations.GetLocationLineAndColumn | src/SharedUtilities/jsoncpp.cpp:2043-2064 | the line is one plus the line feeds of the normalised text before the location, and the column counts from its last one, except that it is 0 inside a CRLF |
| Locations.NormalizeMeaning | src/SharedUtilities/jsoncpp.cpp:1579-1597 | normalised text has no carriage return, and normalising again changes nothing |
| WideStrings.WcsicmpZero | src/SharedUtilities/StringUtils.h:23-29 | the comparison ties exactly on names equal ignoring case and is antisymmetric |
| WideStrings.WcsicmpParts | src/SharedUtilities/StringUtils.h:23-29 | the result is the difference of the lower-case forms where they first part |
| WideStrings.WcsicmpTransitive | src/SharedUtilities/StringUtils.h:23-29 | the comparison is a weak order, as `std::set` requires |
| WideStrings.ContainsMeaning | src/DMBridge/NTService.cpp:244-245 | the ordered set's `find` succeeds exactly for names that equal a stored one ignoring case |
| WideStrings.InsertedMeaning | src/DMBridge/NTServiceConfig.cpp:86-86 | insertion keeps the set ordered and adds exactly one name |
| ServiceWhitelist.NTServiceConfig.ParseJSON | src/DMBridge/NTServiceConfig.cpp:53-91 | the field becomes the set of the non-empty strings of the `whitelist` array, in any order and with repeats and other entries; without such an array it is unchanged |
| ServiceWhitelist.NTServiceConfig.ApplyDefaults | src/DMBridge/NTServiceConfig.cpp:44-51 | exactly `w32time`, in any case, is on the default list |
| ServiceWhitelist.NTServiceConfig.FromJson | src/DMBridge/NTServiceConfig.cpp:33-42 | every JSON value gives exactly the list it asks for, or the default |
| ServiceWhitelist.NTService.ValidateNameArgument | src/DMBridge/NTService.cpp:207-246 | the length check, the name check and the whitelist, in that order |
| ServiceWhitelist.ListedIs | src/DMBridge/NTServiceConfig.cpp:44-91 | in letters: what the array under `whitelist` lists, or `w32time`, ignoring case and what stands behind a terminator |
| ServiceWhitelist.CheckConfigured | src/DMBridge/NTService.cpp:207-246 | from configuration to decision, for every configuration and name: an ill-formed name is invalid, and a valid one passes if and only if it equals, ignoring case, a non-empty string of the array, or `w32time` when there is no array |

## Left out

- Real numbers: `decodeDouble`, the printing of doubles and the double range checks rest on the C library; `scan` and `show` stand for them, and round trips are stated for trees without reals.
- Comments: they are skipped input (`collectComments_` false); attaching and printing them again is not modelled, so `writeComment...` writes nothing.
- OurReader.OurReader.ReadValue: after an exception says nothing about the node stack or the half-built root, because the C++ caller only sees the exception. The nodes are values rather than pointers into the tree: popping a node writes it back into its parent.
- ReaderSpec.ReadValue: what a failed parse leaves of the tree is computed as in the source, but no law is stated about it.
- OurReader.OurReader.Parse: the byte behind the document that a scan may look at is taken to be a NUL, as in the strings the callers pass.
- ReaderMeaning.ParseMeaning: single-quoted strings, specials (`NaN`, `Infinity`) and numeric keys are outside the grammar, and so are comments the end of the document cuts off, which only stand behind the root; for them there is termination, bounds, error accounting and offsets. A real number has the meaning its `scan` gives it.
- Language.AcceptedIff: says nothing about documents with NUL bytes or with bytes that are no token. `ExtraText` has, for each kind, an accepted document that is more than a text; bytes that are no token pass for a comma behind a comment as well.
- Completions.ErrorIsFirstFault: the completed text is read with one more level of stack and without checking keys, because the text that breaks off may have used up the one and repeated the other. When the error is at the end of a document that breaks off inside a comment or a string, nothing is said; nor when a colon is missing behind a key of 2^30 bytes.
- Layout.IndentedTextIsLaidOut: for an indentation and colon symbols of spaces and tabs, and doubles printed without blanks, quotes and brackets.
- Paths.PutGetLaw: the law is on values, which `PathsInPlace` shows the nodes stand for; the path is given as its list of arguments, and `makePath` is not modelled.
- PathsInPlace.PutInPlace: the assigned value is a tree of its own whose root is moved into the node; copying it first is not modelled, nor is freeing what it replaces.
- Arrays.ArrayValue.Index: indexes and sizes are unbounded; the wrap of `size()` to 0 when index 2^32 - 1 is stored is not modelled. A reference into the array is modelled by its value and `Assign`.
- Order.OrderIsStrictTotal: the number of entries is compared as an integer; the source subtracts two `size_t` and truncates, which agrees below 2^31 entries. String values hold a string, never a null pointer.
- Spans.OffsetsFaithful: says nothing about re-reading a dropped null from its span, because that byte is not its own.
- Keys of 2^30 bytes and more: the reader throws on them and `CZString` cannot hold their length, so the keys of writable values are shorter than that once repaired.
- StyledWriter.BuiltStyledStreamWriter.Write: `endingLineFeedSymbol_` is the empty string the builder sets, and the stream is the sequence of bytes written to it.
- ServiceWhitelist.NTServiceConfig.ParseJSON: `std::set` is the ascending sequence of its elements, searched by lower bound; the shape of the tree behind it is not modelled. Tracing is left out.
- `StyledWriter`, `StyledStreamWriter` and the older `Reader` apart from `decodeNumber`: near copies of the modelled classes.
- Memory layout of `Value` and `CZString` (prefixed strings, duplication policies, moves): byte strings and maps.
- `getFormattedErrorMessages`, `pushError`, builders' key validation, type conversions (`asInt`, `isUInt64`, ...): would only add easy members.
- Windows services, registry, RPC, processes, logging and TPM calls: input and output.
