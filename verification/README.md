# cJSON and the thread helpers, verified

A Dafny model of two parts of the repository, with proofs of what they promise.

**The JSON engine** (`BBCV-Player/BBCVPalyerAPP/cJSON.c`). Its behaviour is modelled twice. The
pure layer says what is computed: JSON trees and their printed text (`Json`), the parser as a
function of the text (`Parse`), numbers, string literals and UTF-8 (`Numbers`, `Rendering`,
`Strings`, `StringTokens`, `Utf8`, `Bits`), the accepted language as derivation trees (`Grammar`,
`Derivations`, `Uniqueness`), the error position (`Failures`) and the round trip (`RoundTrip`,
`Overruns`); `Spelling` writes the texts out byte by byte. The heap layer has the form of the source: a
`Node` class with `next`, `prev`, `child`, type, values and name, byte arrays filled in place,
cursors moved in loops, an error pointer, and an allocator that may fail and counts what is
live (`Memory`). On it stand the string scans (`StringScans`), the parser (`Parser`), deletion
(`Deleting`), the two-pass printer (`Tables`, `Composing`, `Printer`), the list editors
(`Lists`, `Editors`, `Members`, `Creators`) and the calls put together (`Documents`). Every heap
method is proved against the pure layer.

A ghost `Tree` mirrors what is reachable from a node. `Holds` ties it to the heap: every list is
doubly linked without repetition, the head's `prev` and the last `next` are null, neighbours
agree, every text is a C string. `Owned` is the set of objects a tree owns; a node flagged as a
reference does not own its contents. `Tidy` says that nothing is owned twice.

**The thread helpers** (`TimeDelayParse/Switch_Config/Thread.cpp`). `Condition` is the
wait/signal protocol as atomic steps of any number of threads, with writes of the flag outside
the mutex, spurious wake-ups and time-outs; `ThreadBase` is the self-registering thread list and
any number of callers that wait for it to empty.

What the proofs rest on:

- Numbers are exact reals: the accumulation of digits and the scaling by a power of ten are
  exact, and the printed forms round the exact number to nearest, halves to even. What is given to
  the printer as a tree holds numbers whose text has room in the buffer (`Rendering.FitsIff`), and
  whose integer field, if a caller set it apart from the real one, does not show in the text
  (`Rendering.AgreeIff`).
- Texts are byte sequences without NUL. The parser demands that every escape it meets is
  complete (section 7 of RFC 8259): the decoder steps over a fixed 4 or 6 bytes. `Parse.Overrun`
  marks the texts in which it meets an incomplete one; of them nothing is claimed.
- An allocation may fail at any time, unless the library is declared reliable. Objects used are
  live; freeing an object scribbles over it and takes it out of the live set.
- `tolower` folds ASCII letters. The conversion of an out-of-range double to `int`, which C
  leaves undefined, gives the smallest integer.
- A thread's identity is not reused while the thread is listed. Reading the size of the thread
  list is one step.

Where the code and its comments or header part ways, the model follows the code:

- The join of a surrogate pair uses OR where RFC 2781 adds, so code points of even planes land
  one plane lower (`Utf8.JoinIsStandardIff`), and `\u0000` is dropped (`StringTokens.NulIsDropped`).
- A literal without a closing quote is accepted up to the end of the input, numbers may lack
  digits or start with zeros, control bytes count as blanks, and text behind the value is ignored.
  `Uniqueness.DocumentIff` says exactly when an accepted text is JSON.
- A number read from a text as short as `1e63` is printed past the end of its 64 bytes
  (`Documents.NoRoom`); `Documents.PlainFits` says exactly which parsed trees are safe to print.
- When memory runs out `cJSON_Parse` fails with a null error pointer, although the header offers
  the pointer for the analysis of failed parses.
- `cJSON_GetArrayItem` returns the head for negative indices, not null.
- `cJSON_ReplaceItemInObject` overwrites the new item's name without freeing it.
- A null name or text, which a failed copy leaves behind, prints as nothing at all, so printing
  such a tree and parsing the text does not give it back (`RoundTrip.RoundTripIff`).
- `cJSON_CreateIntArray` and its kin crash when the allocation of an item fails and there are two
  or more (`Creators.CreateIntArray`).
- A notification between a waiter's test and its sleep is lost (`Condition.StuckIff`), and the
  wait for the threads to end may be back before they begin (`ThreadBase.PrematureIff`).

To check the project, run `dafny verify dfyconfig.toml`.

## Model

| member | source | states |
|---|---|---|
| RoundTrip.ParsePrint | BBCV-Player/BBCVPalyerAPP/cJSON.c:263-470 | for every tree whose texts are there and are C strings, every nesting depth and layout, and every text around it that cannot lengthen a final number, parsing the printed text gives the tree back, its numbers as written, with the cursor right behind it; nothing differs if every number is written without loss |
| RoundTrip.PrintInjective | BBCV-Player/BBCVPalyerAPP/cJSON.c:263-470 | two such trees with the same text are the same tree up to what their numbers lost in writing, whatever depth and layout each was printed with |
| RoundTrip.LayoutsAgree | BBCV-Player/BBCVPalyerAPP/cJSON.c:263-264 | the compact and the indented text of a tree both parse, and to the same tree |
| RoundTrip.RoundTripIff | BBCV-Player/BBCVPalyerAPP/cJSON.c:203-470 | for every tree whose texts are C strings, the printed text parses to the tree itself, whole, if and only if no text or name is null and every number is written without loss |
| RoundTrip.NullTexts | BBCV-Player/BBCVPalyerAPP/cJSON.c:207 | inputs where it does not: an array of one null text prints like the empty array, and a null text alone prints nothing and does not parse |
| RoundTrip.ParsedIsFilled | BBCV-Player/BBCVPalyerAPP/cJSON.c:267-412 | no parsed tree holds a null text or name |
| Json.RoundedIffExact | BBCV-Player/BBCVPalyerAPP/cJSON.c:119-140 | the tree its text denotes is the tree itself exactly when every number in it is exact |
| Overruns.PrintNeverOverruns | BBCV-Player/BBCVPalyerAPP/cJSON.c:148-196 | printed text never holds a cut-short escape, so it can always be given to the parser, null texts and all |
| Overruns.ValueInside | BBCV-Player/BBCVPalyerAPP/cJSON.c:148-412 | a text where every quote is followed by complete escapes never drives the parser out of its buffer |
| Spelling.PrintSpelled | BBCV-Player/BBCVPalyerAPP/cJSON.c:203-470 | the printed text byte by byte, in numbers: the keywords; a text between quotes, escaped; brackets and braces around the entries with a comma, and a space or a line break in the indented layout, between any two; tabs, colon and line breaks of members at every depth |
| Spelling.TextSpelled | BBCV-Player/BBCVPalyerAPP/cJSON.c:96-412 | the text of every derivation byte by byte, in numbers: with AcceptsExactly, what bytes an accepted text consists of |
| Spelling.AcceptedSpelled | BBCV-Player/BBCVPalyerAPP/cJSON.c:267-412 | the first byte decides the kind of an accepted value, a keyword stands there byte by byte, and an array or object ends in its own bracket or brace |
| Spelling.NumberIff | BBCV-Player/BBCVPalyerAPP/cJSON.c:96-140 | the tokens called the standard's spell the numbers of section 6 of RFC 8259, all of them and nothing else |
| Spelling.CharacterIff | BBCV-Player/BBCVPalyerAPP/cJSON.c:148-233 | and its literal characters those of section 7 |
| Spelling.BlankIff | BBCV-Player/BBCVPalyerAPP/cJSON.c:249 | the standard's blanks are space, tab, line feed and carriage return, fewer than the parser skips |
| Spelling.SkipSpelled | BBCV-Player/BBCVPalyerAPP/cJSON.c:249 | what is skipped as blank is exactly the bytes from 1 to 32 |
| Spelling.TwoNumbers | BBCV-Player/BBCVPalyerAPP/cJSON.c:252-325 | the text [1,2] is the array of one and two |
| Spelling.OneMember | BBCV-Player/BBCVPalyerAPP/cJSON.c:252-412 | the text of an object of one member, a space before its colon and a tab behind it |
| RoundTrip.AcceptsRfc | BBCV-Player/BBCVPalyerAPP/cJSON.c:267-412 | every text of the grammar of sections 2 to 7 of RFC 8259, with blanks around it, is accepted and consumed up to the trailing blanks, with the structure and member order its derivation denotes |
| RoundTrip.RfcIff | BBCV-Player/BBCVPalyerAPP/cJSON.c:96-412 | the derivations of the standard are those of the parser whose blanks, literal characters and numbers are the standard's, and no others |
| Grammar.ValueComplete | BBCV-Player/BBCVPalyerAPP/cJSON.c:249-412 | every derivable text (a superset of RFC 8259 given by derivation trees) is accepted whole and yields the meaning of its derivation |
| Derivations.AcceptsExactly | BBCV-Player/BBCVPalyerAPP/cJSON.c:249-412 | but for a literal that runs into the end of the input, the parser accepts a text with a tree and a cursor if and only if a derivation with that meaning and length exists; so no accepted array or object ends in a comma, and no member lacks its colon |
| Derivations.OpenLiteralAccepted | BBCV-Player/BBCVPalyerAPP/cJSON.c:148-196 | the remaining case: a literal that is never closed is accepted as a string up to the end of the input |
| Uniqueness.Unique | BBCV-Player/BBCVPalyerAPP/cJSON.c:249-412 | two derivations of what stands at one place are the same |
| Uniqueness.StandardIff | BBCV-Player/BBCVPalyerAPP/cJSON.c:249-412 | the value an accepted text holds, apart from what stands around it, is a value of RFC 8259 if and only if its derivation, the only one there is, belongs to the grammar of the standard |
| Uniqueness.DocumentIff | BBCV-Player/BBCVPalyerAPP/cJSON.c:249-412 | a text is a JSON text of RFC 8259, a value between blanks, if and only if it is accepted, what was consumed is a value of the standard, and the bytes skipped before it and left behind it are blanks of the standard |
| Uniqueness.DocumentByDerivation | BBCV-Player/BBCVPalyerAPP/cJSON.c:249-412 | for an accepted text whose outer literal is closed, the derivation that explains the acceptance decides, together with those blanks |
| Uniqueness.NeverClosed | BBCV-Player/BBCVPalyerAPP/cJSON.c:148-196 | a text that is one never closed literal is always accepted and never JSON |
| Uniqueness.NoDocuments | BBCV-Player/BBCVPalyerAPP/cJSON.c:96-255 | five accepted texts that are not JSON, one for each reason: a lone minus sign, a zero before other digits, text behind the value, a control byte as a blank, a quote never closed |
| Derivations.AcceptsMoreThanRfc | BBCV-Player/BBCVPalyerAPP/cJSON.c:96-255 | inputs that are accepted: a lone minus sign, a zero before other digits, text behind the value, a control byte before it |
| Failures.FailureExact | BBCV-Player/BBCVPalyerAPP/cJSON.c:252-412 | the error position of a failed parse is exact: an accepted text goes on through the byte there if and only if that byte begins a keyword where a value is wanted, or is a point right behind a number without fraction and exponent |
| Failures.FailurePrefix | BBCV-Player/BBCVPalyerAPP/cJSON.c:252-412 | what stands before the error position, and the byte there too if it goes on, begins some text that is accepted whole |
| Failures.FailureStays | BBCV-Player/BBCVPalyerAPP/cJSON.c:252-412 | when the byte does not go on, every text that begins the same way fails at the same position |
| Failures.OtherBytesFail | BBCV-Player/BBCVPalyerAPP/cJSON.c:252-412 | in particular at every byte other than a point and the first letters of the keywords |
| Documents.Copy | BBCV-Player/BBCVPalyerAPP/cJSON.c:252-470 | printing a tree of the heap and parsing the text builds the tree the text stands for out of new objects only, which is the printed one, its numbers as written, if no text or name is null; afterwards exactly that tree has been added to the live objects. Where memory is short, an item has no known type or the text does not parse, nothing has |
| Documents.Print | BBCV-Player/BBCVPalyerAPP/cJSON.c:263-264 | cJSON_Print and cJSON_PrintUnformatted: a null item gives null; otherwise the result of print_value at depth 0 |
| Documents.PlainIsDeep | BBCV-Player/BBCVPalyerAPP/cJSON.c:282-470 | a parsed tree contains no references and only known types, so the printer may be given it |
| Documents.PlainFits | BBCV-Player/BBCVPalyerAPP/cJSON.c:119-140 | it may be given to print_value if and only if the text of each of its numbers has room in its buffer |
| Documents.NoRoom | BBCV-Player/BBCVPalyerAPP/cJSON.c:129-133 | one that may not: the text 1e63 parses, to a number whose text with its terminator needs more than the 64 bytes |
| Documents.HeldIsClean | BBCV-Player/BBCVPalyerAPP/cJSON.c:203-236 | the texts and names of a tree in memory are C strings |
| Parser.ParseRoot | BBCV-Player/BBCVPalyerAPP/cJSON.c:252-260 | cJSON_Parse: a returned node roots a tree of new objects, owned once each, with consistent links, whose value is the pure parse of the text; the live objects grow by exactly that tree, and the error pointer is null. On failure every allocated object is freed again; the error pointer is the position of the pure parse's failure, or null when an allocation failed |
| Parser.ParseValue | BBCV-Player/BBCVPalyerAPP/cJSON.c:267-279 | one value into a given node: whatever the outcome, what was allocated is exactly what the node now owns; cursor, tree and error position agree with the pure parser |
| Parser.ParseArray | BBCV-Player/BBCVPalyerAPP/cJSON.c:300-325 | the same for arrays |
| Parser.ParseElems | BBCV-Player/BBCVPalyerAPP/cJSON.c:309-324 | the element loop: each new node is linked behind the list before it is parsed into, so a failure anywhere leaves a list that can be deleted |
| Parser.NextElem | BBCV-Player/BBCVPalyerAPP/cJSON.c:314-321 | behind a comma a node is hung and the next element is read into it |
| Parser.ParseObject | BBCV-Player/BBCVPalyerAPP/cJSON.c:379-412 | the same for objects |
| Parser.ParseMembers | BBCV-Player/BBCVPalyerAPP/cJSON.c:388-411 | the member loop of an object |
| Parser.NextMember | BBCV-Player/BBCVPalyerAPP/cJSON.c:397-408 | behind a comma a node is hung and the next member is read into it |
| Parser.ParseName | BBCV-Player/BBCVPalyerAPP/cJSON.c:390-393 | the name of a member: the decoded text is moved from value to name and a colon must follow, else the error pointer stands on the byte in its place |
| Parser.ParseString | BBCV-Player/BBCVPalyerAPP/cJSON.c:143-200 | one literal into a node: a new buffer with the decoded bytes, the cursor behind the closing quote; without memory or without an opening quote the node is as it was |
| Parser.ParseNumber | BBCV-Player/BBCVPalyerAPP/cJSON.c:96-116 | one number into a node: value, truncated integer and cursor of the token that stands there, in exact arithmetic |
| Parser.GrowOne | BBCV-Player/BBCVPalyerAPP/cJSON.c:316-320 | a list extended by a linked, completed item is again linked and owned, one item longer in its value |
| Deleting.Delete | BBCV-Player/BBCVPalyerAPP/cJSON.c:81-93 | from the live objects exactly those the list owns disappear, each freed once (a freed object may not be freed again); the contents of reference items are not touched |
| Deleting.DeleteOne | BBCV-Player/BBCVPalyerAPP/cJSON.c:87-90 | the same for one node: children, text, name, then the node |
| Trees.HoldsRelinked | BBCV-Player/BBCVPalyerAPP/cJSON.c:478-497 | rewriting next and prev of the items of a list leaves what each item holds untouched |
| Trees.TypesByNumber | BBCV-Player/BBCVPalyerAPP/cJSON.h:32-40 | what an item stands for by the number in the low byte of its type, and which bit marks a reference |
| Printer.PrintValue | BBCV-Player/BBCVPalyerAPP/cJSON.c:282-297 | under any pattern of allocation failures: a returned buffer is new, holds exactly the printed text, and is the only object left over; null leaves the live objects as they were and means that an allocation failed or an item has no known type |
| Printer.PrintArray | BBCV-Player/BBCVPalyerAPP/cJSON.c:328-376 | the same for arrays, through counting, gathering, measuring and composing |
| Printer.GatherItems | BBCV-Player/BBCVPalyerAPP/cJSON.c:342-349 | the table of entry texts, no buffer twice, and the measured length; a failed entry stops the loop |
| Printer.ComposeArray | BBCV-Player/BBCVPalyerAPP/cJSON.c:365-375 | composing in the measured buffer writes the array's text, every entry and the table freed on the way |
| Printer.PrintObject | BBCV-Player/BBCVPalyerAPP/cJSON.c:415-470 | the same for objects with two tables |
| Printer.GatherMembers | BBCV-Player/BBCVPalyerAPP/cJSON.c:434-439 | the tables of names and values and the measured length; a failed entry does not stop the loop |
| Printer.NextMember | BBCV-Player/BBCVPalyerAPP/cJSON.c:436-438 | one member's name and value into the tables, and its share of the measured length; each failed print leaves its slot empty |
| Printer.ComposeObject | BBCV-Player/BBCVPalyerAPP/cJSON.c:454-469 | composing the object's text, every name, value and both tables freed on the way |
| Printer.PrintStringPtr | BBCV-Player/BBCVPalyerAPP/cJSON.c:203-236 | a C string in quotes and escaped, in a buffer that fits exactly; a null pointer gives empty text |
| Printer.PrintNumber | BBCV-Player/BBCVPalyerAPP/cJSON.c:119-140 | whatever the two number fields hold and whatever the branch, "%d", "%.0f", "%e" or "%f", the buffer holds the text of these fields, unless the text is too long for the 64 bytes, which is reported as an overrun exactly then |
| Rendering.RenderIsRfc | BBCV-Player/BBCVPalyerAPP/cJSON.c:119-140 | whatever the number, its text is a number of section 6 of RFC 8259 |
| Rendering.FormOf | BBCV-Player/BBCVPalyerAPP/cJSON.c:123-135 | which form a number gets, with the bounds in numbers: the integer field if it is within 2^-52 of the number and that is in range, else the whole number within 2^-52 below, else six decimals from a millionth up to a thousand million, else one digit, six decimals and an exponent of two digits or more |
| Rendering.TiesToEven | BBCV-Player/BBCVPalyerAPP/cJSON.c:133-135 | a number halfway between two goes to the even one |
| Rendering.ExactIff | BBCV-Player/BBCVPalyerAPP/cJSON.c:119-140 | the text denotes the number itself if and only if it is an integer, has seven significant digits at most in the scientific form, or six decimals at most in the fixed one |
| Rendering.AgreeIff | BBCV-Player/BBCVPalyerAPP/cJSON.c:123-135 | an item whose integer field was set apart from the real one is written as its real number alone would be if and only if both integers lead to the same answer of the first test, or the number passes for whole |
| Rendering.FixedIsToken | BBCV-Player/BBCVPalyerAPP/cJSON.c:135 | the fixed form is a token whose value is the number to the nearest millionth |
| Rendering.SciIsToken | BBCV-Player/BBCVPalyerAPP/cJSON.c:134 | the scientific form is a token whose value is the number to seven significant digits, a carry into the exponent included |
| Rendering.FitsIff | BBCV-Player/BBCVPalyerAPP/cJSON.c:130-136 | the 64 bytes hold the text unless the number is an integer of 64 digits or more, or its exponent has 54 or more, a minus sign taking one of them |
| Rendering.Int32IsExact | BBCV-Player/BBCVPalyerAPP/cJSON.c:123-127 | a 32-bit integer is written exactly and in the "%d" form |
| Rendering.SeventhDecimal | BBCV-Player/BBCVPalyerAPP/cJSON.c:135 | an input that loses its seventh decimal |
| Printer.PrintNulFree | BBCV-Player/BBCVPalyerAPP/cJSON.c:282-297 | printed text never holds a NUL |
| Tables.Release | BBCV-Player/BBCVPalyerAPP/cJSON.c:357-362 | the failure path of print_array frees every gathered entry and the table |
| Tables.ReleaseBoth | BBCV-Player/BBCVPalyerAPP/cJSON.c:446-451 | the failure path of print_object frees names, values and both tables, whichever slots are filled |
| Json.ArraySlack | BBCV-Player/BBCVPalyerAPP/cJSON.c:331-375 | the length print_array computes exceeds the text and terminator by exactly 3 + n (+1 if formatted), by 2 for an empty array |
| Json.ObjectSlack | BBCV-Player/BBCVPalyerAPP/cJSON.c:418-469 | the length print_object computes exceeds the text and terminator by exactly 5, by 4 for an empty object |
| Strings.SameClose | BBCV-Player/BBCVPalyerAPP/cJSON.c:148-196 | for every literal with complete escapes the measuring and the decoding scan stop at the same byte, and the decoded bytes do not exceed the measured length |
| Strings.DecodeNulFree | BBCV-Player/BBCVPalyerAPP/cJSON.c:155-195 | decoded text holds no NUL, so it is a C string |
| StringScans.Measure | BBCV-Player/BBCVPalyerAPP/cJSON.c:148 | the measuring scan |
| StringScans.DecodeInto | BBCV-Player/BBCVPalyerAPP/cJSON.c:154-195 | the decoding scan writes the decoded bytes into the buffer and stops at the close |
| StringScans.DecodeEscape | BBCV-Player/BBCVPalyerAPP/cJSON.c:167-190 | the \u case with its surrogate pairs and its lone halves |
| StringTokens.DecodeTokens | BBCV-Player/BBCVPalyerAPP/cJSON.c:154-196 | a literal laid out as a sequence of characters and escapes decodes to the meaning of that sequence, pair by pair |
| StringTokens.TokensText | BBCV-Player/BBCVPalyerAPP/cJSON.c:148-196 | conversely every literal with complete escapes is such a sequence |
| Strings.HexReads | BBCV-Player/BBCVPalyerAPP/cJSON.c:168-175 | four hexadecimal digits, in either case, are read as the number they write, most significant first |
| Strings.HexIff | BBCV-Player/BBCVPalyerAPP/cJSON.c:168-175 | nothing but a decimal digit or one of the letters A to F, in either case, is such a digit |
| StringTokens.EscapesDenote | BBCV-Player/BBCVPalyerAPP/cJSON.c:158-193 | the two-byte escapes give backspace, form feed, line feed, carriage return and tab, and any other byte stands for itself |
| StringTokens.UnitDenotes | BBCV-Player/BBCVPalyerAPP/cJSON.c:168-187 | a lone \u escape gives the UTF-8 form of its code unit, and nothing for zero and for half a surrogate pair |
| StringTokens.PairDenotes | BBCV-Player/BBCVPalyerAPP/cJSON.c:173-187 | a first half and the \u escape behind it give one code point above 0xFFFF, or nothing if that is no second half |
| StringTokens.StandardIffFaithful | BBCV-Player/BBCVPalyerAPP/cJSON.c:168-177 | the decoded bytes of a literal whose surrogates are paired are the UTF-8 form of its code points if and only if it has no \u0000 and no pair whose 20-bit value has bit 16 set |
| StringTokens.NulIsDropped | BBCV-Player/BBCVPalyerAPP/cJSON.c:171 | an input where it is not: \u0000 denotes the code point zero and gives no byte |
| StringTokens.CountIsExact | BBCV-Player/BBCVPalyerAPP/cJSON.c:208-233 | the counting pass of the printer finds exactly the bytes the emitting pass writes |
| StringTokens.QuoteIsTokens | BBCV-Player/BBCVPalyerAPP/cJSON.c:213-233 | the emitted text is a string of section 7 of RFC 8259 that denotes the original bytes |
| StringTokens.DecodeQuote | BBCV-Player/BBCVPalyerAPP/cJSON.c:143-236 | parse_string of what print_string_ptr wrote returns the original bytes, cursor just past the closing quote, for every NUL-free string |
| StringScans.Count | BBCV-Player/BBCVPalyerAPP/cJSON.c:208 | the counting pass |
| StringScans.Emit | BBCV-Player/BBCVPalyerAPP/cJSON.c:213-235 | the emitting pass fills its buffer to the last byte with the quoted text and the terminator |
| Utf8.Fill | BBCV-Player/BBCVPalyerAPP/cJSON.c:142-187 | the backward fall-through fill with its bit operations writes exactly the UTF-8 form of the code (section 3 of RFC 3629) |
| Utf8.DecodeEncode | BBCV-Player/BBCVPalyerAPP/cJSON.c:179-187 | decoding that form returns the code |
| Utf8.ContinuationByte | BBCV-Player/BBCVPalyerAPP/cJSON.c:182-184 | uc OR 0x80, AND 0xBF, is the marker over the low six bits, for every uc |
| Utf8.JoinIsStandardIff | BBCV-Player/BBCVPalyerAPP/cJSON.c:177 | the joined surrogate pair is the code point of section 2.2 of RFC 2781 if and only if bit 16 of the 20-bit value is clear |
| Utf8.EvenPlanesLandOneLower | BBCV-Player/BBCVPalyerAPP/cJSON.c:177 | every other pair lands one plane lower; D840 DC00, for U+20000, comes out as U+10000 |
| Numbers.ScanComplete | BBCV-Player/BBCVPalyerAPP/cJSON.c:101-110 | every token, those of section 6 of RFC 8259 among them, is consumed whole before any text that cannot lengthen it |
| Numbers.ScanSound | BBCV-Player/BBCVPalyerAPP/cJSON.c:101-110 | what is consumed is such a token, and the longest one |
| Numbers.DecIsToken | BBCV-Player/BBCVPalyerAPP/cJSON.c:119-127 | the "%d" rendering of an integer is a token of RFC 8259 whose value is the integer |
| Numbers.DecFits | BBCV-Player/BBCVPalyerAPP/cJSON.c:125 | for 32-bit integers it takes at most 11 bytes |
| Numbers.IntOfTruncates | BBCV-Player/BBCVPalyerAPP/cJSON.c:113 | the integer field is the number truncated toward zero, for negative numbers too |
| Lists.Unlink | BBCV-Player/BBCVPalyerAPP/cJSON.c:488-489 | taking the k-th node out of a linked list leaves the linked list without it, and the node detached; only its neighbours and the head are rewritten |
| Lists.SwapIn | BBCV-Player/BBCVPalyerAPP/cJSON.c:495-497 | putting a node in the place of the k-th keeps the list linked, and detaches the old node |
| Lists.SuffixObject | BBCV-Player/BBCVPalyerAPP/cJSON.c:478 | hanging a node behind the last keeps the list linked |
| Lists.Walk | BBCV-Player/BBCVPalyerAPP/cJSON.c:474 | walking to an index: everything below one means the head, past the end is null |
| Editors.GetArraySize | BBCV-Player/BBCVPalyerAPP/cJSON.c:473 | the number of items |
| Editors.GetArrayItem | BBCV-Player/BBCVPalyerAPP/cJSON.c:474 | the item at the index, the head for a non-positive one |
| Editors.AddItemToArray | BBCV-Player/BBCVPalyerAPP/cJSON.c:483 | appends the item to the owned list, nothing for a null item; only the head or the last link and the item's prev change |
| Editors.DetachItemFromArray | BBCV-Player/BBCVPalyerAPP/cJSON.c:488-489 | removes the indexed item and returns it detached, with what it owns split off from what the rest owns; past the end nothing changes |
| Editors.DeleteItemFromArray | BBCV-Player/BBCVPalyerAPP/cJSON.c:490 | frees exactly what the indexed item owned and keeps the rest in order |
| Editors.ReplaceItemInArray | BBCV-Player/BBCVPalyerAPP/cJSON.c:495-497 | the new item stands in the old one's place, and exactly what the old one owned is freed |
| Editors.EditsMean | BBCV-Player/BBCVPalyerAPP/cJSON.c:483-498 | on the JSON values and members of the list, append, removal and replacement are the sequence operations |
| Editors.Enclosing | BBCV-Player/BBCVPalyerAPP/cJSON.c:483-498 | the item whose list was edited is again an owned tree, over the new list |
| Members.StrCaseCmp | BBCV-Player/BBCVPalyerAPP/cJSON.c:39-44 | zero exactly when the names agree but for case or both are null; else the difference at the first byte that disagrees |
| Members.SameNameIff | BBCV-Player/BBCVPalyerAPP/cJSON.c:39-44 | two names agree if and only if they have the same length and at every place the same byte or the same letter from A to Z in the other case |
| Members.FirstMatch | BBCV-Player/BBCVPalyerAPP/cJSON.c:475 | the first item answering to a name: it matches and none before it does |
| Members.GetObjectItem | BBCV-Player/BBCVPalyerAPP/cJSON.c:475 | returns the first match |
| Members.DetachItemFromObject | BBCV-Player/BBCVPalyerAPP/cJSON.c:491 | detaches the very node the lookup returns and keeps the order of the rest |
| Members.DeleteItemFromObject | BBCV-Player/BBCVPalyerAPP/cJSON.c:492 | frees exactly what that node owned |
| Members.AddItemToObject | BBCV-Player/BBCVPalyerAPP/cJSON.c:484 | frees the old name, gives the item a copy of the key (none if memory is short) and appends it |
| Members.ReplaceItemInObject | BBCV-Player/BBCVPalyerAPP/cJSON.c:498 | the first match is replaced by the renamed new item; the name the new item had before stays allocated and belongs to no item |
| Members.LookupAfterAdd | BBCV-Player/BBCVPalyerAPP/cJSON.c:475-484 | an added item is found only if no earlier member matches |
| Members.LookupAfterReplace | BBCV-Player/BBCVPalyerAPP/cJSON.c:475-498 | after a replacement every lookup lands on the same index, so the key finds the new item and other names what they found |
| Members.LookupAfterDetach | BBCV-Player/BBCVPalyerAPP/cJSON.c:475-491 | after a detachment other names find what they found, and the key finds the next match |
| Creators.CreateReference | BBCV-Player/BBCVPalyerAPP/cJSON.c:480 | a new nameless node that shares the contents and owns nothing but itself |
| Creators.FlagIsBit | BBCV-Player/BBCVPalyerAPP/cJSON.c:480 | the type word of a reference is the other one with bit 8 set |
| Creators.ReferenceMeans | BBCV-Player/BBCVPalyerAPP/cJSON.c:480 | a reference stands for the same value and owns only its node |
| Creators.AddItemReferenceToArray | BBCV-Player/BBCVPalyerAPP/cJSON.c:485 | the list grows by such a reference, or not at all without memory |
| Creators.CreateIntArray | BBCV-Player/BBCVPalyerAPP/cJSON.c:511 | with no failed allocation, a new owned array of the first count numbers in order, empty for a non-positive count; the call crashes on a null pointer if and only if an item's allocation failed and count is two or more, and with count one it returns an empty array then |
| Creators.CreateStringArray | BBCV-Player/BBCVPalyerAPP/cJSON.c:514 | the same for strings, each copied, null where a copy failed: failed copies never crash it, failed items do exactly when count is two or more |
| Condition.TrueReturnsBounded | TimeDelayParse/Switch_Config/Thread.cpp:20-71 | in every interleaving of any number of threads the waits that returned true never outnumber the signals; each signal was taken by one wait, merged into a pending one, or is pending |
| Condition.TrueFindsFlag | TimeDelayParse/Switch_Config/Thread.cpp:34-40 | a wait decides for true only holding the mutex and finding the flag set, and clears it |
| Condition.PendingStays | TimeDelayParse/Switch_Config/Thread.cpp:58-70 | a pending signal stays pending until a wait that returns true takes it: no number of time-outs consumes it |
| Condition.NotifyWakes | TimeDelayParse/Switch_Config/Thread.cpp:20-30 | a broadcast leaves nobody asleep, a signal wakes at least one sleeper if there is any, and no other thread moves |
| Condition.TimeOut | TimeDelayParse/Switch_Config/Thread.cpp:58-66 | after the deadline of a wait has passed its thread takes two steps and no others: it gets the mutex back deciding for false, and lets it go; neither touches the flag nor any account |
| Condition.FalseIffExpired | TimeDelayParse/Switch_Config/Thread.cpp:32-71 | in every run, a wait decides for false if and only if its own deadline ended its sleep since its call; one without a deadline never does |
| Condition.TimesOut | TimeDelayParse/Switch_Config/Thread.cpp:43-66 | a run where a timed wait that nobody signals is back with false |
| Condition.CanMoveIff | TimeDelayParse/Switch_Config/Thread.cpp:20-71 | in every reachable state a thread can take a step unless it wants the mutex and another has it, and who has it never wants it; a sleeper can wake at any time, and time out exactly if it has a deadline |
| Condition.SafeStep | TimeDelayParse/Switch_Config/Thread.cpp:20-71 | every step keeps mutual exclusion, the flag under a taker, and the account of signals |
| Condition.NoLostWakeup | TimeDelayParse/Switch_Config/Thread.cpp:20-36 | as long as no notification of a set flag falls between a waiter's test and its sleep, no state is reached where someone sleeps on a set flag with nobody left to wake or take |
| Condition.StuckIff | TimeDelayParse/Switch_Config/Thread.cpp:20-71 | a step leads into such a state if and only if a waiter falls asleep on a flag set behind its test while nobody is on the way to look or to notify |
| Condition.StuckThrough | TimeDelayParse/Switch_Config/Thread.cpp:20-71 | every run that is stuck got there by such a step |
| Condition.LostWakeup | TimeDelayParse/Switch_Config/Thread.cpp:20-36 | a run of two threads where one does, and the waiter is left asleep on a set flag with no call under way |
| Condition.DeadlineValidIff | TimeDelayParse/Switch_Config/Thread.cpp:51-56 | the deadline is always ms milliseconds ahead, and a valid time exactly when the nanoseconds before the carry are not negative and not one full second |
| Condition.DeadlineAtCarry | TimeDelayParse/Switch_Config/Thread.cpp:53 | an input where the strict comparison leaves a full second in the nanoseconds |
| Condition.QuotTruncates | TimeDelayParse/Switch_Config/Thread.cpp:51-52 | seconds and the rest of the milliseconds are the quotient and remainder truncated toward zero |
| ThreadBase.RegisteredRun | TimeDelayParse/Switch_Config/Thread.cpp:112-135 | in every reachable state the list holds, each once, exactly the threads between their push and their removal, and one thread at most is inside the lock |
| ThreadBase.OneStage | TimeDelayParse/Switch_Config/Thread.cpp:89-135 | each step takes one thread one stage further and no other; registering hangs it behind the others, and only its own removal takes it out |
| ThreadBase.CanMoveIff | TimeDelayParse/Switch_Config/Thread.cpp:89-135 | nothing but the mutex holds up a thread, and only before it registers and before it takes itself out |
| ThreadBase.WaitEndsIff | TimeDelayParse/Switch_Config/Thread.cpp:105-110 | a look at the count ends the wait if and only if no thread is registered at that moment |
| ThreadBase.BackMeansChecked | TimeDelayParse/Switch_Config/Thread.cpp:105-110 | any caller that is back from its wait saw an empty list before, however often the condition woke it or failed to |
| ThreadBase.EndMeansOverIff | TimeDelayParse/Switch_Config/Thread.cpp:105-137 | at the look that ends a wait all threads are over if and only if none is still on its way into the list |
| ThreadBase.NoneComes | TimeDelayParse/Switch_Config/Thread.cpp:89-137 | unless a thread is created, none comes to be on its way into the list, and threads that are over stay over |
| ThreadBase.PrematureIff | TimeDelayParse/Switch_Config/Thread.cpp:89-137 | in every reachable state and for every caller: without further creations, some interleaving brings a wait called now back before all threads are over if and only if there is a gap now, that is, a created thread that has not locked the mutex yet, or one about to be the first in an empty list |
| ThreadBase.PrematureAnyIff | TimeDelayParse/Switch_Config/Thread.cpp:89-137 | with creations allowed this is so if and only if there is a gap or a thread yet to be created |
| ThreadBase.Drain | TimeDelayParse/Switch_Config/Thread.cpp:112-135 | from every reachable state the lock can become free and the list empty by steps of the starter and the registered threads alone, so neither is ever stuck |
| ThreadBase.WaitOutlasts | TimeDelayParse/Switch_Config/Thread.cpp:89-137 | a wait called when there is no gap, with no thread created until it is back, comes back only when all threads are over |
| ThreadBase.BackTooEarly | TimeDelayParse/Switch_Config/Thread.cpp:105-127 | a run where a wait called in a gap is back although a thread created before its call has yet to register |

## Left out

- Deleting.Delete: recursion depth and the order of the individual frees are not part of the contract.
- Parser.ParseNumber: exact arithmetic stands for binary floating point (rounding, overflow to infinity, the accuracy of `pow`), and an unbounded exponent for the code's `int`, which overflows on exponents of ten digits or more.
- Printer.PrintNumber: what happens after a text has been written past the 64 bytes; infinities, not-a-number and negative zero are no reals.
- Printer.PrintValue: trees with a number too long for its buffer, or with an integer field that a caller set apart from the real one so that it shows in the text.
- Literals with incomplete escapes or a dangling backslash, on which the decoder may leave the buffer.
- A null input to cJSON_Parse, which fails with a null error pointer.
- cJSON_InitHooks and the real malloc and free; an allocation of zero bytes counts as an ordinary one.
- Locale and signed-char behaviour of tolower.
- The limit of the 32-bit `int` on lengths, counts and depths.
- cJSON_CreateNull, CreateTrue, CreateFalse, CreateBool and CreateObject: leaves like those modelled; CreateFloatArray and CreateDoubleArray: the loop of CreateIntArray; AddItemReferenceToObject: two modelled calls in a row.
- Printing and editing through a reference whose original was edited or deleted in the meantime: the printer asks that what it looks through is live and linked.
- The other copies of cJSON.c in the repository; four of them do not free member names.
- The time source, sleep(1), thread creation that fails, thread attributes, console output and the destructor of Thread_Base.
- TimeDelayParse/Switch_Config/Record.cpp, whose splitting rests on a header that is not part of this model; socket, process and file plumbing; vendor headers.
