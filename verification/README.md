# A verified model of the JSON and configuration codecs of linglong

The client and the command-line tools of the repository run on two vendored libraries: cJSON
(`external/http/external/cJSON.c`) and CLI11 (`external/CLI11/CLI/CLI.hpp`). This project models their hardest
parts in Dafny, together with two generated response models that sit on top of cJSON, and proves what they promise
for all inputs.

Code that moves cursors, fills buffers, rewires pointers or pushes and pops vectors is modelled by classes, arrays
and loops. Each such method is proved against a function of its inputs or of the old state, and the properties are
proved about those functions. A second layer says what the functions compute without using them: grammars, laws and
stories that are written from the characters on, and proved to agree with the functions on all inputs. Check everything
with `dafny verify dfyconfig.toml`.

## What is modelled

cJSON:

* **The parser** (`JsonParse`, `JsonString`, `JsonNumber`, `Unicode`): a cursor over a C string with its terminator.
  Every byte up to 32 is white space, the terminator too, and the cursor steps back where it ran out of text. String
  literals are read in two passes that can fall out of step, because malformed hexadecimal digits read as 0. Nesting
  is limited to 1000.
* **The printer** (`Printing`, `JsonRender`, `Growth`): a growable or fixed buffer of bytes that holds the terminator
  the length update looks for, and the doubling policy of the buffer.
* **Round trips** (`JsonRoundTrip`): parsing printed text, and printing parsed text.
* **The language** (`JsonGrammar`, `Numerals`, `Literals`, `HexText`, with the proofs `GrammarReading` and
  `GrammarTaking`): JSON texts as trees of tokens with what stands between them, which the parser accepts exactly;
  and the layout of the printer as a function of the unformatted text (`JsonLayout`).
* **The minifier** (`Minify`, `MinifyMeaning`, `MinifyComments`): in place, with one cursor chasing the other.
* **Comparison and copy** (`Compare`, `CompareMeaning`), **the child list** (`ChildList`): a doubly linked list, edited
  in place, whose first `prev` is null.
* **The response models** (`Wire`, `WireKeys`): records with text and number fields and a list of records.

CLI11:

* **Escapes** (`Escapes`, `BinaryEscapes`, `EscapeLaws`), **splitting and quoting** (`Splitting`, `SplitLaws`,
  `Quoting`): the layered encodings of command lines and configuration values.
* **Configuration values** (`ConfigValue`, `MultiLine`, `ConfigList`, with the laws `ConfigLaws` and `MultiLineLaws`):
  one value, a value written over several lines and a list of values, written, read back from the lines of a file and
  handed to an option.
* **Sections** (`Sections`, `SectionEvents`): the open and close events of the configuration reader.
* **The argument loop** (`Arguments`, `ArgumentResults`, `ArgumentOrder`, `ArgumentStory`, `ArgumentLoop`): one
  application without parent, subcommands or configuration, and what a run over a command line may do.
* **Checked multiplication** (`CheckedMultiply`).

`Bytes`, `Bits` and `JsonValue` hold the vocabulary. `hide` statements in proofs keep definitions that a step does not
need away from the solver.

## Where the code does not do what one might expect

Each of these has a lemma with an input that fails and a theorem with the exact condition.

* A text nested deeper than 1000 is printed but not parsed again: `JsonRoundTrip.TooDeep`, and `JsonRoundTrip.RoundTrip`
  for all trees.
* An object with a null member is not equal to its own copy: `Compare.NullMemberDiffers`, and `Compare.EqualToCopy`
  for all trees.
* A configuration file that goes back to the default section from a section of two or more levels leaves events open,
  unless another section follows at once: `Sections.DefaultLeavesOpen`, and `Sections.FromConfig` for all files.
* A text that needs no binary escape but looks like one is changed by extracting: `BinaryEscapes.LooksEscaped`, and
  `BinaryEscapes.BinaryRoundTrip` for all texts.
* A value that the writer spreads over several lines is not what the quote handling of a single item reads
  (`ConfigValue.QuotesAreLost`, `ConfigValue.ValueRoundTrip`), and an option's own delimiter cuts values up
  (`ConfigValue.CommaCuts`, `ConfigValue.DelimitedRoundTrip`).
* The reader of several lines takes a backslash at the end of a line for a joint, takes three quotes at the end of a
  line for the closing, and handles quotes and brackets in the value it has put together: `MultiLine.BackslashJoins`,
  and `MultiLine.OverLinesRoundTrip` for all values. For that reason `ConfigList.ListRoundTrip` has a condition too,
  and because a list without values is written as nothing, which is read as one empty value.
* Without the end check, minifying a text can change the number it consists of: `MinifyMeaning.NumbersGrowTogether`,
  and `MinifyMeaning.MinifyKeepsValue` for all texts. No other value changes.
* Four bytes behind `\u` that are no digits are not refused but end the string: `GrammarTaking.MalformedDigits`;
  `GrammarTaking.AcceptsSources` has the whole language.
* Splitting loses the byte right behind a closing quote or bracket: `SplitLaws.LosesByte`, and `SplitLaws.GroupFirst`
  for all texts.
* A list of lists can look like a text in brackets whose bytes were doubled: `ConfigLaws.DoubledByChance`, and
  `ConfigLaws.NestResults` for all lists of words that do not.
* The buffer more than doubles at every reallocation from a capacity up to half of the size cap, and at no other
  (`Growth.MoreThanDoubles`). A jump to the cap from above one half can bring the bytes moved up to the capacity or
  beyond it: `Growth.LateJump`, and `Growth.CopiedBelowCapacity` for all runs.

## Model

| member | source | states |
|---|---|---|
| JsonRoundTrip.RoundTrip | external/http/external/cJSON.c:1212-1717 | for every printable tree, in both layouts and with or without the end check, parsing the printed text gives the tree back and stops at the terminator if the nesting is at most 1000, and gives nothing otherwise |
| JsonRoundTrip.TooDeep | external/http/external/cJSON.c:1341-1349 | a tree nested 1000 deep survives printing and parsing in both layouts; one nested 1001 deep is printed and refused by the parser |
| GrammarTaking.AcceptsSources | external/http/external/cJSON.c:1000-1077 | a C string is accepted as a whole, for a value, if and only if it is written by the grammar and stands for that value: tokens with bytes up to 32 between them, no more than 1000 arrays and objects open, no numeral of more than 63 bytes, perhaps behind a byte order mark |
| GrammarReading.DocRead | external/http/external/cJSON.c:1212-1603 | wherever a document of the grammar stands, and at whatever depth it fits, the value parser reads it as what it stands for and stops behind it |
| GrammarTaking.DocTaken | external/http/external/cJSON.c:1212-1603 | whatever the value parser reads is a document of the grammar that stands for the value it answers |
| GrammarTaking.EscapedUnit | external/http/external/cJSON.c:540-695 | a literal with the escape of a code point below 65536, digits in either case, is the string of its UTF-8 bytes |
| GrammarTaking.EscapedPair | external/http/external/cJSON.c:596-695 | so is one with the two escapes of the surrogates of any other code point |
| GrammarTaking.MalformedDigits | external/http/external/cJSON.c:540-574 | four bytes that spell no number are read as the terminator, which ends the string |
| JsonRoundTrip.ParseOfRender | external/http/external/cJSON.c:1212-1338 | wherever printed text stands in a text and at whatever depth, the value parser reads exactly that text as that tree, or fails when the nesting does not fit |
| JsonRoundTrip.ParsedValue | external/http/external/cJSON.c:1212-1264 | whatever the parser accepts nests within the limit, and can be printed if its numbers are short integers |
| JsonRoundTrip.StoredTextRoundTrip | external/http/model/object.c:25-47 | text that was parsed, printed and stored is parsed again, end check included, to the same tree |
| JsonRoundTrip.ParseOfInteger | external/http/external/cJSON.c:266-340 | an integer below 10^15 in magnitude is read back from its text if no byte of a numeral follows |
| JsonNumber.StrtodOfIntText | external/http/external/cJSON.c:311-340 | the longest numeral at the start of an integer's text is all of it, with that integer as its value |
| JsonNumber.IntTextLength | external/http/external/cJSON.c:473-537 | the text of such an integer fits the local buffer of the number printer |
| JsonNumber.CopiesText | external/http/external/cJSON.c:279-312 | the copying loop takes a numeral up to its first foreign byte, if that is within 63 bytes |
| Numerals.TakesNumeral | external/http/external/cJSON.c:311-340 | what the reader of numerals takes is a numeral: sign, digits, point, places and exponent, and its value is all digits as one integer, moved by the exponent and the number of places |
| Numerals.TakesLongest | external/http/external/cJSON.c:311-340 | no numeral at the start of a text is longer than what the reader takes |
| Numerals.TakesWhole | external/http/external/cJSON.c:311-340 | a numeral that is the whole text is taken as a whole, for its value |
| JsonParse.ParseBuffer.SkipWhitespace | external/http/external/cJSON.c:963-981 | the cursor stops at the first byte above 32 or steps back onto the last byte of the text |
| JsonParse.ParseBuffer.ReadNumber | external/http/external/cJSON.c:266-340 | the cursor moves behind the numeral, or stays |
| JsonParse.ParseBuffer.ReadString | external/http/external/cJSON.c:698-824 | content and end of the literal, or the position of the offending escape |
| JsonParse.ParseBuffer.ReadValue | external/http/external/cJSON.c:1212-1264 | computes the parsing function, never passes the nesting limit, and restores the depth on success |
| JsonParse.ParseBuffer.ReadArray | external/http/external/cJSON.c:1341-1432 | the same for arrays, with white space around brackets and commas |
| JsonParse.ParseBuffer.ReadItems | external/http/external/cJSON.c:1373-1413 | the loop over elements collects them in order up to the bracket |
| JsonParse.ParseBuffer.ReadObject | external/http/external/cJSON.c:1497-1603 | the same for objects |
| JsonParse.ParseBuffer.ReadMember | external/http/external/cJSON.c:1553-1577 | key, colon and value with white space between them |
| JsonParse.ParseBuffer.ReadMembers | external/http/external/cJSON.c:1527-1585 | the loop over members collects them in order, repeated keys included, up to the brace |
| JsonParse.ParseValue | external/http/external/cJSON.c:1212-1264 | success strictly advances the cursor and leaves it inside the text; failure reports a position in it |
| JsonParse.ParseText | external/http/external/cJSON.c:1000-1077 | on every terminated text the reported position lies inside the text |
| JsonParse.ParseWithOpts | external/http/external/cJSON.c:984-1077 | on every C string it terminates, reads only inside the text and its terminator, and computes that function |
| JsonString.DecodedFits | external/http/external/cJSON.c:715-817 | what the decoding pass yields from any point on fits what the scanning pass left room for, even when the passes are out of step |
| JsonString.EscapesFromBound | external/http/external/cJSON.c:711-737 | from any point on the scan meets no more escapes than there are bytes left |
| JsonString.BudgetFits | external/http/external/cJSON.c:735-811 | as long as the budget is kept, the terminator fits into the block |
| JsonString.FindClosingQuote | external/http/external/cJSON.c:711-733 | the first pass finds the closing quote the scan function defines, with the number of skipped bytes |
| JsonString.DecodeStep | external/http/external/cJSON.c:746-811 | one step of the second pass writes inside the block, keeps the budget and what was written |
| JsonString.DecodeLiteral | external/http/external/cJSON.c:735-824 | the second pass yields the decoded content, shorter than the block that was allocated |
| JsonString.ScanOfEscaped | external/http/external/cJSON.c:711-733 | the first pass stops exactly behind an escaped text |
| JsonString.DecodeOfEscaped | external/http/external/cJSON.c:746-946 | the second pass undoes the printer's escapes |
| Literals.LiteralRead | external/http/external/cJSON.c:698-824 | a literal filled by pieces - bytes for themselves, escapes of one letter, escapes of code points - is read as what the pieces stand for, up to a terminator among it |
| Literals.LiteralTaken | external/http/external/cJSON.c:698-824 | whatever literal is read is filled by such pieces, also where the passes disagree |
| Literals.PrintsShort | external/http/external/cJSON.c:899-941 | the printer writes the escape of one letter where there is one |
| Literals.PrintsOthers | external/http/external/cJSON.c:899-941 | it writes four digits, small letters among them, for other control bytes, and every other byte for itself |
| Unicode.ParseHex4 | external/http/external/cJSON.c:540-574 | the value of four digits, 0 as soon as one is malformed; which digits there are, `HexText.ReadsSpelled` says |
| HexText.ReadsSpelled | external/http/external/cJSON.c:540-574 | digits are read as a number if and only if they spell it with the sixteen capital or the sixteen small digits, the most significant first |
| Unicode.EncodeUtf16 | external/http/external/cJSON.c:596-638 | decoding the units of section 2.1 of RFC 2781 by section 2.2 gives the code point back |
| Unicode.ReadsEveryScalar | external/http/external/cJSON.c:577-638 | every scalar value is read from its one or two well-formed escapes, with the right length; `GrammarTaking.EscapedUnit` and `GrammarTaking.EscapedPair` spell the digits |
| Unicode.RefusesLoneSurrogate | external/http/external/cJSON.c:596-628 | a low surrogate, or a high one without a low one behind it, is refused |
| Unicode.Utf8RoundTrip | external/http/external/cJSON.c:640-689 | the encoding of section 3 of RFC 3629 decodes to the code point and its length, by a decoder that refuses malformed trail bytes, overlong forms, surrogates and values beyond Unicode |
| Unicode.Utf8Unique | external/http/external/cJSON.c:640-689 | whatever that decoder accepts begins with the encoding of the code point it answers, so no other bytes stand for it |
| Unicode.Utf8Examples | external/http/external/cJSON.c:640-689 | the examples of section 7 of RFC 3629 |
| Unicode.Utf8Bytes | external/http/external/cJSON.c:672-687 | lead byte and trail bytes in terms of six-bit groups |
| Unicode.EncodeInto | external/http/external/cJSON.c:640-689 | exactly the encoding is written at the output position, and nothing else changes |
| Unicode.ReadUtf16 | external/http/external/cJSON.c:577-638 | length and code point of the escape, 0 for a refused one |
| Unicode.Utf16LiteralToUtf8 | external/http/external/cJSON.c:577-695 | reads one escape and writes its encoding, or writes nothing |
| Unicode.AppendCodepoint | external/CLI11/CLI/CLI.hpp:907-929 | appends the same encoding of every scalar value, byte for byte; nothing beyond Unicode; an exception for a surrogate |
| JsonRender.RenderNulFree | external/http/external/cJSON.c:1267-1338 | printed text holds no terminator |
| JsonLayout.FormattedIsPretty | external/http/external/cJSON.c:1435-1717 | the formatted text is the layout of the unformatted one: a line for every member with as many tabs as brackets and braces are open, a tab behind colons, a blank behind the commas of arrays |
| JsonLayout.IntegerText | external/http/external/cJSON.c:473-537 | an integer is printed with a dash if it is negative, its digits and no zero in front of them |
| Printing.PrintBuffer.Ensure | external/http/external/cJSON.c:373-458 | succeeds exactly within the limit of the buffer, keeps every byte written so far, reallocates only a growable buffer |
| Printing.PrintBuffer.UpdateOffset | external/http/external/cJSON.c:460-471 | the terminator that was stored makes the offset the length of the text |
| Printing.PrintBuffer.PrintNumber | external/http/external/cJSON.c:473-537 | appends the decimal text, exactly when it fits with two bytes to spare |
| Printing.PrintBuffer.CountEscapes | external/http/external/cJSON.c:854-878 | the first pass counts the bytes that escaping adds |
| Printing.PrintBuffer.StoreEscaped | external/http/external/cJSON.c:899-941 | the second pass writes exactly the escaped text into the space that was ensured |
| Printing.PrintBuffer.PrintString | external/http/external/cJSON.c:827-946 | appends the quoted text, an empty literal for a missing string, exactly when it fits with two bytes to spare |
| Printing.PrintBuffer.PrintValue | external/http/external/cJSON.c:1267-1338 | appends the rendering of the tree behind what was there, exactly when it fits with two bytes to spare; the depth is restored |
| Printing.PrintBuffer.PrintArray | external/http/external/cJSON.c:1435-1494 | the same for arrays |
| Printing.PrintBuffer.PrintObject | external/http/external/cJSON.c:1606-1717 | the same for objects, with tabs, line breaks and commas |
| Printing.PrintPreallocated | external/http/external/cJSON.c:1192-1209 | succeeds if and only if the buffer is at least the text and two bytes long, and then holds the rendering and its terminator |
| Printing.Print | external/http/external/cJSON.c:1087-1160 | a fresh block with exactly the rendering and its terminator, below the size cap |
| Printing.PrintBuffered | external/http/external/cJSON.c:1162-1190 | the same from any non-negative start size |
| Growth.AmortisedGrowth | external/http/external/cJSON.c:373-458 | over any run of requests the bytes moved stay below twice the capacity, below the capacity itself short of the cap, and a grown capacity stays within twice the largest request |
| Growth.MoreThanDoubles | external/http/external/cJSON.c:395-421 | a reallocation more than doubles the capacity if and only if the capacity was at most half of the size cap, also when it goes to the cap |
| Growth.TwiceOrCap | external/http/external/cJSON.c:395-421 | a request that does not fit gets twice what it asks for, or the cap |
| Growth.OneMoreRequest | external/http/external/cJSON.c:373-458 | after any run, one more growth leaves the bytes moved below the capacity if and only if it is no late jump: from a grown capacity above half of the cap, with at least the cap moved by then |
| Growth.CopiedBelowCapacity | external/http/external/cJSON.c:373-458 | over any run that has grown the buffer the bytes moved are fewer than its capacity if and only if no late jump was met; behind one the capacity is the cap |
| Growth.LateJump | external/http/external/cJSON.c:395-405 | two requests, each one byte too large, move at least as many bytes as the final capacity |
| Printing.PaidFor | external/http/external/cJSON.c:373-458 | of every buffer the printer has worked on: the bytes moved are fewer than its capacity if and only if its requests met no late jump, and never reach twice the capacity |
| Minify.MinifyInPlace | external/http/external/cJSON.c:2632-2700 | the block ends up with the minified text, the write cursor never passing the read cursor; tells when an open literal or comment carries the cursor out of the text; what the minified text is, `MinifyComments.MinifiedDocument` says |
| Minify.MinifiesPrints | external/http/external/cJSON.c:2632-2700 | the formatted print of any tree is minified to exactly its unformatted print, which stays as it is |
| Minify.MinifiedRender | external/http/external/cJSON.c:2632-2700 | the same for a print in front of any further text |
| MinifyComments.LineCommentGone | external/http/external/cJSON.c:2660-2667 | a comment to the end of its line leaves nothing in front of any text, and at the end of the text |
| MinifyComments.BlockCommentGone | external/http/external/cJSON.c:2668-2677 | a comment in a block leaves nothing and ends at its first closing, which may share its star with the opening |
| MinifyComments.BlockCommentOpen | external/http/external/cJSON.c:2668-2677 | without a closing it carries the cursor out of the text |
| MinifyComments.MinifiedDocument | external/http/external/cJSON.c:2632-2700 | whatever blanks and comments stand between the tokens of a document, minifying leaves the document without them |
| MinifyComments.MinifiedIsRead | external/http/external/cJSON.c:2632-2700 | a document with comments is accepted once it is minified, for what it stands for |
| MinifyMeaning.MinifyKeepsMeaning | external/http/external/cJSON.c:2632-2700 | every text the parser accepts as a whole is minified to a text it accepts as a whole with the same tree |
| MinifyMeaning.MinifyKeepsValue | external/http/external/cJSON.c:1080-1083 | every text that is parsed without the end check and minified within its bounds gives the same tree if and only if it is no number, or its numeral is read alike from what is left; a first byte behind the numeral that belongs to no numeral is enough |
| MinifyMeaning.ValueKept | external/http/external/cJSON.c:1212-1264 | a value is read at the place its text is moved to, up to the place of its end; only a number needs something behind it that keeps apart |
| MinifyMeaning.NumberKept | external/http/external/cJSON.c:266-340 | a numeral in front of anything that keeps apart from it in what is left stays whole, with its value and its end |
| MinifyMeaning.StringKept | external/http/external/cJSON.c:698-824 | a literal is moved unchanged and decodes to the same string |
| MinifyMeaning.Blanks | external/http/external/cJSON.c:963-981 | white space skipped in the text is skipped in what is left of it |
| MinifyMeaning.NumbersGrowTogether | external/http/external/cJSON.c:1031-1045 | without the end check two numbers can be minified into one |
| Compare.Find | external/http/external/cJSON.c:1772-1801 | the first member with a matching key |
| Compare.CaseInsensitiveStrcmp | external/http/external/cJSON.c:96-118 | 0 exactly when the folded strings are equal, otherwise the sign of the first difference, the shorter one first; 1 for a missing string |
| Compare.GetObjectItem | external/http/external/cJSON.c:1772-1801 | the first member with a matching key, or nothing when that one is null |
| Compare.Symmetric | external/http/external/cJSON.c:2802-2925 | comparison is symmetric on all trees, in both modes |
| Compare.Transitive | external/http/external/cJSON.c:2802-2925 | comparison is transitive on all trees, in both modes |
| CompareMeaning.EqualMeans | external/http/external/cJSON.c:2802-2925 | two trees compare equal if and only if they stand for the same value, objects being maps from keys, and no object of either holds a null member or two values under one key |
| CompareMeaning.ObjectFreeEqual | external/http/external/cJSON.c:2802-2925 | trees without objects compare equal if and only if they are the same |
| CompareMeaning.DistinctKeysEqual | external/http/external/cJSON.c:2802-2925 | trees with distinct keys and no null members compare equal if and only if they are the same up to the order of members and the folding of keys |
| CompareMeaning.LettersFold | external/http/external/cJSON.c:96-118 | folding takes capital letters to small ones and leaves every other byte alone |
| CompareMeaning.OrderByFirst | external/http/external/cJSON.c:96-118 | two strings are told apart by the first byte that differs in lower case, the end of a string counting as 0 |
| Compare.EqualToCopy | external/http/external/cJSON.c:2802-2925 | a tree equals its copy if and only if no object has a null member and every member equals the first one with a matching key |
| Compare.DistinctKeysCompare | external/http/external/cJSON.c:2802-2925 | without null members and with distinct keys a tree equals its copy |
| Compare.NullMemberDiffers | external/http/external/cJSON.c:1797-1799 | a null member keeps an object from equalling its copy |
| Compare.Compare | external/http/external/cJSON.c:2802-2925 | the walk over two trees computes that comparison, which `CompareMeaning.EqualMeans` characterises |
| Compare.CompareMembers | external/http/external/cJSON.c:2888-2917 | one of the two loops over members |
| Compare.Duplicate | external/http/external/cJSON.c:2553-2630 | the same tree, or its top without children |
| ChildList.Node.GetArrayItem | external/http/external/cJSON.c:1743-1760 | the item at an index, nothing behind the end |
| ChildList.Node.AddItem | external/http/external/cJSON.c:1847-1874 | the list stays well linked and has the item appended |
| ChildList.Node.InsertItem | external/http/external/cJSON.c:2144-2171 | inserted at the index, appended behind the end, ignored below zero |
| ChildList.Node.DetachItem | external/http/external/cJSON.c:2074-2102 | removed from the list, and isolated |
| ChildList.Node.DetachFromArray | external/http/external/cJSON.c:2104-2112 | the same by index, nothing out of range |
| ChildList.Node.ReplaceItem | external/http/external/cJSON.c:2173-2206 | exactly that item is exchanged, and the old one isolated |
| ChildList.Node.ReplaceInArray | external/http/external/cJSON.c:2208-2216 | the same by index, nothing out of range |
| ChildList.Node.Edit | external/http/external/cJSON.c:1819-2216 | any run of edits with new items keeps the list well linked and refines the edits of a sequence |
| ChildList.InsertUndone | external/http/external/cJSON.c:2104-2171 | detaching undoes inserting; detaching and inserting again replaces |
| Wire.WireRoundTrip | external/http/model/fuzzy_search_app_200_response.c:50-180 | converted, printed in either layout, parsed and read, every response comes back equal, list order and omitted fields included |
| Wire.ResponseRoundTrip | external/http/model/fuzzy_search_app_200_response.c:104-180 | reading undoes converting for every response |
| Wire.RegisterRoundTrip | external/http/model/request_register_struct.c:107-381 | reading undoes converting for every record of 14 fields |
| Wire.LookupField | external/http/external/cJSON.c:1898-1933 | each member added under its own key is found under that key, an omitted one is not found |
| WireKeys.SendsRegister | external/http/model/request_register_struct.c:107-227 | every field of a record is sent as the one member with its key, spelled out, or not at all if it is null or zero |
| WireKeys.SendsResponse | external/http/model/fuzzy_search_app_200_response.c:50-102 | the same for the four fields of a response, its list entry by entry |
| WireKeys.ReadsRegister | external/http/model/request_register_struct.c:229-381 | any object is read as a record if and only if each field is what stands under its key, spelled out, and has the right type |
| WireKeys.ReadsResponse | external/http/model/fuzzy_search_app_200_response.c:104-180 | any tree is read as a response if and only if the same holds of its four keys |
| WireKeys.RecordExample | external/http/model/request_register_struct.c:229-381 | the text {"name":"demo"} is parsed and read to the record of that name |
| WireKeys.ResponseExample | external/http/model/fuzzy_search_app_200_response.c:104-180 | the text {"code":200,"msg":"ok"} is parsed and read to that response |
| Wire.ResponsePrintable | external/http/model/fuzzy_search_app_200_response.c:50-102 | a converted response can be printed and nests three deep at most |
| Wire.ConvertRegister | external/http/model/request_register_struct.c:107-227 | adds the members one by one, leaving out null texts and a zero size; their keys are spelled out in `WireKeys.SendsRegister` |
| Wire.ConvertRecords | external/http/model/fuzzy_search_app_200_response.c:62-78 | the array holds one object for each record, in order |
| Wire.ConvertResponse | external/http/model/fuzzy_search_app_200_response.c:50-102 | the object of a response |
| Wire.ReadRegister | external/http/model/request_register_struct.c:229-381 | every field by its key, spelled out in `WireKeys.ReadsRegister`; nothing when a member has the wrong type |
| Wire.ReadRecords | external/http/model/fuzzy_search_app_200_response.c:120-139 | the list in order; nothing when an entry is no object |
| Wire.ReadResponse | external/http/model/fuzzy_search_app_200_response.c:104-180 | the response; nothing when a member has the wrong type |
| CheckedMultiply.Multiply | external/CLI11/CLI/CLI.hpp:4199-4227 | true with the product exactly when the type holds it, false with the operand unchanged otherwise, for every width and both signednesses |
| CheckedMultiply.OverflowCheck | external/CLI11/CLI/CLI.hpp:4199-4211 | the test by truncating division is exact for all sign combinations |
| CheckedMultiply.MinimumOverflows | external/CLI11/CLI/CLI.hpp:4219-4221 | the smallest value times anything but 0 and 1 is not representable |
| Sections.FromConfig | external/CLI11/CLI/CLI.hpp:10749-10774 | the list of events and items for every file, which is well nested with none open at the end if and only if every return to the default section from two or more levels is followed at once by a section |
| SectionEvents.ItemsTold | external/CLI11/CLI/CLI.hpp:10749-10774 | the list of every file: at a header, closers of what does not lie around the new section, then openers of the way to it; closers at the end |
| SectionEvents.SegmentsTell | external/CLI11/CLI/CLI.hpp:10627-10674 | the closers written and taken back come to exactly that |
| SectionEvents.KeepsEntries | external/CLI11/CLI/CLI.hpp:10749-10774 | without its events the list is the items of the file in their order |
| Sections.CheckParentSegments | external/CLI11/CLI/CLI.hpp:10627-10674 | the list behind a header, in which exactly all prefixes of its path are open, although closers written before are taken back |
| Sections.CloseOthers | external/CLI11/CLI/CLI.hpp:10632-10655 | which closers are repeated or taken back, and how many sections stay open around the new one |
| Sections.CloseDownTo | external/CLI11/CLI/CLI.hpp:10633-10637 | closers are repeated until the path is short enough |
| Sections.CommonLength | external/CLI11/CLI/CLI.hpp:10640-10647 | the length of the common front of two paths |
| Sections.OpenFrom | external/CLI11/CLI/CLI.hpp:10656-10674 | opens the remaining prefixes one inside the other |
| Sections.SectionsOnly | external/CLI11/CLI/CLI.hpp:10749-10774 | a file without returns to the default section meets the condition |
| Sections.DefaultLeavesOpen | external/CLI11/CLI/CLI.hpp:10749-10774 | a section of two levels and a return to the default section: the events are open, open, close, and the outer section is left open |
| Escapes.EscapeRoundTrip | external/CLI11/CLI/CLI.hpp:876-989 | removing escapes undoes adding them for every byte string |
| Escapes.RemoveAdded | external/CLI11/CLI/CLI.hpp:931-989 | the same in front of any further text |
| Escapes.NothingToEscape | external/CLI11/CLI/CLI.hpp:872-889 | a text without escapable bytes is left alone |
| Escapes.AddEscapedCharacters | external/CLI11/CLI/CLI.hpp:876-889 | the loop writes the escaped text |
| Escapes.ReadHex | external/CLI11/CLI/CLI.hpp:891-903 | the value of the digits, an exception when one is malformed; which digits there are, `HexText.ReadsSpelled` says |
| Escapes.RemoveEscapedCharacters | external/CLI11/CLI/CLI.hpp:931-989 | the loop removes every kind of escape and throws for every malformed one |
| EscapeLaws.RemovesLetter | external/CLI11/CLI/CLI.hpp:938-944 | each letter behind a backslash, the zero among them, is read as its byte in front of any text |
| EscapeLaws.RemovesCode | external/CLI11/CLI/CLI.hpp:945-980 | four or eight digits in either case are read as the UTF-8 bytes of the code point they spell, as nothing beyond Unicode, and refused for a surrogate |
| EscapeLaws.RefusesOthers | external/CLI11/CLI/CLI.hpp:931-989 | everything else behind a backslash is refused |
| EscapeLaws.AddsLetter | external/CLI11/CLI/CLI.hpp:876-889 | the bytes that have a letter are escaped by it |
| EscapeLaws.AddsNothing | external/CLI11/CLI/CLI.hpp:876-889 | no others are |
| BinaryEscapes.BinaryRoundTrip | external/CLI11/CLI/CLI.hpp:1109-1196 | extracting undoes escaping if and only if the text does not at once need no escape (printable, no x behind a backslash) and look like one |
| BinaryEscapes.LooksEscaped | external/CLI11/CLI/CLI.hpp:1151-1157 | the text B"()" is not escaped, and extracting gives the empty text |
| BinaryEscapes.UnhexBody | external/CLI11/CLI/CLI.hpp:1109-1196 | the escaped body reads back as the text, backslash-x sequences and single quotes included |
| BinaryEscapes.BodyUnchanged | external/CLI11/CLI/CLI.hpp:1109-1136 | the body of the escape is the text itself if and only if every byte is printable and no x stands behind a backslash |
| BinaryEscapes.BinaryEscapeString | external/CLI11/CLI/CLI.hpp:1109-1149 | the loops write the escape |
| BinaryEscapes.HideAllQuotes | external/CLI11/CLI/CLI.hpp:1137-1142 | searching from the start again and again hides every single quote |
| BinaryEscapes.ExtractBinaryString | external/CLI11/CLI/CLI.hpp:1159-1196 | the loop reads the escapes back and never takes a byte of the closing |
| EscapeLaws.UnhexesByte | external/CLI11/CLI/CLI.hpp:1177-1190 | a backslash, an x in either case and two digits in either case are the byte the digits spell |
| EscapeLaws.UnhexesNothing | external/CLI11/CLI/CLI.hpp:1177-1193 | any other byte stands for itself |
| EscapeLaws.HexesByte | external/CLI11/CLI/CLI.hpp:1109-1136 | bytes outside the printable range, and an x behind a backslash, are written as two small digits |
| Splitting.CloseStringQuote | external/CLI11/CLI/CLI.hpp:991-1003 | the closing quote, with escaped bytes skipped |
| Splitting.CloseLiteralQuote | external/CLI11/CLI/CLI.hpp:1005-1008 | the next equal quote, or the end |
| Splitting.CloseSequence | external/CLI11/CLI/CLI.hpp:1010-1055 | where the stack of brackets becomes empty, quotes skipped as a whole |
| Splitting.Split | external/CLI11/CLI/CLI.hpp:1057-1095 | the loop over a shrinking text yields the pieces, none longer than the text |
| Splitting.TrimTwice | external/CLI11/CLI/CLI.hpp:728-752 | trimming once is enough |
| SplitLaws.Trims | external/CLI11/CLI/CLI.hpp:728-752 | trimming takes off exactly the blanks at both ends |
| SplitLaws.GroupEnds | external/CLI11/CLI/CLI.hpp:991-1055 | wherever a sequence between quotes or brackets stands, with others inside it, the scanner stops on its last byte |
| SplitLaws.GroupFirst | external/CLI11/CLI/CLI.hpp:1057-1095 | such a sequence is a piece, the byte behind it is lost, and the rest is split as it stands |
| SplitLaws.WordFirst | external/CLI11/CLI/CLI.hpp:1057-1095 | a word is a piece in front of a separator |
| SplitLaws.LosesByte | external/CLI11/CLI/CLI.hpp:1073-1080 | "a"bc is split into "a" and c |
| Quoting.CommandLineRoundTrip | external/CLI11/CLI/CLI.hpp:1057-1208 | every list of byte strings, quoted, escaped and joined with spaces, is given back by splitting and removing the quotes |
| Quoting.SplitJoined | external/CLI11/CLI/CLI.hpp:1057-1095 | splitting a joined list of written values gives them back in order, at spaces or at commas |
| Quoting.QuoteEndOfEscaped | external/CLI11/CLI/CLI.hpp:991-1003 | the scanner stops exactly at the quote behind an escaped text |
| Quoting.RemoveQuotes | external/CLI11/CLI/CLI.hpp:1198-1208 | each argument stripped in place, unescaped only between double quotes |
| ConfigLaws.QuotesGo | external/CLI11/CLI/CLI.hpp:1198-1208 | quotes of one kind at both ends are taken off, and escapes count between double quotes |
| ConfigValue.ValueRoundTrip | external/CLI11/CLI/CLI.hpp:10515-10572 | for every byte string: written, taken for a single item and handed to an option without delimiter it is the one result, if and only if the writer keeps it on one line |
| ConfigValue.DelimitedRoundTrip | external/CLI11/CLI/CLI.hpp:6622-6680 | with any delimiter, for every byte string: the value is the one result if and only if it is kept on one line and is in brackets or free of the delimiter, or is spread over lines and the delimiter is the single quote and not in it |
| ConfigValue.QuotesAreLost | external/CLI11/CLI/CLI.hpp:10558-10562 | a value of 101 double quotes is written over lines, and a single item keeps the three quotes at both ends |
| ConfigValue.CommaCuts | external/CLI11/CLI/CLI.hpp:6622-6680 | a value with a comma becomes two results for an option with that delimiter |
| ConfigValue.ConvertedReads | external/CLI11/CLI/CLI.hpp:10515-10572 | which spelling the writer chooses, and that reading it yields the value, protected if it is in brackets |
| ConfigValue.OneResult | external/CLI11/CLI/CLI.hpp:6622-6680 | a protected text is one result, but for the delimiter |
| ConfigValue.SecondaryIsOneResult | external/CLI11/CLI/CLI.hpp:1210-1220 | doubling protects every text in brackets from being taken for a list |
| ConfigValue.HandleSecondaryArray | external/CLI11/CLI/CLI.hpp:1210-1220 | the loop doubles every byte |
| ConfigValue.ProcessQuotedString | external/CLI11/CLI/CLI.hpp:1222-1245 | resolves binary escapes, texts in the first quotes and texts in the second, in this order, and tells whether there were any |
| ConfigValue.AddResult | external/CLI11/CLI/CLI.hpp:6622-6680 | appends exactly the results of a text, nested lists and delimiters taken apart, and counts them |
| ConfigValue.SplitAt | external/CLI11/CLI/CLI.hpp:712-726 | the pieces between delimiters, one empty piece for the empty text |
| ConfigLaws.WriterChooses | external/CLI11/CLI/CLI.hpp:10515-10572 | which spelling the writer chooses, for all values, from their bytes and length |
| ConfigLaws.QuotesResolve | external/CLI11/CLI/CLI.hpp:1222-1245 | quotes of a kind around an item are taken off; between double quotes escapes are resolved |
| ConfigLaws.NestResults | external/CLI11/CLI/CLI.hpp:6622-6680 | an option that takes several values gets the words of a list of lists in order, however deep they stand, unless a list looks like a doubled text |
| ConfigLaws.DoubledByChance | external/CLI11/CLI/CLI.hpp:6622-6680 | [[aa]] gives the one result [a] |
| ConfigLaws.DelimiterCuts | external/CLI11/CLI/CLI.hpp:6622-6680 | an option with a delimiter gets the texts between the delimiters but for empty ones |
| MultiLine.OverLinesRoundTrip | external/CLI11/CLI/CLI.hpp:10806-10883 | for every value in the form of several lines, with whatever lines behind it: the option gets it back as its one result if and only if no line but the closing one ends in a joint or a closing, and the value is neither quoted, nor a doubled bracket, nor a list to be spread |
| MultiLine.LinesRead | external/CLI11/CLI/CLI.hpp:10806-10883 | the reader of several lines gives the value itself if its lines are safe, and a strictly shorter text otherwise |
| MultiLine.ReadMultiLine | external/CLI11/CLI/CLI.hpp:10806-10883 | the loop over the lines: joints, the line break behind a first line that is empty, the closing, and escapes between double quotes |
| MultiLine.BackslashJoins | external/CLI11/CLI/CLI.hpp:10845-10862 | a line break behind a backslash is lost together with the backslash |
| MultiLineLaws.JointIsNothing | external/CLI11/CLI/CLI.hpp:10845-10877 | a line break behind a backslash, with blanks around what follows, changes nothing: the lines are read as one |
| MultiLineLaws.QuotesAlike | external/CLI11/CLI/CLI.hpp:10806-10883 | between double quotes the lines are put together as between single ones, and then the escapes are resolved |
| Quoting.OnOneLine | external/CLI11/CLI/CLI.hpp:10515-10572 | no other spelling of the writer holds a line break or begins with three quotes |
| ConfigList.ListRoundTrip | external/CLI11/CLI/CLI.hpp:10574-10598 | for every list of values of an option, written and read back from the lines of a file with whatever follows: the option gets the same values in the same order, whatever commas, brackets, quotes or comment marks they contain, if and only if there is any value, and one that stands alone and is spread over lines survives that form |
| ConfigList.BracketPasses | external/CLI11/CLI/CLI.hpp:1010-1055 | the bracket scanner steps over a written value |
| ConfigList.IniJoin | external/CLI11/CLI/CLI.hpp:10574-10598 | the loop joins the written values |
| ConfigList.ReadItem | external/CLI11/CLI/CLI.hpp:10798-10913 | comment taken off, a value over several lines put together or a list taken apart, quotes of each part resolved |
| ConfigLaws.CommasMakeList | external/CLI11/CLI/CLI.hpp:10884-10898 | commas make a list without brackets too, or behind a bracket that is not closed |
| ConfigLaws.SpacesMakeList | external/CLI11/CLI/CLI.hpp:10884-10898 | where there is no comma, spaces do |
| ConfigLaws.CommentsGo | external/CLI11/CLI/CLI.hpp:10798-10809 | a comment behind a value or a list is taken off, with the blanks in front of it |
| ConfigList.Options.AddAll | external/CLI11/CLI/CLI.hpp:6400-6406 | every input adds its results behind those there are, and the option is left in the parsing state |
| Arguments.ParseAccounts | external/CLI11/CLI/CLI.hpp:9732-9772 | in every run without an exception each token and each letter of a cluster is accounted for exactly once: undoing the uses rebuilds the command line, and the leftovers are what the uses say |
| ArgumentStory.ParseIsTheStory | external/CLI11/CLI/CLI.hpp:9550-10204 | a command line has a story - which token names which option with which value, what counts as an argument, which option gets it, where an option stops, what is left over and what is refused - if and only if the run throws nothing, and then the uses of the run are the only one |
| ArgumentStory.NamesAlike | external/CLI11/CLI/CLI.hpp:9971-10035 | a token is taken for the first option that goes by its name, in any of the spellings --name=value, -n, -name=value and /name:value, or left over when there is none |
| ArgumentStory.StoryUnique | external/CLI11/CLI/CLI.hpp:9732-10204 | at most one thing can happen to each token |
| ArgumentOrder.ParseOrder | external/CLI11/CLI/CLI.hpp:10101-10204 | the options are noted in the order in which the uses gave them texts, as often as they did |
| Arguments.SingleShrinks | external/CLI11/CLI/CLI.hpp:9550-9564 | the sum of length and one over the pending tokens drops strictly at every step, even when a cluster is pushed back |
| Arguments.OptionAccounts | external/CLI11/CLI/CLI.hpp:9971-10204 | name, arguments, ending mark and rest of a cluster together are what lay on the stack |
| ArgumentResults.ParseResults | external/CLI11/CLI/CLI.hpp:9550-9564 | over a whole run the results of every option are what the recorded uses, one after the other, make of the results at the start, positional ones included |
| ArgumentResults.OptionResults | external/CLI11/CLI/CLI.hpp:10101-10204 | an option gains exactly, in order, a separator from results it had, its own value, the texts of the arguments it took, and what stands for none or fills up the last group; no other option changes |
| ArgumentResults.ParseKeeps | external/CLI11/CLI/CLI.hpp:9550-9564 | over a whole run an option keeps its results, and one that no token is accounted to gains none |
| Arguments.ClusterUnfolds | external/CLI11/CLI/CLI.hpp:10101-10204 | a cluster of flags has the effect of its first letter and the others written apart, for the whole run |
| ArgumentLoop.App.TakeSingle | external/CLI11/CLI/CLI.hpp:9732-9772 | one step of the loop, by the kind of the token |
| ArgumentLoop.App.TakeArg | external/CLI11/CLI/CLI.hpp:9971-10099 | finds the option, or moves the token to the leftovers; which option that is, `ArgumentStory.NamesAlike` says |
| ArgumentLoop.App.TakeOption | external/CLI11/CLI/CLI.hpp:10101-10204 | the effect of an option on results, order and stack |
| ArgumentLoop.App.GatherLeast | external/CLI11/CLI/CLI.hpp:10142-10149 | the required arguments are taken whatever they look like |
| ArgumentLoop.App.TakeMore | external/CLI11/CLI/CLI.hpp:10155-10176 | optional arguments are taken while they look like arguments and required positional options have enough left |
| ArgumentLoop.App.TakePositional | external/CLI11/CLI/CLI.hpp:9796-9911 | the positional option that gets the token, or the leftovers |
| ArgumentLoop.App.Run | external/CLI11/CLI/CLI.hpp:9550-9564 | terminates on every command line; the uses recorded rebuild it, they alone give the results, and they are its only story; a run with an exception has none |

## Left out

Numbers. `sprintf`, `strtod`, rounding and locale decimal points are foreign, so numbers are exact decimals, and the
printer is followed for integers below 10^15 in magnitude. `cJSON_Raw` items, which the parser never makes, are left
out.

- JsonRoundTrip.RoundTrip: does not cover fractional numbers, longer integers and raw items.
- JsonRoundTrip.ParseOfRender: does not cover fractional numbers, longer integers and raw items.
- JsonRoundTrip.StoredTextRoundTrip: does not cover stored trees with fractional numbers or longer integers.
- JsonRoundTrip.ParseOfInteger: covers the texts of short integers, not every numeral.
- JsonRender.RenderNulFree: does not cover fractional numbers, longer integers and raw items.
- JsonParse.ParseText: states of the position reported for a failure only that it lies inside the text.
- JsonParse.ParseBuffer.ReadNumber: does not model the rounding to a double and the saturated `valueint`.
- JsonParse.ParseWithOpts: does not model the rounding to a double and the saturated `valueint`.
- Printing.PrintBuffer.PrintNumber: does not cover fractional numbers and longer integers.
- Printing.PrintBuffer.PrintValue: does not cover fractional numbers, longer integers and raw items.
- Printing.PrintBuffer.PrintArray: does not cover fractional numbers, longer integers and raw items.
- Printing.PrintBuffer.PrintObject: does not cover fractional numbers, longer integers and raw items.
- Printing.PrintPreallocated: does not cover fractional numbers, longer integers and raw items.
- Printing.Print: does not cover fractional numbers, longer integers and raw items.
- Printing.PrintBuffered: does not cover fractional numbers, longer integers and raw items.
- Minify.MinifiesPrints: covers the prints of printable trees, so no fractional numbers, longer integers and raw items.
- Minify.MinifiedRender: covers the prints of printable trees, so no fractional numbers, longer integers and raw items.
- Wire.WireRoundTrip: does not cover a size that is no short integer, nor a list with a NULL entry, which the
  conversion must not be given.
- Wire.ResponseRoundTrip: does not cover a code or a size that is no short integer.
- Wire.RegisterRoundTrip: does not cover a size that is no short integer.
- Wire.ResponsePrintable: does not cover a code or a size that is no short integer.

Memory.

- Printing.PrintBuffer.Ensure: does not model a failing allocation, nor the branch that copies by hand when there is no
  `realloc`; custom hooks are foreign, and memory is assumed to be there.
- ChildList.Node.ReplaceItem: does not model that the old item is freed; it is isolated here.
- ChildList.Node.ReplaceInArray: does not model that the old item is freed; it is isolated here.
- Compare.Compare: does not model that a node compared with itself is equal at once; the trees compared are disjoint.
- Compare.Duplicate: does not model which nodes are fresh, since the copy is a value.
- Minify.MinifyInPlace: states no contents where an open literal or comment carries the cursor past the terminator; it
  answers false there.
- Trees as linked nodes in the parser, printer, comparison and copy: they are values there; the links are modelled in
  `ChildList` only, so aliasing between trees is not captured.
- Reference and constant-key flags of nodes, and NULL keys: left out; no edit modelled here depends on them.
- Wire.ReadResponse: does not model a non-empty array in place of the object, whose items have no key to compare with.
- Network calls, the other generated models, and freeing of records: repeats or foreign.

Configuration.

- Sections.FromConfig: works on the paths of headers; taking them from the text of a line, the limit on layers, merging
  of repeated items, and ordinary items that are themselves called `++` or `--` are not modelled.
- ConfigValue.ConvertArg: takes the conversion of a text to a double as a parameter, and the default quote characters.
- ConfigValue.ConvertedReads: covers the values that stay on one line; `MultiLine.OverLinesRoundTrip` has the others.
- ConfigList.IniJoin: models the default separator, brackets and quotes only, not the INI variants.
- ConfigList.ReadItem: models the default separators and brackets only, and no array that runs on over further lines;
  it begins at the text behind the equals sign.
- MultiLine.ReadMultiLine: begins behind the three opening quotes; the search for the equals sign in a line and comments
  over several lines are not modelled.
- Splitting at locales other than "C": white space and printable bytes are those of the "C" locale.

Arguments.

- ArgumentLoop.App.TakeSingle: does not model tokens that name or end a subcommand.
- ArgumentLoop.App.TakeArg: does not model nameless subcommands and dot notation.
- ArgumentLoop.App.TakeOption: does not model triggers on parsing.
- ArgumentLoop.App.TakePositional: does not model triggers, subcommands and fallthrough to a parent.
- ArgumentLoop.App.Run: does not model the processing and the checks behind the loop (callbacks, requirements,
  environment variables, configuration files); takes name matching, validators and flag values of the options as
  functions, and the product that gives the least number of arguments does not overflow.
- Type plumbing, help formatting and Windows code of CLI11; the applications under `apps/`: output, foreign calls, or
  one-branch logic.
