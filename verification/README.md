# Verified models of the device components

Dafny models of the parts of this firmware whose correctness depends on several functions or on a whole run, and
proofs about them. Each module models one component in the form the source gives it: parsers, printers, flash
writers and tables are classes or methods that update fields and arrays in place, proved against specification
functions; the properties are lemmas about these functions.

* **cJSON** (`CJsonUtf16`, `CJsonString`, `CJsonText`, `CJsonGrammar`, `CJsonStandard`, `CJsonParser`,
  `CJsonPrinter`, `CJsonRoundTrip`): the recursive-descent parser over an offset that builds linked nodes, the
  printer that walks linked nodes over a growing or a caller's buffer, the texts of RFC 8259 as the yardstick of
  both, and the round trip between them. `CJsonTree`, `CJsonNodes`, `CJsonShapes`, `CJsonLinking`, `CJsonBuilt`,
  `CJsonDuplicate`, `CJsonCompare`: the doubly linked sibling lists in the heap, lists that grow, and copies and
  comparisons of whole trees.
* **Log** (`LogTags`, `LogCache`): levels for tags, the array heap that caches them, and why nobody can tell that it
  is there.
* **OTA** (`Flash`, `OtaWriter`, `OtaSelect`, `OtaData`, `OtaCrc`, `OtaTool`, `HttpsOta`, `OtaUpdate`): flash with
  erase and failing writes, the 16-byte block buffer, the two-sector boot record under power cuts with its checksum,
  the host tool that rewrites it, the download that feeds it, and the whole update.
* **Blynk** (`BlynkFraming`, `BlynkAwaiting`, `BlynkConnection`): the byte-at-a-time parser against the serializer,
  the table of awaited responses, and a connection in which bytes, requests and timers meet.
* **HTTP headers** (`HttpHeaders`) and the **compressed enum table** (`EnumTable`).

`Bytes` and `Bits` hold what they share. `dafny verify dfyconfig.toml` checks everything.

Numbers in cJSON trees are reals; `strtod` and `sprintf` are parameters of which only what their users rely on is
asked. Flash, transport and HTTP client answer from scripts of outcomes, arbitrary in every theorem. The
`bootloader_common_*` functions are not in the repository; they are specified from the comment at
`common/app_update/esp_ota_ops.c:386-400`.

## Where the code does not do what one would expect

Each of these is proved. The lemma named `...Iff` or the contract of the method gives the exact condition under
which the code does what one expects:

* Appending an item that is in the list already, or whose `next` is not null where the list is not empty, does not
  leave the list with the item behind it (`CJsonNodes.AddItemToArray`). An item inserted, or put in another one's
  place, must not be in the list or its parent (`CJsonNodes.InsertItemInArray`, `CJsonNodes.ReplaceItemViaPointer`).
* A tree in which a name comes again with another value differs from its own copy (`CJsonCompare.SelfEqualIff`).
* Two addresses for one tag string let the cached level go stale (`LogTags.SetKeepsIff`).
* A sequence number zero can make a switch to the last slot select another one (`OtaSelect.SlotOfNextIff`,
  `OtaSelect.NextIsZeroIff`).
* A switch by `otatool.py` keeps the state of the entry it overwrites and can be lost
  (`OtaTool.ToolSwitchTakesEffectIff`).
* A known image size above 0xFFFFF000 erases nothing (`OtaWriter.EraseCoversIff`).
* An encrypted image shorter than 16 bytes is refused at the end (`OtaWriter.OtaEntry.End`).
* A second `esp_https_ota_get_img_desc`, or one after the first perform, loses bytes, and so does one that fails
  after it has read some (`HttpsOta.HttpsOtaHandle.GetImgDesc`).
* A Blynk payload of more than 507 bytes is cut, but announced in full (`BlynkFraming.RoundTripIff`).
* A header that does not fit ends the request silently, without its empty line; an empty list sends nothing at all
  (`HttpHeaders.Client.RequestSend`).
* A value above VALUE_MASK can spill into its neighbours; `StaysInside` is the exact condition for it not to
  (`EnumTable.UndisturbedIff`).

## Model

| member | source | states |
|---|---|---|
| `CJsonUtf16.ParseHex4` | common/jSON_APP/cJSON.c:615-648 | the four hexadecimal digits at `p` are read as the number they denote, upper and lower case alike, and anything else gives 0 |
| `CJsonUtf16.Utf8RoundTrip` | common/jSON_APP/cJSON.c:715-764 | the UTF-8 form of every Unicode scalar value decodes, under an independent decoder that refuses overlong forms and surrogates (section 3 of RFC 3629), to that value and its length, whatever follows |
| `CJsonUtf16.ReadLiteral` | common/jSON_APP/cJSON.c:660-712 | the reader accepts a `\uXXXX` or a surrogate pair exactly where the specification of escapes does and gives its code point and length; lone and swapped surrogates are rejected |
| `CJsonUtf16.SurrogateBits` | common/jSON_APP/cJSON.c:706-707 | the masks, the shift and the OR put the ten bits of each surrogate side by side: the code point of section 2.2 of RFC 2781 |
| `CJsonUtf16.ContinuationBits` | common/jSON_APP/cJSON.c:747-752 | OR with 0x80 and AND with 0xBF make the continuation byte of the low six bits, and the shift leaves the others |
| `CJsonUtf16.LeadBits` | common/jSON_APP/cJSON.c:754-762 | the first byte holds what is left of the code point beside its mark, or a plain ASCII byte |
| `CJsonUtf16.WriteUtf8` | common/jSON_APP/cJSON.c:747-764 | the loop that writes backwards and ORs the continuation marks leaves exactly the UTF-8 encoding of the code point at the output position and changes no other byte |
| `CJsonUtf16.EncodeIsUtf8` | common/jSON_APP/cJSON.c:747-764 | the marks and shifts of the writing loop give UTF-8 for every scalar value |
| `CJsonUtf16.Utf8Shape` | common/jSON_APP/cJSON.c:715-745 | the length and the mark of the first byte are those of UTF-8 for every code point that arrives there |
| `CJsonUtf16.Utf16LiteralToUtf8` | common/jSON_APP/cJSON.c:652-770 | the whole conversion: the UTF-8 form of the accepted code point is written and its source length returned; a rejected literal returns 0 and leaves the output alone |
| `CJsonUtf16.EscapeDecodesToScalar` | common/jSON_APP/cJSON.c:652-770 | each well-formed escape or surrogate pair, with any choice of case for each of its digits, is accepted as the scalar value it denotes, and the bytes written for it decode back to that value |
| `CJsonUtf16.AnyUnit` | common/jSON_APP/cJSON.c:615-648 | any four hexadecimal digits are the digits of their code in some choice of cases, so the escapes of the row above are all there are |
| `CJsonUtf16.AcceptedEscapes` | common/jSON_APP/cJSON.c:652-770 | conversely every accepted literal denotes a scalar value, never a surrogate, and what is emitted decodes to it |
| `CJsonString.PairsApart` | common/jSON_APP/cJSON.c:786-808 | two escapes counted by the first pass of `parse_string` never overlap |
| `CJsonString.PairsInWindow` | common/jSON_APP/cJSON.c:786-808 | a window of n source bytes holds at most as many counted escapes as fit, also where the window starts inside an escape; this is what keeps the two passes of `parse_string` compatible when a malformed escape puts them out of step |
| `CJsonString.StepFits` | common/jSON_APP/cJSON.c:819-877 | each step of the decoding pass writes at most the bytes it consumes less the escapes that start among them |
| `CJsonString.UnescapeFits` | common/jSON_APP/cJSON.c:786-877 | for every input, well formed or not, the decoded text is at most as long as the first pass allocated for it |
| `CJsonString.EscapeNulFree` | common/jSON_APP/cJSON.c:902-1021 | the escaped form of a string holds no zero byte |
| `CJsonStandard.EscapesRead` | common/jSON_APP/cJSON.c:832-877 | behind a backslash the eight letters of section 7 of RFC 8259, the slash among them, denote their bytes; any other letter but `u` is an error at the backslash |
| `CJsonStandard.EscapesWritten` | common/jSON_APP/cJSON.c:940-1015 | the printer writes each of these bytes but the slash with its letter, the other control characters as `\u00` and two lower-case digits, and every other byte as it is |
| `CJsonStandard.HexDigits` | common/jSON_APP/cJSON.c:615-648 | the digits are those of `0123456789abcdef` and `0123456789ABCDEF`, by their place |
| `CJsonStandard.StringIsParsed` | common/jSON_APP/cJSON.c:773-899 | any literal made of plain bytes, of these eight escapes and of hexadecimal escapes and surrogate pairs, in any order and any case, is parsed to the bytes it denotes, and to its end |
| `CJsonStandard.EscapedIsStandard` | common/jSON_APP/cJSON.c:902-1021 | escaping is one way to write a string as such a literal |
| `CJsonStandard.StringRoundTrip` | common/jSON_APP/cJSON.c:773-1021 | so parsing a printed string literal gives the string back and consumes exactly the literal |
| `CJsonParser.ParseBuffer.SkipWhitespace` | common/jSON_APP/cJSON.c:1038-1061 | white space is skipped as in the grammar, including the step back at the end of the buffer |
| `CJsonParser.ParseBuffer.CopyNumber` | common/jSON_APP/cJSON.c:318-351 | at most 63 number characters are copied, exactly the run the grammar names |
| `CJsonParser.ParseBuffer.ParseNumberItem` | common/jSON_APP/cJSON.c:305-379 | a number is what `strtod` makes of that run, stored with its saturated integer value; nothing read is an error |
| `CJsonParser.ParseBuffer.ScanString` | common/jSON_APP/cJSON.c:786-808 | the first pass finds the closing quote of the specification, or none, and counts the escapes before it |
| `CJsonParser.ParseBuffer.DecodeString` | common/jSON_APP/cJSON.c:819-877 | the second pass stays inside the buffer sized by the first for all contents, and leaves the decoded text there or stops at the position the specification reports |
| `CJsonParser.ParseBuffer.ParseStringItem` | common/jSON_APP/cJSON.c:773-899 | both passes together compute the string grammar, error position included, and store the text in the node; without memory for the text it fails |
| `CJsonParser.ParseBuffer.ParseValueItem` | common/jSON_APP/cJSON.c:1312-1364 | over the moving offset and depth, the parser computes the functional grammar on every content and fills the node with the value: new nodes only, each at one place, properly linked, the blocks taken counted exactly; where it fails for want of memory the value would have taken more blocks than there were |
| `CJsonParser.ParseBuffer.ParseArrayItem` | common/jSON_APP/cJSON.c:1441-1536 | the array grammar, with the nesting limit of 1000, every error exit and failed allocations; on success the item owns the linked list of its elements, with `prev` of the first set to the last |
| `CJsonParser.ParseBuffer.ParseItemsLoop` | common/jSON_APP/cJSON.c:1473-1508 | the elements are those of the grammar, in order, as a list linked both ways but for the first one's `prev` |
| `CJsonParser.ParseBuffer.NextItem` | common/jSON_APP/cJSON.c:1478-1507 | one round: a new node is linked behind the last and then takes its value |
| `CJsonParser.ParseBuffer.ParseObjectItem` | common/jSON_APP/cJSON.c:1601-1711 | the same for objects, keys included |
| `CJsonParser.ParseBuffer.ParseMembersLoop` | common/jSON_APP/cJSON.c:1631-1684 | the members are those of the grammar, in order, linked likewise |
| `CJsonParser.ParseBuffer.NextMember` | common/jSON_APP/cJSON.c:1636-1683 | one round: new node, name, colon, value |
| `CJsonParser.ParseBuffer.ParseKeyItem` | common/jSON_APP/cJSON.c:1657-1677 | the name is parsed as a string value and moved from `valuestring` to `string` |
| `CJsonParser.ParseBuffer.CloseArray` | common/jSON_APP/cJSON.c:1515-1522 | the closed list becomes the children of the item, and the item a proper tree |
| `CJsonParser.ParseBuffer.CloseObject` | common/jSON_APP/cJSON.c:1690-1698 | the same for objects |
| `CJsonParser.ParseWithLengthOpts` | common/jSON_APP/cJSON.c:1095-1172 | whole texts, with the byte order mark, the required terminator and the reported error position: the result is a proper tree of new nodes that holds the value of the grammar, and it is refused exactly if the grammar refuses it or it takes more blocks than there are |
| `CJsonStandard.DocIsParsed` | common/jSON_APP/cJSON.c:1312-1711 | every text of RFC 8259 nested at most 1000 deep, at any place and with any white space, is parsed to what it denotes and to its end, as far as its numbers have at most 63 bytes and `strtod` reads them in full; the texts are written down in character literals, without the parser's functions |
| `CJsonStandard.ItemsAreParsed` | common/jSON_APP/cJSON.c:1473-1508 | the same for the elements of an array |
| `CJsonStandard.PairsAreParsed` | common/jSON_APP/cJSON.c:1631-1684 | the same for the members of an object |
| `CJsonStandard.DocAccepted` | common/jSON_APP/cJSON.c:1312-1711 | conversely, whatever is parsed is such a text that means the returned value, but that any byte up to 32 counts as white space, numbers are any run of number bytes, and the insides of string literals are left open |
| `CJsonStandard.TextIsParsed` | common/jSON_APP/cJSON.c:1095-1172 | the same for whole texts, with or without a byte order mark in front and blanks before them, whatever comes behind |
| `CJsonStandard.TextAccepted` | common/jSON_APP/cJSON.c:1095-1172 | and the converse |
| `CJsonStandard.TerminatedIff` | common/jSON_APP/cJSON.c:1095-1172 | a required terminator is found exactly if nothing but blanks lies between the value and a zero byte at the end of the buffer |
| `CJsonStandard.NoValueStarts` | common/jSON_APP/cJSON.c:1312-1364 | where no value starts there is an error at this very place |
| `CJsonStandard.ErrorReported` | common/jSON_APP/cJSON.c:1147-1169 | the position reported for an error is where the parser stopped, or the last byte of the buffer if that is behind it |
| `CJsonBuilt.TreeOfIsInjective` | common/jSON_APP/cJSON.c:1312-1364 | no two values are stored as the same nodes |
| `CJsonLinking.AttachItem` | common/jSON_APP/cJSON.c:1485-1497 | linking a new node behind the last keeps a growing list of trees in order, contents included |
| `CJsonLinking.CloseList` | common/jSON_APP/cJSON.c:1517-1519 | setting `prev` of the first to the last completes the links |
| `CJsonPrinter.PrintBuffer.Ensure` | common/jSON_APP/cJSON.c:439-522 | room for the bytes asked for and one more is made exactly when the buffer, or the buffer it can grow to, allows it; what was printed is kept |
| `CJsonPrinter.PrintBuffer.UpdateOffset` | common/jSON_APP/cJSON.c:525-535 | the offset moves behind what was printed last |
| `CJsonPrinter.PrintBuffer.PrintStringPtr` | common/jSON_APP/cJSON.c:902-1021 | the counting pass and the writing pass agree: the literal is written in full, its size is what was reserved, and it fails only when there is no room for it |
| `CJsonPrinter.PrintBuffer.PrintValue` | common/jSON_APP/cJSON.c:1367-1438 | for any node whose links end, shared nodes included, the printer leaves the text of its value behind what was printed before; it succeeds exactly when every node it comes to has a type to print, raw text is not missing, and the text and two more bytes fit the buffer at its largest |
| `CJsonPrinter.PrintBuffer.PrintNumber` | common/jSON_APP/cJSON.c:545-612 | a number is printed as its integer where that is equal, and otherwise as the double, whatever `valueint` was set to |
| `CJsonPrinter.PrintBuffer.PrintArrayItem` | common/jSON_APP/cJSON.c:1539-1598 | the same for arrays, whose chunks each ask for room |
| `CJsonPrinter.PrintBuffer.PrintElements` | common/jSON_APP/cJSON.c:1562-1586 | the loop follows `next` from the first child and prints the elements in order, with a comma behind each that has a next one |
| `CJsonPrinter.PrintBuffer.PrintObjectItem` | common/jSON_APP/cJSON.c:1714-1825 | the same for objects, formatted or not |
| `CJsonPrinter.PrintBuffer.PrintMemberLoop` | common/jSON_APP/cJSON.c:1741-1805 | the loop prints the members in order, each with its name, an empty one if it has none |
| `CJsonPrinter.PrintTree` | common/jSON_APP/cJSON.c:1187-1260 | cJSON_Print and cJSON_PrintUnformatted give a fresh, exactly sized C string of the text; unless an allocation is refused they fail only on texts too long for an int |
| `CJsonPrinter.PrintBuffered` | common/jSON_APP/cJSON.c:1262-1290 | a buffer grown from any initial size, zero included, holds the same C string |
| `CJsonPrinter.PrintPreallocated` | common/jSON_APP/cJSON.c:1292-1309 | it succeeds exactly when the buffer has at least two bytes more than the text is long, and then holds the same C string |
| `CJsonBuilt.ValueOfTree` | common/jSON_APP/cJSON.c:1312-1438 | the nodes the parser builds for a value have types to print, and are printed as that value |
| `CJsonBuilt.ValueIsCStrings` | common/jSON_APP/cJSON.c:1367-1438 | what nodes hold under C's types, 32-bit integers and strings without zero bytes, is printed as a value of C strings |
| `CJsonText.PrintNulFree` | common/jSON_APP/cJSON.c:1367-1438 | the text of a tree of C strings holds no zero byte, which `update_offset` and `strlen` rely on |
| `CJsonText.DecimalLength` | common/jSON_APP/cJSON.c:545-612 | a 32-bit integer prints in at most 11 characters, so the 26-byte number buffer suffices |
| `CJsonText.DecimalIsRead` | common/jSON_APP/cJSON.c:563-568 | `%d` writes the decimal text that denotes the number when read from the left, without leading zeros, and with a minus exactly for numbers below zero |
| `CJsonText.ValueIntTruncates` | common/jSON_APP/cJSON.c:357-371 | `valueint` is the number cut towards zero, held inside the range of an int |
| `CJsonRoundTrip.IntegersPrinted` | common/jSON_APP/cJSON.c:545-612 | an integer prints as the decimal text that denotes it |
| `CJsonRoundTrip.LayoutIsPrinted` | common/jSON_APP/cJSON.c:1367-1825 | the printed text is that of a layout given in character literals: elements on one line, members on a line each behind tabs, or no white space at all |
| `CJsonRoundTrip.LayoutIsStandard` | common/jSON_APP/cJSON.c:1367-1825 | for every printable value this layout is a text of RFC 8259, numbers as they read back, and means the value |
| `CJsonRoundTrip.PrintedIsStandard` | common/jSON_APP/cJSON.c:1367-1825 | so every printable value prints as a text of RFC 8259 that means this value |
| `CJsonRoundTrip.RoundTripValue` | common/jSON_APP/cJSON.c:1312-1825 | wherever the text of a printable tree stands in a buffer, with anything that ends a number behind it, parsing there gives the tree and consumes exactly the text |
| `CJsonRoundTrip.IntegersReadBack` | common/jSON_APP/cJSON.c:305-379 | integers in int range read back as themselves, for every `strtod` that reads decimal integer texts as what they denote |
| `CJsonRoundTrip.PrintParse` | common/jSON_APP/cJSON.c:1095-1825 | for every tree of null, booleans, numbers whose text reads back, NUL-free strings, arrays and objects with NUL-free keys nested at most 1000 deep, formatted or not, parsing the printed text yields the tree and consumes exactly the text |
| `CJsonRoundTrip.PrintParseIntegers` | common/jSON_APP/cJSON.c:1095-1825 | in particular for every such tree whose numbers are integers in int range, for any `strtod` that reads decimal integer texts as what they denote and any other behaviour of the library |
| `CJsonRoundTrip.IntegerTreesPrintable` | common/jSON_APP/cJSON.c:545-612 | trees of int-range integers are trees whose numbers read back |
| `CJsonRoundTrip.ParsedIsPrintable` | common/jSON_APP/cJSON.c:1312-1711 | every tree the parser returns is one that the round trip covers, as far as its numbers read back |
| `CJsonRoundTrip.ParsePrintParse` | common/jSON_APP/cJSON.c:1095-1825 | parsing any text, printing the result and parsing again gives the same tree |
| `CJsonRoundTrip.PrintThenParse` | common/jSON_APP/cJSON.c:1095-1255 | the printing and parsing machines run one after the other on any nodes that print as a printable tree: new linked nodes that hold the value of the old ones, exactly if there is memory for them |
| `CJsonRoundTrip.ParseThenPrintThenParse` | common/jSON_APP/cJSON.c:1095-1255 | the three machines in a row: nodes parsed from any accepted text, printed in either format and parsed again hold the same, field by field, and share no node with the first |
| `CJsonNodes.ChainUnique` | common/jSON_APP/cJSON.c:1851-1868 | the links determine the sequence of children, so the abstract list of a node is unique |
| `CJsonNodes.GetArrayItem` | common/jSON_APP/cJSON.c:1851-1878 | the element at the index, or null beyond the end and for negative indices |
| `CJsonNodes.GetObjectItem` | common/jSON_APP/cJSON.c:1880-1910 | the first member found under a name, with the two loops' different treatment of members that have no name |
| `CJsonNodes.AddItemToArray` | common/jSON_APP/cJSON.c:1956-1987 | appends; what comes out is the list with the item behind it exactly if the item is not in the list already and the list was empty or the item's own `next` was null, neither of which the code looks at |
| `CJsonNodes.InsertItemInArray` | common/jSON_APP/cJSON.c:2263-2290 | inserts at the index with every link and the tail pointer right, exactly if the item is neither in the list nor its parent; past the end it appends |
| `CJsonNodes.DetachItemViaPointer` | common/jSON_APP/cJSON.c:2187-2221 | removes the element, whether first, inner, last or only, keeps the links right and clears those of the element |
| `CJsonNodes.ReplaceItemViaPointer` | common/jSON_APP/cJSON.c:2292-2339 | replaces the element in place, in all four positions, exactly if the replacement is the element itself or neither in the list nor its parent |
| `CJsonNodes.DetachItemFromArray` | common/jSON_APP/cJSON.c:2223-2231 | removal by index |
| `CJsonNodes.DetachItemFromObject` | common/jSON_APP/cJSON.c:2238-2250 | removal of the first member found under a name |
| `CJsonNodes.AddItemToObject` | common/jSON_APP/cJSON.c:2011-2046 | the item takes the name and is appended, under the exact condition of `AddItemToArray`; a failed copy of the name leaves it as it was |
| `CJsonNodes.ReplaceItemInObject` | common/jSON_APP/cJSON.c:2351-2372 | the first member found after the replacement took the name is replaced, under the exact condition of `ReplaceItemViaPointer`; a replacement that finds nothing is renamed all the same, and a failed copy of the name leaves it without one |
| `CJsonNodes.DetachedNameGone` | common/jSON_APP/cJSON.c:2238-2250 | among distinct names, after a detach that name is not found any more and every other search finds the member it found before |
| `CJsonNodes.AddedNameFound` | common/jSON_APP/cJSON.c:2011-2046 | a new name is found at the end after it is added, and no other search changes |
| `CJsonNodes.DetachInsert` | common/jSON_APP/cJSON.c:2187-2290 | detaching and inserting at the same index undo each other, either way round |
| `CJsonNodes.ChainInserted` | common/jSON_APP/cJSON.c:2263-2290 | rewiring at most two `next` pointers inserts into the forward chain |
| `CJsonNodes.BackLinksInserted` | common/jSON_APP/cJSON.c:2263-2290 | rewiring two `prev` pointers keeps all back links, the one from the head to the tail included |
| `CJsonNodes.ChainRemoved` | common/jSON_APP/cJSON.c:2187-2221 | rewiring one `next` pointer removes from the forward chain |
| `CJsonNodes.BackLinksRemoved` | common/jSON_APP/cJSON.c:2187-2221 | rewiring one `prev` pointer, that of the next element or of the head, keeps all back links |
| `CJsonNodes.ChainReplaced` | common/jSON_APP/cJSON.c:2292-2339 | the forward chain after a replacement |
| `CJsonNodes.BackLinksReplaced` | common/jSON_APP/cJSON.c:2292-2339 | the back links after a replacement, of an only child too |
| `CJsonNodes.ChainAppended` | common/jSON_APP/cJSON.c:1956-1987 | the forward chain after appending ends exactly if the item's `next` was null |
| `CJsonNodes.BackLinksAppended` | common/jSON_APP/cJSON.c:1956-1987 | the back links after appending |
| `CJsonTree.LookupFinds` | common/jSON_APP/cJSON.c:1880-1910 | among distinct names the search finds precisely the member of that name |
| `CJsonTree.LookupIff` | common/jSON_APP/cJSON.c:1880-1910 | in general it finds the first element of that name, but if case matters none behind an element without a name |
| `CJsonTree.SameNameIff` | common/jSON_APP/cJSON.c:131-154 | names are the same byte by byte or, where case does not matter, up to the cases of the letters A to Z |
| `CJsonDuplicate.CopyNode` | common/jSON_APP/cJSON.c:2713-2748 | the node and its strings are copied, the reference flag is cleared, and it fails exactly when an allocation is missing |
| `CJsonDuplicate.CopyChild` | common/jSON_APP/cJSON.c:2753-2771 | one round of the loop: the copy of a child becomes the last below the new item |
| `CJsonDuplicate.CopyChildren` | common/jSON_APP/cJSON.c:2749-2776 | the copied children are linked in order below the copy, with the tail pointer set at the end |
| `CJsonDuplicate.Duplicate` | common/jSON_APP/cJSON.c:2706-2787 | the copy consists of new nodes only, no node at two places, properly linked at every level, with exactly the content of the original (also below references that share nodes); it is made exactly when as many allocations succeed as the content needs |
| `CJsonCompare.CloseIsSymmetric` | common/jSON_APP/cJSON.c:538-542 | the tolerance for numbers is symmetric and reflexive |
| `CJsonCompare.EqualIsSymmetric` | common/jSON_APP/cJSON.c:2986-3109 | the comparison is symmetric, on all trees |
| `CJsonCompare.EqualIffSame` | common/jSON_APP/cJSON.c:2986-3109 | on trees whose objects have distinct names the comparison holds exactly if there is a one-to-one pairing of members at every level that respects names, and the values match: of one known kind, texts both there and the same byte by byte, numbers at most 2^-52 of the larger one apart |
| `CJsonCompare.SameLeafIffMatching` | common/jSON_APP/cJSON.c:3010-3042 | what the code compares of two nodes is that relation, written out without its functions |
| `CJsonCompare.TextsEqualIff` | common/jSON_APP/cJSON.c:3029-3042 | strings and raw texts compare equal if and only if both are there and identical |
| `CJsonCompare.FoundPairing` | common/jSON_APP/cJSON.c:3068-3104 | the two passes over the members, from either side, find such a pairing |
| `CJsonCompare.ReorderedIsEqual` | common/jSON_APP/cJSON.c:2986-3109 | a complete tree with distinct names compares equal to every reordering of the members of its objects, at all depths and in both directions |
| `CJsonCompare.ReorderedIsReflexive` | common/jSON_APP/cJSON.c:2986-3109 | a tree is a reordering of itself |
| `CJsonCompare.TwiceTheSameName` | common/jSON_APP/cJSON.c:3068-3104 | one name with two values: a tree that differs from its own copy; with one value twice it does not |
| `CJsonCompare.SelfEqualIff` | common/jSON_APP/cJSON.c:2986-3109 | a tree compares equal to its copy if and only if every value has a type, every string its text, every member a name, and a repeated name repeats the value it had first |
| `CJsonCompare.UnambiguousAgrees` | common/jSON_APP/cJSON.c:2986-3109 | complete trees with distinct names do |
| `CJsonCompare.EqualAtIsSymmetric` | common/jSON_APP/cJSON.c:2986-3109 | the comparison with its test for identical nodes is symmetric too |
| `CJsonCompare.SharingIsInvisible` | common/jSON_APP/cJSON.c:3017-3020 | the test for identical nodes never turns equal into different, and it changes the answer only where the trees share a part that differs from its own copy |
| `CJsonCompare.UnambiguousSharing` | common/jSON_APP/cJSON.c:3017-3020 | so not at all for complete trees with distinct names, whatever nodes they share |
| `CJsonShapes.UnfoldsOnce` | common/jSON_APP/cJSON.c:2986-3109 | a node has one tree below it |
| `CJsonCompare.Compare` | common/jSON_APP/cJSON.c:2986-3109 | the recursive comparison over any two trees of nodes, also where they share nodes, decides that relation with the test for identical nodes |
| `CJsonCompare.CompareArrays` | common/jSON_APP/cJSON.c:3044-3066 | elements are compared pairwise and the lengths must agree |
| `CJsonCompare.CompareMembers` | common/jSON_APP/cJSON.c:3070-3085 | one pass: every member has a first namesake on the other side that equals it |
| `CJsonCompare.DuplicateThenCompare` | common/jSON_APP/cJSON.c:2706-3109 | copying a tree and comparing the copy with it answers true if and only if the copy could be allocated and the tree agrees with itself, for every tree |
| `LogTags.SetLevelMeaning` | common/log/log.c:101-149 | what setting a level means for the level of every tag, wildcard and failed allocation included |
| `LogTags.UseKeeps` | common/log/log.c:165-187 | a log call gets the level the list would give, and the cache stays coherent, without duplicates and within its size |
| `LogTags.SetKeepsIff` | common/log/log.c:101-149 | setting a level keeps the cache coherent exactly when no second cached address has the same characters, or nothing changes for that tag |
| `LogTags.SetStep` | common/log/log.c:101-149 | with one address for each string it always does |
| `LogTags.CacheIsInvisible` | common/log/log.c:101-187 | over every run of level changes and log calls the messages printed are exactly those an implementation without a cache would print, wherever the updates that reach the cache stop at a match |
| `LogTags.PrintedIff` | common/log/log.c:101-187 | and those are the messages whose level is at most the level in force for their tag: that of the last call that named the tag or the wildcard and was not lost for want of memory |
| `LogTags.TwoPointersDiverge` | common/log/log.c:143-146 | with two addresses for one string the cache and the list can disagree |
| `LogTags.UseReorders` | common/log/log.c:203-259 | one use of a full cache removes the tag, or else the first one, and puts the tag last |
| `LogTags.KeepsMostRecent` | common/log/log.c:101-259 | from the moment it is full, over every run of log calls and level changes but the wildcard's, the cache holds exactly the tags used most recently, in that order, the order in which it was filled counting as use |
| `LogTags.FillsInOrder` | common/log/log.c:234-250 | before it is full, the cache holds the tags in the order of their first use |
| `LogTags.SetKeepsTags` | common/log/log.c:101-149 | a level change for one tag moves nothing in the cache |
| `LogCache.RootIsOldest` | common/log/log.c:234-259 | the root of the heap has the smallest generation |
| `LogCache.RootIsFirst` | common/log/log.c:234-259 | the root is the first in the order of use, hence what is evicted is the least recently used |
| `LogCache.BubbleStep` | common/log/log.c:280-289 | one step of sifting down keeps the heap but for the moved entry, although the moved key is never compared; that it is larger than all others is what the step relies on |
| `LogCache.RenewMoves` | common/log/log.c:203-232 | giving an entry the newest generation moves it to the end of the order of use |
| `LogCache.PlaceInOrder` | common/log/log.c:203-232 | an entry of the array stands in the order of use under the same tag, once |
| `LogCache.LogLibrary.constructor` | common/log/log.c:73-77 | the empty cache is a valid state |
| `LogCache.LogLibrary.HeapBubbleDown` | common/log/log.c:280-296 | in-place sifting restores the heap and permutes the entries |
| `LogCache.LogLibrary.GetCached` | common/log/log.c:203-232 | a hit returns the cached level and, in a full cache only, renews the entry; a miss changes nothing |
| `LogCache.LogLibrary.Renew` | common/log/log.c:203-232 | a new generation in a slot, then sifting: the invariants hold again and the order of use has moved that entry to the end |
| `LogCache.LogLibrary.GetUncached` | common/log/log.c:261-273 | the linear search gives the level of the list, or the default |
| `LogCache.LogLibrary.AddToCache` | common/log/log.c:234-259 | appends while there is room and otherwise replaces the least recently used entry; in both cases the abstract state is that after one use |
| `LogCache.LogLibrary.Append` | common/log/log.c:234-250 | the first case keeps the heap without sifting |
| `LogCache.LogLibrary.ReplaceOldest` | common/log/log.c:251-259 | the second case replaces the head of the order of use |
| `LogCache.LogLibrary.LevelForTag` | common/log/log.c:165-187 | cache, list and default together refine one abstract use of the tag |
| `LogCache.LogLibrary.Write` | common/log/log.c:165-187 | a message is printed exactly when its level is at most that of its tag |
| `LogCache.LogLibrary.Execute` | common/log/log.c:101-187 | any run of calls of the library prints what the abstract run does and ends in its state, with the matches it found |
| `LogCache.LogLibrary.ExecuteFull` | common/log/log.c:101-259 | with a full cache, after any run without the wildcard the library holds exactly the tags used most recently, in that order |
| `LogCache.LogLibrary.Run` | common/log/log.c:101-187 | so, with one address for each string, any run prints exactly what a library without a cache would print |
| `LogCache.RunFromStart` | common/log/log.c:73-187 | from the start of the program on |
| `LogCache.LogLibrary.LevelSet` | common/log/log.c:101-149 | wildcard, update of an entry, new entry and failed allocation refine the abstract change of levels |
| `LogCache.LogLibrary.ClearLevelList` | common/log/log.c:151-163 | clearing empties list and cache |
| `LogCache.LogLibrary.UpdateCached` | common/log/log.c:138-147 | the loop over the cache stops at the first entry with these characters, and changes its level only |
| `OtaWriter.ProgramAhead` | common/app_update/esp_ota_ops.c:226-250 | programming as far as the flash is erased keeps the old prefix, puts the data there and leaves the rest |
| `OtaWriter.HoldsMore` | common/app_update/esp_ota_ops.c:218-250 | whole blocks behind the written part, with the rest kept back, extend the stream that flash and buffer hold together |
| `OtaWriter.HoldsFlushed` | common/app_update/esp_ota_ops.c:218-235 | moving the full 16-byte buffer to flash keeps that stream |
| `OtaWriter.HoldsPadded` | common/app_update/esp_ota_ops.c:319-328 | flushing the last block leaves the image followed by less than one block of padding that is all 0x00 or all 0xFF |
| `OtaWriter.Begin` | common/app_update/esp_ota_ops.c:129-191 | refuses the running partition and those that are no OTA slot, erases what is asked for, rounded up on 32 bits, and starts with an empty stream |
| `OtaWriter.EraseCoversIff` | common/app_update/esp_ota_ops.c:162-168 | the erase covers a known image size exactly up to 0xFFFFF000; above that it wraps to nothing |
| `OtaWriter.ErasesWholeSectors` | common/app_update/esp_ota_ops.c:162-168 | up to there it ends with the last sector of the image |
| `OtaWriter.UnknownErasesAll` | common/app_update/esp_ota_ops.c:161-163 | for an image of size zero or of unknown size the whole partition is erased |
| `OtaWriter.OtaEntry.constructor` | common/app_update/esp_ota_ops.c:173-190 | the handle after begin satisfies the invariant |
| `OtaWriter.OtaEntry.Write` | common/app_update/esp_ota_ops.c:193-257 | for writes of any size, with and without encryption: flash prefix and buffer together are all data handed over, the written size is a multiple of 16, the buffer holds less than a block; the first byte must be the magic byte |
| `OtaWriter.OtaEntry.FillPartial` | common/app_update/esp_ota_ops.c:218-224 | data that tops up the waiting block |
| `OtaWriter.OtaEntry.FlushBlock` | common/app_update/esp_ota_ops.c:226-236 | the full block goes to flash, and the buffer is 0xFF again |
| `OtaWriter.OtaEntry.WriteBlocks` | common/app_update/esp_ota_ops.c:238-250 | whole blocks go to flash and the tail waits |
| `OtaWriter.OtaEntry.End` | common/app_update/esp_ota_ops.c:296-345 | after success the flash holds the whole image and its uniform padding, and the image was verified; an encrypted image shorter than a block is refused as if nothing had been written |
| `OtaWriter.OtaEntry.FlushTail` | common/app_update/esp_ota_ops.c:319-328 | the waiting bytes go out as one padded block |
| `OtaWriter.WriteAll` | common/app_update/esp_ota_ops.c:193-257 | over any sequence of writes the stream is their concatenation |
| `OtaWriter.Update` | common/app_update/esp_ota_ops.c:129-345 | begin, any writes, end: success means that the partition starts with exactly the concatenated image, however it was cut |
| `OtaSelect.Active` | common/app_update/esp_ota_ops.c:386-400 | the active entry: valid, with the larger sequence number |
| `OtaSelect.BootOfIs` | common/app_update/esp_ota_ops.c:495-518 | what boots, in the fields themselves: the slot of the larger number among the entries that are not erased, not in state 3 (invalid) or 4 (aborted), and have the checksum of their number; the default app if there is none |
| `OtaSelect.RolledBack` | common/app_update/esp_ota_ops.c:719-748 | an entry whose state becomes invalid or aborted is not selected any more: the other entry decides alone |
| `OtaSelect.SlotOfIs` | common/app_update/esp_ota_ops.c:499-513 | a number selects the slot before it, counted around; zero wraps on 32 bits first |
| `OtaSelect.AppCount` | common/app_update/esp_ota_ops.c:363-371 | the OTA slots present without a gap |
| `OtaSelect.FindDefault` | common/app_update/esp_ota_ops.c:463-489 | factory, else the lowest OTA slot, else the test app |
| `OtaSelect.NextSeq` | common/app_update/esp_ota_ops.c:402-410 | the search loop yields the least number from the active one on that stands for the slot; it grows by less than the number of slots and equals the closed form of the comment, also from zero on |
| `OtaSelect.NextSeqFits` | common/app_update/esp_ota_ops.c:386-410 | the number the loop ends with is that least number and that closed form |
| `OtaSelect.SlotOfNextIff` | common/app_update/esp_ota_ops.c:499-512 | a number that stands for a slot selects it, with the subtraction on 32 bits, exactly if it is not zero or the number of slots divides 2^32 |
| `OtaSelect.NextIsZeroIff` | common/app_update/esp_ota_ops.c:402-411 | zero is written exactly when zero is active and the last slot is asked for |
| `OtaSelect.ZeroSwitchLost` | common/app_update/esp_ota_ops.c:402-411 | three slots and an active number zero, for which the switch to slot 2 is lost |
| `OtaSelect.SwitchOutcome` | common/app_update/esp_ota_ops.c:402-418 | whatever ends up in the sector a switch rewrites, the boot slot is unchanged or the requested one: unchanged if the entry is not valid, and the requested one if it is, exactly where a switch works at all |
| `OtaData.WordRoundTrip` | common/app_update/esp_ota_ops.c:347-361 | the bytes of a word in flash read back as the word |
| `OtaData.FieldsOf` | common/app_update/esp_ota_ops.c:347-361 | an entry in flash is its number, twenty bytes of label, its state and its checksum |
| `OtaData.LowByteFirst` | common/app_update/otatool.py:180-182 | a word in flash has its low byte first |
| `OtaData.TornEntry` | common/app_update/esp_ota_ops.c:347-361 | a select entry of which only the first k bytes were programmed is invalid or carries the new number, for every k, given that the checksum rejects numbers cut inside their four bytes |
| `OtaData.OtaPartition.EraseSector` | common/app_update/esp_ota_ops.c:353-357 | erases one sector only |
| `OtaData.OtaPartition.ProgramEntry` | common/app_update/esp_ota_ops.c:358-360 | programs byte by byte until the power fails, in one sector only |
| `OtaData.OtaPartition.RewriteOtaSeq` | common/app_update/esp_ota_ops.c:347-361 | at whatever point the power fails the sector holds the old entry, or the new one torn after some k bytes; the other sector is untouched |
| `OtaData.OtaPartition.RewriteOtaData` | common/app_update/esp_ota_ops.c:373-418 | crash safety: at every power cut the next boot is the slot selected before or the one requested, the active entry is never touched, and with power throughout it is the requested one exactly where a switch works (active number not zero, or not the last slot, or a slot count dividing 2^32) |
| `OtaData.NewEntryFields` | common/app_update/esp_ota_ops.c:347-361 | the entry written has the new number, its checksum and the new state |
| `OtaCrc.PolynomialIs` | common/app_update/otatool.py:107-110 | the polynomial is that of CRC-32 |
| `OtaCrc.CrcOfOne` | common/app_update/otatool.py:107-110 | the checksum of number one is 0x4743989A |
| `OtaCrc.BlankCrcIff` | common/app_update/otatool.py:107-110 | only the number zero has the checksum of erased memory: the CRC-32 register runs backwards |
| `OtaCrc.SeqCrcRejectsTornWords` | common/app_update/otatool.py:107-110 | so the checksum rejects every number cut off inside its four bytes, which is what crash safety asks of it |
| `OtaTool.SameBaseIff` | common/app_update/otatool.py:142-160 | the tool starts from the same entry as the firmware exactly when the entry it picks is not marked invalid or aborted |
| `OtaTool.SameBaseSameSwitch` | common/app_update/otatool.py:162-177 | from the same entry it writes the same sector and the same number |
| `OtaTool.ToolSwitchTakesEffectIff` | common/app_update/otatool.py:142-201 | a switch by the tool takes effect exactly when the state of the entry it overwrites is not invalid or aborted and the new number selects its slot, or the other entry, in good standing, selects the slot already |
| `OtaTool.ToolSwitchLost` | common/app_update/otatool.py:142-201 | two entries for which a switch by the tool is lost |
| `OtaTool.SwitchOtaPartition` | common/app_update/otatool.py:106-203 | the image of the partition is changed in the number and the checksum of one entry and in no other byte, the entry and the number being those of the specification |
| `OtaTool.OverwrittenFields` | common/app_update/otatool.py:187-199 | the two seeks and writes replace exactly these fields |
| `HttpsOta.HttpsOtaHandle.constructor` | common/esp_https_ota/src/esp_https_ota.c:135-208 | the state after begin: nothing read, nothing written |
| `HttpsOta.HttpsOtaHandle.GetImgDesc` | common/esp_https_ota/src/esp_https_ota.c:210-253 | reads the image header into the buffer; bytes are conserved exactly when it succeeds for the first time and before the first perform, and in a call that fails exactly when it read nothing |
| `HttpsOta.HttpsOtaHandle.OtaWrite` | common/esp_https_ota/src/esp_https_ota.c:119-133 | a successful write hands the bytes to the writer, in order |
| `HttpsOta.HttpsOtaHandle.Perform` | common/esp_https_ota/src/esp_https_ota.c:255-322 | as long as it reports progress or completion, the bytes handed to the writer are exactly the body bytes read, in order; completion means that the complete body was received |
| `HttpsOta.HttpsOtaHandle.StartWriting` | common/esp_https_ota/src/esp_https_ota.c:270-283 | opens the writer and writes a header that was read ahead |
| `HttpsOta.HttpsOtaHandle.Transfer` | common/esp_https_ota/src/esp_https_ota.c:284-315 | one read and one write; a lost connection without complete data is an error |
| `HttpsOta.HttpsOtaHandle.Finish` | common/esp_https_ota/src/esp_https_ota.c:330-367 | the boot partition is changed only after the complete body was received and the writer ended well; then the partition starts with exactly the body |
| `HttpsOta.PerformAll` | common/esp_https_ota/src/esp_https_ota.c:393-405 | performing until something other than progress is reported keeps the conservation of bytes, and is done exactly when the complete body was received, which it is if the server delivers, the flash works and the body is an image that fits |
| `HttpsOta.HttpsOtaUpdate` | common/esp_https_ota/src/esp_https_ota.c:381-415 | the whole update, with or without a look at the image description first: success means that the partition starts with exactly the body sent, passed verification and was selected; if the server delivers, the flash works and the body is an image that fits, the update succeeds exactly if verification does |
| `OtaUpdate.SetBootPartition` | common/app_update/esp_ota_ops.c:420-461 | verifies the image once more and selects the slot, with the real checksum; at every power cut the old or the new slot boots |
| `OtaUpdate.UpdateAndSelect` | common/esp_https_ota/src/esp_https_ota.c:330-415 | download, with or without a look at the image description, and selection together: if what boots next has changed, it is the requested slot, and its partition starts with exactly the complete, verified body; where nothing stands in the way the requested slot boots |
| `BlynkFraming.RunConcat` | common/blynk/blynk_iot.c:352-413 | feeding bytes one after the other composes |
| `BlynkFraming.RunHeader` | common/blynk/blynk_iot.c:352-393 | five bytes set command, id and length, big-endian, and decide whether a body follows |
| `BlynkFraming.RunBody` | common/blynk/blynk_iot.c:395-413 | a body is consumed in full, and its first 512 bytes are kept |
| `BlynkFraming.RunFrame` | common/blynk/blynk_iot.c:352-413 | one whole frame is delivered, truncated to 512 bytes, and the parser waits for a command again |
| `BlynkFraming.RunIncomplete` | common/blynk/blynk_iot.c:352-413 | an unfinished frame delivers nothing |
| `BlynkFraming.ParserFindsFrames` | common/blynk/blynk_iot.c:352-413 | on every byte stream the parser delivers the frames the headers announce, framing is never lost by a frame longer than 512, and it waits for a command exactly when none is left unfinished |
| `BlynkFraming.Serialize` | common/blynk/blynk_iot.c:275-300 | the serializer writes header and payload, cut to the buffer |
| `BlynkFraming.WireFormat` | common/blynk/blynk_iot.c:275-300 | on the wire a message is its command, its id and its length with the high bytes first, and its payload |
| `BlynkFraming.WireIsParsed` | common/blynk/blynk_iot.c:352-413 | bytes of this format are delivered as the message they hold |
| `BlynkFraming.StreamRoundTrip` | common/blynk/blynk_iot.c:275-413 | any list of messages whose payloads fit, serialized back to back and fed byte by byte, is delivered in order, and the parser waits for a command at the end |
| `BlynkFraming.RoundTripIff` | common/blynk/blynk_iot.c:275-300 | a single message survives exactly if it is a response or its payload is at most 507 bytes |
| `BlynkFraming.BlynkParser.Parse` | common/blynk/blynk_iot.c:352-413 | the in-place parser computes the specified step for each byte |
| `BlynkFraming.BlynkParser.ParseAll` | common/blynk/blynk_iot.c:352-413 | over a buffer it computes the specified run |
| `BlynkAwaiting.TimerAgrees` | common/blynk/blynk_iot.c:665-669 | `timerExpired` agrees with a clock that never wraps for deadlines within 2^31 ticks |
| `BlynkAwaiting.TimerAgreesIff` | common/blynk/blynk_iot.c:665-669 | and in general exactly where the deadline, reduced to 2^32 ticks, keeps its side of now |
| `BlynkAwaiting.RegisterKeeps` | common/blynk/blynk_iot.c:241-273 | filling a free slot keeps ids distinct and every registration accounted for |
| `BlynkAwaiting.RefuseKeeps` | common/blynk/blynk_iot.c:241-273 | so does a registration that finds no room |
| `BlynkAwaiting.FireKeeps` | common/blynk/blynk_iot.c:495-518 | so does calling a handler and freeing its slot |
| `BlynkAwaiting.AtMostOnce` | common/blynk/blynk_iot.c:745-769 | no handler fires twice, and one that still waits has not fired, by response or timeout, in any reachable state |
| `BlynkAwaiting.AwaitingTable.constructor` | common/blynk/blynk_iot.c:861-864 | the table at the start of a connection |
| `BlynkAwaiting.AwaitingTable.GetId` | common/blynk/blynk_iot.c:241-273 | a new id and, with a handler, a free slot; zero when there is none |
| `BlynkAwaiting.AwaitingTable.Fire` | common/blynk/blynk_iot.c:507-516 | the handler is called once and the slot freed |
| `BlynkAwaiting.AwaitingTable.HandleResponse` | common/blynk/blynk_iot.c:495-518 | exactly the slot with the id of the response fires, if there is one |
| `BlynkAwaiting.AwaitingTable.HandleTimers` | common/blynk/blynk_iot.c:745-769 | exactly the slots whose deadline is set and past fire, in their order, with the timeout status |
| `BlynkConnection.OutcomeIsFinal` | common/blynk/blynk_iot.c:861-1032 | over every run, what a handler was called with stays, and ids and handlers stay apart |
| `BlynkConnection.EachMeetsItsFate` | common/blynk/blynk_iot.c:495-769 | while a connection lasts no request disturbs another: the handler of each is called with the status of the first response with its id, or with the timeout if its deadline comes first, and it waits exactly as long as neither has come |
| `BlynkConnection.EveryRequestMeetsItsFate` | common/blynk/blynk_iot.c:241-769 | so is the handler of every request of a run, from the moment it gets its id |
| `BlynkConnection.OldIdStaysOut` | common/blynk/blynk_iot.c:241-273 | an id once freed is not given again before the counter wraps |
| `BlynkConnection.CutAnywhere` | common/blynk/blynk_iot.c:972-1000 | where the socket cuts the stream into reads makes no difference to what is answered |
| `BlynkConnection.AnswersArrive` | common/blynk/blynk_iot.c:275-518 | from end to end: whatever fitting messages a peer serializes, the handler that waits for an id is called with the status of the first response with that id, and not at all if there is none |
| `BlynkConnection.StoredSize` | common/blynk/blynk_iot.c:241-273 | the slots in use are as many as the requests that wait, so a request finds no room exactly if 32 wait |
| `BlynkConnection.Freed` | common/blynk/blynk_iot.c:495-518 | freed slots are requests that wait no longer |
| `BlynkConnection.Filled` | common/blynk/blynk_iot.c:241-273 | a filled slot is one more request that waits |
| `BlynkConnection.ToldTimeouts` | common/blynk/blynk_iot.c:745-769 | the handlers of the slots that are due are those of the requests that are due |
| `BlynkConnection.Connection.constructor` | common/blynk/blynk_iot.c:861-865 | the reset at the start of a connection |
| `BlynkConnection.Connection.HandleMessage` | common/blynk/blynk_iot.c:495-518 | a response answers the request with its id, if there is one; other frames answer none |
| `BlynkConnection.Connection.Receive` | common/blynk/blynk_iot.c:972-1000 | the bytes read go through the parser one by one, and each frame is handled when it is complete |
| `BlynkConnection.Connection.TakeRequest` | common/blynk/blynk_iot.c:899-917 | a request from the queue gets its id and waits; one that finds no slot ends the connection |
| `BlynkConnection.Connection.Tick` | common/blynk/blynk_iot.c:745-769 | every request whose deadline has passed is answered with the timeout |
| `BlynkConnection.Connection.RunEvents` | common/blynk/blynk_iot.c:881-1032 | any run of reads, requests and ticks: parser and table do what the map from ids to requests does, no handler is called twice, and if the connection lasts every request that waited was called with its own fate, or not at all |
| `HttpHeaders.MeasureBatch` | common/esp_http_client/lib/http_header.c:175-208 | the first loop finds the longest batch from the index on that leaves three bytes free, or gives up before it gets there |
| `HttpHeaders.GenerateString` | common/esp_http_client/lib/http_header.c:175-224 | the batch is written inside the buffer, with the empty line behind the last header, and the index behind it returned |
| `HttpHeaders.SentWholeIff` | common/esp_http_client/esp_http_client.c:1327-1358 | the request goes out whole exactly when the list is not empty and each line fits with three bytes to spare, the first one behind the request line |
| `HttpHeaders.BatchFits` | common/esp_http_client/esp_http_client.c:1327-1342 | a batch stops short only at a header that does not fit on its own |
| `HttpHeaders.SentStep` | common/esp_http_client/esp_http_client.c:1327-1358 | consecutive batches concatenate, the request line sent once in front of the first |
| `HttpHeaders.LineIsRead` | common/esp_http_client/lib/http_header.c:214 | a line is read up to the first line break |
| `HttpHeaders.LinesAreRead` | common/esp_http_client/lib/http_header.c:211-217 | header lines are read as these headers, name up to the first colon and value behind the space, in order |
| `HttpHeaders.RequestIsRead` | common/esp_http_client/esp_http_client.c:1294-1364 | a reader of the wire after section 3 of RFC 7230 gets back the request line, exactly the headers in order, and the body, for names without a colon and lines without a line break |
| `HttpHeaders.SentIsReadIff` | common/esp_http_client/esp_http_client.c:1327-1358 | what goes out is read as this request exactly if the request is deliverable; otherwise no request is read at all |
| `HttpHeaders.Client.NextBatch` | common/esp_http_client/esp_http_client.c:1327-1342 | the index strictly increases with every batch, and no batch overruns the buffer, its terminator included |
| `HttpHeaders.Client.SendBuffer` | common/esp_http_client/esp_http_client.c:1342-1355 | a batch is sent in pieces of any size, without gap or repetition, until done or the transport fails |
| `HttpHeaders.Client.SendBatch` | common/esp_http_client/esp_http_client.c:1340-1355 | one round of the outer loop: the batch is terminated and sent, or an error leaves the request unfinished |
| `HttpHeaders.Client.SendHeaders` | common/esp_http_client/esp_http_client.c:1327-1358 | the outer loop sends the batches from the current index on, up to the first header that does not fit |
| `HttpHeaders.BatchOfRest` | common/esp_http_client/esp_http_client.c:1327-1342 | batches of the list from an index on are batches of the rest of the list |
| `HttpHeaders.Client.RequestSend` | common/esp_http_client/esp_http_client.c:1294-1364 | on success the wire has request line, every header once and in order and one empty line (section 3 of RFC 7230) if and only if the request is deliverable, and otherwise the headers before the first that does not fit; a call that finds the request line prepared goes on with the next header, or refuses to send what an earlier call left; on a transport error the wire has a proper beginning of what was to be sent; a reader of the wire finds the request, header by header, exactly if it is deliverable; a transport that takes something of each write sees no transport error |
| `EnumTable.GetAfterSet` | common/nvs_flash/src/compressed_enum_table.hpp:36-53 | for widths 1, 2, 4, 8 and 16, get after set at the same item gives the part of the value that fits, on 32-bit words |
| `EnumTable.GetAfterOtherSet` | common/nvs_flash/src/compressed_enum_table.hpp:36-53 | a set leaves every other item of the word unchanged, as long as the value stays inside its item |
| `EnumTable.UndisturbedIff` | common/nvs_flash/src/compressed_enum_table.hpp:45-53 | and that condition is exact: otherwise some other item changes in some word |
| `EnumTable.SmallStaysInside` | common/nvs_flash/src/compressed_enum_table.hpp:71-76 | values up to VALUE_MASK meet it |
| `EnumTable.PlaceOf` | common/nvs_flash/src/compressed_enum_table.hpp:71-76 | every item lies inside the WORD_COUNT words |
| `EnumTable.NoWordToSpare` | common/nvs_flash/src/compressed_enum_table.hpp:71-76 | and the last item in the last of them |
| `EnumTable.PlacesDiffer` | common/nvs_flash/src/compressed_enum_table.hpp:36-53 | two items in one word start at different bits |
| `EnumTable.ItemsFromTheLowEnd` | common/nvs_flash/src/compressed_enum_table.hpp:36-43 | the first item is in the low bits of the first word, the next ones follow upwards, and then the next words |
| `EnumTable.MaskIs` | common/nvs_flash/src/compressed_enum_table.hpp:71-76 | VALUE_MASK is 1, 3, 15, 255 or 65535 |
| `EnumTable.SetUpdates` | common/nvs_flash/src/compressed_enum_table.hpp:45-53 | set updates the sequence of values at one index, also across words |
| `EnumTable.CompressedEnumTable.constructor` | common/nvs_flash/src/compressed_enum_table.hpp:71-76 | a table of the right number of words |
| `EnumTable.CompressedEnumTable.Get` | common/nvs_flash/src/compressed_enum_table.hpp:36-43 | get reads the sequence of values |
| `EnumTable.CompressedEnumTable.Set` | common/nvs_flash/src/compressed_enum_table.hpp:45-53 | set writes it: for values up to VALUE_MASK exactly one index changes, to the value |

## Left out

- cJSON: NULL arguments of parser and printer, custom hooks without `realloc`, and NaN and infinite numbers are not
  modelled.
- cJSON memory: allocations succeed until a given number of them is used up, and nothing is freed; where a parse
  fails for want of memory its error position is not claimed.
- cJSON numbers: `strtod`, `sprintf` and the locale's decimal point are parameters, and rounding in `compare_double`
  is left out.
- CJsonPrinter.PrintTree: the final copy with custom hooks is not modelled, only the path through `realloc`.
- CJsonRoundTrip.PrintParse: numbers other than integers in int range are covered as far as the two parameters read
  back what they print.
- CJsonNodes.ReplaceItemViaPointer: the deletion of the replaced item is not modelled, as memory is not freed in the
  model.
- CJsonDuplicate.Duplicate: what is freed after a failed allocation is not modelled.
- cJSON_Minify, the array constructors and the other wrappers of the functions above.
- Log: the lock makes every operation atomic; the 29-bit generation field does not wrap; TAG_CACHE_SIZE is any odd
  number from 3 on instead of 31; the output function is not called.
- OTA: the list of handles, `esp_ota_write_with_offset`, image verification (a parameter), secure boot,
  anti-rollback, the encryption itself, and `esp_ota_current_ota_is_workable`, which erases the active sector.
- OtaWriter.OtaEntry.Write: with a known image size the flash is erased to the end of its last sector only, and the
  statements reach as far as it was erased.
- OtaData.OtaPartition.RewriteOtaData: an erase of a sector is atomic, and sequence numbers leave room for another
  switch, so that nothing overflows 32 bits.
- OtaUpdate.SetBootPartition: the factory partition and anti-rollback are left out, and the checksum of the
  firmware, which is not in the repository, is taken to be that of `otatool.py`.
- HttpsOta.HttpsOtaHandle.Finish: the result of setting the boot partition is not claimed, as the code does not
  report it; nothing is claimed of `binary_file_len` as an image length either, as it counts a header read ahead
  twice.
- HTTPS OTA: connection, redirects, and the check of the configuration in begin.
- Blynk: sockets, tasks and queues, the login and ping handlers, the branch that wraps the id counter, and the write
  that sends a fixed string; the serializer is connected to the parser directly.
- BlynkAwaiting.AwaitingTable.Fire: handlers do not change the table.
- BlynkConnection.Connection.RunEvents: handlers do not end the connection, the run ends before the id counter
  wraps, and the ping that a timer sends is a request of its own.
- HttpHeaders.Client.RequestSend: header values are not null, the connection is in the state in which requests are
  sent, and the index is inside the list; the setting of Content-Length before the batches belongs to the given
  list.
- EnumTable: a width of 32, for which the shift in VALUE_MASK is undefined, and the assertions on the index, which
  are preconditions.
- Sockets, Wi-Fi, MQTT, peripherals, web handlers, and the HTTP parser and authentication behind the client.
