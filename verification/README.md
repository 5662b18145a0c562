# Extended VDE switch: verification

A Dafny model of the four parts of this virtual Ethernet switch that carry hard properties, with proofs.

* **JSON** (`src/config/cJSON.c`, used by the configuration loader). `JsonParse` and `JsonUnparse` say what parsing
  and printing mean, as pure functions on bytes; `JsonRoundTrip` proves that parsing undoes printing. `JsonCursor`
  (the parser over a mutable cursor), `JsonPrintBuffer` (the printer into a growable buffer, with its two ways of
  advancing the offset), `JsonLinks` / `JsonSiblings` (list surgery on linked nodes) and `JsonTree` (duplicate,
  compare) are the imperative code, proved against those functions. `JsonEscape` has the two passes over a string
  literal and UTF-16 to UTF-8; `JsonCompare` says what comparing decides; `JsonMinify` is the in-place minifier,
  `JsonMinifyLaws` what it does to printed text and `JsonMinifyParse` what its output parses to. What these functions
  mean is pinned to the characters of the text: `JsonGrammar` (which texts are accepted, as which values),
  `JsonNumbers`, `JsonLiterals`, `JsonLayout` (which of the texts of a value is printed) and `JsonComments`.
* **Path canonicaliser** (`src/utils/canonicalize.c`). `PathWalk` resolves a name on a stack of components against an
  arbitrary fixed file system and proves what a resolved name is, `PathNames` what every kind of component does to a
  name, `PathLaws` what the parts of a name resolve to and what a failure means; `Canonicalize` is the pointer-walking
  code in three buffers, proved to compute the same.
* **Packet dispatch** (`src/utils/queue.c`, `src/utils/thread_pool.c`, `src/data_plane/forwarding_engine.c`,
  `src/data_plane/toeplitz.c`). `Toeplitz` is the flow hash, `RingBuffer` the ring taken one operation at a time,
  `Dispatch` one worker's ring and pipe with a step for every atomic load, store, message write and message read, and
  `PacketFlow` whole runs of the dispatcher with any number of workers in every interleaving. `Descriptors` says under
  which descriptor packets are handled in such runs.
* **MAC learning** (`src/control_plane/hash_table.c` and the worker's decision). `MacTable` is the chained table,
  `MacHistory` what it means over runs, `Switch` the forwarding decision over runs, `SwitchFrames` the same in terms
  of the bytes of the frames. `SwitchRuns` puts the dispatcher's runs and the forwarding decision together.

Conventions. Trees are linked `Node` objects; `n.Holds(v)` says that the tree below `n` stands for the value `v`, with a
doubly linked list of children whose head points at the tail. `Printable` values have 32-bit integer numbers and
NUL-free strings. Parameters marked `ghost` are the abstract values the code is proved against. Sequence
fields such as `pushed`, `popped` and `handled` of a `Channel` record what happened and influence nothing.

## Where the code differs from what is said about it

* `canonicalize.c:41-42` promises the path of the first component that cannot be resolved. The buffer holds it exactly
  if the name is not empty, it is absolute or the current directory is known, and that path is shorter than PATH_MAX;
  otherwise it holds nothing new, an empty string, or the path above it (`PromiseKeptIff`, with an input in
  `PromiseBroken`).
* `cJSON.h:257` says minifying removes blanks. After a string or key that ends in a backslash the minifier believes it
  is still inside the string, and blanks stay (`MinifyUndoesFormatting` gives the exact condition); later strings may
  even lose blanks, so that the text no longer parses to the same value (`MinifyChangesValue`), which cannot happen
  as long as no byte inside a literal is dropped (`MinifyKeepsValue`).
* `cJSON.h:162` advises five spare bytes for preallocated printing. For printable values two are enough, and needed.
* Malformed digits of a first `\u` unit are rejected only if the literal ends before there are four of them; otherwise
  they are read as a NUL, which ends the string (`MalformedDigits`). They can hide an escape from the second pass, which
  then ends behind the closing quote (`BehindTheQuote`).
* Comparing a value with itself fails exactly if some repeated key carries a value that differs from the first one
  with that key (`CompareToItself`); the parser accepts repeated keys.
* Comparing is transitive on values with integer numbers, but not on all (`CompareIsEquivalence`,
  `NumbersNotTransitive`).
* A worker handles every packet it drains under the descriptor of the message it read, not the packet's own: the
  message of any earlier arrival that its worker gets at most pipe capacity + 1 places before (`HandledUnderIff`). All
  runs over some arrivals handle each packet under its own descriptor exactly if no two arrivals for one worker differ
  in descriptor (`OwnDescriptorIff`). A request and its reply always share a worker, so two-way traffic fails for every
  number of workers (`TwoWayTraffic`).
* So a packet can be sent back to the port it came in on: no run does so exactly if no two arrivals in reach of each
  other come in on different known ports, the later one being no IPv6 packet and somebody being on its port
  (`NeverSentBackIff`). A sender can be learned on a port it never used: no run does so exactly if for every unicast
  packet that is not IPv6, and every arrival on a known port whose message it can be handled under, it or an earlier
  packet of its sender came in on that port (`LearnedRightIff`). And a packet can fail to reach the only port its
  destination is known on, unless all arrivals whose message it can be handled under come in elsewhere
  (`DeliveredIff`, with an input in `ReplyIsDropped`).
* Refreshing an address does not make it findable again once it has expired (`RelearningWorksIff`).
* The hash is named after Toeplitz but indexes key bytes by bit number; with the built-in key it has at most 16 values
  (`PacketHashIsMix`).
* Appending an item whose `next` is not NULL to a non-empty list breaks the list, and so does appending one of its own
  children, even the last (`AddItemToArray`): any child of another list but its last is an input of the first kind
  (`AppendAnothersChild`, `BrokenList`), and any child of the same list one of the second (`AppendOwnChild`,
  `AppendedAgain`). Inserting an own child always breaks the list (`InsertItemInArray`), and so does putting it in the
  place of another, except that the first of three or more in the place of the last is left as the only child
  (`ReplaceItemViaPointer`).

## Model
| member | source | states |
|---|---|---|
| JsonRoundTrip.RoundTrip | src/config/cJSON.c:1317-1830 | Parsing undoes printing: for every value of null, booleans, 32-bit integers, NUL-free byte strings, arrays and objects nested at most 1000 deep, formatted or not, parsing the print with its NUL gives exactly that value and ends at the end of the text. |
| JsonRoundTrip.ParseUnparse | src/config/cJSON.c:1317-1443 | The same wherever the print stands in a text, at any indentation and parser depth, if the nesting left suffices and the next byte cannot continue a number. |
| JsonRoundTrip.ParseQuoted | src/config/cJSON.c:778-1026 | A printed string, with every escaped byte, parses back to the same bytes. |
| JsonRoundTrip.ParseDecimal | src/config/cJSON.c:305-617 | A printed integer parses back to the same number, whatever follows that cannot be part of a number. |
| JsonNesting.ParsedFits | src/config/cJSON.c:1446-1456 | Whatever is parsed at some depth is nested no deeper than the rest of the limit, and its strings and keys are C strings. |
| JsonNesting.TooDeep | src/config/cJSON.c:1451-1455 | An array or object at the limit is refused at its bracket, whatever is inside. |
| JsonNesting.Reparse | src/config/cJSON.c:1084-1264 | Any text that parses to a printable value: printing the value and parsing that gives the same value again. |
| JsonGrammar.ReadIff | src/config/cJSON.c:1317-1716 | At any place and depth, a value is read up to q exactly if the characters up to there are that value: the three words, a number, a literal, values with commas between brackets, quoted keys with colons and values between braces, with any control characters and spaces around them; nested no deeper than what is left of 1000. |
| JsonGrammar.AcceptedIff | src/config/cJSON.c:1084-1178 | A C string that has to be consumed whole is accepted exactly if it is, behind an optional byte order mark and with white space around it, the text of a value nested at most 1000 deep, and is read as that value. |
| JsonGrammar.WrongByte | src/config/cJSON.c:1446-1541 | A byte that is neither comma nor bracket behind the first item of an array is where the error is reported. |
| JsonGrammar.NoColon | src/config/cJSON.c:1606-1716 | Anything but a colon behind the first key of an object is where the error is reported. |
| JsonGrammar.NoValue | src/config/cJSON.c:1317-1369 | A byte at which no value can start is where the error is reported. |
| JsonGrammar.ErrorInside | src/config/cJSON.c:1446-1541 | An error in the first item of an array is reported where the item reports it. |
| JsonNumbers.NumeralIsRead | src/config/cJSON.c:305-380 | Any sign, whole digits, point, fraction, E or e and signed exponent, of at most 63 bytes and not followed by another number byte: all is taken but an exponent without digits, and the number r satisfies r * 10^fraction digits = the digits * 10^exponent, or, with a negative exponent, r * 10^fraction digits * 10^exponent = the digits. |
| JsonNumbers.DenotesOne | src/config/cJSON.c:353-360 | That equation determines r. |
| JsonNumbers.NoNumeral | src/config/cJSON.c:353-358 | Without a digit at the start or behind the sign nothing is read. |
| JsonNumbers.IntegerBeside | src/config/cJSON.c:362-374 | `valueint` is the number without its fraction, or the nearest of 2147483647 and -2147483648. |
| JsonLiterals.LiteralIsRead | src/config/cJSON.c:778-1026 | Any literal made of ordinary bytes, the eight escapes by a letter, `\u` units in hexadecimal digits of any case and surrogate pairs is read as those bytes, the eight control and punctuation bytes and the UTF-8 of the characters, up to the first NUL, and the cursor stops behind its closing quote. |
| JsonLiterals.OtherLetters | src/config/cJSON.c:832-888 | A backslash before anything but `u` and the eight letters is refused, at the backslash. |
| JsonLiterals.RefusedBehind | src/config/cJSON.c:832-904 | So is the literal, wherever in it the first such escape is. |
| JsonLiterals.NoLiteral | src/config/cJSON.c:778-812 | Without an opening quote, or a quote behind it, there is no literal. |
| JsonLayout.DecimalSpells | src/config/cJSON.c:550-617 | Integers are printed in decimal with no leading zero, and a sign only if negative. |
| JsonLayout.WordsArePrinted | src/config/cJSON.c:1383-1408 | The three literals are printed as their words, formatted or not. |
| JsonLayout.StringIsWritten | src/config/cJSON.c:907-1032 | Strings are printed byte by byte between quotes: ordinary bytes as they are, seven others behind a backslash by their letter, the rest as `\u00` and two small hexadecimal digits. |
| JsonLayout.ArrayIsPrinted | src/config/cJSON.c:1544-1603 | Arrays are printed as their items joined by a comma, and a space if formatted, between brackets. |
| JsonLayout.ObjectIsPrinted | src/config/cJSON.c:1719-1830 | Objects are printed as their members joined by commas between braces; formatted, with one member to a line, one tab for each level, and a tab behind the colon. |
| JsonEscape.SizeEstimate | src/config/cJSON.c:791-890 | The bytes the second pass emits never exceed the raw length less the escapes the first pass counted, from any point where the passes can stand relative to each other, malformed `\u` digits included. |
| JsonEscape.Utf8Decodes | src/config/cJSON.c:712-759 | The encoder's output for any Unicode scalar value is well-formed UTF-8 (section 4 of RFC 3629) and decodes to that value. |
| JsonEscape.Utf8IsUnique | src/config/cJSON.c:712-759 | Every well-formed UTF-8 sequence is the encoder's output for the character it decodes to, so the encoding is the only and shortest one. |
| JsonEscape.EncoderBits | src/config/cJSON.c:741-758 | The encoder's shifts, ORs and ANDs compute the arithmetic used in the specification. |
| JsonEscape.UnicodeEscape | src/config/cJSON.c:657-775 | At a `\u` with four digits that spell a code unit, in letters of any case: a unit that is no surrogate, and a pair of a high and a low one (section 7 of RFC 8259), becomes UTF-8 that decodes to exactly that character; every other surrogate is rejected. |
| JsonEscape.SpelledIsRead | src/config/cJSON.c:620-653 | Four bytes that spell a number in the digits 0123456789ABCDEF or 0123456789abcdef, mixed or not, are read as that number. |
| JsonEscape.ReadIsSpelled | src/config/cJSON.c:620-653 | Nothing else is four hexadecimal digits. |
| JsonEscape.MalformedDigits | src/config/cJSON.c:620-653 | At a `\u` whose four digits are not all hexadecimal: taken for the NUL character if the literal has room for four digits, and rejected otherwise. |
| JsonEscape.MalformedDigitsTruncate | src/config/cJSON.c:620-890 | Concretely, `"a\uZZZZb"` is read as the C string "a". |
| JsonEscape.BehindTheQuote | src/config/cJSON.c:791-890 | Concretely, in `"\uZZZ\\"` the second pass ends one byte behind the closing quote the first pass found. |
| JsonCursor.ParseBuffer.SkipWhitespace | src/config/cJSON.c:1043-1066 | The cursor stops at the first byte above space, or on the last byte if there is none; it never leaves the text. |
| JsonCursor.ParseBuffer.SkipByteOrderMark | src/config/cJSON.c:1069-1082 | A UTF-8 byte order mark at the start is skipped. |
| JsonCursor.ParseBuffer.ParseNumber | src/config/cJSON.c:305-380 | The number, taken exactly, that `strtod` finds in the first 63 number characters, with `valueint` saturated to 32 bits, and the cursor behind what `strtod` used. |
| JsonCursor.ParseBuffer.ParseHex4 | src/config/cJSON.c:620-653 | The number that the four bytes spell in hexadecimal digits of any case, or 0 if they spell none. |
| JsonCursor.ParseBuffer.WriteUtf8 | src/config/cJSON.c:735-761 | The loop that fills in continuation bytes from behind writes exactly the UTF-8 encoding and nothing else. |
| JsonCursor.ParseBuffer.Utf16LiteralToUtf8 | src/config/cJSON.c:657-775 | Output, output length and input length of one `\u` escape, or 0 for a rejected one, as `EscapeAt` has them. |
| JsonCursor.ParseBuffer.ScanLiteral | src/config/cJSON.c:791-812 | The first pass finds the closing quote and counts the escapes. |
| JsonCursor.ParseBuffer.UnescapeLiteral | src/config/cJSON.c:826-890 | The second pass writes the unescaped bytes and a NUL into a buffer of the estimated size, all writes inside it, although the passes can get out of step and the second can end one byte behind the closing quote. |
| JsonCursor.ParseBuffer.ParseString | src/config/cJSON.c:778-904 | String node, cursor and error position as specified; the string is what stands before the first NUL. |
| JsonCursor.ParseBuffer.ParseValue | src/config/cJSON.c:1317-1369 | On every NUL-terminated text the mutual recursion terminates, reads only inside the text, and leaves cursor, depth, result and error position exactly as `JsonParse.ParseValue`; on success the node's tree holds the parsed value in new nodes. |
| JsonCursor.ParseBuffer.ParseArray | src/config/cJSON.c:1446-1541 | The same for arrays: the children are a well-formed doubly linked list holding the items in order. |
| JsonCursor.ParseBuffer.ParseObject | src/config/cJSON.c:1606-1716 | The same for objects, with the keys as the children's names. |
| JsonPrintBuffer.PrintBuffer.Ensure | src/config/cJSON.c:444-528 | Succeeds exactly if offset, request and a NUL fit into the largest buffer allowed; then they fit into the buffer, and what was in it is still there, moved or not. |
| JsonPrintBuffer.PrintBuffer.UpdateOffset | src/config/cJSON.c:530-540 | Lands behind the text just written, wherever in that text the offset already was. |
| JsonPrintBuffer.PrintBuffer.PrintString | src/config/cJSON.c:907-1032 | Writes the quoted, escaped string inside one exact reservation. |
| JsonPrintBuffer.PrintBuffer.PrintNumber | src/config/cJSON.c:550-617 | Writes the decimal of an integer number and advances the offset itself. |
| JsonPrintBuffer.PrintBuffer.PrintValue | src/config/cJSON.c:1372-1443 | Succeeds exactly if the text and two more bytes fit; then the buffer holds what it held before, followed by exactly `Unparse(v)` and a NUL, across any reallocation, and the offset is somewhere in that text. |
| JsonPrintBuffer.PrintBuffer.PrintArray | src/config/cJSON.c:1544-1603 | The same for arrays, including the separators and the restored depth. |
| JsonPrintBuffer.PrintBuffer.PrintObject | src/config/cJSON.c:1719-1830 | The same for objects, including indentation, tabs and line breaks. |
| JsonPrintBuffer.UnparseNulFree | src/config/cJSON.c:530-540 | Printed text contains no NUL, which is what lets `strlen` find its end. |
| JsonApi.ParseWithOpts | src/config/cJSON.c:1084-1178 | From a C string: a new tree holding the parsed value, or NULL; the position is the error's, the end of the value, or, if a terminator is required, the first byte above space behind the value, whether that is the NUL or the text is refused. |
| JsonApi.Print | src/config/cJSON.c:1192-1254 | A new buffer of exactly the text and its NUL, unless the text is too long for an `int`. |
| JsonApi.PrintPreallocated | src/config/cJSON.c:1297-1314 | Succeeds exactly if the caller's buffer has two bytes more than the text. |
| JsonApi.PrintThenParse | src/config/cJSON.c:1084-1254 | The round trip carried down to the imperative printer and parser: the new tree holds the same value. |
| JsonSiblings.GetArrayItem | src/config/cJSON.c:1856-1873 | The child at an index, NULL beyond the end. |
| JsonSiblings.AddItemToArray | src/config/cJSON.c:1961-1992 | On any item: the children are a well-formed list afterwards exactly if the list was empty, or the item was none of them and had no `next`; otherwise no well-formed list starts at `child` at all, and the last child, appended again, follows itself. An item whose tree is apart from the parent's leaves, in the first case, the old array or object with its value at the end. |
| JsonSiblings.AppendAnothersChild | src/config/cJSON.c:1961-1992 | Appending a child of another list that is not its last child, to a list that is not empty, leaves a list that is not well formed. |
| JsonSiblings.BrokenList | src/config/cJSON.c:1961-1992 | The smallest such input: the first of two children of one node, appended to a node with one child. |
| JsonSiblings.AppendOwnChild | src/config/cJSON.c:1961-1992 | Any child appended to its own list leaves no list; the last one then follows itself. |
| JsonSiblings.AppendedAgain | src/config/cJSON.c:1961-1992 | The smallest such input: an only child, appended again. |
| JsonSiblings.DetachItemViaPointer | src/config/cJSON.c:2192-2226 | Removes the child at its position: list well formed, the item without links, array and object values as with that entry removed. |
| JsonSiblings.InsertItemInArray | src/config/cJSON.c:2268-2300 | On any item: in front of the child at the index the children are a well-formed list exactly if the item was none of them, and otherwise no list starts at `child`; beyond the end it appends. A separate tree gives the old array or object with the new entry there. Fails on a negative index or NULL. |
| JsonSiblings.ReplaceItemViaPointer | src/config/cJSON.c:2302-2349 | On any replacement: the children are a well-formed list with it in the child's place exactly if it is that child or none of the others; an own sibling leaves no list at all, except that the first of three or more in the place of the last is left as the only child. A separate tree updates the array or object value at that position. The old item ends without links; it is not freed. |
| JsonLinks.LinkLast | src/config/cJSON.c:1961-1992 | The links alone, for any two nodes and any well-formed list. |
| JsonLinks.LinkBefore | src/config/cJSON.c:2268-2300 | The same for an insertion. |
| JsonLinks.Relink | src/config/cJSON.c:2302-2349 | The same for a replacement. |
| JsonTree.CaseInsensitiveStrcmp | src/config/cJSON.c:133-158 | Zero exactly for two strings of one length that have, at every place, the same byte or two letters A-Z and a-z of which one is the capital of the other. |
| JsonTree.GetObjectItem | src/config/cJSON.c:1885-1915 | On any list of children, named or not: the first child whose key is the name, byte for byte or up to capitals; a case-sensitive search ends at the first child without a name; NULL if there is no such child. |
| JsonTree.Duplicate | src/config/cJSON.c:2716-2797 | New nodes with the same fields; recursively, a tree holding the same value. |
| JsonTree.DuplicateAndCompare | src/config/cJSON.c:2716-3119 | A recursive duplicate of a tree with integer numbers compares equal to the original exactly if repeated keys agree. |
| JsonTree.CompareNodes | src/config/cJSON.c:2996-3119 | `cJSON_Compare` on any two trees, also overlapping or the same: a node equals itself, leaves by kind and value, arrays item by item, objects member by member in both directions, each under its key. |
| JsonTree.MatchingIsCompare | src/config/cJSON.c:2996-3119 | That decision depends on the two values alone, as `Compare` has it, if the trees share no node, or for integer trees if repeated keys agree in both. |
| JsonCompare.CompareExactly | src/config/cJSON.c:2996-3119 | On all values with integer numbers, repeated keys included: comparing holds exactly if in both values every repeated key agrees with the first member it finds, at every level, and the two are equal with objects read as unordered maps (from keys up to case, if case is ignored). |
| JsonCompare.KeysFold | src/config/cJSON.c:133-158 | Keys are taken for the same, in objects read as maps too, exactly if a search takes them for the same. |
| JsonCompare.CompareToItself | src/config/cJSON.c:2996-3119 | So a value compares equal to itself exactly if its repeated keys agree. |
| JsonCompare.CompareIsEquality | src/config/cJSON.c:2996-3119 | Where keys are pairwise different, comparing is equality of the values read as unordered maps. |
| JsonCompare.RepeatedKey | src/config/cJSON.c:3064-3112 | An object with one key twice compares equal to itself exactly if the two values compare equal. |
| JsonCompare.CompareIsSymmetric | src/config/cJSON.c:2996-3119 | On all values, whatever their numbers and keys, comparing is symmetric. |
| JsonCompare.NumbersNotTransitive | src/config/cJSON.c:543-547 | Not on all numbers: 1, 1 + DBL_EPSILON and 1 + 2 DBL_EPSILON. |
| JsonCompare.CompareIsEquivalence | src/config/cJSON.c:2996-3119 | On all values with integer numbers comparing is symmetric and transitive, and reflexive exactly where repeated keys agree. |
| JsonCompare.RepeatedKeyNotReflexive | src/config/cJSON.c:3064-3112 | Concretely, `{"a":null,"a":true}` does not equal itself. |
| JsonCompare.IntsCompareExactly | src/config/cJSON.c:543-547 | The epsilon comparison of two 32-bit integers is equality. |
| JsonCompare.ToleranceIs | src/config/cJSON.c:543-547 | Two numbers are taken for equal exactly if they differ by at most the 2^52nd part of the larger magnitude. |
| JsonMinify.Minify | src/config/cJSON.c:2848-2894 | Rewrites the array in place, the write position never passing the read position, to the minified text and a NUL. |
| JsonMinify.MinifyString | src/config/cJSON.c:2826-2846 | Moves a string literal down in place, the write position never passing the read position; what is written, followed by the minified rest, stays the minified text. |
| JsonMinify.SkipMultilineComment | src/config/cJSON.c:2812-2824 | Stops behind the end of the comment, or at the end of the text. |
| JsonMinify.SkipOnelineComment | src/config/cJSON.c:2799-2810 | Stops behind the line feed, or at the end of the text. |
| JsonComments.ByteOutside | src/config/cJSON.c:2848-2894 | Outside a string the minifier drops a slash that starts no comment, enters a string at a quote, and keeps every byte that is no blank. |
| JsonComments.BlankIsDropped | src/config/cJSON.c:2848-2894 | It drops space, tab, carriage return and line feed. |
| JsonComments.LineIsDropped | src/config/cJSON.c:2799-2810 | It drops `//` up to and including the line feed, or to the end of the text. |
| JsonComments.BlockIsDropped | src/config/cJSON.c:2812-2824 | It drops `/*` up to and including the first `*/`. |
| JsonComments.OpenBlockIsDropped | src/config/cJSON.c:2812-2824 | It drops a block comment without an end to the end of the text. |
| JsonComments.ByteInside | src/config/cJSON.c:2826-2846 | Inside a string it keeps everything, up to a quote with no backslash right before it. |
| JsonMinifyLaws.Idempotent | src/config/cJSON.c:2848-2894 | Minifying twice is minifying once, for every byte string. |
| JsonMinifyLaws.QuotedStays | src/config/cJSON.c:2826-2846 | A printed string comes through unchanged; the minifier is left inside it exactly if it ends in a backslash. |
| JsonMinifyLaws.MinifyUndoesFormatting | src/config/cJSON.c:1544-2894 | Minifying the formatted print gives the unformatted print exactly if no key and no string ends in a backslash, except a string with nothing but closing brackets of arrays behind it. |
| JsonMinifyLaws.BackslashKeepsFormatting | src/config/cJSON.c:2826-2846 | The exception is real: in an array, a string that ends in a backslash followed by any other item. |
| JsonMinifyParse.MinifyKeepsValue | src/config/cJSON.c:2826-2894 | If a text parses and is consumed whole, and the minifier drops no byte inside a literal, however it misjudges where literals end, the minified text parses to the same value and is consumed whole. |
| JsonMinifyParse.TameIsKept | src/config/cJSON.c:2826-2894 | It drops none if no literal ends in an escaped backslash. |
| JsonMinifyParse.MinifyChangesValue | src/config/cJSON.c:2826-2894 | Where it does drop one the value can change: `["\\","a b"]` is minified to a text that parses to another value. |
| PathWalk.ResolvedIsCanonical | src/utils/canonicalize.c:112-213 | From a canonical stack of searchable directories: the resolved stack has no empty, `.` or `..` component, its path is shorter than PATH_MAX, no prefix of it is a link, and every proper prefix is a searchable directory. |
| PathWalk.RealPathIsCanonical | src/utils/canonicalize.c:85-213 | The same for every name from the root, or from a current directory that is itself resolved. |
| PathWalk.Idempotent | src/utils/canonicalize.c:85-213 | Resolving a resolved name again, from any current directory, returns it unchanged. |
| PathNames.ThroughLink | src/utils/canonicalize.c:156-192 | A name through a link in any directory one may search: an absolute target starts again from the root, a relative one from the directory the link is in, with what is behind the link behind it, and one link more used; it fails from the 20th link on, or if target and rest have 4096 bytes. |
| PathNames.ThroughDirectory | src/utils/canonicalize.c:193-206 | A name that ends at a directory is that directory; one that goes on needs search permission, and then goes on from there. |
| PathNames.ThroughFile | src/utils/canonicalize.c:193-197 | A name that ends at anything else is that; one that goes on, even with a slash, fails. |
| PathNames.ThroughAbsent | src/utils/canonicalize.c:138-152 | A name through nothing fails at its path, and one whose path has 4096 bytes leaves the path above. |
| PathNames.ThroughNothing | src/utils/canonicalize.c:116-126 | Repeated slashes and "." do not change what a name resolves to. |
| PathNames.ThroughDotDot | src/utils/canonicalize.c:127-132 | A directory followed by ".." leaves the name above it, and the root is above itself. |
| PathNames.ToDirectory | src/utils/canonicalize.c:193-206 | The name of a directory with a slash behind it is that directory. |
| PathNames.Names | src/utils/canonicalize.c:85-110 | Absolute names start at the root; a relative name is that name behind the current directory's. |
| PathNames.RelativeLink | src/utils/canonicalize.c:186-192 | Concretely, in /a a link to "b" leads to /a/b and one to "/b" to /b. |
| PathNames.LinkToItself | src/utils/canonicalize.c:160-164 | A link to itself fails after 20. |
| PathLaws.Compose | src/utils/canonicalize.c:112-208 | If the first part of a name resolves to a directory one may search: when every link followed in it leaves room, below PATH_MAX, for its target, the text behind it, a slash and the second part, the whole name resolves exactly as the second part does from there; when not, the whole name fails as too long. |
| PathLaws.DotDotIsAbove | src/utils/canonicalize.c:127-132 | A name that resolves to a directory one may search, followed by `/..`, resolves to the directory above what the name resolves to, links included, if every link followed leaves room for three more bytes; otherwise it fails as too long. |
| PathLaws.FailureIsFirst | src/utils/canonicalize.c:138-205 | On failure everything above the last point of the walk is a searchable directory and the reported path is the component there, which cannot be resolved for the stated reason (absent, too many links followed, not a directory with text behind, not searchable, path or link target with its rest too long); if that path is too long it is the path above. |
| PathLaws.PromiseKeptIff | src/utils/canonicalize.c:36-46 | A failing call on any name leaves the path of the first component that cannot be resolved exactly if the name is not empty, it is absolute or the current directory is known, and the path is shorter than PATH_MAX; what it leaves in each other case. |
| PathLaws.PromiseBroken | src/utils/canonicalize.c:138-146 | On every file system, a slash and 4095 letters leave only "/". |
| Canonicalize.Realpath | src/utils/canonicalize.c:47-223 | For every name, file system and current directory the buffer code terminates, stays inside its buffers, and returns exactly what `Resolve` says: the path of the resolved stack, or the path where the walk broke off. |
| Canonicalize.Navigate | src/utils/canonicalize.c:112-214 | The component loop computes `Walk` from any canonical start, whatever the links. |
| Canonicalize.Advance | src/utils/canonicalize.c:112-208 | One round of the loop: at the end of the name the walk has resolved; otherwise it goes on from the new position with fewer links left or a shorter name, or breaks off as `Walk` does. |
| Canonicalize.Enter | src/utils/canonicalize.c:133-207 | One component: appended and examined; a link replaces the rest of the name and the walk goes on from its directory or the root. |
| Canonicalize.FollowLink | src/utils/canonicalize.c:165-192 | A link's target goes in front of the rest of the name if both fit, and the walk goes on from the root or from the directory the link is in. |
| Canonicalize.BackUp | src/utils/canonicalize.c:129-131 | Backing up over the last component leaves its parent's path, never before the first slash. |
| Canonicalize.AppendComponent | src/utils/canonicalize.c:135-149 | The path with the component, if that is shorter than PATH_MAX; otherwise the path without it. |
| Canonicalize.Splice | src/utils/canonicalize.c:173-184 | The buffer holds the link target followed by the unread rest, also if the rest stood in the same buffer. |
| Canonicalize.SkipSlashes | src/utils/canonicalize.c:116-118 | The position and text behind a run of slashes. |
| Canonicalize.FindEnd | src/utils/canonicalize.c:120-121 | The component up to the next slash or the end. |
| Toeplitz.ToeplitzHash | src/data_plane/toeplitz.c:27-45 | The XOR, over the set bits i of the data, of the four key bytes from position i modulo the key length. |
| Toeplitz.Linear | src/data_plane/toeplitz.c:27-45 | For any non-empty key, the hash of the XOR of two data of the same length is the XOR of their hashes. |
| Toeplitz.OneBit | src/data_plane/toeplitz.c:27-45 | For any key, a single set bit of the data contributes the four key bytes from its position on, counted from the most significant bit of the first byte. |
| Toeplitz.ParitiesDecide | src/data_plane/toeplitz.c:16-45 | With the built-in key the hash is the XOR of those byte rotations of 0x6d5a56fa whose class of bit positions modulo 4 has odd parity. |
| Toeplitz.PacketHashIsMix | src/data_plane/toeplitz.c:47-66 | So the packet hash is decided by four parities of the addresses. |
| Toeplitz.OneBitOfPacket | src/data_plane/toeplitz.c:47-66 | A single set bit of either address hashes to one of 0x6d5a56fa, 0x5a56fa6d, 0x56fa6d5a and 0xfa6d5a56, by its place in its half byte, and the worker is that number modulo the number of workers. |
| Toeplitz.ShortPackets | src/data_plane/toeplitz.c:47-54 | Packets of fewer than 14 bytes hash to 0 and go to worker 0. |
| Toeplitz.OrderDoesNotMatter | src/data_plane/toeplitz.c:16-45 | With the built-in key, swapping two parts of the data does not change the hash. |
| Toeplitz.RepliesShareWorker | src/data_plane/toeplitz.c:47-66 | Packets with source and destination swapped have the same hash and go to the same worker. |
| Toeplitz.ComputePacketHash | src/data_plane/toeplitz.c:47-66 | 0 for packets shorter than a header, else the hash of source followed by destination. |
| RingBuffer.Ring.Push | src/utils/queue.c:20-31 | Appends to the queue unless 1023 items are in it. |
| RingBuffer.Ring.Pop | src/utils/queue.c:33-43 | Removes the oldest item, or reports an empty queue. |
| RingBuffer.Ring.Size | src/utils/queue.c:45-48 | The number of items in the queue. |
| Dispatch.ProduceKeeps | src/utils/queue.c:20-31 | Every single load, store and message write of the dispatcher keeps the channel invariant. |
| Dispatch.ConsumeKeeps | src/utils/thread_pool.c:30-118 | Every single load, store and message read of a worker keeps it. |
| Dispatch.PushAlone | src/utils/queue.c:20-31 | Without other steps in between, the single accesses of a push append to the queue from tail to head, or leave it when 1023 items wait: `Ring.Push`. |
| Dispatch.PopAlone | src/utils/queue.c:33-43 | The single accesses of a pop take the oldest item, or find the queue empty and change nothing: `Ring.Pop`. |
| Dispatch.NoLostWakeUp | src/utils/thread_pool.c:30-57 | A worker waiting on an empty pipe, with no push whose message is still to be written, has an empty ring. |
| Dispatch.NoDeadlock | src/utils/thread_pool.c:164-179 | Whenever a push fails or the pipe is full, the worker has a step to take. |
| PacketFlow.ReachableInv | src/utils/thread_pool.c:164-179 | Every state of every interleaving of the dispatcher and all workers satisfies the invariant, and each worker was pushed exactly the arrivals hashed to it, in order, except one still being pushed. |
| PacketFlow.RingRefinesQueue | src/utils/queue.c:20-48 | At every step of every interleaving, what was popped followed by the slots from tail to head is what was pushed: no unread slot is overwritten; a push fails only with 1023 packets waiting. |
| PacketFlow.FlowAffinity | src/data_plane/forwarding_engine.c:47-51 | All packets of a (source, destination) pair go to one worker. |
| PacketFlow.PerFlowOrder | src/data_plane/forwarding_engine.c:40-56 | Over every interleaving: what is popped, and what is handled, of a (source, destination) pair is a beginning of what was received of it, in order and without duplicates, and only one worker gets any. |
| PacketFlow.WaitingMeansDone | src/utils/thread_pool.c:30-57 | A worker waiting with nothing on its way has handled everything received for it. |
| PacketFlow.AtRest | src/utils/thread_pool.c:164-179 | If no worker can step and the dispatcher is idle, spinning on a full ring or blocked on a full pipe, then it is idle and everything received has been handled. |
| PacketFlow.BoundedWork | src/utils/thread_pool.c:30-179 | Without new arrivals the workers take at most a number of steps fixed by the starting state, however long the dispatcher spins. |
| Descriptors.HandledUnderMessage | src/utils/thread_pool.c:33-57 | A packet popped while message k is handled is number k at least and number k + capacity + 1 at most, packets 1 to k are popped when that drain ends, and the packet is handled under the descriptor of arrival k. |
| Descriptors.HandledUnderIff | src/utils/thread_pool.c:30-57 | For any arrivals, number of workers and pipe capacity: some run handles arrival j under the message of arrival i of the same worker exactly if i is not later and its worker gets j at most capacity + 1 places behind it. |
| Descriptors.UnderEarlier | src/utils/thread_pool.c:30-57 | The run for any such pair, which receives nothing beyond arrival j and handles j last. |
| Descriptors.OneDescriptor | src/utils/thread_pool.c:33-57 | A worker whose arrivals share a descriptor handles each under its own. |
| Descriptors.SecondUnderFirst | src/utils/thread_pool.c:30-57 | In particular, of any two arrivals that follow each other at one worker the second can be handled under the first one's descriptor, whatever the capacity. |
| Descriptors.OwnDescriptorIff | src/utils/thread_pool.c:30-57 | Every run over given arrivals, with any number of workers and any pipe capacity, handles each packet under its own descriptor exactly if no two arrivals of one worker differ in descriptor. |
| Descriptors.UnderAnotherDescriptor | src/utils/thread_pool.c:33-57 | For any number of workers and any two arrivals of one of them there is a run that handles both, the second under the first one's descriptor. |
| Descriptors.TwoWayTraffic | src/utils/thread_pool.c:30-57 | A request and its reply on another descriptor always violate that condition, and there is a run in which the reply is handled under the request's descriptor. |
| MacTable.HashMac | src/control_plane/hash_table.c:13-24 | The bucket of an address: FNV-1a over its bytes, then the two VLAN bytes, masked to 4096. |
| MacTable.TwoBuckets | src/control_plane/hash_table.c:13-24 | The buckets of two concrete addresses. |
| MacTable.HashTable.constructor | src/control_plane/hash_table.c:26-31 | An empty table. |
| MacTable.HashTable.Insert | src/control_plane/hash_table.c:33-65 | The table as a map gets the port and time for the key, and keeps its expired flag; each key stays in one entry, in its own bucket, and `size` counts the keys. |
| MacTable.HashTable.Lookup | src/control_plane/hash_table.c:67-93 | The port of an entry that is not expired and at most 300 seconds old, else -1; looking up an older one marks it expired. |
| MacHistory.HistoryDecides | src/control_plane/hash_table.c:33-93 | Over any run: an entry holds the port and time of its last insertion, and is expired exactly if some lookup ever came more than 300 seconds after the insertion that was then the last. |
| MacHistory.Answer | src/control_plane/hash_table.c:67-93 | What a lookup answers after any run, in terms of the run alone. |
| MacHistory.NeverFoundAgain | src/control_plane/hash_table.c:40-49 | After one lookup too late, no later run finds the key. |
| MacHistory.RelearningWorksIff | src/control_plane/hash_table.c:40-49 | Inserting a key makes it findable within 300 seconds exactly if no lookup of it ever came too late. |
| MacHistory.RelearningFails | src/control_plane/hash_table.c:40-49 | A concrete run in which a key just inserted is not found. |
| Switch.FloodPacket | src/data_plane/forwarding_engine.c:58-68 | Sends to the listed endpoints with another port than the origin's, in order. |
| Switch.SendPacket | src/data_plane/forwarding_engine.c:70-83 | Sends to the first endpoint with the port, if there is one. |
| Switch.ProcessPacket | src/utils/thread_pool.c:51-110 | One packet under a descriptor: the table and the recipients afterwards, for unknown descriptors, IPv6, broadcast, known and unknown destinations. |
| Switch.NeverToIngress | src/utils/thread_pool.c:71-105 | A packet is never sent to the port of the descriptor it is handled under, which need not be the one it came in on. |
| Switch.FloodReachesOthersOnce | src/data_plane/forwarding_engine.c:58-68 | With distinct ports, a broadcast packet or one to an address that is not findable reaches every endpoint but those on its ingress port, each exactly once. |
| Switch.KnownDestination | src/utils/thread_pool.c:85-105 | A packet to a findable address goes to at most one endpoint, on the learned port; to none if that is its ingress. |
| Switch.NewSenderIsFound | src/utils/thread_pool.c:85-95 | A sender never seen is learned: packets to it are found on its port for 300 seconds; not if its packet went to an address known on the same port, which is dropped first. |
| Switch.EveryEntryWasTaught | src/utils/thread_pool.c:91-95 | Over any run, every entry's address and port are those of an earlier unicast packet, handled as arriving on that port. |
| Switch.FirstTeacherStays | src/utils/thread_pool.c:85-95 | Over any run, an entry that has not expired is the one made by the first packet ever to teach the address: it is never refreshed. |
| Switch.DeliveredWhereFirstTaught | src/utils/thread_pool.c:85-105 | A packet is sent to a single port only if its destination was first taught on that port, at most 300 seconds before. |
| Switch.ExpiredForGood | src/control_plane/hash_table.c:40-49 | Once an entry has expired its address is never found again, whatever packets follow. |
| SwitchFrames.StationIsFound | src/utils/thread_pool.c:51-110 | In bytes: after the first frame of a station on a port (bytes 6-11), to a station (even byte 0) nothing came from on that port, and not of type 86 dd, and whatever frames come between, for 300 seconds every such frame to it (bytes 0-5) from another port goes to the first endpoint on its port and to nobody else, and one from its own port to nobody. |
| SwitchFrames.StationIsForgotten | src/utils/thread_pool.c:85-101 | Later than that every such frame goes to all endpoints on other ports, in their order. |
| SwitchFrames.UnknownIsFlooded | src/utils/thread_pool.c:99-101 | So does a frame to a station that nothing has come from. |
| SwitchFrames.GroupIsFlooded | src/utils/thread_pool.c:71-74 | So does a frame to a group (odd byte 0), and it teaches nothing. |
| SwitchFrames.NotLookedAt | src/utils/thread_pool.c:55-69 | A frame of type 86 dd, or under an unknown descriptor, goes to nobody and leaves the table as it was. |
| SwitchRuns.NeverSentBackIff | src/utils/thread_pool.c:51-110 | For any arrivals, number of workers, pipe capacity, descriptors and endpoints: no run with any clock that never goes back sends a packet to the port it really came in on, exactly if no two arrivals in reach of each other clash, that is, come in on different known ports, the later one no IPv6 packet, with an endpoint on its port. |
| SwitchRuns.NeverSentBackAnyPipe | src/utils/thread_pool.c:51-110 | For pipes of every capacity, exactly if no arrival clashes with an earlier one of its worker. |
| SwitchRuns.WithoutClash | src/utils/thread_pool.c:51-110 | The one half under any clock at all. |
| SwitchRuns.ClashIsSentBack | src/utils/thread_pool.c:51-110 | The run for any two arrivals that clash: the later one is sent back, under any clock if it is a broadcast packet, and otherwise if its turn comes more than 300 seconds after all others. |
| SwitchRuns.LearnedRightIff | src/utils/thread_pool.c:85-95 | In every run each known address is known on a port that one of its own packets came in on, exactly if for every arrival i on a known port and every unicast packet j in reach of it, j or an earlier packet came from j's address on i's port. |
| SwitchRuns.LearnedRightAnyPipe | src/utils/thread_pool.c:85-95 | For pipes of every capacity, exactly if that holds for all i before j at one worker. |
| SwitchRuns.MisleadingIsLearned | src/utils/thread_pool.c:85-95 | The run for any pair that violates it. |
| SwitchRuns.DeliveredIff | src/utils/thread_pool.c:71-105 | A unicast packet to an address that can be learned on one port only, with an endpoint there, gets there in every run, exactly if all arrivals whose message it can be handled under come in on known descriptors with other ports. |
| SwitchRuns.NeverBackToOwnPort | src/utils/thread_pool.c:51-110 | In particular, nothing is sent back if each worker's arrivals share a port. |
| SwitchRuns.LearnedOnOwnPort | src/utils/thread_pool.c:85-95 | Then every learned address has the port that one of its own packets really came in on, too. |
| SwitchRuns.LearnedOnWrongPort | src/utils/thread_pool.c:85-95 | A run of two arrivals, under any clock, that learns a sender on the port of the other packet. |
| SwitchRuns.ReplyIsDropped | src/utils/thread_pool.c:85-90 | A run of a request and its reply that sends the reply to nobody. |

## Left out

- JsonCursor.ParseBuffer.ParseNumber: the number is the exact rational that `strtod` denotes; rounding, overflow to
  infinity and the locale's decimal point are not modelled.
- JsonPrintBuffer.PrintBuffer.PrintNumber: only 32-bit integers, which `%d` prints; `print_number`'s attempts with 15
  and 17 digits for other numbers, and NaN, are floating point.
- JsonPrintBuffer.PrintBuffer.PrintValue: no raw items, and no other numbers, for the same reason.
- JsonPrintBuffer.PrintBuffer.PrintArray: the same for what is in the array.
- JsonPrintBuffer.PrintBuffer.PrintObject: the same for what is in the object; members have keys, as the parser and
  `cJSON_AddItemToObject` make them.
- JsonSiblings.ReplaceItemViaPointer: the replaced item is left detached, because freeing nodes is not modelled.
- JsonCompare.CompareExactly: on integer numbers; with others no notion of equality fits, because comparing is not
  transitive (`NumbersNotTransitive`).
- JsonMinifyParse.MinifyKeepsValue: the condition is sufficient; a literal that loses a byte behind a NUL, say, still
  has its value.
- `cJSON_Raw`, reference and constant-string nodes, the allocator hooks, `cJSON_Delete`, all out-of-memory paths, the
  creation helpers and the object variants of the list operations, which only look up a child first.
- `cJSON_ParseWithLength` on text that is not NUL-terminated: the switch only calls `cJSON_Parse`.
- Strings, names and `valuestring` are immutable values, so aliasing between two nodes' strings is not modelled.
- `vde_realpath` with NULL arguments, out-of-memory paths and `errno`; the file system does not change during a call,
  `readlink` succeeds on a link and gives fewer than PATH_MAX bytes, and `getcwd` gives a canonical path. MAXSYMLINKS
  is 20, as in the GNU C library, which is not part of this model.
- Relaxed-memory effects beyond acquire and release, which are taken as sequentially consistent; messages are written
  and read whole, and `write` and `read` do not fail.
- Worker shutdown and pool destruction: `thread_pool.c:184-186` does not pack the message type the way the worker
  unpacks it.
- Data races between workers inside the MAC table: in `Switch` the workers' packets are handled one after the other.
- Failing or repeated `send` calls, freeing packets, and `recv` errors: a packet's length is a parameter.
- `src/data_plane/flow_table.c` is not used by the switch; `src/io`, logging, options and the console have only simple
  members.
