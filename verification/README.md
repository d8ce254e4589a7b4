# A verified model of emjson

emjson is a JSON engine for bounded memory: a pull parser over input that arrives in chunks of any size, a streaming
writer, a callback-driven walk, and an editor that changes a document by replacing one span of its bytes. This project
models that engine in Dafny, in the form the program has: the parser, the sources and sinks, the writer, the storage and
the editor are classes whose methods update their fields in loops, and the buffers are arrays that are written in place.
Each method is proved against functions of its input, and lemmas say what these functions mean.

## How the proof is built

1. **The specification.** `Grammar` has trees (`JSON`: decoded strings, numbers as text, objects as ordered member lists
   in which names may repeat) and concrete syntax (`Syn`, with all whitespace), with the bytes that spell it, after sections
   2, 6 and 7 of RFC 8259. `Utf8Coding` has sections 3 and 4 of RFC 3629. `Reader` reads this grammar by recursive descent
   and is proved sound and complete for it, hence the grammar is unambiguous.
2. **The automaton.** The parser has no recursion: it has a state and one bit for each level of nesting. `Automaton`
   describes that automaton on byte sequences and proves, token by token, that a run of it yields the events of the value
   that the grammar reads, and fails exactly where the grammar does not read one. `Nesting` proves that the bits are a stack.
3. **Chunks.** A `Source` hands out as many bytes at a time as it likes (a nondeterministic choice), and it may be a Tee,
   which copies what is consumed, with a delay. All contracts speak of the remaining bytes only, so what the parser does
   cannot depend on the chunks.
4. **Trees and edits.** `TreeEdit` says what Replace, Set, Insert, Push and removal do to a tree, `EditLaws` and
   `Designation` what that means: which values a path designates, when an edit applies, what it leaves, and that lookups
   elsewhere stay as they were. `SynEdit` and `Patches` prove that splicing the content of a patch into the bytes of a document spells
   exactly the edited tree. `Locating`, `Planning` and `RemovalPlanning` prove that reading the document once finds exactly
   that patch, and `Applying` that applying it in place yields exactly those bytes, with any scratch buffer.
5. **Written out.** `Spelling`, `NameOrder` and `Layout` say in literal characters, bytes and spaces what the functions
   shared by the parser, the editor and the writer come to; `WalkLaws` does that for Skip and Stop.
6. **On top.** `Editing` (in place) and `Copying` (while copying, in one pass and in two) give the same edited text;
   `EditRuns` carries this over runs of edits, and `SortedObjects` shows that sorted objects stay sorted;
   `ValueCopying` copies a value through the writer and keeps its tree; `Traversal` walks a value and keeps a JSON Pointer in
   one buffer of any size; `StringReading` reads strings in chunks; `Documents` validates.

Methods that navigate take ghost arguments: the value `c` that comes next in the input, and the input `rest` after it. What
they promise, they promise when the input is like that, for every such `c` and `rest`; a caller does not supply them.
Methods whose result is pinned down for all inputs, valid or not, have no such arguments.

Dafny integers are unbounded. Machine words are explicit where the program depends on them: `parse_index` rejects overflow,
the next index in a pointer wraps, a nesting stack has at most 65535 levels.

`dafny verify dfyconfig.toml` checks all of it.

## Model

The first 50 rows are the main results; the others are what they rest on, from characters and numbers up to the walk.

| member | source | states |
|---|---|---|
| `Documents.Validate` | src/util.rs:15-19 | succeeds exactly on a JSON text of section 2 of RFC 8259 nested at most 64 levels deep, whatever the chunks |
| `Reader.ParseTextExact` | src/util.rs:13-19 | reading a document gives `t` exactly when `t` is a well-formed text, nested at most that deep, that is spelled by these bytes |
| `Reader.Unambiguous` | src/util.rs:13-19 | no two texts, hence no two trees, are spelled by the same bytes |
| `Parsing.Parser.SkipValue` | src/parser.rs:730-768 | succeeds exactly when the input has a value that fits the nesting limit, and consumes exactly that value, in any state |
| `Patches.EditIsTreeEdit` | src/edit.rs:418-551 | for every document, path, placement and operation: splicing the content of the patch into its span gives a well-formed document whose tree is the edited tree; there is no patch exactly when the edit does not apply |
| `Patches.RemovalIsTreeRemoval` | src/edit.rs:556-605 | deleting the span of a removal gives a well-formed document whose tree lacks exactly that member or element; there is no patch exactly when there is no such entry |
| `Planning.PlanWith` | src/edit.rs:542-551 | reading the document once computes exactly the patch of the edit, or none |
| `RemovalPlanning.PlanRemove` | src/edit.rs:556-605 | reading the document once computes exactly the patch of the removal, or none |
| `Applying.Apply` | src/edit.rs:674-705 | the storage is prefix, content and suffix, for every scratch size and both ways of moving; it fails exactly when out of range or out of room (document unchanged), or when the content is longer than it was when measured |
| `Editing.Editor.Edit` | src/edit.rs:897-907 | on a well-formed document the storage then holds the edited text; it is unchanged when the edit does not apply or does not fit |
| `Editing.Editor.Remove` | src/edit.rs:945-949 | the same for removals |
| `EditRuns.ChangeAll` | src/edit.rs:794-809 | over any run of edits and removals within capacity and depth, the storage spells what the changes make of the tree |
| `Copying.CopyEdit` | src/edit.rs:770-792 | in one pass the output is the edited text with new members at the end, the same that the editor writes in place; an exact copy when nothing applies |
| `Copying.CopyEditInTwo` | src/edit.rs:542-551 | planning in one pass and copying in a second gives the same edited text, for any placement |
| `SortedObjects.RunKeepsObjectSorted` | src/edit.rs:270-275 | over any run of edits and removals that do not remove, replace or shift it, one object with strictly sorted names keeps them strictly sorted and distinct, whatever the rest of the document and the written values are |
| `SortedObjects.MemberRunKeepsSorted` | src/edit.rs:270-275 | in particular over any run of Set, Insert, Remove and other changes of its members or inside them, with arbitrary values in an arbitrary document |
| `Repeats.SecondSet` | src/edit.rs:447-479 | a second Set of a path targets exactly the bytes of the value that the first one wrote |
| `PathSeeking.SeekSegs` | src/parser.rs:573-597 | true exactly when the lookup succeeds; then the parser is at the first byte of that value, at its offset in the document, one level deeper for each segment. When false, it is before a value on the way that was not entered, or at its closing bracket |
| `Leaving.UnwindFromTarget` | src/parser.rs:424-432 | from a sought value, unwinding to any depth between the one where the search started and the present one succeeds, and leaves exactly the document from the end of the value that is that far along the path; unwinding further is unwinding from the end of the value that was searched |
| `Leaving.UnwindAfterTarget` | src/parser.rs:424-432 | the same once the sought value was consumed |
| `Leaving.UnwindFromMiss` | src/parser.rs:566-568 | the same when there is no value at the path, from wherever the search stopped; if nothing was entered, the value searched is still next |
| `Traversal.Walk` | src/walk.rs:204-291 | for every buffer the callbacks are exactly those of the tree, in preorder with the ends of containers, cut off by Skip, by Stop, or at the first pointer that is too long for the buffer, and the result says which; a walk that gets to the end consumes exactly the value |
| `Visits.RoomForLongest` | src/walk.rs:180-183 | a walk that always continues gets to the end exactly when the buffer has room for the longest pointer in the value; otherwise it ends with `PathTooLong` |
| `Visits.WalkLeadsBack` | src/walk.rs:43-60 | seeking the pointer of a visit from where the walk started returns to the value and the offset of that visit; at the end of a container, to the container whose bracket is at that offset |
| `Visits.WalkInOrder` | src/walk.rs:177-183 | values and ends are visited in the order of the document, each once, nothing outside the value |
| `ValueCopying.CopyValue` | src/util.rs:45-107 | succeeds exactly when there is a value, consumes exactly that value and writes exactly the formatted value, whose layout the `Layout` rows say |
| `ValueCopying.CopyKeepsTree` | src/util.rs:39-107 | what is copied is a JSON text with the same tree, and copying it again the same way gives the same bytes |
| `Scanning.Decode` | src/string.rs:141-198 | true: the closing quote was consumed, and sink and stash got exactly the decoded text; false: no room, the characters consumed are in the sink or in the stash, none is split or lost; an error exactly when the body is no string |
| `Escaping.WrittenStringIsReadBack` | src/writer.rs:180-210 | escaping any UTF-8 string and scanning it gives the string back |
| `StringReading.StrReader.NextChunk` | src/parser.rs:887-909 | chunks are not empty, never split a character, and concatenate to the string; with a buffer of 4 bytes or more it always makes progress, with a shorter one it says so and loses nothing |
| `StringReading.ReadStr` | src/parser.rs:604-624 | a string fits exactly when its decoded length is at most that of the buffer; then it is read whole and is UTF-8 |
| `StringReading.ReadStrRef` | src/parser.rs:836-852 | when nothing in the string is escaped it is given whatever the size of `scratch`, which stays as it was; otherwise it fits exactly when its decoded length is at most that of `scratch` |
| `Sinks.KeyMatcher.Order` | src/string.rs:95-100 | the order of the whole key against the unescaped pattern: Less exactly when the key is a proper prefix or has the smaller byte where they first differ, Greater the other way round, Equal exactly when they are the same |
| `Numbers.AutomatonIsGrammar` | src/number.rs:21-41 | the nine-state automaton ends in a final state exactly on the numbers of section 6 of RFC 8259 |
| `Scanning.ScanNumberText` | src/number.rs:46-69 | under any chunking, consumes the longest run and passes exactly that to the sink; succeeds exactly when it is a number |
| `Numbers.ParseIndexExact` | src/path.rs:37-44 | parsing gives `i` exactly on the canonical decimal digits of `i`, for every machine word; leading zeros, other bytes and overflow are rejected |
| `Designation.EditApplies` | src/edit.rs:250-266 | exactly when an operation applies: a Replace to what exists, a Push to an array, a Set or Insert at the root, in an object, or in an array at an index up to its length or at `-` |
| `Designation.ArrayEdit` | src/edit.rs:480-508 | in an array, `-` (as a name or a reference token) and the length append the value, a Set replaces the element at its index, an Insert goes before it |
| `Designation.InsertShifts` | src/edit.rs:259-262 | after an Insert, index by index: the value is at its index, elements before it are where they were, the others one further |
| `Designation.ObjectEdit` | src/edit.rs:447-479 | in an object, the first member with the name is replaced; if there is none, the new one goes before the first name that comes after it bytewise, or to the end |
| `Designation.SegIndexExact` | src/path.rs:46-53 | a segment designates the index `i` exactly when it is that number, or a name or reference token that consists of the decimal digits of `i`, and `i` fits a machine word |
| `Designation.ElementFound` | src/path.rs:3-21 | in an array a segment finds the element whose index it designates in one of these three ways, and nothing else |
| `Compare.CmpIsBytewise` | src/string.rs:95-128 | Less exactly when the first name is a proper prefix of the second, or has the smaller byte where they first differ; Greater exactly the other way round |
| `NameOrder.BytewiseIsByCodePoint` | src/edit.rs:270-271 | for names in UTF-8 that is the order by Unicode code point |
| `Layout.CompactAll` | src/writer.rs:52-55 | compact output has no whitespace outside strings, at any depth |
| `Layout.CompactIsShortest` | src/util.rs:39-43 | of all texts with the same tree and numbers written the same way, the compact one is the shortest |
| `Layout.IndentedAll` | src/writer.rs:57-92 | indented output has every entry on its own line, with exactly the indentation times its depth in spaces, closing brackets on lines of their own, one space after each colon, and no other whitespace |
| `WalkLaws.SkipIsSilent` | src/walk.rs:14-19 | a container that the callback skips is skipped without further callbacks: no visit lies after its start and before its end |
| `WalkLaws.WalkVisits` | src/walk.rs:177-183 | whatever the callback says, a walk that gets to the end visits every value that is not inside a skipped container, and the end of every container that was entered, with its pointer |
| `Spelling.PairExact` | src/string.rs:217-238 | two of them stand for a code point beyond U+FFFF exactly when they spell its two UTF-16 surrogates |
| `Utf8Coding.TableSound` | src/string.rs:262-288 | the table of lead and second bytes accepts nothing but the UTF-8 encoding of one scalar value (RFC 3629), and its length is that of the encoding |
| `Utf8Coding.TableComplete` | src/string.rs:262-288 | every multi-byte encoding of a scalar value is accepted: no overlong form, no surrogate, nothing beyond U+10FFFF, and nothing else is refused |
| `StringGrammar.ScanCharSound` | src/string.rs:141-243 | the next character of a string body: what is taken is exactly one well-formed character as written (plain, escaped, or a surrogate pair) |
| `StringGrammar.ScanCharComplete` | src/string.rs:141-243 | every well-formed character is taken as itself whatever follows it |
| `StringGrammar.ScanCharsSound` | src/string.rs:141-198 | a string body that is accepted is a sequence of well-formed characters up to the closing quote |
| `StringGrammar.ScanCharsComplete` | src/string.rs:141-198 | every sequence of well-formed characters followed by a quote is accepted, as that sequence |
| `StringGrammar.CharsTextIsUtf8` | src/string.rs:141-243 | what a string decodes to is UTF-8 |
| `Numbers.LongestRun` | src/number.rs:46-69 | the longest run is a run of the automaton, and one more byte would get it stuck |
| `Numbers.ScanNumberSound` | src/number.rs:46-69 | a number that was scanned is a number of the grammar, and the input is that number and the rest |
| `Numbers.ScanNumberComplete` | src/number.rs:46-69 | a number followed by anything that cannot continue it is scanned whole |
| `Numbers.DecimalValue` | src/number.rs:72-90 | the canonical digits of a number spell that number |
| `Numbers.BuffersSuffice` | src/number.rs:72-102 | 10, 20 and 40 bytes hold the digits of every 32-, 64- and 128-bit number |
| `Numbers.FormatUint` | src/number.rs:72-90 | the canonical digits are written at the end of the buffer; the bytes before them are untouched |
| `Reader.ParseValueSound` | src/parser.rs:730-768 | what is read is well formed, spelled by the bytes consumed, and within the nesting limit |
| `Reader.ParseValueComplete` | src/parser.rs:730-768 | every well-formed value within the limit is read as itself when something follows that ends a number |
| `Automaton.AfterValue` | src/parser.rs:295-353 | after a value inside containers, the automaton's next token leads to what the grammar says: a comma and an entry, or the closing bracket and what is outside |
| `Automaton.AtOpen` | src/parser.rs:378-385 | consuming an opening bracket: the run of the container is its event and the run inside it, one level deeper |
| `Automaton.AtClose` | src/parser.rs:387-391 | consuming a closing bracket: the run goes on after the container, one level up |
| `Automaton.AtKey` | src/parser.rs:448-460 | consuming a name: the run goes on at the colon, with the name's event |
| `Automaton.AtScalar` | src/parser.rs:730-768 | consuming a string, number or literal: one event, then what follows the value |
| `Automaton.PeekAgain` | src/parser.rs:289-353 | peeking again gives the same token |
| `Nesting.SetLevel` | src/stack.rs:22-35 | setting or clearing the next bit appends a level and disturbs none of the others |
| `Nesting.BitStack.constructor` | src/stack.rs:11-13 | the stack is empty |
| `Nesting.BitStack.Push` | src/stack.rs:22-35 | pushes a level, unless `MAX` levels are there already: then nothing changes |
| `Nesting.BitStack.Pop` | src/stack.rs:38-41 | removes the innermost level; nothing happens on the empty stack |
| `Nesting.BitStack.Top` | src/stack.rs:45-48 | the innermost level, none at top level |
| `Sources.Source.Fill` | src/io.rs:326-336 | bytes at hand, none only at the end of the input; the offset stays (for a Tee too) |
| `Sources.Source.Consume` | src/io.rs:339-341 | the remaining input loses `n` bytes, the Tee forwards them later |
| `Sources.Source.Sync` | src/io.rs:276-288 | consumed bytes are forwarded, if copying is on; the offset stays |
| `Sources.Source.SetEnabled` | src/io.rs:269-273 | what was consumed before is copied or not by the old setting, what comes after by the new one |
| `Sources.Source.WriteOut` | src/io.rs:292-295 | what the caller writes comes after the copy of all that was consumed |
| `Sources.Source.CopyRest` | src/io.rs:299-314 | the output is the copy so far and all that was left |
| `Adapters.AnyChunk` | src/io.rs:66-80 | the parser's source hands out any chunk that the trait allows |
| `Adapters.SliceSource.Fill` | src/io.rs:125-127 | a slice hands out all that is left, which is such a chunk |
| `Adapters.SliceSource.Consume` | src/io.rs:129-131 | the offset moves, at most to the end |
| `Adapters.ReadSource.Fill` | src/io.rs:188-195 | a stream read through a buffer hands out such a chunk, and reads only when nothing is buffered |
| `Adapters.ReadSource.Consume` | src/io.rs:197-201 | the offset moves by at most what is buffered |
| `Adapters.StorageSource.Fill` | src/edit.rs:232-241 | so does a storage read through a buffer |
| `Adapters.StorageSource.Consume` | src/edit.rs:242-244 | the offset moves by at most what is buffered |
| `Sinks.BufSink.Put` | src/string.rs:48-55 | the buffer holds all that was put; what does not fit sets overflow |
| `Sinks.KeyMatcher.Put` | src/string.rs:108-132 | keeps the invariant that the matcher knows how all bytes put so far compare with the pattern, which may be a still escaped pointer token |
| `Sinks.PathSink.Put` | src/walk.rs:138-151 | appends the reference token of the name, escaped; nothing is written once something did not fit |
| `Compare.CmpEqual` | src/string.rs:95-100 | the order is Equal exactly on equal names |
| `Compare.CmpTrans` | src/string.rs:95-100 | the order is transitive |
| `NameOrder.EncodedOrder` | src/edit.rs:270-271 | of two code points, the smaller one has the encoding that is smaller at the first byte where they differ |
| `Compare.UnescapeIsTwoPasses` | src/string.rs:75-92 | for every token, also one in which `~` escapes nothing, unescaping in one pass gives what section 4 of RFC 6901 asks for: `~1` replaced first, then `~0` |
| `Compare.TokenRoundTrip` | src/walk.rs:138-151 | escaping a name as a reference token and unescaping it gives the name; the token has no slash |
| `Scanning.DecodeUtf8` | src/string.rs:262-288 | succeeds exactly on an encoding, and takes exactly its bytes |
| `Scanning.DecodeEscape` | src/string.rs:201-243 | succeeds exactly on an escape sequence (surrogates paired), gives its code point and takes exactly its bytes |
| `Parsing.Parser.SkipWs` | src/parser.rs:262-277 | consumes exactly the whitespace, and tells the byte after it |
| `Parsing.Parser.Peek` | src/parser.rs:295-353 | the next token, exactly as the automaton says, with whitespace and separators consumed; an error exactly when there is none |
| `Parsing.Parser.Enter` | src/parser.rs:378-385 | one level deeper, inside the bracket; refused exactly at the nesting limit, and nothing changes then |
| `Parsing.Parser.Leave` | src/parser.rs:387-391 | one level up, after the bracket, in the state after a value |
| `Parsing.Parser.FinishStr` | src/parser.rs:645-650 | the rest of a partly read string is consumed, an error exactly when it is no string |
| `Parsing.Parser.LiteralValue` | src/parser.rs:711-726 | succeeds exactly on `true`, `false` and `null`, and tells which |
| `Parsing.Parser.SkipToken` | src/parser.rs:730-768 | each token consumed is one event of the run of the value |
| `Parsing.SkipIsRun` | src/parser.rs:730-768 | skipping a value is running the automaton until all containers entered on the way are closed |
| `Documents.Finish` | src/parser.rs:818-824 | succeeds exactly when the top-level value was consumed and nothing but whitespace is left |
| `Seeking.OpenKey` | src/parser.rs:448-460 | the opening quote of the next name is consumed; an unread member value before it is skipped, and an error there or no name is an error |
| `Seeking.CmpSegKey` | src/parser.rs:510-522 | the bytewise order of the next name against the name that the segment designates, without a buffer; the name is consumed |
| `Navigation.FindMember` | src/parser.rs:524-538 | finds the first of the members to come that the segment names, and stops at its value; false at the closing bracket |
| `Navigation.NthElement` | src/parser.rs:541-556 | at the element with this index, or at the closing bracket if there are fewer |
| `Patches.SeekIsLookup` | src/parser.rs:573-597 | seeking in the text is looking up in the tree, taking the first of several members with the same name |
| `Leaving.ValueSpan` | src/parser.rs:775-783 | the span of the next value, byte for byte, which is consumed; an error exactly when there is no value |
| `Leaving.EndContainer` | src/parser.rs:394-420 | skips what remains of the container and consumes its bracket; an error exactly when the rest is malformed or the parser is not in such a container |
| `Leaving.Unwind` | src/parser.rs:424-432 | reaches the depth, and consumes exactly through the closed containers |
| `Trails.AlongStep` | src/parser.rs:573-597 | each segment of a search adds one level, and closing the levels again ends right after each of the values on the way |
| `Paths.SegNameIsUtf8` | src/path.rs:13-23 | the name that a segment designates is UTF-8, also after unescaping |
| `Designation.SegNameExact` | src/parser.rs:510-516 | it designates a name exactly when it is that name, a number with those digits, or a reference token that section 4 of RFC 6901 evaluates to it |
| `Designation.MemberFound` | src/parser.rs:524-538 | in an object it finds the first of the members whose name it designates |
| `Designation.NameIsDesignated` | src/path.rs:3-21 | every name is designated by itself and by its reference token |
| `Spelling.Terminals` | src/parser.rs:262-353 | punctuation, literals, whitespace and digits, written out |
| `Spelling.NumberExact` | src/number.rs:21-41 | a number is an optional minus, `0` or digits without a leading zero, an optional fraction and an optional exponent, written out |
| `Spelling.HexDigitExact` | src/string.rs:246-256 | the sixteen hexadecimal digits and their values, in either case |
| `Spelling.Hex4Exact` | src/string.rs:245-260 | four digits are read exactly as the number that they spell in base 16 |
| `Spelling.UniExact` | src/string.rs:217-238 | a `\u` escape stands for the number that its digits spell, unless that is a surrogate |
| `Spelling.EscExact` | src/string.rs:204-214 | the eight two-character escapes, and the code points they stand for |
| `Spelling.PlainExact` | src/string.rs:141-198 | every other character stands for itself, except control characters, quotes and backslashes |
| `Spelling.EscapeIsDecoded` | src/string.rs:141-243 | a string of one such character decodes to that code point |
| `Spelling.EscapeByteExact` | src/writer.rs:180-210 | what the writer escapes, and how: with a letter where there is one, other control characters with two lower-case digits, nothing else |
| `Pointers.PointerIter.Next` | src/path.rs:160-172 | the next token of the pointer |
| `Pointers.SegmentsAppend` | src/path.rs:145-180 | one token more in a pointer is one segment more in its path |
| `Pointers.PointerIsSplit` | src/path.rs:145-172 | a JSON Pointer is split into its reference tokens, however many, also when the leading slash is missing |
| `TreeEdit.MemberIndex` | src/parser.rs:524-538 | the first member with this name: none before it has it |
| `TreeEdit.GreaterIndex` | src/edit.rs:447-479 | the first member whose name sorts after this one |
| `EditLaws.EditIsFound` | src/edit.rs:250-266 | after a Replace, Set or Insert that applies, the value is found at its path |
| `EditLaws.PushAppends` | src/edit.rs:250-266 | a Push applies exactly to arrays, and the array is then the old one with the value at its end |
| `EditLaws.EditElsewhere` | src/edit.rs:250-266 | what is not inside the value that an edit works on is found as before |
| `EditLaws.OtherMembersStay` | src/edit.rs:250-281 | a Set or Insert in an object leaves members with other names alone |
| `EditLaws.RemovalMeans` | src/edit.rs:943-949 | a removal applies exactly when there is something at the path; the parent then lacks that entry, and what is not inside the parent stays |
| `EditLaws.RemovalOfMember` | src/edit.rs:556-605 | after a removal the name designates the next member with that name, or nothing; other names what they did before |
| `Designation.PlacesExist` | src/edit.rs:447-479 | every object has such places |
| `Designation.RootEdit` | src/edit.rs:438-440 | at the root the value takes the place of the document |
| `Designation.ArrayRemoval` | src/edit.rs:584-602 | in an array exactly the element with that index can be removed, never `-`; the following ones move up |
| `Designation.ObjectRemoval` | src/edit.rs:567-583 | in an object the first member with that name is removed, if there is one |
| `SynEdit.RemoveSplice` | src/edit.rs:556-605 | deleting the span of a removal from a container: the right comma goes, for first, middle, last and only entries |
| `SynEdit.RemoveWf` | src/edit.rs:556-605 | what remains is a well-formed container |
| `SynEdit.RemoveTreeOf` | src/edit.rs:556-605 | and its tree lacks exactly that entry |
| `SynEdit.BeforeSplice` | src/edit.rs:447-512 | a new entry and its comma, written before an entry, spell the container with that entry inserted |
| `SynEdit.EndSplice` | src/edit.rs:447-512 | a new entry, with a comma if it is not the first, written before the closing bracket, spells the container with that entry at its end |
| `Locating.ReadMember` | src/edit.rs:447-479 | the offset of the next name, and its order against the new one; none at the closing bracket |
| `Locating.LocateMember` | src/edit.rs:447-479 | finds the member of that name, or the place where it goes: before the first greater name or at the end; a later member of that name still wins |
| `Locating.LocateElement` | src/edit.rs:480-508 | the element with that index, the end of the array when the index is its length, or nothing |
| `Locating.LocateIn` | src/edit.rs:430-512 | the place of a Set or Insert in the next value; nothing in a scalar |
| `Locating.LocatePush` | src/edit.rs:418-446 | the end of the next array; nothing in other values |
| `Planning.Locate` | src/edit.rs:418-512 | the place that the patch of the edit names, and the parser stops exactly there, except before a new sorted member |
| `RemovalPlanning.RemoveHere` | src/edit.rs:568-601 | at the entry to remove: the span up to the next entry, or, for the last one, from the end of the previous value |
| `RemovalPlanning.RemoveMember` | src/edit.rs:567-583 | the patch that removes the first member of that name, or none |
| `RemovalPlanning.RemoveElement` | src/edit.rs:584-602 | the patch that removes that element, or none |
| `Storages.MemStorage.ReadAt` | src/edit.rs:156-160 | reads within the document only |
| `Storages.MemStorage.WriteAt` | src/edit.rs:161-165 | writes within the document only, and nothing else changes |
| `Storages.MemStorage.SetLen` | src/edit.rs:166-174 | grows or shrinks, refused exactly beyond the buffer |
| `Storages.MemStorage.CopyWithin` | src/edit.rs:175-181 | moves bytes between overlapping ranges |
| `Storages.MemStorage.MoveChunked` | src/edit.rs:49-72 | moves bytes between overlapping ranges, up or down, through a scratch buffer of any size, also none |
| `Storages.StorageWriter.WriteAll` | src/edit.rs:647-666 | writes all, buffered, or refuses exactly what does not fit in the range; never outside of it |
| `Storages.StorageWriter.Finish` | src/edit.rs:633-642 | everything is flushed and the rest of the range is spaces |
| `Applying.EncodedLen` | src/writer.rs:512-518 | the length is that of what is written |
| `Applying.Resize` | src/edit.rs:686-697 | grows or closes the gap and moves the tail once; refused exactly when it does not fit, and nothing changes then |
| `Applying.WriteInto` | src/edit.rs:698-704 | writes the content into its range, padded with spaces; outside the range nothing changes, even when it does not fit |
| `Writing.FragmentsEscape` | src/writer.rs:180-210 | a string may be split into fragments anywhere |
| `Writing.JsonWriter.StringFragment` | src/writer.rs:180-210 | appends the escaped fragment, run by run |
| `Writing.JsonWriter.WriteNewline` | src/writer.rs:80-92 | a line break and the indentation of the present depth, in blocks of at most 32 spaces |
| `Writing.JsonWriter.WriteSeparator` | src/writer.rs:95-106 | comma, line break and indentation as the position asks for |
| `Writing.JsonWriter.Open` | src/writer.rs:128-134 | separator and bracket, one level deeper |
| `Writing.JsonWriter.Close` | src/writer.rs:136-144 | one level up, on a new line unless the container is empty |
| `Writing.JsonWriter.Key` | src/writer.rs:147-151 | separator, escaped name in quotes, colon |
| `ContentWriting.WriteKey` | src/edit.rs:373-405 | writes the name that the segment designates, unescaping a pointer token on the way |
| `ContentWriting.WriteContent` | src/edit.rs:344-370 | writes the value, with its name and commas as the patch says |
| `ContentWriting.WrittenKeyMatches` | src/edit.rs:373-405 | reading a written name back and comparing it with its segment gives Equal |
| `Editing.EditedTextSpells` | src/edit.rs:897-907 | the edited text spells the edited tree; there is one exactly when the edit applies |
| `Editing.RemovedTextSpells` | src/edit.rs:945-949 | the text after a removal spells the tree without that entry |
| `Editing.Editor.ApplyPatch` | src/edit.rs:952-954 | an in-range patch fails exactly when the result exceeds the capacity, with the document unchanged; otherwise the measured length is the written one and nothing is padded |
| `Editing.Editor.Plan` | src/edit.rs:897-907 | on a well-formed document, the patch of the edit |
| `Depths.EditedDepth` | src/edit.rs:418-551 | an edited document is nested no deeper than it was, or than the path, the value and one more level |
| `Depths.RemovedDepth` | src/edit.rs:556-605 | a removal does not nest anything deeper |
| `EditRuns.ChangedSpells` | src/edit.rs:794-809 | what one edit or removal leaves in the storage spells what the change makes of the tree |
| `EditRuns.ChangeDocument` | src/edit.rs:897-949 | one change on a document that the editor can parse leaves one that it can parse, with the changed tree; an error only for lack of room, and then nothing has changed |
| `Copying.Pump` | src/edit.rs:709-728 | copies or drops exactly the bytes up to the offset; an error exactly when the input ends before it |
| `Copying.ApplyCopy` | src/edit.rs:734-748 | the copy is prefix, content and suffix; an error exactly when the patch is out of order, already passed or beyond the end |
| `SortedRuns.EditKeepsSorted` | src/edit.rs:266-281 | when all objects of the document and of the value are sorted, all objects of the edited document are |
| `SortedRuns.RemoveKeepsSorted` | src/edit.rs:943-949 | when all objects of the document are sorted, so are all of what a removal leaves |
| `SortedRuns.RunKeepsSorted` | src/edit.rs:266-281 | the two together over any run, for documents and values all of whose objects are sorted |
| `SortedRuns.SortedIsDistinct` | src/edit.rs:266-281 | strictly sorted names do not repeat |
| `SortedObjects.PutKeeps` | src/edit.rs:266-281 | replacing a value keeps an object elsewhere, or around it, sorted |
| `SortedObjects.ChangeKeepsSorted` | src/edit.rs:266-281 | one change keeps a sorted object sorted, in any document and with any value, unless the object itself is removed, replaced or shifted |
| `SortedObjects.MembersSpare` | src/edit.rs:447-479 | whatever is done to members of an object, or inside their values, does not remove, replace or shift it |
| `SortedObjects.ElsewhereSpares` | src/edit.rs:447-479 | nor does a change of another part of the document |
| `StringReading.RunIsString` | src/parser.rs:836-852 | a run of UTF-8 without special bytes up to a quote is a string that stands for itself |
| `StringReading.RunExact` | src/parser.rs:845-848 | the bytes up to the first quote, backslash or control character are UTF-8 and end at a quote exactly when they are a string in which nothing is escaped |
| `StringReading.OpenString` | src/parser.rs:627-635 | starts at the next string or name, an error at any other token |
| `Formatting.PlayValue` | src/writer.rs:80-144 | writing the events of a value, one by one, writes the formatted value |
| `Formatting.FormattedSame` | src/util.rs:39-107 | formatting keeps a value well formed, its tree, its numbers as written and its depth, compact or pretty |
| `Formatting.FormattedTwice` | src/util.rs:39-107 | formatting what is formatted changes nothing |
| `Layout.SeparatorExact` | src/writer.rs:95-106 | what precedes a value: a line break between top-level values, a comma between entries, a new line when indenting, nothing at the start and after a colon |
| `Layout.SameTreeSameText` | src/util.rs:39-107 | what is written depends on the tree only, not on how it was spelled |
| `ValueCopying.CopyString` | src/util.rs:45-107 | transfers a string or name through a small buffer, in chunks: escaped again, with the same text |
| `ValueCopying.CopyToken` | src/util.rs:45-107 | each token copied is one event of the run and one of the output |
| `WalkPaths.PopSegment` | src/walk.rs:154-156 | the position of the last slash |
| `WalkPaths.NextIndex` | src/walk.rs:159-175 | replaces the last segment, an index, by the next one, or appends the first; none exactly when it does not fit |
| `WalkPaths.AppendName` | src/walk.rs:217-232 | appends the decoded and escaped name; `PathTooLong` exactly when it does not fit, and the name is consumed unless even the slash does not |
| `VisitedPaths.WalkPathsAreUtf8` | src/walk.rs:241-259 | every pointer reported is UTF-8, so it is never replaced by the empty string |
| `Visits.VisitsAreFound` | src/walk.rs:43-60 | when names are unique, the pointer of every visit leads from the root back to the value visited, or to the container whose closing bracket is visited |
| `WalkLaws.EverythingVisited` | src/walk.rs:177-183 | a callback that always continues is called for every value and the end of every container |
| `WalkLaws.TokenTellsKind` | src/parser.rs:289-353 | the token of a value, peeked or visited, tells which kind of value it is |
| `WalkLaws.StopEndsWalk` | src/walk.rs:14-19 | a walk is cut short exactly by a Stop, which is then the answer to its last callback |
| `WalkLaws.WalkHasRoom` | src/walk.rs:180-183 | every reported pointer fits the buffer, and `PathTooLong` only occurs when some pointer in the value does not |
| `Walking.AppendKey` | src/walk.rs:217-232 | in an object, the buffer then holds the pointer of the member and the parser is before the colon, also when the pointer is too long; only without room for the slash the name is still unread |
| `Walking.PathForValue` | src/walk.rs:251-257 | in an array, the buffer then holds the pointer of the element; elsewhere it does already |
| `Walking.WalkStep` | src/walk.rs:204-291 | what remains of a walk is the walk of the next entry and what comes after it |
| `Traversal.VisitEnd` | src/walk.rs:232-248 | at a closing bracket: the container's own pointer, the offset of the bracket, and on with what is outside |
| `Traversal.VisitValue` | src/walk.rs:250-279 | at a value: its pointer, token and offset are those of the walk, and it is entered, skipped, or the walk stops |
| `Traversal.WalkTurn` | src/walk.rs:213-290 | one turn of the loop makes the next callbacks of the walk, or completes it |

## Left out

- I/O errors: a source, reader or writer that fails is not modelled, nor are `std::fs::File`, `StdIo`, `EmbeddedIo` and `SliceWriter`. A storage succeeds, or is out of room.
- Error offsets and wording, and mostly which error it is: contracts say when there is an error. The state of a parser after a syntax error is unspecified in the program too; `walk` and the edits promise something on well-formed values within the nesting limit.
- The `allow_multiple_values` mode, `next_event`, `read_key`, `match_key`, `has_next`, `raw_value` and the other accessors, which are short compositions of what is modelled.
- Numbers as machine types: `read_num`, float formatting, and the signs of integers.
- `ToJson` for Rust types: a value is a sequence of fragments that it passes to the writer. The editor takes them to be the same when measured and when written; `Applying.Apply` covers values that are not.
- Walk callbacks that read the input themselves: a callback here is a function of pointer, token and offset that says Continue, Skip or Stop.
- Offsets beyond 64 bits, writer depth beyond 32 bits, and generic parameters: stack sizes and indentation are ordinary numbers.
- Power loss during an edit, which the program does not guard against, and the claims about memory and code size.
- Display and Debug implementations.
- Sources.Source.Fill: the parser reads from one class, for plain sources and for a Tee over one. The adapters are shown to hand out chunks that this class could, but the parser is not run over them.
- Editing.Editor.Edit: the document is read from a copy of its contents, so what the scratch buffer holds afterwards is not said; the storage is `MemStorage`, with its own way of moving bytes or the default one.
- SortedObjects.RunKeepsObjectSorted: follows an object by its path; after an insertion or removal before it in an array its path is another one.
- Leaving.EndContainer: models `end_object` and `end_array` in one method.
- Traversal.Walk: says something about documents no longer than a 64-bit offset can tell.
- Storages.MemStorage.ReadAt: offsets that do not fit a machine word are plain numbers beyond the document.
