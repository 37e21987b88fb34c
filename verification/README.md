# uBlink, modelled and proved

uBlink is a C implementation of the Blink protocol: a schema language and the Compact Binary
Format for messages described by such schemas. This project models its working parts in
Dafny and proves what they do together.

- **Streams** (`Streams.dfy`, `StreamObjects.dfy`): the memory buffer and the bounded stream, over a
  buffer or over another bounded stream.
  `Streams` says what a call does to the value of a stream; the class `Stream` has the source's
  fields and is proved against it.
- **VLC integers** (`Vlc.dfy`, `Compact.dfy`, `CompactRoundTrip.dfy`): the variable-length code as
  a code on byte strings, `encodeVLC` and `decodeVLC` with their buffer and shift loop, proved to
  compute it, and lists of values written and read call by call.
- **Lexer** (`Lexer.dfy`, `Scanner.dfy`, `LexerRoundTrip.dfy`): the recognisers as functions of
  the text, the recognisers as loops over a stream and a caller's buffer, and the print/lex law
  for every layout of a text.
- **Schema builder** (`Schema.dfy`, `Parser.dfy`, `ParserInvariant.dfy`, `SchemaParser.dfy`,
  `ParserNames.dfy`, `ParserAccepts.dfy`, `SchemaPrint.dfy`, `GroupReading.dfy`, `EnumReading.dfy`,
  `TypedefReading.dfy`, `SchemaRoundTrip.dfy`, `SchemaWriting.dfy`, `Lookup.dfy`, `Definitions.dfy`, `Resolution.dfy`,
  `Orbits.dfy`, `References.dfy`, `Inheritance.dfy`, `Constraints.dfy`, `SchemaBuilder.dfy`,
  `SchemaExamples.dfy`): the parse state machine with its push-back, exactly which tokens it
  takes where, what a schema text means and the law that it is parsed into that, the prefix search, the definition walk, reference binding, when a walk along pointers
  ends, chains of references, supergroups, the constraint tests, `BLINK_Schema_new` over all of
  them, for every text, and two texts on which the constraint tests fail their purpose.
- **From schema to codec** (`SchemaObjects.dfy`): the types, kinds and numbers the codec is told
  about, for every accepted schema.
- **Object codec** (`Objects.dfy`, `ObjectEncode.dfy`, `EncodeTrace.dfy`, `GroupObjects.dfy`,
  `ObjectEncoder.dfy`, `ObjectDecode.dfy`, `ObjectDecoder.dfy`, `DecodeLoop.dfy`,
  `ObjectRoundTrip.dfy`): the size pass with its caches on the heap, the write pass and where it
  stops, the iterative decoder with its counters, and the laws that connect them.
- **On the wire** (`WireForm.dfy`, `WireMeaning.dfy`, `WireFrame.dfy`): what the bytes of a number,
  of a value of each declared type, of a sequence and of a message are, said without the decoder,
  and the decoder held against it in both directions.
- **End to end** (`EndToEnd.dfy`): the encoder, a seek and the decoder one behind the other on one
  stream, and the way from a schema text to an object that has come back.
- **Pool** (`Pool.dfy`): the linear allocator.

Where the source computes in place, the model does: a class or a loop, proved against a function
on values, and the properties are proved about that function. Pointers to schema nodes are places
(namespace and index) in nested sequences; lists are sequences. Or-ing into disjoint bits is
written as addition, shifts as multiplication and division, and 32-bit and 64-bit wrap-around is
written out.

## What the code does that one might not expect

The model follows the code. Each of these is in the model, and where it breaks a law the law is
stated with the exact condition under which it holds.

- `encodeBody` never returns true (src/blink_object.c:1635, 1813), so every encode reports
  failure, and a body is abandoned right after its first nested group. `EncodeBody` and
  `EncodeCompact` therefore promise what they leave in the stream. `ObjectEncode` carries a
  switch, `repaired`, for the behaviour the size pass is written for; `TreeAccounting` is about
  the repaired form, `FlatAccounting`, `EncodeTrace.BodyFollows` and `RoundTrip` about the code
  as it is.
- The size pass forgets the presence byte of an optional FIXED value or static group, and sizes
  the prefix of a dynamic group with the ID, but the ID is not in the prefix. `Slack` is the
  difference.
- The u16 handler, empty strings and all sequences leave a decoded field unmarked.
  `ObjectRoundTrip.RoundTrip` is an equivalence: the object comes back if and only if it has no
  nested group, no sequence of 2^32 - 1 elements, no u16, empty string or empty binary in a single
  field and no FIXED value in an optional one.
- The counter of sequence elements (src/blink_object.c:92) has 32 bits and runs one ahead: the last
  of 2^32 - 1 elements returns it to zero, and what follows is read as one more header of the same
  field. `ObjectDecode.DecodeContent` has this, and so do all results about decoding.
- The enum handler looks its symbols up in the node of the field, which is no enumeration
  (src/blink_object.c:1119). What it finds there is a datum of the model, `FieldDef.symbols`.
- Decoding prepares a frame for a nested group and never enters it.
- The 56-bit sign mask (src/blink_compact.c:617) is a byte short for header 0xc1 only.
- List lookup is by prefix, from the front. Every list of an accepted schema is built so that this
  is exact all the same.
- A name without a namespace is looked for in the first namespace, wherever it stands.
- `testReferenceConstraint` moves its fast pointer from the slow one, so it rejects any chain of
  three type definitions, cycle or not (`References.ThreeInARow`; `References.AcceptedIffShort` is
  the exact condition, `SchemaExamples.AcyclicYetRejected` a text), and follows `attr.resolved` of
  a type definition that is no reference: the outcome is then `Stray`. Its test for a dynamic reference to a group looks at the pointer that never is one.
- Only a direct self-supergroup is rejected. A line of supergroups that goes round through two or
  more groups passes the reference tests, and the count at src/blink_schema.c:538 does not come
  back from it. `Inheritance.LineEnds` says exactly which lines end, for every schema whose
  references pass; `SchemaBuilder.New` is about every text, and its outcome says `Endless` where
  the source does not come back. `SchemaExamples.MutualSupers` is such a text: A : B, B : A.
- `BLINK_Group_eachField` visits the group's own fields once for each group on its line, and
  objects are created with the fields it visits.
- The star on a field is not looked at: only a dynamic type definition on the way makes a group
  dynamic. The size of a field that refers to a string or fixed type is read from the union member
  that holds a pointer.
- `tokenToIType` exchanges millitime and nanotime. A closing parenthesis is accepted nowhere after
  a sized type, a slash nowhere behind a field's name, and an annotation nowhere before a field's
  type (`ParserAccepts.ExactlyThese`).
- Annotations between the equals sign and the leading bar of an enumeration are left lying and go
  to the next type definition or enumeration that looks for some (`SchemaPrint.DefOf`).
- A name that ends the text has length zero. Keywords need no word boundary: a name that begins
  with one needs a backslash. Only one comment is skipped, and no blank behind it.
- An allocation of one of the seven largest sizes wraps to zero and is granted without room.

## Model

| member | source | states |
|---|---|---|
| Streams.ReadAvail | src/blink_stream.c:83-137 | on every stream a read of n bytes succeeds exactly when there is an input and n are available, directly or through a bound; it then returns those and moves behind them, and otherwise returns nothing and makes nothing new available |
| Streams.ReadRunIsPrefix | src/blink_stream.c:83-137 | over any run of reads, failing ones included, the bytes handed out are a prefix of the bytes that were available |
| Streams.BoundedReads | src/blink_stream.c:117-128 | through any number of bounds that prefix is also a prefix of the text of the stream underneath and never longer than the bound |
| Streams.ReadRunChunks | src/blink_stream.c:83-137 | reads that fit return the first bytes up to their total, whatever the chunk sizes |
| Streams.WriteAllWindow | src/blink_stream.c:36-81 | chunks that fit land next to each other at the write position and change nothing outside that window |
| Streams.WriteThenRead | src/blink_stream.c:36-137 | what was written in any chunks is read back in any chunks after seeking to the start |
| Streams.RunFrame | src/blink_stream.c:36-425 | over any run of reads, writes, seeks and limit changes the position stays in the buffer and a byte changes only inside the window of a successful write |
| Streams.PeekAvail | src/blink_stream.c:139-174 | what can be peeked is the next byte that can be read, and nothing through a bound |
| Streams.EofMeans | src/blink_stream.c:83-137 | the end is reported once a read has asked for more than the buffer, or the first bound, has left, and not for running out of what is underneath |
| Streams.SeekIsRead | src/blink_stream.c:302-325 | seeking forward in a buffer is passing over what a read would have returned, or fails where that would |
| Streams.SeekBack | src/blink_stream.c:270-300 | seeking back to where a read began makes it as if it had not been, except from position 2^31 - 1 |
| Streams.SeekWithin | src/blink_stream.c:270-300 | a position can be set exactly within a buffer, short of 2^31 - 1, and then the rest from there can be read; otherwise nothing changes |
| Streams.SeekNowhere | src/blink_stream.c:302-325 | a bound cannot be moved, and a buffer not backwards by a relative offset |
| Streams.SetMaxAvail | src/blink_stream.c:354-374 | a bound lets through what is left up to its limit of what is there underneath, and cannot be set behind its position |
| Streams.WriteExactly | src/blink_stream.c:36-81 | a write is granted exactly if the buffer takes input and it fits there and within every bound; it moves no bound, and a refused one changes nothing |
| StreamObjects.Stream.OfBuffer | src/blink_stream.c:176-213 | a buffer stream starts at position 0 of the first `limit` bytes |
| StreamObjects.Stream.OfStream | src/blink_stream.c:226-235 | over any stream, bounded or not, a bound starts at position 0 of its rest |
| StreamObjects.Stream.Read | src/blink_stream.c:83-137 | result and whole new state are those of the read transition |
| StreamObjects.Stream.Write | src/blink_stream.c:36-81 | result, buffer contents and position are those of the write transition |
| StreamObjects.Stream.Peek | src/blink_stream.c:139-174 | the next byte of a buffer, nothing through a bound, no state change |
| StreamObjects.Stream.SeekSet | src/blink_stream.c:270-300 | succeeds exactly on a buffer and within its limit, and moves only the position |
| StreamObjects.Stream.SeekCur | src/blink_stream.c:302-325 | moves forward within the limit; a negative offset is accepted and ignored |
| StreamObjects.Stream.SetMax | src/blink_stream.c:354-374 | a bound can be set to any limit not behind its position |
| StreamObjects.Stream.Take | src/blink_stream.c:83-137 | a read after part of the available bytes has gone returns the next ones, or nothing and only progress |
| Vlc.RoundTrip | src/blink_compact.c:527-642 | decoding an encoded 64-bit value, followed by anything, gives the value and uses exactly its bytes |
| Vlc.StreamRoundTrip | src/blink_compact.c:38-42 | any list of signed values, unsigned values and nulls comes back from the concatenation of its encodings, with exactly the rest left |
| Vlc.PrefixFree | src/blink_compact.c:527-642 | no encoding, of a value or of null, is a prefix of another of the same signedness |
| Vlc.DecodeMeaning | src/blink_compact.c:554-642 | for every input the unsigned result is the little-endian payload of 7, 14 or 8n bits, and the signed result is its two's complement if and only if the header is not 0xc1 with the top bit set |
| Vlc.Minimal | src/blink_compact.c:422-552 | a decoded input is at least as long as the encoding of its value, except exactly for those 0xc1 inputs |
| Vlc.SizeMonotone | src/blink_compact.c:422-523 | encoded sizes do not decrease with the magnitude, on each sign |
| Vlc.DecodePrefix | src/blink_compact.c:554-642 | decoding depends only on the bytes it uses |
| Compact.EncodeVlc | src/blink_compact.c:527-552 | what reaches the stream is one write of the encoding |
| Compact.FillBuffer | src/blink_compact.c:527-552 | the buffer loop produces the encoding |
| Compact.DecodeVlc | src/blink_compact.c:554-642 | finds exactly what the code on byte strings finds in the available bytes, and stands behind it |
| Compact.Fold | src/blink_compact.c:609-637 | the shift loop over the payload, started from the source's mask, yields the sign-extended payload (0xc1 excepted as in DecodeMeaning) |
| CompactRoundTrip.EncodeItems | src/blink_compact.c:38-42 | a list of values and nulls, a call each, reaches the stream up to the first failing write |
| CompactRoundTrip.DecodeItemsFrom | src/blink_compact.c:554-642 | reading a list call by call finds what the code on byte strings finds in the available bytes, and stands exactly behind it |
| CompactRoundTrip.ThereAndBack | src/blink_compact.c:527-642 | a list written call by call, sought back to and read call by call comes back, and the stream stands again where the writing ended |
| Lexer.TokenProgress | src/blink_lexer.c:148-280 | every token but the end of file consumes at least one byte |
| LexerRoundTrip.PrintLex | src/blink_lexer.c:41-745 | printing any list of printable tokens (names with or without backslash, qualified names, keywords, decimal and hexadecimal numbers in either case, negative numbers, literals in either quotes), with any run of spaces, tabs, newlines and carriage returns and then a comment at most in front and behind each, or nothing where the next byte tells them apart, and calling getToken up to the end or a zero byte gives the same tokens and values, then end of file |
| LexerRoundTrip.OneKeyStands | src/blink_lexer.c:41-80 | at most one keyword of the table can stand at a position: the table is prefix-free |
| LexerRoundTrip.KeysAreNamed | src/blink_lexer.c:41-80 | every entry of the table is written as its name says, by a table read the other way round |
| LexerRoundTrip.KeywordBack | src/blink_lexer.c:100-146 | a printed keyword is read as that keyword |
| LexerRoundTrip.HexBack | src/blink_lexer.c:648-698 | a hexadecimal numeral of any 64-bit number is read as that number |
| LexerRoundTrip.WideHexBack | src/blink_lexer.c:648-698 | up to seventeen hexadecimal digits, of either case and with leading zeros, are read modulo 2^64 |
| LexerRoundTrip.LongHexBack | src/blink_lexer.c:648-698 | with more digits it is no hexadecimal number, and the token is the zero in front of the x |
| LexerRoundTrip.WideUintBack | src/blink_lexer.c:554-588 | a decimal numeral of any number is read modulo 2^64 |
| LexerRoundTrip.TokenBack | src/blink_lexer.c:203-280 | any printed token with something behind it that may follow it is recognised as itself, whichever recogniser is tried first |
| LexerRoundTrip.LongNameBack | src/blink_lexer.c:384-552 | a name, or first half of a qualified name, longer than the buffer is reported as such, whatever it begins with |
| LexerRoundTrip.LongEscapedBack | src/blink_lexer.c:384-465 | so is one behind a backslash |
| LexerRoundTrip.LongCNameBack | src/blink_lexer.c:467-552 | so is a qualified name whose halves together do not fit |
| LexerRoundTrip.LongLiteralBack | src/blink_lexer.c:700-744 | so is a literal |
| LexerRoundTrip.LastNameBack | src/blink_lexer.c:384-465 | a name that ends the text is read as an empty one |
| LexerRoundTrip.StrayBack | src/blink_lexer.c:203-280 | behind any gap, each byte that starts no token is read as unknown |
| Scanner.CopyRun | src/blink_lexer.c:384-465 | the copy loop stops at the end of the run of name characters, has stored it, or reports that it does not fit |
| Scanner.IsName | src/blink_lexer.c:384-465 | verdict, stored text and position are those of the name recogniser on the text |
| Scanner.IsCName | src/blink_lexer.c:467-552 | the same for qualified names |
| Scanner.IsLiteral | src/blink_lexer.c:700-744 | the same for quoted literals |
| Scanner.StringToToken | src/blink_lexer.c:303-331 | the first table entry that stands at the position, and the stream behind it |
| Scanner.IsUnsignedNumber | src/blink_lexer.c:554-588 | the decimal number in 64-bit arithmetic |
| Scanner.IsSignedNumber | src/blink_lexer.c:590-646 | the signed decimal number in 64-bit arithmetic |
| Scanner.IsHexNumber | src/blink_lexer.c:648-698 | the hexadecimal number in 64-bit arithmetic |
| Scanner.GetToken | src/blink_lexer.c:148-280 | token and position are those of the lexer on the text, for any buffer size, also when the token does not fit it |
| Schema.SearchExact | src/blink_schema.c:2172-2192 | where no later name is a prefix of an earlier one, searching a stored name finds its own node |
| Schema.AppendUnfound | src/blink_schema.c:2118-2170 | appending a name that the search does not find keeps a list that way |
| ParserInvariant.StepKept | src/blink_schema.c:604-1749 | every step of the machine keeps the invariant under which each pointer it follows is set and each list searchable; a step that does not consume its token lowers the rank of the state |
| SchemaParser.Consume | src/blink_schema.c:604-1749 | the inner loop ends for every token, keeps the invariant, and takes the end of file only between definitions |
| SchemaParser.ParseFrom | src/blink_schema.c:604-1749 | a run on any finite text ends and, if it accepts, ends between definitions with the invariant |
| SchemaParser.AcceptedIsOk | src/blink_schema.c:567-588 | every accepted text yields lists of namespaces, definitions, fields and symbols in which no later name is a prefix of an earlier one, with strictly increasing symbol values |
| SchemaParser.NoClosingParenthesis | src/blink_schema.c:1602-1642 | after a size, a closing parenthesis is always rejected |
| SchemaParser.ParseSchema | src/blink_schema.c:604-1749 | the two nested loops over a stream compute the parse of its text |
| ParserNames.StepTidy | src/blink_schema.c:567-588 | no step gives a namespace a name with a colon or binds a supergroup |
| ParserNames.AcceptedIsTidy | src/blink_schema.c:604-1749 | so it is with every accepted text |
| SchemaPrint.KeyOfBack | src/blink_schema.c:1751-1785 | every built-in type has a keyword that is read as it; nanotime and millitime have each other's |
| SchemaPrint.TypeWords | src/blink_schema.c:1751-1785 | a keyword means a built-in type if and only if it is written as that type's word |
| ParserAccepts.ExactlyThese | src/blink_schema.c:604-1749 | in every state of a run a token is taken, however often it is looked at again, if and only if it is one of those listed for the state, its name is not found and its number is in range |
| ParserAccepts.UnreadableRefused | src/blink_schema.c:706-1741 | whatever its tokens, a text that goes on with a byte that starts no token, or with a name of more than 100 bytes, is refused |
| GroupReading.NoteRead | src/blink_schema.c:822-925 | at sign, name and literal leave exactly that annotation with its value at its owner, or give the one that is found the new value |
| GroupReading.NotesRead | src/blink_schema.c:794-925 | any number of annotations in front of a definition or behind an equals sign, in order |
| GroupReading.TypeRead | src/blink_schema.c:1410-1642 | the tokens of a field type, with or without size, with any stars and with brackets, leave exactly that type in the new field |
| GroupReading.FieldRead | src/blink_schema.c:1385-1727 | the tokens of a field, with an annotation or without, leave exactly that field at the end of the group's list, or are refused if and only if its name is found there |
| GroupReading.GroupRead | src/blink_schema.c:927-1001 | what stands behind the name of a group leaves its ID, supergroup name and fields in the newest definition, or is refused because a field's name is found |
| EnumReading.ImpliedValue | src/blink_schema.c:1188-1217 | a symbol without a value gets 0 if it is the first and one more than the previous symbol's otherwise, and is refused exactly behind 2^31 - 1 |
| EnumReading.ValueRead | src/blink_schema.c:1219-1273 | a written value is taken if and only if it is greater than the previous symbol's |
| EnumReading.SymbolListRead | src/blink_schema.c:1126-1286 | the tokens of further symbols, each with or without annotation and value, append exactly the symbols they mean, or are refused exactly if a name is found or a value is missing or too small |
| EnumReading.EnumRead | src/blink_schema.c:1003-1286 | what stands behind the name of an enumeration, with or without a leading bar, leaves its symbols and annotations in the newest definition, or is refused under the same condition |
| TypedefReading.TypedefRead | src/blink_schema.c:1003-1091 | what stands behind the name of a type definition leaves its type, annotations, stars and brackets included, whether it was added early or late |
| SchemaRoundTrip.DefRead | src/blink_schema.c:773-1741 | a definition in front of anything that may follow one adds exactly what it means and nothing else, or is refused if and only if it means nothing or its name is found |
| SchemaRoundTrip.TextRead | src/blink_schema.c:604-1749 | for every text of the grammar, going back to namespaces, annotations, implied values and sizes included, the run over its tokens accepts if and only if the text means a schema, and builds exactly that |
| SchemaRoundTrip.ParseIsRun | src/blink_schema.c:604-1749 | parsing a text is running over the tokens the lexer finds in it |
| SchemaRoundTrip.ParseText | src/blink_schema.c:604-1749 | however its tokens are printed and separated, such a text is parsed into what it means, and refused if it means nothing |
| SchemaWriting.TextOfMeans | src/blink_schema.c:604-1749 | every schema without bindings whose lists are in order, with annotations that have values where the grammar has room for them, is what some text means; an unnamed first namespace has no header |
| SchemaWriting.ParseWrite | src/blink_schema.c:604-1749 | however the tokens of that text are printed and separated, parsing it gives the schema: lexer and parser together are a left inverse of writing |
| SchemaWriting.WriteRead | src/blink_schema.c:604-1749 | there is such a text for every such schema whose names are names that fit the token buffer |
| Lookup.SearchList | src/blink_schema.c:2172-2192 | the list walk is the prefix search |
| Lookup.SplitName | src/blink_schema.c:2194-2225 | the loop cuts at the first colon and leaves a name without one whole |
| Lookup.Find | src/blink_schema.c:1864-1881 | namespace, then definition, both by the search |
| Lookup.FindExact | src/blink_schema.c:120-135 | in an accepted schema a qualified name finds exactly its definition, and in the first namespace the plain name does |
| Lookup.FindSymbol | src/blink_schema.c:464-483 | the first symbol with the value |
| Lookup.EnumBijection | src/blink_schema.c:456-483 | in every enumeration of an accepted schema, lookup by name and by value each give the very symbol, and no two symbols share either |
| Definitions.WalkIsComplete | src/blink_schema.c:2257-2314 | the walk lists every definition once, in order, past any empty namespaces |
| Definitions.DefIterator.constructor | src/blink_schema.c:2257-2277 | all definitions are still to come |
| Definitions.DefIterator.Next | src/blink_schema.c:2279-2309 | returns the first of what is still to come and leaves the rest, or nothing at the end |
| Definitions.DefIterator.NextGroup | src/blink_schema.c:552-563 | returns the next group and leaves the groups after it |
| Definitions.ListGroups | src/blink_schema.c:547-563 | iterating lists exactly the groups, each once, in order |
| Definitions.GetGroupByID | src/blink_schema.c:137-159 | the first group with the ID in the order of the walk, or none exactly if no group has it |
| Resolution.LinkAllTwice | src/blink_schema.c:1787-1862 | binding a bound schema again changes nothing, so it does no harm that the walk visits the first definition twice |
| Resolution.FindAccepted | src/blink_schema.c:120-135 | in the schema that any accepted text is bound to, "NS:G" finds definition G of namespace NS |
| Resolution.LinkBinds | src/blink_schema.c:1787-1862 | every reference is bound to what its name finds in the result if and only if every name is found |
| Resolution.LinkOnlyBinds | src/blink_schema.c:1787-1862 | binding sets bindings and changes nothing else: without them the schema is what it was |
| Resolution.UnqualifiedIsFirst | src/blink_schema.c:1864-1881 | a name without a namespace only ever finds a definition of the first namespace |
| Resolution.ResolveFields | src/blink_schema.c:1829-1849 | binds every field of reference type, or fails exactly if some name is not found, and then has bound the fields up to that one |
| Resolution.SchemaBase.ResolveDefinitions | src/blink_schema.c:1787-1862 | succeeds exactly when every name is found, and then leaves the schema with every reference bound and nothing else changed; on failure what the walk has passed is bound, the first definition with a name not found is bound up to that name, and the rest is untouched |
| References.TerminalStable | src/blink_schema.c:2227-2255 | the end of a chain does not depend on how far one is prepared to go |
| References.GetTerminal | src/blink_schema.c:2227-2255 | terminates on every chain that ends, at its end, with the flags of the references passed |
| References.TerminalMeans | src/blink_schema.c:2227-2255 | what is found is on the chain and no reference, and the flags say whether any reference on the chain has a star, or brackets |
| References.TestReference | src/blink_schema.c:1935-2030 | both pointers and all flags: the outcome, as a condition on the first three links only |
| References.StrayMeans | src/blink_schema.c:1949-1985 | the test goes astray if and only if the first or second definition on the chain is of a built-in type |
| References.AcceptedEnds | src/blink_schema.c:1935-2030 | if every definition is accepted, every chain ends within two references and outside the type definitions |
| References.AcceptedHasNoCycle | src/blink_schema.c:1935-2030 | and no chain returns to its start |
| References.ThreeInARow | src/blink_schema.c:1949-1973 | the converse fails: any definition from which three type definitions follow on one another is rejected, whether the chain ends or not |
| References.AcceptedIffShort | src/blink_schema.c:1935-2030 | a type definition is accepted if and only if its chain ends outside the type definitions after one reference, or after two of which the first has no star |
| SchemaExamples.AcyclicYetRejected | src/blink_schema.c:1949-1973 | the text X = Y, Y = Z, Z = G, G parses, all its names are found and its chains end in a group, and the schema is refused |
| Orbits.EndsIffNoRecurrence | src/blink_schema.c:528-545 | a walk along pointers among finitely many places ends if and only if it comes to no place twice, and then within as many steps as there are places |
| References.RepairedCycleTest | src/blink_schema.c:1935-2030 | with the fast pointer repaired, the test reports a cycle if and only if the chain never ends |
| References.Meets | src/blink_schema.c:1949-2022 | on any chain the slow and the repaired fast pointer are in the same place after some number of steps |
| Inheritance.LineOf | src/blink_schema.c:528-545 | along a group's line each prefix is the line of its last group |
| Inheritance.LineEnds | src/blink_schema.c:528-545 | the line of supergroups from a definition ends if and only if it ends within the number of definitions, and if and only if it meets no group twice and nothing that is not a group |
| Inheritance.FollowLine | src/blink_schema.c:528-545 | following the line no further than that tells which of the three it is: it ends, it goes round, or it leaves the groups |
| Inheritance.LineDistinct | src/blink_schema.c:528-545 | a group whose line ends is not its own ancestor |
| Inheritance.NumberOfSuperGroup | src/blink_schema.c:528-545 | the number of ancestors |
| Inheritance.IsKindOf | src/blink_schema.c:497-526 | true exactly for the group and its ancestors |
| Inheritance.SuperMeans | src/blink_schema.c:197-254 | a group with a supergroup is a kind of itself and of whatever that is a kind of, and has that one's fields and then its own; one without is a kind of itself alone |
| Inheritance.KindOfReflexive | src/blink_schema.c:497-526 | a group is a kind of itself |
| Inheritance.KindOfTransitive | src/blink_schema.c:497-526 | kinds of kinds are kinds |
| Inheritance.KindOfAntisymmetric | src/blink_schema.c:497-526 | two groups that are kinds of each other are the same |
| Inheritance.FieldsOfKind | src/blink_schema.c:197-254 | the field list of a kind of b begins with the whole field list of b |
| Inheritance.FieldIterator.constructor | src/blink_schema.c:197-228 | all fields of the nearest groups of the line, as many as the stack holds, are still to come, root first |
| Inheritance.FieldIterator.Next | src/blink_schema.c:230-254 | returns the first field still to come and leaves the rest |
| Constraints.TestShadow | src/blink_schema.c:2071-2116 | passes exactly when no own field is named like an inherited one |
| Constraints.ShadowsAre | src/blink_schema.c:2071-2116 | where names have up to 100 bytes, that is so if and only if no field of its own has the name of a field of an ancestor |
| Constraints.AllNamesDistinct | src/blink_schema.c:2071-2116 | if every group of a line passes and has distinct names of its own, all names of the whole line are distinct |
| Constraints.TestSuperReference | src/blink_schema.c:2032-2069 | passes exactly when the reference ends in another group and none on the way is dynamic or to a sequence |
| Constraints.SuperAcceptedMeans | src/blink_schema.c:2032-2069 | that is, exactly when another group is at the end and no reference on the way has a star or brackets |
| Constraints.OnlyLongerCycles | src/blink_schema.c:2032-2069 | where every supergroup reference passes its test, lines consist of groups, no group follows itself directly, and a line ends if and only if it does not go round |
| SchemaExamples.MutualSupers | src/blink_schema.c:1902-1932 | the text A : B, B : A parses, its names are found and its references pass, and building the schema does not come back |
| Constraints.EachField | src/blink_schema.c:161-195 | visits the group's own fields once for each group of its line |
| Constraints.EachFieldMeets | src/blink_schema.c:161-195 | that is the inherited field list if and only if there is no supergroup or no field at all |
| SchemaBuilder.LinkKeepsOk | src/blink_schema.c:1787-1862 | binding keeps every list searchable |
| SchemaBuilder.TestReferences | src/blink_schema.c:1883-1900 | the outcome is the first one in the walk that is not acceptance, and passes exactly when every definition is accepted |
| SchemaBuilder.TestSupers | src/blink_schema.c:1902-1932 | on every schema whose references pass, the outcome is the first one in the walk that is not acceptance, endless lines included |
| SchemaBuilder.TestConstraints | src/blink_schema.c:1883-1933 | on every bound schema, the second pass decides if the first finds nothing |
| SchemaBuilder.ConstraintsMean | src/blink_schema.c:1883-1933 | a bound schema is accepted if and only if every reference passes and every group with a supergroup has one that passes, a line that ends, and no field named like an inherited one |
| SchemaBuilder.MetConstraints | src/blink_schema.c:1883-1933 | in a schema that is accepted all names a group has or inherits, along a line that ends, are distinct |
| SchemaBuilder.New | src/blink_schema.c:86-118 | for every text: a schema comes out exactly when the text parses, every name is found and the constraints are met; it is the parsed schema with every reference bound |
| SchemaObjects.GetType | src/blink_schema.c:332-388 | the type of a field is that of the end of its chain, dynamic if a reference on the chain is |
| WireMeaning.FieldReads | src/blink_schema.c:332-388 | for a field declared with any built-in type, directly or through any chain of type definitions, decoding comes out with exactly the values of its width (numbers with their bounds in figures, booleans, texts, fixed values, decimals) whose bytes stand there, and with a null exactly where that is allowed |
| WireMeaning.KeywordMeans | src/blink_schema.c:332-388 | a field declared with a keyword, directly or through any chain, has the codec type of that name, with nanotime and millitime exchanged |
| WireMeaning.DefOfTag | src/blink_schema.c:390-406 | a field whose chain ends in a string, binary or fixed type has its own size, or if it is a reference what is read in its place; every other built-in type has none |
| WireMeaning.ReferenceReads | src/blink_schema.c:358-388 | for a field that leads to an enumeration, exactly the 32-bit numbers the lookup finds; to a group, its presence byte or, if a reference on the way has a star, the head of a group of that kind |
| WireMeaning.ObjectReads | src/blink_object.c:1243-1321 | for a field declared object, exactly a null where allowed or the head of any group |
| SchemaObjects.StarHasNoEffect | src/blink_schema.c:332-388 | a field's own star changes nothing, and a field that refers to a group directly is a static group |
| SchemaObjects.AcceptedIsUsable | src/blink_schema.c:86-118 | in every accepted schema each field's chain and each group's line end, so the codec's questions have answers |
| SchemaObjects.KindsAreKinds | src/blink_schema.c:497-526 | the kind test of the decoder is isKindOf |
| SchemaObjects.Describe | src/blink_schema.c:161-195 | asking a schema for the types, sizes, groups and visited fields of all its groups yields the groups as the codec gets to know them |
| SchemaObjects.RegistryFinds | src/blink_schema.c:137-159 | finding a group by number among the codec's groups is finding the first one in the walk |
| SchemaObjects.CreatedMeans | src/blink_object.c:212-270 | an object is created with the fields of its own group alone, once for each group of its line, in order |
| ObjectEncode.NoWrap | src/blink_object.c:1514-1630 | where the exact size fits in 32 bits the wrapping size pass computes it |
| ObjectEncode.TreeAccounting | src/blink_object.c:1514-1814 | with child results repaired, a body of any depth is as long as its cached size plus the slack: one byte per optional FIXED value or static group, and per dynamic group the difference of the two prefix sizes |
| ObjectEncode.FlatAccounting | src/blink_object.c:1514-1814 | as written, a flat body is as long as its cached size plus one byte per FIXED value in an optional field |
| ObjectEncode.AbandonedIsPrefix | src/blink_object.c:1760-1794 | whatever the tree, the code as written puts out a prefix of the repaired body, all of it unless it was abandoned |
| EncodeTrace.BodyFollows | src/blink_object.c:1632-1814 | with the end of each nested group marked in the repaired pass, depth first, the code as written puts out exactly the writes in front of the first mark, and all of them if there is none |
| EncodeTrace.LastGroupWhole | src/blink_object.c:1760-1794 | so an object whose only nested group is flat and its last value puts out its whole repaired body |
| EncodeTrace.SilentMeans | src/blink_object.c:462-487 | not a byte is put out if and only if the group has no ID or a mandatory field somewhere below is uninitialised |
| GroupObjects.GroupObject.CacheSize | src/blink_object.c:1514-1630 | fails exactly when a mandatory field below is uninitialised; otherwise the object and all below cache the size the pass defines, shared objects included |
| GroupObjects.GroupObject.CacheValues | src/blink_object.c:1540-1615 | the do-while loop adds the sizes of all values, in 32-bit arithmetic |
| ObjectEncoder.EncodeValue | src/blink_object.c:1662-1801 | one value's chunks reach the stream up to the first failing write; the caller goes on only if all did and it was no group |
| ObjectEncoder.EncodeBody | src/blink_object.c:1632-1814 | always returns false and leaves in the stream the chunks of the body up to the first failure or nested group |
| ObjectEncoder.EncodeCompact | src/blink_object.c:462-487 | always returns false and leaves in the stream size prefix, ID and body, or nothing without an ID or a mandatory field |
| ObjectDecode.Framing | src/blink_object.c:313-435 | every successful decode uses exactly the size prefix and the declared size, and what follows the frame has no influence |
| ObjectDecode.FieldsLocal | src/blink_object.c:312-395 | decoding a field list depends only on the bytes it uses |
| ObjectDecode.FrameIsWhole | src/blink_object.c:397-425 | a frame that decodes was complete and is used up |
| ObjectDecode.StreamOfFrames | src/blink_object.c:272-460 | frames that decode on their own decode one after another when put end to end |
| WireForm.DecodesNumber | src/blink_compact.c:554-642 | reading unsigned finds a null exactly at 0xc0 and a value exactly if a number of seven bits, of fourteen or of one to eight bytes stands there |
| WireForm.DecodesSigned | src/blink_compact.c:554-642 | the same in two's complement, with the value of 0xc1 as it is read |
| WireForm.WritesNumber | src/blink_compact.c:527-552 | what is encoded is such a number, of the value that was given |
| WireForm.WritesDouble | src/blink_compact.c:400-405 | for a double it is the number of its bit pattern |
| WireFrame.SequenceReads | src/blink_object.c:321-385 | decoding a sequence field comes out with exactly the sequences of less than 2^32 - 1 elements that stand there: a null where allowed, or the number of elements and the elements |
| WireFrame.BracketsRead | src/blink_schema.c:325-330 | a field reads so if it has brackets, whatever its chain of references says |
| WireFrame.SingleReads | src/blink_schema.c:325-330 | and if not it reads one value |
| WireFrame.MessageReads | src/blink_object.c:272-460 | decoding comes out with an object and a number of bytes if and only if these bytes are one message that holds it: a size that is not zero and fits in 32 bits, the ID of a group, and the fields of the first group with that ID, which fill the size exactly |
| WireMeaning.DecodedIsFilled | src/blink_object.c:789-1198 | whatever the bytes, a decoded object has a value in each mandatory field of a type that is no group, and in each element of a mandatory sequence |
| WireMeaning.NullRefused | src/blink_object.c:789-1321 | no message decodes in which a mandatory field begins with 0xc0, dynamic groups, objects and sequences included, static groups and fixed values excepted |
| ObjectDecoder.HandleString | src/blink_object.c:789-839 | value, marking and bytes used are those of the string decoder on the available bytes |
| ObjectDecoder.HandleFixed | src/blink_object.c:744-787 | the same for fixed values |
| ObjectDecoder.HandleUnsigned | src/blink_object.c:841-983 | the same for booleans, unsigned numbers and doubles |
| ObjectDecoder.HandleSigned | src/blink_object.c:984-1099 | the same for signed numbers |
| ObjectDecoder.HandleEnum | src/blink_object.c:1101-1136 | the same for enumerations: a 32-bit number that the lookup in the field's node finds |
| ObjectDecoder.HandleDecimal | src/blink_object.c:1168-1198 | the same for decimals |
| ObjectDecoder.HandleStatic | src/blink_object.c:1200-1241 | the same for static groups |
| ObjectDecoder.HandleDynamic | src/blink_object.c:1243-1321 | the same for dynamic groups, with the room left in the bounded stream |
| ObjectRoundTrip.SequenceMade | src/blink_object.c:321-385 | whatever the bytes, a decoded sequence has no group nested in it, and a size of 2^32 - 1 takes more than as many bytes |
| ObjectRoundTrip.DecodedIsStraight | src/blink_object.c:272-460 | nothing that is ever decoded has a nested group or a sequence said to have 2^32 - 1 elements |
| DecodeLoop.GroupHeader | src/blink_object.c:697-742 | reads prefix and ID, sets the bound and finds the group, or there is nothing to decode |
| DecodeLoop.DecodeState.TurnHead | src/blink_object.c:321-347 | a sequence header is read, or skipped if null and optional, and the decode stays on track |
| DecodeLoop.DecodeState.TurnElem | src/blink_object.c:348-378 | one more element is appended and the decode stays on track |
| DecodeLoop.DecodeState.TurnSingle | src/blink_object.c:387-395 | one field is decoded in place and the decode stays on track |
| DecodeLoop.DecodeCompact | src/blink_object.c:272-460 | on a buffer or through any bounds, the flat loop with its 32-bit element counter ends on every input, finds exactly what the recursive decoder finds in the available bytes, and on success stands behind the frame |
| ObjectRoundTrip.BodyBack | src/blink_object.c:312-395 | the body of a typed object without nested groups and with no sequence of 2^32 - 1 elements decodes into the fields the handlers return and is used exactly |
| ObjectRoundTrip.WireBack | src/blink_object.c:272-487 | decoding such an object once encoded returns its fields, or fails exactly if it has a FIXED value in an optional field |
| ObjectRoundTrip.RoundTrip | src/blink_object.c:272-487 | for every complete and well-typed object, nested groups included: decoding what was encoded yields an equal object if and only if it holds none of the values the code treats inconsistently |
| ObjectRoundTrip.ThroughStream | src/blink_object.c:272-487 | the same through a buffer stream: encoding fits, seeking back succeeds, and decoding there yields an equal object if and only if it holds none of those values |
| ObjectRoundTrip.ManyRoundTrip | src/blink_object.c:272-487 | objects encoded one after another are decoded one after another |
| ObjectRoundTrip.DynamicHeadBack | src/blink_object.c:1776-1786 | the head written for a dynamic group is read back, and exactly it is used, if and only if its size is not zero and fits and its ID names a group of the right kind |
| ObjectRoundTrip.StaticHeadBack | src/blink_object.c:1760-1768 | the presence byte written for a static group is read back and nothing more is used |
| EndToEnd.ThereAndBack | src/blink_object.c:272-487 | encodeCompact, a seek back and decodeCompact run on one buffer: an equal object comes back if and only if it holds none of those values, and whenever one without nested groups comes back the buffer has changed only where its bytes are and the stream stands behind them |
| EndToEnd.TextToObject | src/blink_schema.c:86-159 | for every schema text and ID: the schema is built, the first group with the ID found, or not, exactly as the text says; if not, nothing is touched; and an object of that group, encoded and decoded with the groups that schema is then asked for, comes back under the same condition |
| EndToEnd.ObjectIsTyped | src/blink_object.c:212-270 | a complete object of the group an accepted text gives an ID is well-typed for the codec with the groups of that text |
| Pool.RoundingOverflows | src/blink_pool.c:50 | the rounded size is right if and only if the request is not one of the seven largest, for which it is zero |
| Pool.BlocksApart | src/blink_pool.c:46-69 | blocks are word aligned, do not overlap and lie below the end of what is used |
| Pool.LinearPool.constructor | src/blink_pool.c:32-44 | the heap is zero and all of it is free |
| Pool.LinearPool.Calloc | src/blink_pool.c:46-69 | a block is granted exactly when its rounded size is free, is zero throughout and follows the last one; wrapped sizes are granted without room |
| Pool.LinearPool.GetFreeSpace | src/blink_pool.c:71-76 | free space and the room of all blocks add up to the size |
| Pool.LinearPool.Store | src/blink_pool.c:46-69 | a write inside one block keeps the pool valid and is inside no other |

## Left out

- User streams: their callbacks are foreign code.
- Failing `calloc` and everything `free` does, including destroyGroup and the error messages.
- f64 values in the round trip: the encoder sends the bit pattern (`WireForm.WritesDouble`), the decoder converts the number it reads (`WireMeaning.FieldReads`); the nearest double to a number is not computed.
- What the enum handler reads through the node of a field taken for an enumeration: the set of numbers it would find there is given, `FieldDef.symbols`, and likewise the size read through the member that holds a pointer; both are parameters, for each field, of the way from schema to codec.
- The encoder switches on the type of the field; `ObjectEncode` and `ObjectEncoder` on which member of the value is set. The two agree on every value whose member is the one its type uses (`Objects.Shaped`), which is what the setters produce.
- The frames a nested group would be decoded in: the push is lost in a local variable, so no run enters one, and the nesting limit cannot be reached.
- Setters, getters, append and iterate on objects.
- Handlers of BLINK_Group_eachField that stop early.
- Row and column tracking in the lexer.
- Values of annotations given by number, which the parser does not reach, and incremental annotations.
- Conformance to the full schema grammar: the machine is modelled as it is.
- SchemaRoundTrip.ParseText: the texts of `SchemaPrint`; that no other list of tokens is accepted is said state by state (`ParserAccepts.ExactlyThese`), not for whole lists.
- WireFrame.SequenceReads: sequences of 2^32 - 1 elements or more, which run into the next header; `ObjectDecode.DecodeContent` has them.
- The allocation of the schema's nodes and strings; a parse never fails for want of memory.
- DecodeLoop.DecodeState.TurnSingle: the counter of fields has 32 bits in the source and is unbounded here; the two differ on groups of 2^32 visited fields.
- DecodeLoop.DecodeCompact: after a failure the stream is only said to have moved forward within its text, not how far.
- Scanner.IsSignedNumber: signed overflow of the accumulator, undefined in C, is modelled as wrap-around.
- SchemaBuilder.New: where the source goes on through a stray pointer, or does not come back, the model stops with no schema and with `Stray` or `Endless` for an outcome.
- Inheritance.FollowLine: the source has no such loop; it stands where numberOfSuperGroup is about to be called, so that the model can say that the call would not come back.
- References.TestReference: what is read behind a stray pointer is not modelled; the outcome says that one was followed.
- Pool.LinearPool.constructor: addresses are offsets into the heap, whose start the source asserts to be aligned.
