# Models of the runtime's stateful algorithms

This project models the parts of the repository that keep state over many steps and proves what
they promise:

- `objsize` measures an object graph by overwriting the colour of every visited block, keeps the
  old colours in a run-length-coded bit stream, and puts them back in a second walk
  (`ColorCodec`, `BitArray`, `ColorStream`, `HeapWalk`, `ObjSize`).
- The XML push parser of the C++ target: one loop over eighteen states that calls itself for the
  children of an element (`XmlParser`); the language it accepts, stated as a grammar
  (`XmlGrammar`), which it accepts exactly (`XmlDocuments`, `XmlAccepted`) and which is unambiguous
  (`XmlUnique`), down to its single characters (`XmlSpelling`); printing (`XmlRoundTrip`), and the
  tree its handler builds (`XmlTree`).
- Containers that must equal a plain sequence: the rope buffer with shared leaves (`RopeBuffer`),
  the array with flat and chunked storage (`MultiArray`), the chunked C string buffer
  (`ChunkBuffer`).
- Codecs with inverses: Windows argument quoting (`CommandLine`), 31-bit UTF-8 (`Utf8`), RFC 3629
  validation (`Utf8Validate`), UTF-16 slicing (`Utf16`), unpadded Base64 (`Base64`), HTML escaping
  (`Html`).
- The in-place widening of the PCRE offset vector (`Ovector`).

Code that changes things step by step is imperative here: classes, arrays and loops whose contracts
equate the new state with functions on values, about which the theorems are stated.  `World.Run`
and `MultiArray.Run` state the container contracts over whole histories.  `dafny verify
dfyconfig.toml` checks everything.

Where the code and its documentation differ, the model follows the code:

- The XML handler is documented to receive `done` when a node is closed; the code calls it for
  self-closing elements only (`DoneOnlyIfSelfClosed`), and reports `pcdata("")` for an element in
  which nothing counted was found.  The tree built from these events is that of the text only
  when nothing follows an element closed with a tag (`BuiltIsDocument`).
- The line in an XML error message is that of the text shown beside it, except after `<![` and a
  newline (`LineOfShownText`, `LineOfShownTextIn`).
- The XML parser skips spaces after `</` but keeps them in the name it compares, so that it accepts
  no closing tag with such spaces (`CloseParts`).
- `wordalign` does not align; it returns its argument, except 6 for 3 (`WordAlignExactly`).
- `MultiArray` is documented to visit and fill every element; in chunked mode its loops leave out
  the last chunk when that is full (`Iter`, `FoldLeftAll`, `InitCellsAll`, `SkipsAFullChunk`,
  `InitOfAFullChunk`).
- The comments on `htmlEscape` name the entities without their semicolons; the code writes them.
- An unset group of a match has the offset -1; the code adds the subject start to it too, so it
  is not found only when the subject starts at 0 (`GroupsFound`, `UnsetGroupIsFound`).
- Of a Base64 text whose length is one more than a multiple of four, the last character is not
  read, and so not checked (`InvalidCharExactly`, `InvalidCharMissed`).

## Model

| member | source | states |
|---|---|---|
| ColorCodec.IntBitsInverse | libs/objsize/c_objsize.c:120-144 | The number read back from the bits, least significant first, is the number written in that width. |
| ColorCodec.OrderTakesSixteen | libs/objsize/c_objsize.c:158-172 | While at least 32 repetitions are pending, the order chosen takes at least 16 of them, so a run needs few tokens. |
| ColorCodec.RepeatTokensExpand | libs/objsize/c_objsize.c:156-185 | The tokens written for a run of n stand for exactly n copies of the colour in force and leave that colour in force. |
| ColorCodec.RepeatTokensBits | libs/objsize/c_objsize.c:156-185 | They take at most 5n+3 bits, and none for an empty run. |
| ColorCodec.WriterStepInvariant | libs/objsize/c_objsize.c:214-227 | After one more colour the tokens and the pending run stand for what has been written, within five bits a colour. |
| ColorCodec.WriterInvariant | libs/objsize/c_objsize.c:214-227 | The same for every sequence of colours from the initial state. |
| ColorCodec.FlushedOutput | libs/objsize/c_objsize.c:188-196 | A flush turns the pending run into tokens without changing what the stream stands for. |
| ColorCodec.RoundTrip | libs/objsize/c_objsize.c:156-257 | Whatever colours are written and flushed, the tokens are well formed, expand to exactly those colours, and take at most 5n+3 bits. |
| BitArray.WordAlignExactly | libs/objsize/bitarray.c:20-38 | The rounding, with its operands exchanged, returns n itself, except 6 for 3. |
| BitArray.WordAlignAligns | libs/objsize/bitarray.c:20-32 | It is the least multiple of 4 that is at least n if and only if n is one already. |
| BitArray.PutExactly | libs/objsize/bitarray.c:59-79 | Writing a bit changes the bit at that index and no other bit of the array. |
| BitArray.PutAppends | libs/objsize/bitarray.c:59-79 | Writing at the end of the bits held so far appends one bit. |
| BitArray.Set | libs/objsize/bitarray.c:67-79 | The update in place is the one that PutExactly speaks about. |
| BitArray.Realloc | libs/objsize/bitarray.c:53-56 | A reallocation, larger or smaller, keeps the bytes both have room for. |
| ColorStream.Stream.WriteBit | libs/objsize/c_objsize.c:94-107 | The stream grows by one bit, through any doubling of the array; neither ASSERT fails. |
| ColorStream.Stream.ReadBit | libs/objsize/c_objsize.c:110-117 | The next bit is read, and the read index advances by one. |
| ColorStream.Stream.WriteInt | libs/objsize/c_objsize.c:120-129 | The bits of the number are appended, and nothing is left of it. |
| ColorStream.Stream.ReadInt | libs/objsize/c_objsize.c:132-144 | The number whose bits come next is read. |
| ColorStream.Stream.RleWriteRepeats | libs/objsize/c_objsize.c:156-185 | The tokens of the pending run are appended to the stream and no run is pending; no ASSERT fails. |
| ColorStream.Stream.RleWriteFlush | libs/objsize/c_objsize.c:188-196 | The stream stands for everything written, is at most 5n+3 bits long, and no run is pending. |
| ColorStream.Stream.RleWrite | libs/objsize/c_objsize.c:214-227 | One more colour is written; the coder's state is the one the value-level writer reaches. |
| ColorStream.Stream.RleRead | libs/objsize/c_objsize.c:230-257 | The next of the colours written comes back, from a pending run or from the next token. |
| ColorStream.Stream.ReadColor | libs/objsize/c_objsize.c:277-282 | Reading hands out the colours in the order written; the result is never blue. |
| ColorStream.Stream.RleReadFlush | libs/objsize/c_objsize.c:199-211 | When all colours have been read, no run is pending and the read index is the write index. |
| ColorStream.NextToken | libs/objsize/c_objsize.c:230-257 | While colours are missing there is a next token, and decoding it keeps what has been read a prefix of what was written. |
| HeapWalk.FieldsInOrder | libs/objsize/c_objsize.c:304-319 | Every field that points into the heap counts, whatever its block holds, in the order of the fields. |
| HeapWalk.KidsAre | libs/objsize/c_objsize.c:349-360 | The walk goes on from a block to exactly what it points to in the heap, if its tag is below 251. |
| HeapWalk.DfsVisitsOnce | libs/objsize/c_objsize.c:302-370 | The walk visits no block twice, none that was seen before, and only blocks of the heap. |
| HeapWalk.DfsAppend | libs/objsize/c_objsize.c:302-326 | Walking two worklists in a row is walking the second with what the first visited as seen. |
| HeapWalk.DfsLockstep | libs/objsize/c_objsize.c:295-300 | Marking more blocks as seen, none of which would be visited, does not change the walk: the inverted test of the second walk follows the first. |
| HeapWalk.DfsSound | libs/objsize/c_objsize.c:302-370 | Every visited block lies on a path of scannable blocks from the worklist that avoids what was seen, as long as its depth says. |
| HeapWalk.DfsClosed | libs/objsize/c_objsize.c:302-370 | What was visited or seen contains the worklist and all its children. |
| HeapWalk.DfsIsReachability | libs/objsize/c_objsize.c:302-370 | The walk from a root visits exactly the blocks reachable from it without entering an avoided block. |
| HeapWalk.CountedOnce | libs/objsize/c_objsize.c:341-347 | The number of visits and the words added up are those of the set of blocks visited. |
| HeapWalk.DepthOfSomePath | libs/objsize/c_objsize.c:341-347 | The reported depth is the length of a path to some visited block, and no visit was deeper. |
| HeapWalk.FirstsLockstep | libs/objsize/c_objsize.c:412-448 | The exclusion list is restored in the order in which it was painted, duplicates skipped both times. |
| ObjSize.RepaintingKeepsSizeAndTag | libs/objsize/c_objsize.c:349-355 | Changing the colour bits of a header leaves its size and its tag alone, and reads back as that colour. |
| ObjSize.Walker.RecObjsize | libs/objsize/c_objsize.c:329-370 | The recursion with its goto paints, records and counts exactly the blocks of the depth-first walk through blocks not yet blue, in that order. |
| ObjSize.Walker.WalkFields | libs/objsize/c_objsize.c:302-326 | The field loop walks all block fields but the last, which it hands back for the goto. |
| ObjSize.Walker.RestoreColors | libs/objsize/c_objsize.c:373-397 | The restoring walk visits the same sequence of blocks, reads one colour for each, and puts the original colour back. |
| ObjSize.Walker.PaintList | libs/objsize/c_objsize.c:412-421 | Each excluded block is recorded and painted once, at its first occurrence. |
| ObjSize.Walker.RestoreList | libs/objsize/c_objsize.c:440-448 | Each excluded block gets its original colour back, before the main graph. |
| ObjSize.Walker.AnyBlue | libs/objsize/c_objsize.c:450-457 | The search finds a blue element if and only if there is one. |
| ObjSize.Walker.CObjsize | libs/objsize/c_objsize.c:400-480 | For every heap without blue blocks: all colours are as before and the stream is freed; headers is the number of blocks reachable from v without entering an excluded one, data the sum of their sizes, reached whether a sought block is among them, depth the depth of the walk. |
| ObjSize.PaintedThen | libs/objsize/c_objsize.c:329-370 | What two consecutive parts of a walk paint, record and count is what the whole paints, records and counts. |
| ObjSize.NextSplit | libs/objsize/c_objsize.c:373-397 | When the colours of a walk come next in the stream, so do those of its first part, and then those of the rest. |
| ObjSize.WalkMeasures | libs/objsize/c_objsize.c:329-370 | The order of the walk has no duplicates and its set is the set of blocks measured. |
| ObjSize.MeasuredIsLeast | libs/objsize/c_objsize.c:329-370 | What is measured is the least set with the root and with whatever its blocks of a tag below 251 point to, of both what is in the heap and not excluded. |
| ObjSize.Amounts | libs/objsize/c_objsize.c:341-347 | The data of a set are the fields of each of its blocks, of any kind, added up. |
| ObjSize.Marking | libs/objsize/c_objsize.c:412-421 | Painting the exclusion list makes exactly its elements blue. |
| ObjSize.Unmarking | libs/objsize/c_objsize.c:440-448 | With list and graph painted, the second pass over the list meets its elements in the recorded order. |
| ObjSize.Unwalking | libs/objsize/c_objsize.c:459-462 | With the list restored, blue is exactly what was walked, the second walk takes the same way, and repainting gives the original colours. |
| XmlParser.Step | std/cpp/NativeXmlImport.cpp:102-332 | Every pass keeps the cursor between where it was and the NUL, and a pass that stays on its character lowers the rank of the state. |
| XmlParser.StepName | std/cpp/NativeXmlImport.cpp:196-206 | The same for tag and attribute names. |
| XmlParser.StepText | std/cpp/NativeXmlImport.cpp:127-142 | The same for the states that look for a terminator up to two characters ahead. |
| XmlParser.BeginBang | std/cpp/NativeXmlImport.cpp:145-178 | The same for `<!`, where up to seven characters ahead are compared. |
| XmlParser.Finish | std/cpp/NativeXmlImport.cpp:337-346 | At the end exactly the outermost call returns, and only outside every tag. |
| XmlParser.Run | std/cpp/NativeXmlImport.cpp:89-347 | The parser terminates on every text; it returns or fails at or after where it began, never past the NUL, and returns inside an element always before it. |
| XmlParser.Parser.DoParseXml | std/cpp/NativeXmlImport.cpp:89-347 | The loop with its recursive call and shared cursor reports exactly the events, line, error and error position of Run. |
| XmlParser.StepStaysOnLine | std/cpp/NativeXmlImport.cpp:333-335 | A pass that jumps over several characters jumps over no newline. |
| XmlParser.LineCountsNewLines | std/cpp/NativeXmlImport.cpp:265-271 | However a run ends, returning or failing, and across every recursion, the line number has grown by exactly the newlines after the first character up to the one looked at. |
| XmlParser.NewLinesCount | std/cpp/NativeXmlImport.cpp:333-335 | They are the positions of the newline character, counted. |
| XmlParser.LineOfShownText | std/cpp/NativeXmlImport.cpp:146-159 | The line in an error message is that of the text it shows, if and only if that is not a newline in place of CDATA after `<![`. |
| XmlParser.LineOfShownTextIn | std/cpp/NativeXmlImport.cpp:146-159 | On a text in which no `[` stands before a newline, the line is always that of the text shown. |
| XmlParser.LineOfShownTextFails | std/cpp/NativeXmlImport.cpp:63-80 | A text for which it is not. |
| XmlDocuments.ParseAttrs | std/cpp/NativeXmlImport.cpp:225-264 | Attributes with distinct names and values free of their quote, with any spaces around their parts or none, are read into the map of those attributes. |
| XmlDocuments.ReadOpenTag | std/cpp/NativeXmlImport.cpp:196-264 | An opening tag is read up to its `>` or `/`, with its name up to the first other character and its attributes. |
| XmlDocuments.ReadCloseTag | std/cpp/NativeXmlImport.cpp:282-307 | A closing tag of the right name, in any case, returns from the call made for its element. |
| XmlDocuments.ParseSection | std/cpp/NativeXmlImport.cpp:135-142 | A CDATA section without its terminator inside is reported with its text. |
| XmlDocuments.ParseDocType | std/cpp/NativeXmlImport.cpp:315-324 | A DOCTYPE with balanced brackets is reported with its text. |
| XmlDocuments.ParseInstruction | std/cpp/NativeXmlImport.cpp:325-331 | A processing instruction is reported as a comment that keeps both question marks. |
| XmlDocuments.ParseElement | std/cpp/NativeXmlImport.cpp:265-271 | An element with children, at any depth, is reported as its opening and the events of its children. |
| XmlDocuments.ParseNodes | std/cpp/NativeXmlImport.cpp:115-134 | A list of nodes is read to its end and reported as the events of the nodes in order. |
| XmlDocuments.ParseDocument | std/cpp/NativeXmlImport.cpp:89-347 | Every text of a valid forest, at any depth, with any spacing and any case of its closing tags, is accepted, read to its end, and reported as exactly the events of that forest. |
| XmlAccepted.KeepsStep | std/cpp/NativeXmlImport.cpp:102-332 | After every pass the text read so far is some valid nodes and the beginning of one more, and the events reported are theirs. |
| XmlAccepted.RunReads | std/cpp/NativeXmlImport.cpp:89-347 | From any point of any run that returns: it has read a valid forest up to the end of the text, or up to the closing tag of the element it was called for, and reported its events. |
| XmlAccepted.AcceptedDocument | std/cpp/NativeXmlImport.cpp:89-347 | Every accepted text is the text of a valid forest, whose events have been reported. |
| XmlAccepted.AcceptsDocuments | std/cpp/NativeXmlImport.cpp:89-347 | The parser accepts a text if and only if it is the text of some valid forest. |
| XmlUnique.DocumentUnique | std/cpp/NativeXmlImport.cpp:89-347 | A text is the text of at most one valid forest, so that the forest of an accepted text is determined. |
| XmlSpelling.NameCharacters | std/cpp/NativeXmlImport.cpp:85-87 | The characters that make up a name: a tag of one character is accepted for the letters, the digits and four more characters, and for no other. |
| XmlSpelling.Separators | std/cpp/NativeXmlImport.cpp:103-114 | The characters that may stand behind the name in a tag: these, as part of it, and the four spaces, which end it. |
| XmlSpelling.ClosingNames | std/cpp/NativeXmlImport.cpp:293-307 | For any two names, `<a></b>` is accepted if and only if they are the same letter by letter, upper or lower case. |
| XmlSpelling.SectionWord | std/cpp/NativeXmlImport.cpp:146-159 | `<![` and six characters open a section if and only if these are CDATA in any case and a bracket. |
| XmlSpelling.DocTypeWord | std/cpp/NativeXmlImport.cpp:160-172 | `<!` and seven characters, if not those of a comment or a section, open a document type if and only if they are DOCTYPE in any case. |
| XmlRoundTrip.PrintedIsDocument | std/cpp/NativeXmlImport.cpp:89-347 | Every valid forest is the forest of a text, that of its printed form. |
| XmlRoundTrip.ParsePrinted | std/cpp/NativeXmlImport.cpp:89-347 | Parsing the printed form of any valid forest succeeds, reads all of it, and reports exactly its events. |
| XmlRoundTrip.EmptyTextReported | std/cpp/NativeXmlImport.cpp:282-287 | The empty text is reported after nodes among which is no element, no text and no section, and only then. |
| XmlRoundTrip.DoneOnlyIfSelfClosed | std/cpp/NativeXmlImport.cpp:265-292 | In the events of every accepted text the openings exceed the closings by the elements closed with a tag; they balance if and only if there are none. |
| XmlRoundTrip.DoneMissing | std/cpp/NativeXmlImport.cpp:265-292 | A text with one opening and no closing. |
| XmlTree.Builds | std/cpp/NativeXml.hx:69-126 | The events of some nodes make of the handler's tree exactly what Grown says: what follows an element closed with a tag goes into it. |
| XmlTree.GrownIsForest | std/cpp/NativeXml.hx:69-126 | That is the forest itself if and only if nothing follows such an element, it has a counted child, and no comment begins with a question mark. |
| XmlTree.CurrentNodeStays | std/cpp/NativeXml.hx:123-126 | On no accepted text does `done` leave the handler without a current node. |
| XmlTree.BuiltIsDocument | std/cpp/NativeXml.hx:62-127 | The tree built from an accepted text is its forest if and only if the same holds and the document has a counted child. |
| XmlTree.BuiltFromTexts | std/cpp/NativeXml.hx:84-121 | What the handler makes of each text reported: the character behind DOCTYPE is dropped, and the question marks of an instruction. |
| XmlTree.AllKinds | std/cpp/NativeXml.hx:62-127 | A text with every kind of node, its events and the tree built from them. |
| XmlTree.SecondBecomesChild | std/cpp/NativeXml.hx:123-126 | A text whose second element becomes a child of the first. |
| RopeBuffer.RopeNth | libs/extlib-leftovers/rbuffer.ml:28-33 | The character at i of the text of the rope. |
| RopeBuffer.BlitRope | libs/extlib-leftovers/rbuffer.ml:57-63 | The text of the rope is written at i and the rest of the target is kept. |
| RopeBuffer.BlitSubrope | libs/extlib-leftovers/rbuffer.ml:78-92 | The same for any part of the rope. |
| RopeBuffer.RBuffer.Create | libs/extlib-leftovers/rbuffer.ml:41-45 | An empty buffer with a buffer and a leaf of its own. |
| RopeBuffer.RBuffer.Reset | libs/extlib-leftovers/rbuffer.ml:47-51 | The buffer is empty. |
| RopeBuffer.RBuffer.Length | libs/extlib-leftovers/rbuffer.ml:53-54 | The length of everything added. |
| RopeBuffer.RBuffer.Nth | libs/extlib-leftovers/rbuffer.ml:110-113 | The character at i of everything added, or the exception exactly when there is none. |
| RopeBuffer.RBuffer.UnsafeContents | libs/extlib-leftovers/rbuffer.ml:66-74 | A new string of everything added, or the exception when that exceeds the longest string. |
| RopeBuffer.RBuffer.Sub | libs/extlib-leftovers/rbuffer.ml:94-108 | A new string of the part asked for; the exception exactly when the part does not exist or is too long. |
| RopeBuffer.RBuffer.MoveBufferToRope | libs/extlib-leftovers/rbuffer.ml:116-130 | Giving up the buffer as a leaf, or a copy of its part, changes nothing of the contents. |
| RopeBuffer.RBuffer.AddChar | libs/extlib-leftovers/rbuffer.ml:132-136 | The contents grow by the character. |
| RopeBuffer.RBuffer.Alloc | libs/extlib-leftovers/rbuffer.ml:140-163 | In each of the three cases the new place follows everything there was, and nothing there was is changed. |
| RopeBuffer.RBuffer.AddSubstring | libs/extlib-leftovers/rbuffer.ml:165-175 | The contents grow by the part of the string, or the exception is raised and nothing changes, exactly when the part does not exist. |
| RopeBuffer.RBuffer.AddBuffer | libs/extlib-leftovers/rbuffer.ml:177-181 | The contents grow by those of the other buffer, or by the buffer's own, although its leaves are shared. |
| RopeBuffer.RBuffer.OutputBuffer | libs/extlib-leftovers/rbuffer.ml:193-204 | The worklist hands out the contents from left to right. |
| RopeBuffer.World.Do | libs/extlib-leftovers/rbuffer.ml:116-181 | An operation on one of any number of live buffers changes the text of that buffer as specified, and the text of no other, although leaves are shared and filled in place. |
| RopeBuffer.World.Run | libs/extlib-leftovers/rbuffer.ml:41-181 | After every history of new buffers and operations on any of them, each buffer holds exactly what was added to it since its last reset. |
| Utf8.ValidateIff | libs/extlib-leftovers/uTF8.ml:184-213 | validate succeeds if and only if the string is a concatenation of encodings of code points below 2^31. |
| Utf8.CheckGives | libs/extlib-leftovers/uTF8.ml:191-212 | A string that passes begins with the shortest encoding of a code point and the rest passes. |
| Utf8.AddUcharIsTable | libs/extlib-leftovers/uTF8.ml:119-149 | add_uchar writes the encoding of the table in section 2 of RFC 2279 for every code point below 2^31; what it writes is valid for no other. |
| Utf8.Buf.AddUchar | libs/extlib-leftovers/uTF8.ml:119-149 | The buffer grows by those bytes, or the exception is raised before any is added. |
| Utf8.Init | libs/extlib-leftovers/uTF8.ml:151-154 | init gives the encoding of the sequence of its code points; it raises exactly when one cannot be written. |
| Utf8.UniquelyEncoded | libs/extlib-leftovers/uTF8.ml:119-149 | Two sequences of code points with the same encoding are equal. |
| Utf8.LookNext | libs/extlib-leftovers/uTF8.ml:26-70 | At the offset of character n, look gives the n-th code point and next the offset of the following character. |
| Utf8.NextInside | libs/extlib-leftovers/uTF8.ml:72-87 | From any byte of a character, next gives where the following one begins. |
| Utf8.PrevInside | libs/extlib-leftovers/uTF8.ml:89-95 | From any byte behind the head of a character up to the next head, prev gives that head. |
| Utf8.PrevUndoesNext | libs/extlib-leftovers/uTF8.ml:78-111 | prev undoes next at the boundaries, prev of the beginning is -1, and last is the head of the last character. |
| Utf8.LengthCounts | libs/extlib-leftovers/uTF8.ml:156-170 | length is the number of code points. |
| Utf8.NthIsOffset | libs/extlib-leftovers/uTF8.ml:105-117 | nth gives the offset, and get the code point, of every existing character; any other number raises. |
| Utf8.IterDecodes | libs/extlib-leftovers/uTF8.ml:172-178 | iter visits exactly the code points that were encoded. |
| Utf8.EncOrder | libs/extlib-leftovers/uTF8.ml:119-149 | Whatever follows, the encoding of a smaller code point compares as smaller. |
| Utf8.CompareIsCodeOrder | libs/extlib-leftovers/uTF8.ml:180-180 | Comparing bytes has the sign of comparing the code point sequences lexicographically. |
| Utf8.CompareExactly | libs/extlib-leftovers/uTF8.ml:180-180 | compare is -1 if and only if the first string is a proper prefix of the second or has the smaller byte where they first differ, 1 the other way round, and 0 only for equal strings. |
| Utf8.CompareCodes | libs/extlib-leftovers/uTF8.ml:180-180 | The same of the code points encoded. |
| Utf8.Encodings | libs/extlib-leftovers/uTF8.ml:119-149 | The bytes of code points of every length from one to six bytes. |
| Utf8Validate.Validate | std/UnicodeString.hx:44-113 | The loop answers whether the bytes belong to the grammar in section 4 of RFC 3629; RawNative throws. |
| Utf8Validate.CharIsScalar | std/UnicodeString.hx:53-109 | Every character of the grammar is the encoding of a Unicode scalar value. |
| Utf8Validate.ScalarIsChar | std/UnicodeString.hx:53-109 | The encoding of every Unicode scalar value is a character of the grammar. |
| Utf8Validate.ValidIffScalars | std/UnicodeString.hx:44-113 | The bytes accepted are exactly the encodings of sequences of Unicode scalar values, and the other library's validate accepts them too. |
| Utf8Validate.ValidOfOne | std/UnicodeString.hx:53-109 | The encoding of a code point is accepted if and only if that is below 0xd800, or from 0xe000 to 0x10ffff. |
| Utf16.DecodeOne | std/StringTools.hx:632-638 | Reading the one or two units of an encoded scalar value gives it back. |
| Utf16.Length | std/UnicodeString.hx:420-426 | The number of code points that a walk sees. |
| Utf16.CharAt | std/UnicodeString.hx:149-165 | The encoding of the code point at the index, or the empty string exactly when there is none. |
| Utf16.CharCodeAt | std/UnicodeString.hx:172-188 | The code point at the index, or null exactly when there is none. |
| Utf16.Substr | std/UnicodeString.hx:320-360 | The units from the first to the last code point asked for, for every start and length. |
| Utf16.Substring | std/UnicodeString.hx:375-418 | The same for start and end, negative, swapped, equal or past the end. |
| Utf16.CharsAreEncoded | std/UnicodeString.hx:149-188 | A string that encodes scalar values is walked as exactly those; with the contracts of charAt and charCodeAt, these return the element of the sequence. |
| Utf16.SlicesOfEncoded | std/UnicodeString.hx:320-418 | substr and substring of an encoded sequence are the encodings of the documented slices of the sequence. |
| Utf16.SubstringInside | std/UnicodeString.hx:372-393 | substring(a, b) with 0 <= a <= b <= length is the encoding of the code points from a to b. |
| Utf16.SubstringArguments | std/UnicodeString.hx:359-393 | For every string: the bounds may be in either order, a negative one is 0, one beyond the length is the length, and so is an end omitted. |
| Utf16.SubstrInside | std/UnicodeString.hx:320-360 | substr(pos, len) inside the string is the encoding of len code points from pos on. |
| Utf16.SubstrArguments | std/UnicodeString.hx:305-333 | For every string and the other arguments: nothing from beyond the end, no more than there is, all of it when len is omitted, negative pos and len counted from the length. |
| Utf16.Encodings | std/StringTools.hx:632-638 | The units of code points of one unit and of two. |
| MultiArray.MultiArray.Get | libs/extlib-leftovers/multiArray.ml:115-119 | The element at the index, flat or in chunks, or the exception exactly when there is none. |
| MultiArray.MultiArray.Set | libs/extlib-leftovers/multiArray.ml:121-125 | That element and no other is changed. |
| MultiArray.MultiArray.Add | libs/extlib-leftovers/multiArray.ml:127-167 | The elements grow by one, through every growth and promotion; it tells exactly when chunks take over. |
| MultiArray.MultiArray.Promote | libs/extlib-leftovers/multiArray.ml:144-156 | The flat block's elements are in fresh chunks, pairwise distinct, with room for one more. |
| MultiArray.MultiArray.Clear | libs/extlib-leftovers/multiArray.ml:169-172 | No elements, and a flat block again. |
| MultiArray.MultiArray.Init | libs/extlib-leftovers/multiArray.ml:54-81 | Up to the limit the elements are those of f; above it, those of f with the last chunk as the loops leave it. |
| MultiArray.MultiArray.Make | libs/extlib-leftovers/multiArray.ml:83-110 | The same for one repeated element. |
| MultiArray.MultiArray.Iter | libs/extlib-leftovers/multiArray.ml:184-196 | It visits the elements in order; it visits all of them if and only if the storage is flat or the length is not a multiple of 1024, and otherwise misses the last 1024. |
| MultiArray.MultiArray.FoldLeft | libs/extlib-leftovers/multiArray.ml:268-284 | It folds over the elements that iter visits. |
| MultiArray.MultiArray.Map | libs/extlib-leftovers/multiArray.ml:212-238 | A new array, sharing nothing, of the images; in chunks with the last chunk as init leaves it. |
| MultiArray.FoldLeftAll | libs/extlib-leftovers/multiArray.ml:268-284 | What fold_left computes is the fold over all elements, for every function into sequences, if and only if the storage is flat or the length is not a multiple of 1024. |
| MultiArray.InitCellsAll | libs/extlib-leftovers/multiArray.ml:54-70 | init and map in chunks are right if and only if the length is not a multiple of 1024, or the last 1024 elements are what a new block holds anyway. |
| MultiArray.Run | libs/extlib-leftovers/multiArray.ml:121-172 | After every run of add, set and clear the array holds the sequence that the run makes of the one it held. |
| MultiArray.InitOfAFullChunk | libs/extlib-leftovers/multiArray.ml:54-70 | With the limit at 1023, an array of 1024 elements made from a function holds 1024 fillers and nothing of the function. |
| MultiArray.SkipsAFullChunk | libs/extlib-leftovers/multiArray.ml:127-196 | Whatever the limit, an array reached by adding, and what iter visits of it: 1024 elements fewer than it has. |
| ChunkBuffer.CapacityGrows | libs/extc/process_stubs.c:94-107 | n chunks have room for at least 16 (5/4)^(n-1) characters. |
| ChunkBuffer.FewChunks | libs/extc/process_stubs.c:94-129 | With n >= 2 chunks the text has at least 16 (5/4)^(n-2) characters: the number of chunks is logarithmic. |
| ChunkBuffer.Buffer.AppendNew | libs/extc/process_stubs.c:94-107 | The new chunk follows, all others are full, and the capacity grows by more than a quarter. |
| ChunkBuffer.Buffer.AppendSub | libs/extc/process_stubs.c:109-129 | The contents grow by the first len characters, split between the head and a new chunk; every other chunk is full. |
| ChunkBuffer.Buffer.AppendStr | libs/extc/process_stubs.c:131-135 | The contents grow by the characters before the NUL. |
| ChunkBuffer.Buffer.AppendChar | libs/extc/process_stubs.c:147-156 | The contents grow by the character. |
| ChunkBuffer.Buffer.ToString | libs/extc/process_stubs.c:158-174 | The chunks, copied from the newest back, give the contents and a NUL. |
| CommandLine.BuildCommandLine | libs/extc/process_stubs.c:287-330 | The memory holds the quoted command, every argument quoted, and a NUL. |
| CommandLine.AppendArg | libs/extc/process_stubs.c:292-327 | The loop with its count of held-back backslashes writes the quoted argument. |
| CommandLine.ArgumentOfQuoted | libs/extc/process_stubs.c:299-327 | From inside the quotes, the receiver's rules read the argument back, whatever mix of backslashes and quotes it is, and stop behind it. |
| CommandLine.SplitUndoesQuoting | libs/extc/process_stubs.c:287-329 | Splitting the line by the Microsoft C rules, before or since 2008, gives the command and the arguments if and only if the command has no quote in it. |
| CommandLine.QuotedRun | libs/extc/process_stubs.c:296-320 | Of n backslashes, 2n + 1 are written before a quote, 2n at the end of an argument and n before any other character. |
| CommandLine.LineWritten | libs/extc/process_stubs.c:289-324 | The command and each argument stand between quotes, one space before each argument. |
| CommandLine.RoundTrip | libs/extc/process_stubs.c:287-330 | The same from the memory that was filled, for a command and arguments without NUL. |
| Base64.MakeDecodingTable | libs/extlib-leftovers/base64.ml:38-44 | The table inverts the encoding table, the last of equal characters counting; a table of another size raises. |
| Base64.Encoder.Write | libs/extlib-leftovers/base64.ml:58-67 | With an accumulator that is never cleared and wraps at 63 bits, what is written are the complete digits of the bytes so far. |
| Base64.Encoder.Flush | libs/extlib-leftovers/base64.ml:52-57 | The left over bits become one more digit, filled up with zeros. |
| Base64.EncodeString | libs/extlib-leftovers/base64.ml:123-126 | The digits of section 4 of RFC 4648, unpadded, in the characters of the table. |
| Base64.Decoder.Fetch | libs/extlib-leftovers/base64.ml:82-94 | The next byte, or the exception at the first character that stands for nothing. |
| Base64.DecodeString | libs/extlib-leftovers/base64.ml:128-130 | The bytes of the digits read; it raises exactly when one of the characters it needs stands for nothing. |
| Base64.NeededExactly | libs/extlib-leftovers/base64.ml:128-130 | It reads all characters, except the last one of a text whose length is one more than a multiple of four. |
| Base64.InvalidCharExactly | libs/extlib-leftovers/base64.ml:128-130 | The exception is raised exactly for the strings with a character that stands for nothing, if and only if it is not the case that the only such one is a lone last character. |
| Base64.InvalidCharMissed | libs/extlib-leftovers/base64.ml:128-130 | A string of one such character, which decodes to nothing. |
| Base64.DigitsSpellBytes | libs/extlib-leftovers/base64.ml:58-67 | The digits of three bytes are those of the number that the bytes spell; a rest of two bytes or one is shifted up to three digits or two. |
| Base64.BytesSpellDigits | libs/extlib-leftovers/base64.ml:82-94 | The bytes of four digits are those of the number that the digits spell; of three digits or two, what is left over is dropped. |
| Base64.CharsWritten | libs/extlib-leftovers/base64.ml:31-36 | The standard table in its characters. |
| Base64.DigitCount | libs/extlib-leftovers/base64.ml:123-126 | ceil(8n/6) digits for n bytes. |
| Base64.DecodeUndoesEncode | libs/extlib-leftovers/base64.ml:123-130 | Decoding with the table made from an encoding table of distinct characters gives every string back. |
| Base64.StandardRoundTrip | libs/extlib-leftovers/base64.ml:31-46 | It does so with the default tables. |
| Base64.RoundTripIffDistinct | libs/extlib-leftovers/base64.ml:38-44 | It does so for every string if and only if the characters are distinct. |
| Html.HtmlEscape | std/StringTools.hx:158-177 | The loop's result unescapes to the string; it has no `<` and no `>`, with quotes neither kind of quote, and every ampersand begins one of the entities. |
| Html.NothingToUnescape | std/StringTools.hx:193-204 | Text in which none of the five entities occurs is not changed by htmlUnescape. |
| Html.OnePass | std/StringTools.hx:193-204 | One global replacement undoes its own entity everywhere and touches no other. |
| Html.UnescapeUndoesEscape | std/StringTools.hx:158-204 | htmlUnescape(htmlEscape(s, quotes)) == s for every string and both values of quotes. |
| Ovector.SplitJoin | libs/pcre/pcre_stubs.c:98-111 | The two words of a 64-bit integer give it back. |
| Ovector.CopyOvector | libs/pcre/pcre_stubs.c:98-111 | Going backward, every 32-bit offset is read before a 64-bit store reaches it: each cell is the tagged offset plus the subject start. |
| Ovector.HandleExecResult | libs/pcre/pcre_stubs.c:503-514 | The first 2 ret cells are the tagged offsets, the others of the first two thirds are OCaml -1, the last third is untouched, whether or not the offsets lie in the same block. |
| Ovector.WordsWritten | libs/pcre/pcre_stubs.c:98-111 | Word by word: the two words of a cell are 2n + 1, where n is the 32-bit offset and the subject start, or -1. |
| Ovector.GroupsFound | libs/pcre/pcre.ml:324-344 | OCaml finds every matched group where it is and none behind the last; a group before that which did not take part is not found if and only if the subject starts at 0. |
| Ovector.UnsetGroupIsFound | libs/pcre/pcre_stubs.c:503-514 | A match whose group that did not take part is found, empty, at 0. |

## Left out

- Machine integers: lengths, indices, counters and `repeat_count` are unbounded.  The repeat count never exceeds the number of colours written, which is the number of blocks.  Only the Base64 accumulator, the header bits and the offset cells have their width.
- Page table lookup and generations in `objsize`: a pointer leads into the heap when the map has its block.  The heap is required to hold no blue block at entry; `goto` is a loop.
- `bitarray_init`, whose result nothing in `objsize` uses, and the contents of memory after it has been freed.
- Allocation failure everywhere.
- XML: the byte order mark, the text of error messages, and the field names that `hx::Anon` treats specially when attributes are looked up; an attribute is present exactly when it was added.  The text is the characters before the NUL.
- XmlTree.Builds: the handler's nodes are values; parent pointers are the list of open nodes.
- XmlDocuments.ParseDocument: in a valid forest two texts are never next to each other, as the parser reports those as one.
- Rope buffer: `add_channel` and `print`, which read and write channels, and the constant `rope_empty`, which is a new empty array at each use.
- RopeBuffer.World.Do: all buffers of a world have the same longest string, as they have in one process.
- `UTF8.move` with a negative count, and the bytes that functions other than `validate` return for strings that are not valid.
- UTF-16: `indexOf` and `lastIndexOf`, which restart a failed match without backing up and so miss occurrences.  Reading past the end gives -1, as on the targets that say so; well-formed strings never read there.
- Utf16.Substr: the loop of `substr` and that of `substring` are one method, `Collect`.
- HTML: a string is the sequence of its characters; that a target iterates code points and stores units makes no difference, as all replaced characters are single units.
- Base64: encoders that are flushed more than once, tables whose entries are not between -1 and 63, and channels in place of strings.
- Base64.Decoder.Fetch: a decoder is proved from its start; seeking and closing are not modelled.
- MultiArray: `iteri` and `mapi`, which add an index to `iter` and `map`, and `of_array` and `of_list`, which repeat `add`.  Functions passed in have no effects of their own.
- The raw branch of the Windows command line, the pipes and processes around it, and the POSIX branch.
- Command splitting knows space and tab as blanks and nothing of code pages.
- Ovector.HandleExecResult: the number of groups is within the first two thirds of the vector, as `pcre_exec` promises, and the subject start is below 2^60; 32-bit machines, on which nothing is widened.
- The other stubs (zlib, mbedtls, sockets, paths, clocks), URL encoding, the metadata readers and the extern declarations of the standard library: calls into code that is not here, or field-by-field transcription.
