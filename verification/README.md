# A model of the server's core algorithms

Each module of this project models one component of the HTTP server family and its XML library, and proves what
that component is for.

- `Utf8`, `XmlText`, `XmlScan`, `XmlTree`: escaping, entities, names and text; printing and parsing of trees. A
  `const char*` is modelled as the string that remains, so `++p` is `p[1..]`; bytes are characters below 256. The
  functions of `XmlText` and `XmlTree` specify; the methods of `XmlScan` are the loops.
- `AttributeRing`, `Dom`, `DomClone`, `DomEdit`: the heap structures, namely the attribute ring with its sentinel
  and the doubly linked child lists, with their editing, copying and freeing operations. A node carries, as ghost
  state, its children in order and the value it stands for.
- `XmlLayout`: documents as written by hand, with white space in and around their tags.
- `XmlParser`, `XmlStream`, `XmlDocument`: the parser that builds nodes, the printer that walks them, and the round
  trip through both.
- `EndOfLine`: line-break normalisation on loading.
- `ThreadPool`: the pool protocol and the hand-off of the duty to accept, as interleaved atomic steps of any number
  of callers and workers.
- `ByteBuffer`, `LineReader`, `PercentDecoding`, `HttpHead`, `RequestLines`: the incremental reading of request heads.
- `ChunkedResponse`: framing and sending of chunked responses.
- `IoSelect`: the slot table of the socket monitor.
- `ConfManager`, `ConfElements`: loading of configurations with variables, conditions and includes, and what their
  elements mean; `Numbers`: the C library's `atoi`.

Where the code does not do what it is meant to do, the model does what the code does, and a theorem says exactly
when the two agree: `EscapingIsInvertibleExactly`, `WalkIsCompleteExactly`, `SeenIsWholeExactly`,
`CopyEqualsOriginalExactly`, `CDataRoundTripsExactly`, `StepRecovers`, `DecodesExactly`, `PacketsMatterExactly`,
`BodyDecodesExactly`, `HeaderIsDefinedExactly`.

Assumptions about the code's environment: a file reads the same each time; allocation and thread creation succeed;
there are no spurious wake-ups; memory operations of different threads interleave one at a time; request streams hold
no NUL, because lines are kept as C strings; the last probe of the line search
(branches/ziis/src/core/utils_line.cc:97) looks no further than the end of the buffer; growing a buffer copies the old
bytes only; the digit table of the percent decoder ends after its 16 entries.

Names: a normal tree has valid names, distinct attribute names, values and text without NUL and "&#x", text without
leading, trailing or doubled spaces and never twice in a row, comments without "-->" and without an entity, CDATA
without NUL and "]]>". Comments may hold '&' where it starts no entity.

## Model

| member | source | states |
|---|---|---|
| XmlText.EscapingIsInvertibleExactly | src/tinyxml/tinyxml.cc:42-123 | A string, escaped and put before a quote and any continuation, is read back whole with reading stopped at the quote, for every continuation, if and only if "&#x" does not occur in it. |
| XmlText.EscapingRoundTrip | src/tinyxml/tinyxmlparser.cc:553-575 | For a string without "&#x", reading the escaped text up to either quote returns the string and stops at the rest. |
| XmlText.DecodedIsNoLonger | src/tinyxml/tinyxmlparser.cc:419-510 | Reading escaped text never yields more characters than were written, and strictly fewer when "&#x" occurs. |
| XmlText.DigitSumIsPositional | src/tinyxml/tinyxmlparser.cc:426-493 | The backwards digit loop over wrapping 32-bit products computes the positional value of the hexadecimal digits. |
| XmlText.HexReferencesAreRead | src/tinyxml/tinyxmlparser.cc:426-493 | In UTF-8 mode, reading any sequence of hexadecimal references yields the encodings of their values in order. |
| XmlText.DecimalReferenceIsRead | src/tinyxml/tinyxmlparser.cc:455-480 | A decimal reference is read as the positional value of its digits. |
| XmlText.Utf8TextIsRead | src/include/tinyxml.hh:280-314 | In UTF-8 mode, text of encoded code points without "&" is taken byte for byte up to the quote. |
| XmlText.EscapedIsPlain | src/tinyxml/tinyxml.cc:42-123 | Escaped text without references of its own holds no control character, "<", ">" or quote. |
| XmlText.ReferenceIsKept | src/tinyxml/tinyxml.cc:42-80 | A hexadecimal reference in the string is written as it stands. |
| Numbers.DecimalReferenceRoundTrip | src/tinyxml/tinyxmlparser.cc:455-480 | A character reference that writes a number in decimal is read as that number. |
| Numbers.AtoiOfDecimal | src/confmanager/ConfManager.cc:384-384 | A number written in decimal, with either sign or none and anything but a digit behind it, is read as that number. |
| XmlText.ReadCodePointsAreRecovered | src/tinyxml/tinyxmlparser.cc:57-117 | What such references produce, walked with the byte-length table, gives back the same boundaries and code points. |
| Utf8.ConvertUTF32ToUTF8 | src/tinyxml/tinyxmlparser.cc:79-117 | The descending switch that fills the bytes from the last one computes the encoding of the code point and its length. |
| Utf8.StepRecovers | src/tinyxml/tinyxmlparser.cc:57-77 | Stepping by the byte-length table over one encoding recovers the code point and the rest exactly for code points below 0x140000. |
| Utf8.StrayBytesAreOne | src/tinyxml/tinyxmlparser.cc:57-77 | A byte that starts no encoding counts as one character of length 1. |
| Utf8.WalkRecovers | src/tinyxml/tinyxmlparser.cc:57-117 | Walking a whole string of encodings by the table recovers the code points in order. |
| Utf8.EncodesExactlyScalarValues | src/tinyxml/tinyxmlparser.cc:79-117 | The encoding is a well-formed UTF-8 character (section 4 of RFC 3629) exactly for Unicode scalar values. |
| XmlScan.PutStringTo | src/tinyxml/tinyxml.cc:42-123 | The index loop of PutString appends exactly the escaped form that the round trip is proved about. |
| XmlScan.CopyReference | src/tinyxml/tinyxml.cc:64-70 | The inner loop copies a reference unchanged up to its ';' or all but the last character. |
| XmlScan.ScanEntity | src/tinyxml/tinyxmlparser.cc:419-510 | GetEntity with its backwards digit loop returns the character, reference value or failure that the text model has. |
| XmlScan.ScanChar | src/include/tinyxml.hh:280-314 | GetChar takes one character, an entity, or a multi-byte sequence by the length table, in either encoding. |
| XmlScan.ScanText | src/tinyxml/tinyxmlparser.cc:553-575 | The loop of ReadText that keeps white space reads up to the end tag, resolving entities. |
| XmlScan.ScanTrimmedText | src/tinyxml/tinyxmlparser.cc:576-612 | The branch of ReadText that condenses white space skips what leads, turns every inner run into one space and drops the last, in either encoding. |
| XmlScan.ScanName | src/tinyxml/tinyxmlparser.cc:389-417 | ReadName takes the longest run of name characters after a letter or underscore. |
| XmlScan.ScanSpace | src/tinyxml/tinyxmlparser.cc:305-350 | SkipWhiteSpace is null at the end of the input; else it drops the leading white space, and in UTF-8 also byte order marks, U+FFFE and U+FFFF. |
| XmlTree.TextIsRead | src/tinyxml/tinyxmlparser.cc:576-612 | The condensing read of PutString's output gives the text back when its spaces are single and inside. |
| XmlTree.TextRoundTrip | src/tinyxml/tinyxmlparser.cc:1432-1480 | Parsing the printed form of a normal text returns that text, up to the next '<'. |
| XmlTree.CDataRoundTrip | src/tinyxml/tinyxmlparser.cc:1440-1467 | Parsing a printed CDATA section without NUL and "]]>" returns it byte for byte with its flag. |
| XmlTree.CDataRoundTripsExactly | src/tinyxml/tinyxmlparser.cc:1440-1467 | The parser, which stops at the first NUL, returns a printed section and what follows it if and only if the section holds neither a NUL nor "]]>". |
| XmlTree.CommentRoundTrip | src/tinyxml/tinyxmlparser.cc:1292-1315 | Parsing a printed comment without "-->" and without an entity returns it. |
| XmlTree.AttributeRoundTrip | src/tinyxml/tinyxmlparser.cc:1318-1384 | Parsing a printed attribute, quoted by whichever quote fits, returns its name and value and stops behind the quote. |
| XmlTree.WrittenAttribute | src/tinyxml/tinyxml.cc:1212-1240 | A value is written between double quotes, or single ones if it holds a double one. |
| XmlTree.WrittenElement | src/tinyxml/tinyxml.cc:817-850 | Attributes are written each after a space and children in order; an element without children ends in " />". |
| XmlTree.AttributesRoundTrip | src/tinyxml/tinyxmlparser.cc:1014-1131 | The attribute loop reads a printed list of distinctly named attributes back in order. |
| XmlTree.ElementRoundTrip | src/tinyxml/tinyxmlparser.cc:1014-1131 | Parsing the printed form of any element tree in normal form, followed by anything, returns that tree and that rest. |
| XmlTree.BodyRoundTrip | src/tinyxml/tinyxml.cc:817-845 | Both forms of an element's body, " />" and children with an end tag, are parsed back. |
| XmlTree.KidsRoundTrip | src/tinyxml/tinyxmlparser.cc:1134-1203 | ReadValue on printed children stops at the end tag with exactly those children. |
| XmlLayout.RunIsSkipped | src/tinyxml/tinyxmlparser.cc:305-350 | Exactly the run of blanks, tabs, line feeds, vertical tabs, form feeds and carriage returns in front is skipped. |
| XmlLayout.MarksAreSkipped | src/tinyxml/tinyxmlparser.cc:312-342 | In UTF-8 exactly the pieces in front that are white space, byte order marks, U+FFFE or U+FFFF are skipped. |
| XmlLayout.LaidTextIsRead | src/tinyxml/tinyxmlparser.cc:576-612 | A text whose single spaces are replaced by any runs of white space, with any run behind it, is read as that text. |
| XmlLayout.LaidElementRoundTrip | src/tinyxml/tinyxmlparser.cc:1014-1130 | A normal element written with any runs of white space among its attributes, around their signs, before the end of its tags and around its children, with either quotes and either form of an empty element, is read as the same tree with the rest untouched. |
| XmlLayout.LaidKidsRoundTrip | src/tinyxml/tinyxmlparser.cc:1134-1195 | Children with any runs of white space around them are read back up to the end tag; the runs are no children. |
| XmlLayout.LaidDocumentRoundTrip | src/tinyxml/tinyxmlparser.cc:681-779 | A document with any runs of white space around and in its nodes is read back with nothing left over. |
| XmlLayout.NameIsRead | src/tinyxml/tinyxmlparser.cc:389-417 | A letter, underscore or byte from 127 on, and then also digits, "-", "." and ":", are read as a name up to the first other character. |
| XmlLayout.BareValueIsRead | src/tinyxml/tinyxmlparser.cc:1372-1382 | An attribute value without quotes is taken as it stands up to white space, "/" or ">". |
| XmlLayout.BlankTextIsDropped | src/tinyxml/tinyxmlparser.cc:1146-1172 | A text of nothing but white space, though written in references, is no child. |
| XmlLayout.OtherEndTagIsRefused | src/tinyxml/tinyxmlparser.cc:1069-1092 | An element whose end tag has another name is refused. |
| XmlLayout.RepeatedAttributeIsRefused | src/tinyxml/tinyxmlparser.cc:1095-1130 | A second attribute of a name is refused. |
| XmlLayout.UnclosedIsWild | src/tinyxml/tinyxmlparser.cc:1292-1384 | A value, a comment or a section without its end makes the parser read behind the end of the input. |
| XmlLayout.MissingSignIsRefused | src/tinyxml/tinyxmlparser.cc:1318-1348 | An attribute name without "=" is refused. |
| XmlLayout.OpenTagIsRefused | src/tinyxml/tinyxmlparser.cc:1045-1065 | A tag that ends with the input, or has "/" without ">", is refused. |
| XmlStream.SeenIsWholeExactly | src/tinyxml/tinyxml.cc:1162-1178 | Printing sees the whole tree if and only if no attribute but the first of an element lacks both name and value. |
| XmlStream.StreamOut | src/tinyxml/tinyxml.cc:817-845 | Streaming a node in memory, through its child and attribute links, writes the printed form of the tree it stands for. |
| XmlStream.StreamAttribute | src/tinyxml/tinyxml.cc:1212-1228 | An attribute is written as escaped name, '=', the fitting quote, escaped value, quote. |
| XmlDocument.DocumentRoundTrip | src/tinyxml/tinyxmlparser.cc:681-772 | Parsing what a document of comments, CDATA and a last root element prints gives the document with nothing left over. |
| XmlDocument.BuildDocument | src/tinyxml/tinyxmlparser.cc:681-772 | Document parsing builds fresh nodes whose lists, rings, parent pointers and values are in order, and returns the pointer of the specification. |
| XmlDocument.WriteAndRead | src/tinyxml/tinyxmlparser.cc:1014-1131 | Writing any element tree in memory out and parsing the text builds a fresh tree equal to it and consumes all of the text. |
| XmlParser.BuildElement | src/tinyxml/tinyxmlparser.cc:1014-1131 | The element parser, building nodes as it goes, returns the pointer and the tree of the specification, in a well-formed forest of new nodes. |
| XmlParser.ReadKidsOf | src/tinyxml/tinyxmlparser.cc:1134-1203 | The loop of ReadValue links the parsed children, in order, under the element being built. |
| XmlParser.ReadAttributeInto | src/tinyxml/tinyxmlparser.cc:1071-1121 | A new attribute joins the ring at its end; a repeated name changes the attribute there and ends the parse. |
| XmlParser.ScanAttribute | src/tinyxml/tinyxmlparser.cc:1318-1384 | The attribute parser accepts and refuses as specified, for quoted and bare values. |
| XmlParser.BuildText | src/tinyxml/tinyxmlparser.cc:1432-1480 | The text parser returns the text or CDATA node of the specification. |
| AttributeRing.PutIsUpdate | src/tinyxml/tinyxml.cc:745-764 | Setting an attribute is a map update that keeps names distinct and changes no other name's value. |
| AttributeRing.WithoutIsRemoval | src/tinyxml/tinyxml.cc:464-472 | Removing an attribute removes exactly that name. |
| AttributeRing.WalkIsCompleteExactly | src/tinyxml/tinyxml.cc:1162-1178 | A walk with First and Next visits every attribute if and only if none after the first is without name and value. |
| AttributeRing.AttributeSet.Add | src/tinyxml/tinyxml.cc:1526-1535 | The new attribute is linked before the sentinel; the ring stays circular and doubly linked with distinct names. |
| AttributeRing.AttributeSet.Remove | src/tinyxml/tinyxml.cc:1537-1553 | Exactly the given attribute leaves the ring, its links are cleared, and the order of the others stays. |
| AttributeRing.AttributeSet.Find | src/tinyxml/tinyxml.cc:1567-1577 | The search around the ring ends at the attribute with the name, or at the sentinel if there is none. |
| AttributeRing.AttributeSet.Walk | src/tinyxml/tinyxml.cc:1171-1178 | The First/Next loop visits what the walk specification says. |
| AttributeRing.AttributeSet.SetAttribute | src/tinyxml/tinyxml.cc:745-764 | Setting changes the value in place or adds a new attribute at the end. |
| AttributeRing.AttributeSet.RemoveAttribute | src/tinyxml/tinyxml.cc:464-472 | Removing by name removes the attribute with that name if there is one, and nothing else. |
| Dom.Node.LinkEndChild | src/tinyxml/tinyxml.cc:193-207 | The node becomes the last child; the list stays linked both ways between null ends with every child's parent this node. |
| Dom.Node.LinkBefore | src/tinyxml/tinyxml.cc:220-243 | The links of an insertion put the node right before the given child. |
| Dom.Node.LinkAfter | src/tinyxml/tinyxml.cc:246-269 | The links of an insertion put the node right after the given child. |
| Dom.Node.SwapIn | src/tinyxml/tinyxml.cc:272-297 | The links of a replacement put the node in the place of the given child. |
| Dom.Node.Unlink | src/tinyxml/tinyxml.cc:300-319 | The links of a removal take exactly the given child out of the list. |
| DomEdit.InsertBeforeChild | src/tinyxml/tinyxml.cc:220-243 | A copy of the given tree goes before the given child, on the list and in the value of the node; a child of another node is refused without a change; the forest stays well formed at every level. |
| DomEdit.InsertAfterChild | src/tinyxml/tinyxml.cc:246-269 | The same right after the given child. |
| DomEdit.InsertEndChild | src/tinyxml/tinyxml.cc:210-217 | A copy of the given tree becomes the last child. |
| DomEdit.ReplaceChild | src/tinyxml/tinyxml.cc:272-297 | A copy takes the child's place; the whole old subtree is freed, every node once, and nothing that remains refers to it. |
| DomEdit.RemoveChild | src/tinyxml/tinyxml.cc:300-319 | The child leaves the list and the value, its whole subtree is freed, every node once; the forest that remains is well formed. |
| DomEdit.Delete | src/tinyxml/tinyxml.cc:155-166 | The destructor frees every node of the subtree exactly once, children before parents, and nothing else. |
| DomEdit.SubtreesMeetNot | src/tinyxml/tinyxml.cc:155-166 | Subtrees of different children share no node, so no node is freed twice. |
| XmlText.CutAtNul | src/tinyxml/tinyxml.cc:169-173 | A copy through c_str() ends before the first NUL. |
| DomClone.Clone | src/tinyxml/tinyxml.cc:848-879 | A clone consists only of new nodes, nothing that existed changes, lists and rings are in order, and its value is the copy of the original's. |
| DomClone.CopyEqualsOriginalExactly | src/tinyxml/tinyxml.cc:169-173 | A copy equals the original if and only if no string holds a NUL and no attribute but the first lacks both name and value. |
| DomClone.CloneLeaf | src/tinyxml/tinyxml.cc:1361-1378 | Text and comment clones take over value and CDATA flag. |
| EndOfLine.NormaliseBuffer | src/tinyxml/tinyxml.cc:1029-1071 | The run-appending loop computes the byte-by-byte normalisation of section 2.11 of XML 1.0 on the content up to the first NUL. |
| EndOfLine.NormalisedHasNoCr | src/tinyxml/tinyxml.cc:1029-1071 | The result has no CR and is no longer than the input. |
| EndOfLine.NormalisedIsSameExactly | src/tinyxml/tinyxml.cc:1029-1071 | Exactly the texts without CR are left unchanged. |
| EndOfLine.NormalisingTwice | src/tinyxml/tinyxml.cc:1029-1071 | Normalising twice changes nothing more. |
| EndOfLine.BreaksAreAlike | src/tinyxml/tinyxml.cc:1045-1062 | CR LF, LF, and CR before another character all become one LF, whatever follows. |
| ThreadPool.Invariance | branches/zfs/src/thr_pool.cc:205-252 | Every atomic step of any caller or worker keeps the invariant: slots, calls, exclusive holding, owned locks, and accept duties. |
| ThreadPool.SignalsFindAWaiter | branches/zfs/src/thr_pool.cc:127-138 | In every interleaving, when execute_task signals, the slot's worker waits and the slot holds the caller's task. |
| ThreadPool.TasksRunOnce | branches/zfs/src/thr_pool.cc:17-37 | In every interleaving, each slot's tasks are posted, started once as posted, and over in turn; until then the slot still holds the task, and an unlocked slot has nothing left to run. |
| ThreadPool.PostedBySuccess | branches/zfs/src/thr_pool.cc:244-252 | A task enters a slot's history exactly when a call of assign_task succeeds with it on that slot. |
| ThreadPool.LocksAreOwnedOnce | branches/zfs/src/thr_pool.cc:205-252 | In every interleaving, the locked slots are exactly those with a task under way and those one call holds; no lock leaks and none has two owners. |
| ThreadPool.ScanKeepsOneLock | branches/zfs/src/thr_pool.cc:206-247 | At every exit of the scan, for all outcomes of the swaps and interleavings, the caller has locked exactly the slot it goes on with, or none, and fails only if every swap failed. |
| ThreadPool.SwapsReadLocks | branches/zfs/src/thr_pool.cc:206-234 | In every run, the swap of a call on a slot failed if and only if the slot was locked in the state in which it was tried. |
| ThreadPool.FreePoolAssigns | branches/zfs/src/thr_pool.cc:206-252 | From every reachable state with an unlocked slot, a launched task has a continuation of steps of its caller and of workers in which the call succeeds and a slot is signalled with the task. |
| ThreadPool.FreePoolRunsTask | branches/zfs/src/thr_pool.cc:18-39 | From there, steps of the worker start the task as it was posted, end it and unlock the slot. |
| ThreadPool.SessionHandsOn | branches/zfs/src/thr_server.cc:118-132 | From every reachable state with an unlocked slot, a worker about to accept can accept, post the next acceptance to another slot, and end with its own slot unlocked. |
| ThreadPool.RefusedAcceptsAgain | branches/zfs/src/thr_server.cc:268-303 | A session whose call was refused accepts for its server again. |
| ThreadPool.FullPoolRefuses | branches/zfs/src/thr_pool.cc:206-238 | From every reachable state with all slots locked, the steps of a call alone end in its refusal and leave the slots as they were. |
| ThreadPool.ScanSlots | branches/zfs/src/thr_pool.cc:211-242 | The scan loop keeps one lock or none, the first slot won with a thread, else the first slot won. |
| ThreadPool.OneAcceptor | branches/zfs/src/thr_server.cc:90-101 | In every interleaving, a server whose first task was not refused has exactly one acceptor, and any other server has none. |
| ThreadPool.AdvanceDuties | branches/zfs/src/thr_server.cc:269-304 | A step of assign_task moves the duty to accept to the signalled worker, loses it only when a server's first task is refused, and otherwise leaves it where it is. |
| ByteBuffer.Buffer.Append | branches/ziis/src/core/buffer.cc:149-171 | Appending reallocates and yields the old contents followed by the other buffer's. |
| ByteBuffer.Buffer.Resize | branches/ziis/src/core/buffer.cc:256-278 | Shrinking keeps a prefix, growing keeps all the old bytes. |
| ByteBuffer.Buffer.RemoveFront | branches/ziis/src/core/buffer.cc:355-375 | The shifting loop drops exactly the given number of bytes, or all. |
| LineReader.NothingIsLost | branches/ziis/src/core/utils_line.cc:67-134 | The complete lines with their CRLFs and the rest are the whole stream, and no line contains a CRLF. |
| LineReader.LinesConcat | branches/ziis/src/core/utils_line.cc:146-172 | Splitting can stop at any byte and go on with what is left, even between CR and LF. |
| LineReader.Line.SpecialCase | branches/ziis/src/core/utils_line.cc:45-65 | A CR pending and an LF arriving end the line: both disappear and the rest stays. |
| LineReader.Line.NormalCase | branches/ziis/src/core/utils_line.cc:67-134 | Pending and new bytes are cut at the leftmost CRLF of both together, or all become pending. |
| LineReader.Line.FromBuffer | branches/ziis/src/core/utils_line.cc:146-172 | The line before the leftmost CRLF of all unread bytes is served and what follows stays unread; too long is only ever reported with no line. |
| LineReader.Line.GetBytes | branches/ziis/src/core/utils_line.cc:175-195 | The bytes handed out are an exact prefix of the buffered ones, which lose exactly that prefix. |
| LineReader.Line.Reset | branches/ziis/src/core/utils_line.cc:198-202 | Reset forgets the partial line and keeps the buffered bytes. |
| LineReader.Drain | branches/ziis/src/core/utils_line.cc:45-172 | However a NUL-free stream is divided into packets, draining yields its leftmost-CRLF split and leaves what follows the last CRLF. |
| HttpHead.Http.Consume | branches/ziis/src/core/http.cc:45-105 | One packet takes the head, the decoder chosen for the body, the unread bytes and the verdict where reading all unread bytes at once takes them. |
| HttpHead.DecoderIsAnnounced | branches/ziis/src/core/http.cc:211-231 | The decoder is the chunked one exactly if the head announces chunked transfer, the plain one exactly if it announces only a positive length; looking headers up makes up none but empty ones. |
| HttpHead.Http.ReadStatusLine | branches/ziis/src/core/http.cc:135-167 | The request line is split, upper-cased, cut at '?' and decoded as specified; fewer than two fields are refused with status 400. |
| HttpHead.Http.ReadHeaderLine | branches/ziis/src/core/http.cc:169-194 | A header line is cut at its first ':', trimmed and lower-cased; without ':' or key it is refused with status 400. |
| HttpHead.Http.Reset | branches/ziis/src/core/http.cc:19-43 | Reset clears the head and keeps the bytes not looked at. |
| RequestLines.RequestLineIsStored | branches/ziis/src/core/http.cc:135-169 | For any verb, target, query and version, where query and version may be missing, reading the request line stores the upper-cased verb, the strings that target and query encode, and the version. |
| RequestLines.RequestLineRefusedExactly | branches/ziis/src/core/http.cc:135-144 | A request line is refused with status 400 if and only if no space in it comes after another character. |
| RequestLines.HeaderLineIsStored | branches/ziis/src/core/http.cc:171-193 | "Key: value" stores the value under the lower-cased key and changes nothing else. |
| RequestLines.HeaderLineRefusedExactly | branches/ziis/src/core/http.cc:171-199 | A header line is refused with status 400 if and only if it has no ":" or starts with one. |
| RequestLines.EmptyLineEndsHead | branches/ziis/src/core/http.cc:62-79 | The empty line after the headers ends the head with the decoder they announce and what the validation makes of it, with version "HTTP/1.1" if it is invalid. |
| RequestLines.ReadRequest | branches/ziis/src/core/http.cc:45-105 | A new reader given a request line and a header line holds the verb, path, query, version and header that they say. |
| HttpHead.Split | branches/ziis/src/core/zia_stringmanager.cc:4-42 | Splitting in place drops empty fields except the last. |
| HttpHead.ProcessConcat | branches/ziis/src/core/http.cc:54-102 | More bytes never change what was read; reading goes on with them. |
| HttpHead.PacketsDoNotMatter | branches/ziis/src/core/http.cc:45-105 | Two divisions of the same bytes that both end in their last packet leave the same head, verdict and remainder. |
| HttpHead.PacketsMatterExactly | branches/ziis/src/core/http.cc:88-100 | Whatever bytes reset left unread, all divisions of the next ones into one or more packets agree on verdict, head and remainder if and only if no complete line follows an empty first line. |
| HttpHead.EmptyFirstLineMatters | branches/ziis/src/core/http.cc:90-91 | With an empty first line in a packet of its own a request ends where in one packet it keeps waiting. |
| HttpHead.ReadMetadata | branches/ziis/src/core/thr_server.cc:134-180 | The receive loop over any script of packets and failures ends where the series of admitted packets ends, with no partial line pending after a finished or refused head, and gives up exactly if that series ends undecided before the script. |
| HttpHead.AdmittedIsLongest | branches/ziis/src/core/thr_server.cc:150-166 | The packets admitted stay within the cap on header bytes, and the next outcome is a failure or goes beyond the cap. |
| HttpHead.ReadOneHead | branches/ziis/src/core/http.cc:19-43 | After one head and reset, the next request starts with exactly the bytes the first left unread. |
| PercentDecoding.UnconvertHexa | branches/ziis/src/core/zia_stringmanager.cc:90-116 | The decoding loop replaces the string by its decoding, or fails and leaves it as it is. |
| PercentDecoding.HexToChar | branches/ziis/src/core/zia_stringmanager.cc:118-148 | The backwards digit sum in a wrapping int leaves the low byte of the positional value, for strings of any length; it fails exactly on a character that is no digit. |
| PercentDecoding.EncodingRoundTrip | branches/ziis/src/core/zia_stringmanager.cc:90-148 | Decoding inverts every percent-encoding (section 2.1 of RFC 3986) of a NUL-free string. |
| PercentDecoding.DecodesExactly | branches/ziis/src/core/zia_stringmanager.cc:90-148 | Decoding agrees with being an encoding, for all strings, if and only if the text has a bad escape or all its escapes are whole. |
| PercentDecoding.EveryStringHasAnEncoding | branches/ziis/src/core/zia_stringmanager.cc:90-148 | Every byte string has an encoding, with all bytes escaped. |
| PercentDecoding.CutEscape | branches/ziis/src/core/zia_stringmanager.cc:95-107 | An escape cut after one digit decodes to that digit's value although it encodes nothing. |
| PercentDecoding.BareEscape | branches/ziis/src/core/zia_stringmanager.cc:83-116 | A lone '%' at the end decodes to nothing. |
| PercentDecoding.ZeroEscape | branches/ziis/src/core/zia_stringmanager.cc:100-104 | An escaped NUL disappears. |
| ChunkedResponse.FlushNetwork | branches/zfs/src/resource_process.cc:71-102 | Exactly as many bytes go out as the sends of the script take before one fails, the others are left, and it succeeds if and only if that is all of them. |
| ChunkedResponse.HandleRequest | branches/zfs/src/thr_server.cc:202-266 | Over any outcomes of generate, the session sends the prescribed framing, or a proper prefix of it if and only if a send failed; it succeeds if and only if all the blocks went out; and no send fails when each takes a byte and there are as many as bytes. |
| ChunkedResponse.BlocksInOrder | branches/zfs/src/thr_server.cc:228-262 | The blocks generated go out in their order, whatever comes between them, up to the end. |
| ChunkedResponse.CreateHeader | branches/zfs/src/http_response.cc:105-126 | The header of a chunk closes the chunk before it, gives the size, and with the last chunk ends the body. |
| ChunkedResponse.HexIsHex | branches/zfs/src/http_response.cc:368-379 | The size written is a hexadecimal number whose value is the size. |
| ChunkedResponse.BodyDecodesExactly | branches/zfs/src/http_response.cc:368-379 | A body decodes (section 3.6.1 of RFC 2616) to its blocks joined, with nothing left over, if and only if no block is empty. |
| ChunkedResponse.WireIsBody | branches/zfs/src/thr_server.cc:230-264 | With at least one block a session sends the head and a body; with none it sends only the end of a chunk and the last chunk. |
| ChunkedResponse.ServeChunked | branches/zfs/src/thr_server.cc:202-266 | For every script that does not fail, which a script with as many sends of at least a byte as there are bytes does not, the wire is the head and a body that decodes to the blocks joined, if and only if no block is empty. |
| IoSelect.IoSelect.Search | branches/ziahttpd-mod/src/server/ioselect.cc:461-484 | The search bounded by the count of used slots stays in the array, and finds a handle exactly if a used slot has it, in the first such slot. |
| IoSelect.IoSelect.Register | branches/ziahttpd-mod/src/server/ioselect.cc:99-139 | The first free slot takes the handle, or all slots are used; count and highest handle stay right. |
| IoSelect.IoSelect.Release | branches/ziahttpd-mod/src/server/ioselect.cc:428-443 | A used slot is given up; count and highest handle stay right, although the handle compared is the one left in the slot. |
| IoSelect.IoSelect.Unregister | branches/ziahttpd-mod/src/server/ioselect.cc:142-157 | The first used slot with the handle is given up, or there is none and nothing changes. |
| IoSelect.IoSelect.FindHighest | branches/ziahttpd-mod/src/server/ioselect.cc:524-549 | The bounded loop computes the highest handle in use, 0 if none is higher, and tells whether any slot is used. |
| IoSelect.IoSelect.PrepareEvents | branches/ziahttpd-mod/src/server/ioselect.cc:170-212 | The bounded loop collects exactly the handles of used slots that wait to read or write. |
| IoSelect.CountGrows | branches/ziahttpd-mod/src/server/ioselect.cc:461-484 | As long as fewer used slots were seen than are counted, one lies ahead in the array. |
| IoSelect.HighestIs | branches/ziahttpd-mod/src/server/ioselect.cc:524-549 | The highest handle bounds all handles in use and is one of them unless it is 0. |
| ConfManager.ConfManager.Load | src/confmanager/ConfManager.cc:39-62 | Load lists the file and walks it when it can be read; the result and the whole state are those of the recursive definition, from any state. |
| ConfManager.ConfManager.DumpToMemory | src/confmanager/ConfManager.cc:397-433 | The walk over a container, with its dispatch on six containers, leaves the list of files, the variables and the lists that the recursive definition gives; it ends because the unread files shrink, then the tree. |
| ConfManager.ConfManager.ManageInclude | src/confmanager/ConfManager.cc:213-234 | A file is loaded unless the search finds it in the list. |
| ConfManager.ConfManager.GetValues | src/confmanager/ConfManager.cc:64-97 | The recursion over first children fills its two references and stores values on the way out as the definition on values does. |
| ConfManager.ConfManager.ManageList | src/confmanager/ConfManager.cc:249-278 | The loop over the "add" elements, whose two values stay from turn to turn, extends the list in front or at the end. |
| ConfManager.ConfManager.ManageDel | src/confmanager/ConfManager.cc:370-395 | The variable and the list go, or the list loses the item at the given position; erasing past its end is undefined. |
| ConfManager.ConfManager.ManageEval | src/confmanager/ConfManager.cc:280-368 | The last branch of the kind that the headers come out at is walked, the one for false also when a branch for true is missing. |
| ConfManager.ConfManager.ScanHeader | src/confmanager/ConfManager.cc:302-351 | The loop over expressions and operators in turn comes to the value of the header, or meets an expression without a child. |
| ConfManager.HeaderIsDefinedExactly | src/confmanager/ConfManager.cc:302-351 | A header can be evaluated, whatever the variables hold, if and only if no expression it comes to in turn lacks a child; texts and comments named like one count. |
| ConfManager.EvalIsDefinedExactly | src/confmanager/ConfManager.cc:296-361 | The same for all the headers of an eval element. |
| ConfManager.HeaderOfOneOperator | src/confmanager/ConfManager.cc:302-351 | A header joined by "and" holds if and only if all its expressions hold; joined by "or", if and only if one does. |
| ConfElements.EvalRuns | src/confmanager/ConfManager.cc:280-368 | An eval element runs the last branch for true if and only if its header, taken from left to right, holds and there is one, else the last branch for false; an expression holds if it asks for equality of two variables with the same value, or for difference of two with different ones. |
| ConfElements.HeaderIsLeftFold | src/confmanager/ConfManager.cc:302-351 | A header is taken together from left to right with "or" and "and", up to the first child out of turn. |
| ConfElements.NoHeaderRunsFalse | src/confmanager/ConfManager.cc:280-368 | An eval element without a header runs the branch for false. |
| ConfElements.NamesIgnoreCase | src/confmanager/ConfManager.cc:131-158 | Names without NUL are the same if and only if they differ in the case of letters at most. |
| ConfElements.FirstWithNameIsFound | src/confmanager/ConfManager.cc:99-129 | The first attribute with the name is the one looked up. |
| ConfElements.ContainersAre | src/confmanager/ConfManager.cc:21-37 | The table leads from the six names to the six containers. |
| ConfElements.IncludeLoads | src/confmanager/ConfManager.cc:213-234 | An include element loads its file unless the file is listed. |
| ConfElements.FilesMustBeTexts | src/confmanager/ConfManager.cc:203-234 | An include or a requirement without a text as its first child changes nothing; the requirement, and the include with another child, are undefined. |
| ConfElements.VarSets | src/confmanager/ConfManager.cc:236-247 | A variable with a text that is not empty gets that text, and nothing else changes. |
| ConfElements.LaterVarStays | src/confmanager/ConfManager.cc:397-433 | Of two variables of one name the later one stays. |
| ConfElements.ListAppends | src/confmanager/ConfManager.cc:249-278 | Texts to add go behind the list in their order, and nothing else changes. |
| ConfElements.ListPrepends | src/confmanager/ConfManager.cc:249-278 | Another list to add goes in front. |
| ConfElements.DelRemoves | src/confmanager/ConfManager.cc:370-395 | Deleting by name removes the variable and the list of that name, and nothing else. |
| ConfElements.DelTakesItem | src/confmanager/ConfManager.cc:370-395 | Deleting the item at a position counted from 1 takes away that item; 0 counts as 1, and a position behind the end is undefined. |
| ConfManager.LoadLists | src/confmanager/ConfManager.cc:39-62 | Whatever includes what and whatever was loaded before, files not yet listed are listed once each, each asked for by one before it, and all the includes at the top of the new files get listed. |
| ConfManager.LoadGoesThrough | src/confmanager/ConfManager.cc:39-62 | If nothing unsound stands in the files, loading never does anything undefined. |
| ConfManager.LoadStaysWithin | src/confmanager/ConfManager.cc:397-433 | Loading changes variables and lists only under names that stand in the files it has listed. |
| ConfManager.ValuesStayWithin | src/confmanager/ConfManager.cc:64-97 | GetValues stores under names it meets only, never makes a variable empty, and adds to lists in front only. |
| ConfManager.ChainTakesOneValue | src/confmanager/ConfManager.cc:64-97 | Nested variables take the first value found from the inside out; a text that is not empty goes to every one of them. |
| ConfManager.ConfManager.Reload | src/confmanager/ConfManager.cc:454-470 | A second load into the same manager clears variables and lists but not the list of files: only files not loaded before are read, and the root again. |
| ConfManager.LoadConfiguration | src/confmanager/ConfManager.cc:39-62 | One load ends whatever includes what, lists the root first and no file twice, each other file on request of an earlier one, and all includes at the top of every file; only names in the files listed have values. |

## Left out

- Error numbers, error locations and `SetError`: a failed parse is a null result.
- XML declarations and unknown tags: the parser model stops with `Unmodelled` where `Identify` would choose them.
- UTF-8 mode in the tree round trip, byte order marks and encoding detection: trees are read in the single-byte encodings.
- `Print` with indentation, `StreamIn`, doubles and tab stamping: not made to round-trip.
- DomEdit.InsertBeforeChild: does not take a document node as the tree to insert, because a value has no documents inside; `TiXmlDocument::Clone` is not modelled.
- DomEdit.InsertAfterChild: does not take a document node as the tree to insert, for the same reason.
- DomEdit.InsertEndChild: does not take a document node to insert, nor a text or comment node to insert under, because values of texts have no children.
- DomEdit.ReplaceChild: does not take a document node as the replacement, for the same reason.
- `Attribute` lookups, handles and iteration helpers: they only read single links.
- `thr_done`, `release_slot`, the time-out reaper and failed thread creation: outside the hand-off protocol.
- `sess_bind_server`, receiving and answering inside a session: a session is the steps that concern accepting.
- `request_header_validation`: any function of the parsed head, passed to `Consume` as a parameter.
- `consume_body` and the decoders themselves: the head ends with the choice of one.
- HttpHead.ReadMetadata: its packets may have any size, so the receive buffer of 512 bytes is not modelled; a peer that has closed is a series of empty packets.
- `unchunked` responses, the response head's lines, and input fed to a resource: the head is any string.
- The branch of `consume` for a line that is too long: it is dead, because the reader reports such a line only without serving one.
- `handle_events`, and the callbacks and buffers of a slot: how often its loop turns depends on `select`.
- Numbers outside the range of `int` in `atoi`, which the C library leaves undefined.
- The messages of `Load`, and what the server does with the values.
- The older copies of these algorithms in other branches.
