# A verified model of the DMARC report server

The repository is a small SMTP sink. Workers collect mail from connections and put it on a queue in
a mapped file; a handler takes the mails off the queue, checks their DKIM signatures and turns the
reports in them into JSON. This project models the parts of it that are algorithms and proves what
they are for. A class or a method over arrays stands for the C code, in the form the code has; each
method is proved against a function over sequences, and the theorems are about those functions.

| file | what it models |
|---|---|
| `CString.dfy`, `Wrappers.dfy` | NUL-terminated buffers; optional values |
| `HeaderCanon.dfy` | relaxed header canonicalisation: in-place unfold, collapse and trim passes |
| `BodyCanon.dfy` | relaxed body canonicalisation and its output bound |
| `RfcBody.dfy`, `BodyCanonRfc.dfy` | section 3.4.4 of RFC 4871 as the code's comments read it, written independently of the code, and how the code relates to it |
| `HeaderWrap.dfy` | the word wrapper applied to a signed header |
| `HeaderFold.dfy` | what the mail parser's unfolding does to a value before it is canonicalised |
| `TagList.dfy` | the tag-list scanner for DKIM-Signature values |
| `RingQueue.dfy`, `QueueRuns.dfy`, `QueueFile.dfy` | the persistent ring, its operations as interleaved micro-steps under a semaphore, and the file across reopenings |
| `Cache.dfy` | the 256-way trie over reversed keys, on heap nodes |
| `DataPhase.dfy`, `Commands.dfy` | the SMTP command and DATA collector, and the conversations it holds |
| `MailParser.dfy`, `Request.dfy` | the header parser, and the request object that collects and parses |
| `Connection.dfy` | the connection status machine, up to the mail that reaches the queue |
| `Base64.dfy` | the base64 decoder, against section 4 of RFC 4648 |
| `JsonPrinter.dfy`, `JsonReader.dfy`, `JsonRoundTrip.dfy` | the XML-to-JSON printer, a reader for RFC 8259 strings, objects and arrays, and what the reader makes of the output |

## Where the code falls short of the plain statement

Each of these has an exact condition, proved in both directions unless the item says otherwise.

- The canonical body equals that of section 3.4.4 of RFC 4871, as the code's comments read it (a bare LF
  ends a line, a body with nothing left is one CRLF), exactly when the last line with ink does not end
  in a bare CR, and a second pass changes nothing exactly when the last solid line has no space or tab
  before its trailing bare CRs. Both hold on every body in which each CR is followed by LF.
- Canonicalising a header value twice changes nothing exactly when deleting its CRLFs once leaves
  no CRLF behind.
- Wrapping keeps the canonical form of a CR-free value exactly when no forced break at column 76
  splits a word. It fits the buffer the wrapper allocates exactly when three times the number of spaces
  plus full 76-character stretches between them is at most twice the length; a single space does not.
- The mail parser drops a fold together with its space or tab. The canonical form of the value survives
  exactly when the fold stands at an end of the value or beside other space or tab; otherwise it joins
  two words.
- The header round trip is exact, up to dropping the spaces and NULs of keys and the NULs of values and
  cutting both to their buffers, if and only if what follows the blank line does not start with a space or
  tab. A mail with more than 20 headers writes past the header buffers. A line without a colon counts as a
  header, whose key and value keep what was in memory (`MailParser.LineWithoutColon`, in one direction).
- A line of commands gets the answer to its command and nothing else exactly when no other command starts
  inside it, so `MAIL FROM:<QUIT>` ends the session.
- A message of headers, a blank line and any rest is handled as defined exactly when there are at most 20
  headers and the terminator does not start with the blank line itself. It does in a message with an empty
  body, such as `k: v`, a blank line and the dot: the blank line is lost, the parser finds no body, and a
  byte is copied from a null pointer.
- A worker puts a connection it has started straight into reading, so the greeting is never sent:
  `Connection.NeverGreets`, which has no exception.
- A send that takes fewer bytes than it is given loses the rest of its chunk; the reply goes out complete
  exactly when none does.
- The printed JSON denotes the tree exactly when every element printed with a sole child has clean text
  (no quote and no control character but tab, CR and LF) as that child, or an empty comment, every
  element with more children has an element among them, and all character data that stands beside other
  nodes is blank wherever elements are printed. A sole child element is flattened, so `<a><b>x</b></a>`
  prints like `<a>x</a>`; text split by a comment is lost, and so is text beside an element, which is why
  `<a>hello<b/></a>` and `<a>bye<b/></a>` print alike. This holds for trees in
  which no comment that is a sole child starts with a quote; two such comments can spell out the nesting
  that is lost, as `JsonRoundTrip.CommentsConspire` shows. The whole report, put between braces, denotes
  its sections and records exactly when, besides, no metadata section follows another section; without
  braces, as it is posted, it is no JSON text at all.
- A `pq_init` by a process that joins a running queue is safe exactly when no process is inside an
  operation at that moment.
- Opening the queue file succeeds exactly when the caller's count is the stored one and not zero, so a
  queue of no slots can be created but never opened again; and the opening branch then asks for a mapping
  that covers every slot except the last.
- Keys of the trie that differ only in characters from 128 up are one key. `cache_get` dereferences null
  exactly when the key is not a suffix of an added one. `cache_free` frees a value exactly when it is the
  current value of some key, and twice exactly when it is that of two; an overwritten value is leaked.
- The base64 decoder stays inside its buffers exactly when the length is a positive multiple of four
  covered by the full groups of the text and three cells for every four characters and one more are there,
  or when there are three characters or more behind those groups, for it to stop at, and three cells for
  each group and three more are there (`Base64.SafeIff`). One full group with a length of 8 or of 5 makes it
  read past the NUL (`Base64.LengthTooLong`). Encoded text is safe.

## Model

| member | source | states |
|---|---|---|
| HeaderCanon.UnfoldInPlace | firm-dkim-extended/firm-dkim.c:603-620 | the in-place pass leaves the value with every CRLF deleted once, left to right, although it reads one cell ahead of the array it compacts |
| HeaderCanon.CollapseInPlace | firm-dkim-extended/firm-dkim.c:625-644 | the in-place pass turns every run of space and tab into one space, although it looks back into the array it compacts |
| HeaderCanon.RTrimInPlace | firm-dkim-extended/firm-dkim.c:788-805 | overwriting trailing space and tab with NUL leaves the right-trimmed string |
| HeaderCanon.LTrimCopy | firm-dkim-extended/firm-dkim.c:809-828 | a fresh copy of the string from its first character that is not space or tab |
| HeaderCanon.CanonicalValue | firm-dkim-extended/firm-dkim.c:603-654 | the four passes together give the words of the unfolded value joined by single spaces |
| HeaderCanon.LowerInPlace | firm-dkim-extended/firm-dkim.c:588-596 | the key with each capital turned into the letter at the same place of the small alphabet and every other character as it was |
| HeaderCanon.RelaxedHeaderCanon | firm-dkim-extended/firm-dkim.c:569-657 | fresh copies of all headers, in order, each the relaxed form of its original, with no capital left in a key |
| HeaderCanon.RelaxedAlikeIff | firm-dkim-extended/firm-dkim.c:569-657 | two headers have the same relaxed form exactly if their keys differ in the case of letters only and their values, unfolded, have the same words |
| HeaderCanon.TrimmedSqueezeIsWords | firm-dkim-extended/firm-dkim.c:622-654 | collapsing and trimming a text amounts to joining its maximal runs of other characters by single spaces |
| HeaderCanon.WordsOfJoin | firm-dkim-extended/firm-dkim.c:622-654 | words joined by single spaces have exactly those words |
| HeaderCanon.SameCanonIffSameWords | firm-dkim-extended/firm-dkim.c:598-654 | two values canonicalise alike exactly when, unfolded, they have the same words |
| HeaderCanon.IdempotentIff | firm-dkim-extended/firm-dkim.c:598-654 | canonicalising twice changes nothing exactly when the first unfolding leaves no CRLF |
| HeaderCanon.IdempotentOnFoldedValues | firm-dkim-extended/firm-dkim.c:598-654 | it is idempotent on every value in which each CR is followed by LF |
| HeaderCanon.NestedCrlfIsNotIdempotent | firm-dkim-extended/firm-dkim.c:603-620 | CR CR LF LF canonicalises to CRLF and that to nothing |
| BodyCanon.CanonLineInPlace | firm-dkim-extended/firm-dkim.c:733-763 | a line right-trimmed and its runs of space and tab collapsed, in place |
| BodyCanon.StripInPlace | firm-dkim-extended/firm-dkim.c:767-784 | the text without its trailing CRs and LFs |
| BodyCanon.EndLine | firm-dkim-extended/firm-dkim.c:670-697 | at an LF, stepping back over a CR and forward again, the line without its CRLF is emitted in canonical form, growing the output by at most the line and two bytes |
| BodyCanon.EmitLines | firm-dkim-extended/firm-dkim.c:669-698 | the splitting loop emits exactly the lines up to the last LF, and the output stays within twice the offset |
| BodyCanon.RelaxedBodyCanon | firm-dkim-extended/firm-dkim.c:661-729 | for every body, bare CRs included, the result is the canonical text and every write falls into the `2n + 3` cells allocated |
| BodyCanonRfc.RelaxedBodyByLines | firm-dkim-extended/firm-dkim.c:669-763 | lines read off from the front, each reduced by its words, empty ones dropped from the end: the standard in those terms has the lines and the line reduction of the code |
| BodyCanonRfc.AgreesWithRfcIff | firm-dkim-extended/firm-dkim.c:661-784 | the code's result is that of RFC 4871 section 3.4.4, as the code's comments read it and written independently of the code, exactly when the last inked line does not end in a bare CR |
| BodyCanonRfc.AgreesOnCrlfBodies | firm-dkim-extended/firm-dkim.c:661-784 | it is that of the RFC, in the same reading, on every body in which each CR is followed by LF |
| BodyCanonRfc.IdempotentIff | firm-dkim-extended/firm-dkim.c:661-784 | a second pass changes nothing exactly when no space or tab stands before the trailing bare CRs of the last solid line |
| BodyCanonRfc.IdempotentOnCrlfBodies | firm-dkim-extended/firm-dkim.c:661-784 | it is idempotent on every body in which each CR is followed by LF |
| BodyCanonRfc.LinesOfOutput | firm-dkim-extended/firm-dkim.c:669-713 | the text emitted for some lines splits into their canonical forms again |
| BodyCanonRfc.BareCrBreaksAgreement | firm-dkim-extended/firm-dkim.c:715-726 | on `a`, space, CR the code drops the CR that the RFC keeps |
| BodyCanonRfc.BareCrBreaksIdempotence | firm-dkim-extended/firm-dkim.c:661-729 | and a second pass over that result drops the space too |
| HeaderWrap.Wrap | firm-dkim-extended/firm-dkim.c:832-855 | the wrapped text, unless it does not fit the `3n + 1` cells allocated, which is reported exactly then |
| HeaderWrap.FoldsCounted | firm-dkim-extended/firm-dkim.c:838-849 | there is one fold for each space and one for each 76 characters of a run between spaces |
| HeaderWrap.WrappedFitsIff | firm-dkim-extended/firm-dkim.c:833-851 | the output and its NUL fit exactly when three times that number is at most twice the length |
| HeaderWrap.ManySpacesOverrun | firm-dkim-extended/firm-dkim.c:833-851 | a single space overruns the allocation, and so does any value that is more than two thirds spaces |
| HeaderWrap.WrapKeepsCanonIff | firm-dkim-extended/firm-dkim.c:832-855 | wrapping keeps the canonical form of a CR-free value exactly when no forced break splits a word |
| HeaderWrap.WrapKeepsCanon | firm-dkim-extended/firm-dkim.c:838-849 | in particular when no 77 characters in a row are free of spaces |
| HeaderWrap.LongWordChanges | firm-dkim-extended/firm-dkim.c:838-849 | 76 is exact: a value with 77 characters other than space and tab in a row, wherever they stand, changes |
| HeaderFold.DroppedFoldKeepsCanonIff | src/request.c:147-150 | dropping a fold with its space or tab keeps the canonical form exactly if the fold stands at an end of the value or beside other space or tab |
| HeaderFold.FoldedHeaderSignedAlikeIff | src/request.c:104-187 | so the parsed value of a folded printed header that fits its buffer has the canonical form of the folded text exactly if no two words meet at the fold |
| TagList.FindTag | firm-dkim-extended/firm-dkim.c:308-341 | the buffer by name for each of the eight tag names that may stand at a position, none for anything else, and how far to skip |
| TagList.InValue | firm-dkim-extended/firm-dkim.c:293-306 | one character of a value ends it, is ignored, or is stored while there is room |
| TagList.ParseHeader | firm-dkim-extended/firm-dkim.c:279-351 | after the scan each of the eight buffers, by name and of 1024 cells, holds NUL-terminated the value the scanner records for its tag |
| TagList.TagsOfList | firm-dkim-extended/firm-dkim.c:292-343 | from a printed list each value is recovered without space and tab and cut to 1023 characters; the quiet text between tags disturbs nothing |
| TagList.TagsOfOpenList | firm-dkim-extended/firm-dkim.c:292-348 | the same for a list whose last tag has no semicolon |
| TagList.UnknownTextIsQuiet | firm-dkim-extended/firm-dkim.c:308-341 | text that contains no known name with its equals sign is quiet, except a `b` directly before `h=` |
| TagList.RecordDistinct | firm-dkim-extended/firm-dkim.c:292-348 | with distinct tags, what is recorded is exactly the set of tags with their values |
| TagList.OrderDoesNotMatter | firm-dkim-extended/firm-dkim.c:292-348 | two lists with the same distinct tags and values, in any order, with any quiet text between, and with or without a last semicolon, are read alike |
| RingQueue.PqRef.constructor | src/lib-pq/persisted_queue.c:88-96 | a created ring has the count asked for and holds the empty queue |
| RingQueue.PqRef.Enqueue | src/lib-pq/persisted_queue.c:148-174 | by itself, an enqueue appends the mail to the queue the ring holds, or reports it full and changes nothing |
| RingQueue.PqRef.Dequeue | src/lib-pq/persisted_queue.c:176-201 | by itself, a dequeue takes the oldest mail, or reports the queue empty and changes nothing |
| QueueRuns.EnqueueStep | src/lib-pq/persisted_queue.c:157-166 | every micro-step of an enqueue keeps the relation between ring and queue that belongs to its place in the code |
| QueueRuns.DequeueStep | src/lib-pq/persisted_queue.c:185-194 | the same for a dequeue |
| QueueRuns.StepKeepsInv | src/lib-pq/persisted_queue.c:148-201 | every step of any process keeps the invariant, and a post shows the outcome a bounded FIFO gives at that moment |
| QueueRuns.MutualExclusion | src/lib-pq/persisted_queue.c:17-47 | in every run of any number of processes, with any later `pq_init`s that come while no process is inside, at most one is between its wait and its post |
| QueueRuns.RunsRefineFifo | src/lib-pq/persisted_queue.c:148-201 | every such run shows the outcomes of one bounded FIFO, and whenever no process is inside, the ring holds exactly its contents, in the `message_count` slots from `read_offset` on |
| QueueRuns.DequeuesArePrefixOfEnqueues | src/lib-pq/persisted_queue.c:148-201 | the mails returned are a prefix of those at the start and those accepted, and the queue is what is left |
| QueueRuns.RefusedOnlyAtTheBounds | src/lib-pq/persisted_queue.c:148-201 | in counts alone: an enqueue is refused exactly if the mails accepted and not returned fill the slots, and a dequeue comes back empty exactly if there are none |
| QueueRuns.NoDeadlock | src/lib-pq/persisted_queue.c:25-47 | in every reachable state with a process inside an operation, one of them can go on |
| QueueRuns.LateInitIsSafeIff | src/lib-pq/persisted_queue.c:110-121 | one more `pq_init` is safe exactly when no process is inside: then no run that goes on from it has two processes inside, and otherwise one does |
| QueueRuns.LateInitBreaksExclusion | src/lib-pq/persisted_queue.c:110-121 | from any start, a run in which a process joins late reaches a state with two processes inside |
| QueueFile.OpenSucceedsIff | src/lib-pq/persisted_queue.c:49-75 | for every `int` count, opening an existing file gives -1005 unless the count is the stored one, -1003 if that is zero, and else succeeds, and leaves the file as it is |
| QueueFile.EmptyQueueFileIsOpenedOnce | src/lib-pq/persisted_queue.c:49-92 | a file created with count 0 is opened by no later call, whatever its count |
| QueueFile.MappedSlots | src/lib-pq/persisted_queue.c:62-88 | the creating branch maps every slot; the length the opening branch asks for covers every slot but the last |
| QueueFile.ReopenKeepsQueue | src/lib-pq/persisted_queue.c:77-125 | over any history of sessions and clean reopenings of an existing file the queue is that of one FIFO and every session used the stored count |
| QueueFile.HistoriesRefineFifo | src/lib-pq/persisted_queue.c:77-125 | the same from the creation of the file on: nothing is lost, repeated or reordered |
| Cache.Slot | src/cache.c:52 | a character is its own slot below 128, and slot 255 from there up |
| Cache.Trie.constructor | src/cache.c:9-21 | an empty trie with a root table of 256 null entries |
| Cache.Trie.Attach | src/cache.c:70-74 | hanging a new node into an empty entry keeps the graph a tree and adds just that node |
| Cache.Trie.WalkDown | src/cache.c:50-79 | the walk creates exactly the missing nodes, without values, and ends at the node of the key |
| Cache.Trie.Add | src/cache.c:50-85 | the trie stays a tree that agrees with the list of all additions, to which this one is appended |
| Cache.Trie.GetExists | src/cache.c:100-115 | the value last added under a key with the same folded characters, or null |
| Cache.Trie.Get | src/cache.c:89-98 | the same without null tests: a fault exactly for a key whose walk does not exist |
| Cache.Trie.Exists | src/cache.c:129-144 | 0 exactly when the query is, up to folding, a suffix of an added key |
| Cache.Trie.FreeNodes | src/cache.c:161-176 | a node is freed after everything below it, each once |
| Cache.Trie.Free | src/cache.c:147-158 | freeing ends, reaches exactly the nodes on walks of added keys, whatever is below a node before the node, and none of them or of their tables twice; a value is freed exactly if it is current for some key, and twice exactly if it is for two |
| Cache.SharedValueIsCurrentTwice | src/cache.c:169-171 | one value added under two keys that fold differently is freed twice |
| Cache.OverwrittenValueIsNotCurrent | src/cache.c:82 | a value that was overwritten is never freed |
| Cache.SomeWalkIsSuffix | src/cache.c:129-144 | a walk exists exactly when its key, folded, is a suffix of an added one |
| Cache.SamePathIffSameFold | src/cache.c:52-77 | two keys end at the same node exactly when they fold alike |
| Cache.AsciiTrieIsMap | src/cache.c:50-115 | on ASCII keys a lookup gives what the finite map of all additions gives |
| Cache.HighCharsCollide | src/cache.c:52 | two keys of one character each from 128 up are the same key |
| DataPhase.ChunksDoNotMatter | src/request.c:61-93 | however the bytes up to the end of the message are cut into reads, stored bytes, flags, reply and error are those of one read |
| DataPhase.EndsAtFirstTerminator | src/request.c:75-87 | a message that ends at its first CRLF.CRLF is stored byte for byte, with a NUL where the terminator starts, and sets process and quit |
| DataPhase.StoresEveryByte | src/request.c:75-80 | before the first terminator, and within the limit, every byte is stored as it came and the phase goes on |
| DataPhase.TooBigIsAnError | src/request.c:89-93 | a message that reaches the limit first is refused, with the bytes stored so far |
| DataPhase.ReplyOnlyGrows | src/request.c:42-59 | what was already said stays at the front of the reply and changes nothing else |
| Commands.LineIsAnsweredIff | src/request.c:41-60 | one line outside the DATA phase gets the answer to its command, 221 with a quit for QUIT and 250 for EHLO, MAIL FROM and RCPT TO, none if it is no command, and nothing else happens, exactly if no command starts in the rest of the line |
| Commands.LinesAreAnswered | src/request.c:36-60 | any number of such lines in one read are answered in their order |
| Commands.ConversationIsAnswered | src/request.c:28-102 | a whole conversation in one read, lines, DATA, a message up to its first terminator, and more lines: the message is stored and the answers come in order |
| Request.Request.Reserve | src/request.c:62-73 | growing the buffer keeps the stored bytes and leaves room for the next |
| Request.Request.StoreByte | src/request.c:61-93 | one byte of the DATA phase, with every write inside the buffer, does what the collector's specification says |
| Request.Request.ReadCommand | src/request.c:41-60 | one position outside the DATA phase: the reply, the flags and the bytes skipped |
| Request.Request.ParseCommands | src/request.c:28-102 | a whole read buffer takes the request to the state the specification gives for those bytes |
| Request.Request.ParseStep | src/request.c:122-174 | one turn of the parser's loop on the header buffers is one step of its specification |
| Request.Request.ParseData | src/request.c:104-187 | the header buffers, the count and the body are those of the specification's run over the stored bytes |
| MailParser.RoundTrip | src/request.c:104-187 | parsing 1 to 20 printed headers, with any characters but colon and CR in a key and CR in a value, any character behind the colon and behind the CR, a blank line and a rest gives the keys without spaces and NULs and the values without NULs, cut to 127 and 1023 characters, and that rest, if and only if the rest does not start with space or tab; otherwise that character and the last header are lost |
| MailParser.TooManyHeadersOverrun | src/request.c:142-171 | with more than 20 printed headers, whatever follows them, the parser comes to write to a header buffer it does not have |
| MailParser.LostBlankLine | src/request.c:83-187 | headers whose blank line runs into the terminator are parsed as exactly one header more and no body; with 20 of them the parser overruns |
| MailParser.FoldingIsInvisible | src/request.c:147-150 | in any message, inserting CRLF and one space or tab where the parser is inside a header value, or inside a key but not directly behind a CRLF, changes neither the headers nor the body |
| MailParser.FoldedMailParsesAlike | src/request.c:142-173 | in a printed mail those places are all the places in all the values, from the one after the skipped character on |
| MailParser.FoldedKeyParsesAlike | src/request.c:142-173 | and so are the places inside the keys |
| MailParser.LineWithoutColon | src/request.c:152-173 | a line without a colon counts as a header: its characters overwrite the start of a key that is not ended, and the value is ended at the same place |
| Connection.Connection.Start | src/connection.c:25-34 | a started connection with a new request and an empty response |
| Connection.Connection.Reset | src/connection.c:208-230 | an inactive connection without request, response or read buffer |
| Connection.Connection.Renew | src/connection.c:158-182 | after a successful write the request survives exactly while the DATA phase lasts |
| Connection.SoundIff | src/connection.c:78-107 | a message of printed headers of any length, a blank line and any rest is defined exactly if there are at most 20 headers and the terminator does not start with the blank line |
| Connection.CompletedIsSoundIff | src/connection.c:36-206 | the same for the message a session completes, however the network cuts it |
| Connection.BlankLineAndDot | src/connection.c:87-89 | one header, the blank line and the dot are such an undefined message |
| Connection.Connection.Complete | src/connection.c:78-112 | a completed message becomes a mail with its headers and body, no mail if it has no headers, or a fault exactly where the source is undefined |
| Connection.Connection.Greet | src/connection.c:41-50 | a connection that was just started gets `220`, the host name, `SMTP`, the server name and CRLF ready |
| Connection.Connection.Prepare | src/connection.c:41-122 | everything before the writing part: the response and the request stand ready as the specification says, or the connection goes on reading or ends |
| Connection.Connection.Respond | src/connection.c:124-183 | the response goes out and the connection goes on with the request the specification gives, or closes |
| Connection.Connection.Finish | src/connection.c:185-203 | an error, a closed and an inactive connection end up reset, any other is left as it is |
| Connection.Connection.Handle | src/connection.c:36-206 | one event takes the connection, one closed by a hang-up included, to the next state of the specification, queues what the completed message amounts to, and sends the reply; a refused send or a failed read leaves it inactive with nothing left, and without one it goes on reading unless the request quits |
| Connection.SendReply | src/connection.c:125-156 | the reply is sent in one piece or in chunks; it succeeds exactly when no send is refused, and then it goes out complete exactly when no send takes too little |
| Connection.ChunksCover | src/connection.c:127-155 | the chunks a reply is sent in are full but for the last, which is not longer, and together they are the whole reply |
| Connection.NextIsSettled | src/connection.c:36-206 | every call leaves the connection reading or inactive, and a call that completes a message leaves it inactive |
| Connection.AtMostOneMessage | src/connection.c:36-206 | a session completes at most one message, whatever it reads and whenever the other end hangs up, and is over when it has |
| Connection.HangUpEnds | src/worker.c:129-140 | a hang-up ends the session and completes nothing |
| Connection.CallEndsIff | src/connection.c:36-206 | a call ends the session exactly if there is a hang-up, nothing can be read, or what was read grows too big, asks to quit or is not answered because a send is refused; otherwise it goes on reading |
| Connection.EndsAtRefusal | src/connection.c:124-203 | a session ends with the first call that has a send refused, and what would come after it plays no part |
| Connection.LinesAreServed | src/connection.c:36-206 | lines of commands in one read outside the DATA phase are answered in order, and the session goes on with a new request unless one of them is QUIT |
| Connection.ProcessComesWithQuit | src/request.c:80-87 | process is only ever set together with quit |
| Connection.DataCommandBegins | src/worker.c:133-140 | an inactive connection that is sent `DATA` is started and begins the DATA phase of an empty message |
| Connection.ServeIsFeedChunks | src/connection.c:158-182 | the connection carries the request from read to read just as the chunked specification does |
| Connection.ServeSnoc | src/worker.c:118-142 | a session that is not over goes on with one more event: its state is the next one and its messages get the one completed, if any |
| Connection.NeverGreets | src/worker.c:133-140 | no call of a session finds its connection just started, and none replies with the greeting |
| Connection.MailIsDelivered | src/connection.c:36-206 | however the network cuts a printed mail into reads, one message is completed, the session ends, and what is queued is a mail that carries exactly the headers sent, cut to their buffers, and the body, or an empty one from 7995 characters on; a body that starts with space or tab loses that character and the last header, and there is no mail without headers |
| Connection.SessionDelivers | src/connection.c:36-206 | the same for a whole session from an inactive connection: any number of reads with lines of commands, DATA, and the mail |
| Connection.HandleEvent | src/worker.c:129-140 | one event as a worker handles it, hang-ups included, takes the connection to the next state of the specification, with the success of its sends as the outcome, sends its reply, and gives the mail of exactly the message it completes |
| Connection.RunSession | src/worker.c:118-142 | a session driven event by event until the connection is inactive is in the state the specification gives for those events, and the mails queued, at most one, are what becomes of the messages the specification gives; an inactive connection has no request, response or read buffer |
| Base64.StrchrIsIndex | src/base64.c:4-15 | the table lookup agrees with the ranges of the base64 alphabet, NUL and unknown characters included |
| Base64.DecodeQuad | src/base64.c:24-45 | one turn writes three bytes and takes back those that padding stands for |
| Base64.Alphabet | src/base64.c:4-15 | a character of the RFC 4648 alphabet counts as its place in it, a NUL as 64 and any other as 0, and only those of the alphabet are base64 |
| Base64.CutQuad | src/base64.c:24-37 | so a text that ends after one character of a quad decodes to a byte with one bit too many |
| Base64.Decode | src/base64.c:17-54 | the count returned, the bytes decoded and the zero after them; an access outside the buffers exactly where `SafeIff` tells it |
| Base64.SafeIff | src/base64.c:24-51 | the decoder stays inside source and destination exactly if the length is a positive multiple of four covered by the full groups of the text and the cells suffice, or at least three characters follow those groups and the cells suffice |
| Base64.EveryTextHasALayout | src/base64.c:34-49 | every text is full groups with line breaks after them and a tail, so the condition applies to all texts |
| Base64.LengthTooLong | src/base64.c:24-49 | one full group with length 8, or with length 5, makes the decoder read past the NUL, whatever the destination |
| Base64.RoomBound | src/base64.c:24-51 | for a length that is a multiple of four the loop writes at most three cells for every four characters and one more |
| Base64.RoundTrip | src/base64.c:17-54 | decoding the standard encoding of any non-empty byte string, with line breaks between groups and the number of the other characters as length, is safe in `3 * (n / 4) + 1` cells and gives the bytes back |
| JsonPrinter.JsonEscape | src/mailhandler/mailhandler.c:209-234 | the escaped text, within the `2n + 1` characters allocated |
| JsonPrinter.ToJson | src/mailhandler/mailhandler.c:237-282 | appends the object of the siblings, under a name if one is given |
| JsonPrinter.RecordsToJson | src/mailhandler/mailhandler.c:285-307 | appends the array of the record elements' objects |
| JsonPrinter.ReportToJson | src/mailhandler/mailhandler.c:323-345 | the whole report: sections in document order, then the records |
| JsonRoundTrip.TextIsReadIff | src/mailhandler/mailhandler.c:209-234 | a text escaped and quoted is read back exactly if it is clean; else the reader fails or gets another text |
| JsonRoundTrip.ObjectIsReadIff | src/mailhandler/mailhandler.c:237-282 | at any place in a text, the object printed for siblings is read as what they mean, with their nesting, their unescaped texts and the text beside elements, exactly if all of them are faithful and no such text is lost |
| JsonRoundTrip.JsonDenotesTreeIff | src/mailhandler/mailhandler.c:237-282 | the object as a whole text is well-formed and denotes the tree exactly if the tree is faithful |
| JsonRoundTrip.FaithfulTreeIsDenoted | src/mailhandler/mailhandler.c:237-282 | a faithful tree is denoted whatever its comments |
| JsonRoundTrip.SoleElementIsFlattened | src/mailhandler/mailhandler.c:257-268 | an element that is a sole child prints like its character data, though the trees mean different things |
| JsonRoundTrip.SplitTextIsLost | src/mailhandler/mailhandler.c:257-271 | two or more children without an element among them print as an empty object |
| JsonRoundTrip.ContentIsCharacterData | src/mailhandler/mailhandler.c:259 | the text of an element is the character data below it in order, without comments |
| JsonRoundTrip.NotDenoted | src/mailhandler/mailhandler.c:257-271 | five inputs that are not denoted: a sole element, split text, text beside an element, a sole comment and a quote |
| JsonRoundTrip.CommentsConspire | src/mailhandler/mailhandler.c:257-268 | with two sole comments that start with a quote an unfaithful tree is denoted after all |
| JsonRoundTrip.RecordArrayIsReadIff | src/mailhandler/mailhandler.c:285-307 | the records member is read as the array of what the records mean exactly if they are faithful |
| JsonRoundTrip.ReportDenotesIff | src/mailhandler/mailhandler.c:323-345 | the report between braces denotes its sections and records exactly if those are faithful and metadata, if any, comes first and once |
| JsonRoundTrip.ReportOfDenotesIff | src/mailhandler/mailhandler.c:323-345 | a report of one `report_metadata`, one `policy_published` and any number of `record` elements denotes the members metadata, policy and records exactly if all of them are faithful |
| JsonRoundTrip.OtherNodesAreLeftOut | src/mailhandler/mailhandler.c:291-338 | any other node of a report, wherever it stands, changes nothing in the output |
| JsonRoundTrip.BareReportDenotesNothing | src/mailhandler/mailhandler.c:323-345 | without the braces it denotes no JSON value |

## Left out

- TagList.ParseHeader: says nothing about the buffers of tags that do not occur, which the source leaves as `malloc` gave them.
- HeaderCanon.RelaxedHeaderCanon: runs the passes header by header, where the source runs each pass over all headers; the headers' copies share no memory.
- HeaderCanon.LowerInPlace: `tolower` in the C locale only.
- RingQueue.PqRef.Enqueue: describes an operation without interference; what interleaving does to it is the subject of `QueueRuns`.
- QueueRuns.DequeueStep: the copy out of a slot is one step; it happens inside the critical section, where the proof shows that no other process writes.
- QueueRuns.MutualExclusion: supposes that no process dies inside the critical section, so `SEM_UNDO` plays no part.
- QueueFile.HistoriesRefineFifo: covers clean closes only; the offset and count updates are not atomic against a crash, and `msync` is not modelled. A new file is created with a count whose size fits an `int`.
- Request.Request.ReadCommand: a command is matched only within the bytes of one read; the source may compare a few bytes past them.
- Request.Request.ParseCommands: inherits this.
- Request.Request.ParseStep: looks ahead only within the stored bytes, where the source may compare one byte past them.
- Request.Request.ParseData: looks ahead only within the stored bytes, and stops with `overrun` where the source would write to a 21st header.
- Connection.Connection.Handle: says nothing about the connection after a fault, which stands for a mail with a 21st header or with headers and no body.
- Connection.MailIsDelivered: assumes that the queue has room, as the connection ignores a full queue, and that the terminator is separate from the blank line; `Connection.SoundIff` says what happens otherwise.
- Connection.SessionDelivers: puts the lines of the handshake whole into reads; a command that the network cuts in two is not recognised.
- JsonPrinter.ToJson: a plain append stands for the string buffer, and the function that `JsonPrinter.JsonEscape` is proved against for the call to it.
- JsonRoundTrip.JsonDenotesTreeIff: asks for names without quotes, backslashes and control characters, which XML names never contain, and leaves out trees with a sole comment that starts with a quote, for which the condition is only sufficient. The reader does not read `\u` escapes, numbers or literals, none of which are printed.
- Overflow of `int` lengths and counters is not modelled, except for the sizes in `QueueFile`.
- `cache_get_node`, which has the shape of `cache_get`.
- Failure of `malloc`, `open`, `lseek`, `write`, `semget` and, except for a length of zero, `mmap`, and a null queue reference.
- The `memory_size` header field and the `used`, `size` and `max` fields of the cache, which nothing here reads, and tracing output.
- Sockets, epoll and kqueue, fork, signals, shared memory and configuration: read and send results enter the connection as arbitrary inputs.
- RSA, SHA, PEM, DNS, zlib, libxml and curl: the parsed XML tree and the text of a node are inputs.
- `dkim_validate` and `dkim_create` as a whole, which are library calls and string assembly, and `dkim_parse_dns`, which has the shape of the tag-list scanner.
- The response buffer, the string buffer, `base64_wrap`, the configuration file, the lock and the server start-up, which would only add easy members.
