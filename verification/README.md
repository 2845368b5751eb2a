# DeleGate: proofs about its self-contained algorithms

This project models eleven parts of DeleGate in Dafny and proves what each of them is for.

- **DescriptorTable** - the lock-free table of callback descriptors. Any number of threads
  run `dgfn_intern` at once; every atomic action is one event of a state machine, and the
  events of different calls interleave freely. The hash is arbitrary (`WordHash` is the one of
  the program). `Table.Intern` is the probe loop of one thread, with the other threads changing
  the array between its actions.
- **SharedFile, SessionCache** - the TLS session cache that processes share through one
  locked file. The file is modelled byte by byte (header, index, records at their offsets),
  and each process has a private index that may be stale.
- **MimeText, MimeBoundaries, MimeRelay, MimeThru, MimeCut** - the MIME multipart relay with
  conversion off. `MimeRelay.Output` says what is put as a single loop over the message:
  header, lines up to a boundary, and then the next header, the epilogue, or the end. The
  mutually recursive program is proved to put exactly that, for every input and every scanner
  of header fields; `MimeThru` proves when that is the message itself, and `MimeCut` has
  messages where it is not.
- **HeaderText, PushBack, HeaderEncoder, HeaderSpaces, HeaderDecoder** - the MIME header encoder
  and decoder and the push-back ring between them. `HeaderSpaces` says which white space of a
  header the decoder puts, run by run, and when that is all of it.
- **Peg, SllGrammar, SllParser, SllAbandoned, SllLines, UrlTable, UrlScan** - the interpreter of SLL rule tables. `Peg` is an
  independent derivation relation for ordered choice, and the interpreter agrees with it;
  `SllAbandoned` says what abandoned alternatives do to the output, for every table and run,
  `SllLines` what the output is as text, `UrlTable` is the table of URLs of the program, and
  `UrlScan` a URL through it.
- **Base64Coder, QuotedPrintable** - the coders of stream and of string.
- **CrawlTable** - the crawl frontier and the loop that drives it, on any network.
- **Rc4, DomainLevel, DomainTable, DomainMeans, StableSort** - the RC4 state, domain
  generalisation for any table and for the table of the program, with what its rows mean for a
  host as it is written, and `Bsort`.
- **Bytes, Chars, Sequences** - bytes, the C character classes, facts about sequences and sets.

Code that works by changing things step by step is modelled by classes, arrays and loops, each
proved against a specification function; the properties are proved about that function.

Four things the proofs show about the code, where it differs from what one might expect:

- The relay does not copy every message exactly. It reads lines in pieces: 1022 bytes of a line
  fit the line buffer, `RFC822_fgetsHeaderField` joins a field with its continuation lines in a
  buffer of 1024 bytes, and a header ends, if need be inside a line, when its own buffer of 64 KB
  is full. A piece that begins inside a line is taken for the dot line when it is "." and a line
  end, and for a boundary when it looks like one; a line end is supplied to a single part that
  ends inside a line, or that is the lone LF of a CR LF. `MimeThru.Thru` gives the exact condition
  for messages of complete lines of any length, of one style, without NUL bytes, whose dates are
  canonical, and `MimeThru.ThruShort` a condition on the lines alone. `MimeCut` has a message for
  each way to fail.
- `SLLparse` leaves the output of PUTGATE behind when the rule that follows the gate fails and
  another alternative is taken. `SllAbandoned.Abandoned` says so for every table: the texts left
  in accepted rules are in the output, and, when every capture has fitted the buffer, the parsing
  expressions that know nothing of abandoned alternatives derive the result if and only if there
  are none. `SllAbandoned.LeftBehind` is a table with such a text. A table like the one of URLs,
  with PUTGATE on every protocol, never leaves one: `SllAbandoned.UrlLike`, and `UrlTable.ScanUrl`
  for the table of the program.
- The header encoder copies the body line by line through `fgets` and `fputs`, so a NUL byte
  in the body cuts its line; the header decoder loses a "=" that is the last byte of a message
  without a body. Of white space it loses exactly what `HeaderSpaces.Loss` says: of a run of
  blanks all between the first and the last, in front of a line end all but the first, behind it
  all but the last.
- Generalising a domain twice can cut it twice. `DomainLevel.TwiceIsOnce` gives the exact
  condition for every table and host, `DomainLevel.MidLabelStar` is a table that fails it, with a
  "*" inside a label, and `DomainTable.ProgramIdempotent` shows that with the table of the program
  it always holds.

## Model

| member | source | states |
|---|---|---|
| DescriptorTable.StepInv | delegate/include/yarg.h:20-39 | One atomic action of any call keeps the invariant over table, heap and calls, and never changes a slot that was written |
| DescriptorTable.RunInv | delegate/include/yarg.h:20-39 | Over every interleaving a slot is written at most once and its descriptor is never freed |
| DescriptorTable.ReachableInv | delegate/include/yarg.h:20-39 | Every state that any threads can reach satisfies the invariant |
| DescriptorTable.OneSlotPerKey | delegate/include/yarg.h:26-37 | No key ever occupies two slots |
| DescriptorTable.AllOrNothing | delegate/include/yarg.h:26-39 | Two ended calls for one key both returned the one shared descriptor, or both returned one of their own and the 64 slots of the key hold other keys |
| DescriptorTable.FewSlotsShared | delegate/include/yarg.h:20-39 | While fewer than 64 slots are taken, all ended calls for one key have returned one and the same descriptor of the table |
| DescriptorTable.ProgramShared | delegate/include/yarg.h:22-25 | The same for the hash of the program |
| DescriptorTable.ChoiceIsFinal | delegate/include/yarg.h:26-39 | Once a call for a key has ended, every later call for it ends in the same way, with the same descriptor if it was shared |
| DescriptorTable.LiveIffOwned | delegate/include/yarg.h:26-38 | A descriptor is allocated exactly when a slot, a running call, or the call that returned it as overflow owns it |
| DescriptorTable.OneOwner | delegate/include/yarg.h:26-38 | No descriptor has two owners of any kind |
| DescriptorTable.ReturnedStaysLive | delegate/include/yarg.h:19-39 | A returned descriptor is never freed and keeps its function and invoker |
| DescriptorTable.TouchesLive | delegate/include/yarg.h:28-37 | In every reachable state a call compares only a live descriptor of a slot, and deletes only a live one that is in no slot and no other call's |
| DescriptorTable.PointerEquality | delegate/include/yarg.h:132-132 | Pointers from two ended calls compare equal exactly when they were made from one function, shared or not |
| DescriptorTable.WaitFree | delegate/include/yarg.h:26-38 | Whatever other threads do, each action of a call lowers its rank, and a call that has not returned can act |
| DescriptorTable.CallBound | delegate/include/yarg.h:26-38 | A call ends within 64 probes: at most 321 atomic actions |
| DescriptorTable.Table.Intern | delegate/include/yarg.h:20-39 | The probe loop on the shared array, with interference at every step, returns a descriptor of the key, which a slot of its window holds, or a fresh one when the window is full of other keys |
| DescriptorTable.SlotsInRow | delegate/include/yarg.h:26-27 | The 64 slots of a key are different, one behind the other from its hash on, round the end of 8192 |
| DescriptorTable.HashOfProgram | delegate/include/yarg.h:23-24 | Two bits of the function and five of the invoker do not count in the hash of the program; the next ones give the front of its factor |
| SharedFile.WriteAtWrote | delegate/filters/sslway.cpp:1486-1511 | A seek and a write change the written range only, and fill a gap with zeros |
| SharedFile.LeRoundTrip | delegate/filters/sslway.cpp:1178-1212 | A word written in its bytes is read back |
| SessionCache.DecodeEncode | delegate/filters/sslway.cpp:1184-1199 | An index entry of 52 bytes is read back as it was written |
| SessionCache.EntryBytes | delegate/filters/sslway.cpp:1184-1194 | At which bytes of an entry its fields stand |
| SessionCache.SavedBytes | delegate/filters/sslway.cpp:1483-1514 | A save writes the sizes and the process id at 0x4000, the entries of 52 bytes behind them, the entry with its content in its slot of 2048 bytes from 0x10000 on, and changes no other byte |
| SessionCache.LoadStored | delegate/filters/sslway.cpp:1214-1248 | Every process that loads a file that represents an index gets exactly that index, whatever its own copy was |
| SessionCache.ReadRecordIs | delegate/filters/sslway.cpp:1283-1339 | Reading the record of an entry gives exactly what the file holds for it, or none |
| SessionCache.WriteRepresents | delegate/filters/sslway.cpp:1483-1514 | The three writes of a save put the index, the entry and its record, and leave every other record: index and records never overlap |
| SessionCache.SaveRefines | delegate/filters/sslway.cpp:1370-1531 | From any private index, however stale, a save turns the abstract cache into one with the entry put, or leaves it when the id is there |
| SessionCache.PutsIff | delegate/filters/sslway.cpp:1403-1469 | A save puts if and only if the id has 1 to 32 bytes, the content 1 to 1995, and the id is not the beginning of the id of an entry that the file holds, or that an earlier load has left when it holds none |
| SessionCache.OffersAre | delegate/filters/sslway.cpp:1283-1339 | Of the index and records that a file holds, a server is offered the records of all accepted sessions of this client at this address or none that parse, in the order of the index; a client that of the first session it made to this server that parses, or nothing |
| SessionCache.PutIndexOk | delegate/filters/sslway.cpp:1443-1480 | A put keeps at most 32 entries with distinct zero-padded ids |
| SessionCache.StepInv | delegate/filters/sslway.cpp:1214-1558 | A locked load, save or clear by any process keeps the invariant of file and processes |
| SessionCache.RunInv | delegate/filters/sslway.cpp:1214-1558 | The invariant holds over every run of locked steps by any number of processes |
| SessionCache.ReachableInv | delegate/filters/sslway.cpp:1214-1558 | The invariant holds in every state reachable from an empty file |
| SessionCache.LoadsOnlyWhatWasSaved | delegate/filters/sslway.cpp:1214-1339 | A load yields at most 32 entries with distinct ids, and bytes only that some save stored under that id |
| SessionCache.SaveThenLoad | delegate/filters/sslway.cpp:1370-1531 | What a save stores, the next load of any process finds, with its bytes and fields |
| SessionCache.OldestIsOldest | delegate/filters/sslway.cpp:1443-1470 | The entry chosen for replacement has a smallest date, and is the first that has it |
| SessionCache.OnlyOldestLost | delegate/filters/sslway.cpp:1443-1512 | A save loses no entry unless the index has 32, and then the first of the oldest; the new entry has the fields of the request, its id filled up with zeros |
| SessionCache.Shared.ClearCache | delegate/filters/sslway.cpp:1535-1558 | Clearing leaves a file that represents no index |
| SessionCache.Process.LoadScache | delegate/filters/sslway.cpp:1214-1248 | The method updates the private index as the load function says, and returns the number of entries or -1 |
| SessionCache.Process.LoadSessions | delegate/filters/sslway.cpp:1250-1352 | Offers the sessions that are wanted, each read from its own record; for every index and records that the file may hold, those that OffersAre speaks of |
| SessionCache.Process.SaveSessions | delegate/filters/sslway.cpp:1370-1531 | File and private index become what the save function says; the file changes by the writes of a put when id and content have a length that is stored and no loaded entry has an id that begins with the id, and not at all otherwise |
| MimeText.Input.Fgets | delegate/rary/String.cpp:2600-2630 | Reads a line, or as much of it as the buffer holds, without NUL bytes; empty only at the end of the stream |
| MimeText.Input.FgetsHeaderField | delegate/mimekit/rfc822.cpp:699-728 | Reads a field with its continuation lines while more than 80 bytes remain |
| MimeText.Continuation | delegate/mimekit/rfc822.cpp:707-722 | A field goes on in the next line just when that begins with a blank, a tab or "#" and more than 80 of 1024 bytes are left |
| MimeBoundaries.PopIs | delegate/mimekit/mime.cpp:494-520 | The outermost boundary that a line delimits decides: a close of level i leaves exactly the first i boundaries, a delimiter leaves all |
| MimeBoundaries.PopNone | delegate/mimekit/mime.cpp:494-520 | A line that delimits no boundary on the stack is the dot line or nothing |
| MimeBoundaries.Boundaries.PushBoundary | delegate/mimekit/mime.cpp:477-488 | Appends the boundary while fewer than 31 are there, and refuses it then, so that the ending null stays inside the array |
| MimeBoundaries.Boundaries.TopBoundary | delegate/mimekit/mime.cpp:489-493 | The number of boundaries |
| MimeBoundaries.Boundaries.PopBoundary | delegate/mimekit/mime.cpp:494-520 | The array becomes what the function on stacks says |
| MimeRelay.NothingLeft | delegate/mimekit/mime.cpp:790-797 | At the end of the stream nothing more is put, whatever the last part ended with |
| MimeRelay.DateIs | delegate/mimekit/mime.cpp:692-693 | The value of a "Date:" field, in any case of its letters, is rewritten, and no other field |
| MimeRelay.SuppliedText | delegate/mimekit/mime.cpp:1155-1222 | The line end that is supplied to a part is that of the dot line, or CR LF or LF as in the first line end of its text |
| MimeRelay.PushedIs | delegate/mimekit/mime.cpp:739-740 | A header pushes its boundary unless it is empty or 31 are there |
| MimeRelay.Relay.FgetsTee | delegate/mimekit/mime.cpp:434-462 | Reads a line and puts it, except the dot line |
| MimeRelay.Relay.ReadHead | delegate/mimekit/mime.cpp:620-744 | Gathers the header and pushes its boundary, as the function on headers says |
| MimeRelay.Relay.ReadPartThru | delegate/mimekit/mime.cpp:856-948 | Puts the lines of a part as they are read and returns them with the line that ended them |
| MimeRelay.Relay.DecodeBODYpart | delegate/mimekit/mime.cpp:1104-1225 | What is put and returned is the part, with a line end supplied where it lacks one |
| MimeRelay.Relay.ScanMultipart | delegate/mimekit/mime.cpp:770-854 | Preamble, parts and epilogue come out as in the loop over the message; it always ends, with the end of the message |
| MimeRelay.Relay.DecodeMIMEpart | delegate/mimekit/mime.cpp:1270-1532 | What was put, followed by what the loop puts for the rest, is what the loop puts for the whole; the mutual recursion ends by the length of the rest |
| MimeRelay.Relay.DecodeMIME | delegate/mimekit/mime.cpp:1880-1889 | For every input the program puts what the single loop over the message puts |
| MimeThru.LineDots | delegate/mimekit/mime.cpp:434-455 | A line of any length is read whole or in pieces of 1022 bytes; a piece passes no end of the message unless it is the dot line, read from its start |
| MimeThru.FieldDots | delegate/mimekit/rfc822.cpp:699-728 | A field that is read, from a line start or inside a line, is copied and passes no end of the message unless it is the dot line |
| MimeThru.HeaderDots | delegate/mimekit/mime.cpp:645-721 | A header is copied exactly and leaves the end of the message where it was |
| MimeThru.PartDots | delegate/mimekit/mime.cpp:904-928 | A part, read from anywhere, is text and its last piece of the message, and the message ends in it just when a dot line that begins at a line start ends it |
| MimeThru.SuppliedIs | delegate/mimekit/mime.cpp:1155-1222 | A line end is supplied to a single part just when it ends inside a line, in front of a false dot line, or behind a boundary when it has a line end to go by, and to the lone LF of a CR LF before the dot line |
| MimeThru.EpilogueDots | delegate/mimekit/mime.cpp:824-852 | An epilogue is copied exactly just when no piece inside a line is taken for the dot line with more behind it |
| MimeThru.BlankOutput | delegate/mimekit/mime.cpp:1270-1532 | The blank lines that any message or part begins with come out first, whatever follows |
| MimeThru.OneTooMany | delegate/mimekit/mime.cpp:1210-1222 | So a line end supplied between two parts is never made up for by what is lost later |
| MimeThru.Relayed | delegate/mimekit/mime.cpp:1270-1532 | From any place, at a line start or inside a line, and with any stack the output is the rest up to the end of the message exactly when all that is read from there is sound |
| MimeThru.Thru | delegate/mimekit/mime.cpp:1270-1532 | A message of complete lines of one style and any length, without NUL bytes and with canonical dates, is copied exactly up to and including the first dot line if and only if in no header, part or epilogue a piece inside a line is taken for the dot line with more behind it, and no line end is supplied to a part; for any nesting, closed or not |
| MimeThru.ThruShort | delegate/mimekit/mime.cpp:1270-1532 | When every line fits the line buffer with its continuation lines, the copy is exact |
| MimeCut.CutLosesLine | delegate/mimekit/rfc822.cpp:699-728 | A concrete message whose last line is lost, because a cut continuation line looks like the dot line |
| MimeCut.FullHeaderLosesLine | delegate/mimekit/mime.cpp:645-721 | A concrete message whose header fills its 64 KB in a line that is cut before "."; its last line is lost |
| MimeCut.LoneLfDoubled | delegate/mimekit/mime.cpp:1210-1222 | A concrete message whose header fills its 64 KB between CR and LF, before the dot line; a CR LF is put behind the LF |
| MimeCut.LongBodyLine | delegate/mimekit/mime.cpp:904-928 | A concrete message with "." behind 1022 bytes of a body line; the message ends there, behind a supplied line end |
| MimeCut.LongEpilogueLine | delegate/mimekit/mime.cpp:824-852 | The same in an epilogue |
| MimeCut.LongLineDelimits | delegate/mimekit/mime.cpp:494-520 | A concrete message with a boundary behind 1022 bytes of a body line; it ends the part and a line end is put behind it |
| HeaderText.RawRead | delegate/mimekit/mimehead.cpp:382-408 | A character that is read stands for exactly the bytes it was read from |
| HeaderText.Stream.NLfgetc | delegate/mimekit/mimehead.cpp:382-402 | Reads CR LF and LF as one line end and remembers its style |
| PushBack.RRBuff.Get | delegate/mimekit/mimehead.cpp:373-378 | Takes the character pushed back last, with its state |
| PushBack.RRBuff.Unget | delegate/mimekit/mimehead.cpp:410-426 | The ring is a stack of up to seven characters; an eighth would empty it |
| PushBack.StackKept | delegate/mimekit/mimehead.cpp:410-426 | Writing a slot outside the stack leaves the stack |
| PushBack.Reading.Ungetc | delegate/mimekit/mimehead.cpp:410-426 | Whenever the encoder pushes back, at most one character is there, so nothing ahead is lost |
| PushBack.Reading.NoencodeWord | delegate/mimekit/mimehead.cpp:639-691 | For any characters and charsets at most two stay pushed back |
| PushBack.Reading.EncodeWord | delegate/mimekit/mimehead.cpp:765-886 | The same for words that are encoded, with blanks and multi-byte characters |
| PushBack.Reading.EncodeHeader | delegate/mimekit/mimehead.cpp:959-981 | The same over runs of any length, with words that follow one another without a character read and pushed back between |
| HeaderEncoder.EncodedIsIdentity | delegate/mimekit/mimehead.cpp:937-1005 | Encoding a message with a plain header is the identity if and only if the body has no NUL byte |
| HeaderEncoder.NulLosesLine | delegate/mimekit/mimehead.cpp:1000-1003 | A concrete message whose body begins with NUL loses the line |
| HeaderEncoder.BodyCopied | delegate/mimekit/mimehead.cpp:1000-1003 | The line-by-line copy of the body is exact, and keeps the length, exactly when there is no NUL |
| HeaderEncoder.NulCosts | delegate/mimekit/mimehead.cpp:1000-1003 | A NUL byte costs all from it to the end of its line, or of the piece of 1023 bytes of the line it stands in |
| HeaderEncoder.Encoder.Fgetc | delegate/mimekit/mimehead.cpp:428-528 | The next character of what is ahead, with the character pushed back counted in |
| HeaderEncoder.Encoder.Fputc | delegate/mimekit/mimehead.cpp:537-637 | Output and held back white space grow by exactly the character |
| HeaderEncoder.Encoder.NoencodeWord | delegate/mimekit/mimehead.cpp:639-691 | One word moves from what is ahead to the output unchanged, and the blank line is recognised |
| HeaderEncoder.Encoder.EncodeHeader | delegate/mimekit/mimehead.cpp:937-984 | The header comes out unchanged up to the blank line or the end |
| HeaderEncoder.Encoder.Encode | delegate/mimekit/mimehead.cpp:991-1005 | The output is the encoding that EncodedIsIdentity speaks of, for every message with a plain header |
| HeaderDecoder.KeptNonWhite | delegate/mimekit/mimehead.cpp:1087-1195 | Text of which only white space was dropped has the same other characters in the same order |
| HeaderDecoder.PutCharKeeps | delegate/mimekit/mimehead.cpp:1087-1195 | Putting a character drops nothing but white space, and outside a header nothing at all |
| HeaderDecoder.FieldTopKeeps | delegate/mimekit/mimehead.cpp:1154-1163 | The top of a field drops nothing but held back white space |
| HeaderDecoder.HeadBytes | delegate/mimekit/mimehead.cpp:1484-1512 | The characters taken from a header and the body behind it are the message |
| HeaderDecoder.RenderedKept | delegate/mimekit/mimehead.cpp:1011-1035 | Dropping white space as characters is dropping white space as bytes, also where CR LF is read again as LF |
| HeaderDecoder.OnlyWhiteLost | delegate/mimekit/mimehead.cpp:1522-1580 | Only white space is lost from a header if and only if the message does not end in its header with "=" |
| HeaderDecoder.LastEqualLost | delegate/mimekit/mimehead.cpp:1522-1569 | "A:=" becomes "A:" and nothing else |
| HeaderSpaces.Whole | delegate/mimekit/mimehead.cpp:1087-1195 | A header is put with all its characters if and only if it has no three blanks in a row, no two beside a line end, no line of one blank and no empty line; no header becomes longer |
| HeaderSpaces.Loss | delegate/mimekit/mimehead.cpp:1087-1195 | The exact loss: of a run of blanks all between the first and the last; of a run with line ends all but the first blank in front, a line end, and the last blank behind, or none behind where a field begins after a line end |
| HeaderSpaces.FoldLoss | delegate/mimekit/mimehead.cpp:1087-1195 | At a folded line the blanks in front become the first, those behind the last |
| HeaderDecoder.FieldsHead | delegate/mimekit/mimehead.cpp:1522-1569 | The header taken is its fields and what ends it: the blank line, a last "=", or nothing |
| HeaderDecoder.HeaderAndBody | delegate/mimekit/mimehead.cpp:1484-1512 | Of lines, an empty line and more, in either style, the lines are the fields and the rest behind the empty line is the body |
| HeaderDecoder.AllPut | delegate/mimekit/mimehead.cpp:1522-1569 | All characters of a header are put, with the blank line, if and only if its white space is tidy and it does not end in a last "=" |
| HeaderDecoder.TidyDecoded | delegate/mimekit/mimehead.cpp:1522-1580 | A message with LF comes out byte by byte as it was if and only if its header is tidy and no last "=" is lost; with CR LF it does when, besides, no line of the header ends in "=" |
| HeaderDecoder.OneBlankStays | delegate/mimekit/mimehead.cpp:1522-1580 | "A: b", an empty line and any body come out as they were |
| HeaderDecoder.ThreeBlanksLoseOne | delegate/mimekit/mimehead.cpp:1087-1195 | With three blanks between "A:" and "b", one is lost and nothing else |
| HeaderDecoder.Decoder.Fgetc | delegate/mimekit/mimehead.cpp:1484-1512 | Takes one token: a character, a form feed with its line end, or the blank line |
| HeaderDecoder.Decoder.Fputc | delegate/mimekit/mimehead.cpp:1087-1195 | The held back white space and the output become what the function on stages says, of which DecodeHeader proves that it keeps what HeaderSpaces puts |
| HeaderDecoder.Decoder.DecodeHeader | delegate/mimekit/mimehead.cpp:1522-1569 | The characters put are the fields of the header squeezed, and the blank line if there is one; the header ends at the blank line or with the stream |
| HeaderDecoder.Decoder.CopyBody | delegate/mimekit/mimehead.cpp:1570-1574 | The body is copied exactly, whatever its line ends are |
| HeaderDecoder.Decoder.Decode | delegate/mimekit/mimehead.cpp:1522-1580 | The output is the fields of the header with exactly the white space that HeaderSpaces puts and the line ends of the message, and then the body |
| Peg.Deterministic | delegate/rary/SLL.cpp:56-153 | An expression of ordered choice has one outcome on one input |
| SllParser.RowsDerived | delegate/rary/SLL.cpp:56-153 | The rows of a rule do what the derivation relation allows |
| SllParser.CallDerived | delegate/rary/SLL.cpp:29-157 | A call of a rule does what the derivation relation allows |
| SllParser.Agrees | delegate/rary/SLL.cpp:29-157 | An outcome (failure, or the rest of the source and the output) is derivable if and only if it is the parser's |
| SllAbandoned.Abandoned | delegate/rary/SLL.cpp:99-136 | For every table and run the texts of abandoned rows in accepted rules are in the output, in order; without overflow the result is that of the parser that takes them back with just these texts put in, and the relation without abandoned output derives it if and only if there are none |
| SllAbandoned.NothingPassedDerived | delegate/rary/SLL.cpp:99-136 | A run that passes over no row with a text, even where captures overflow, has exactly the outcome of the relation in which an abandoned alternative leaves no output |
| SllAbandoned.NothingLeftBehind | delegate/rary/SLL.cpp:99-136 | Without PUTGATE on recursing entries this is every run |
| SllAbandoned.UrlLike | delegate/src/url.cpp:2903-2920 | In a table of the shape of URL - a choice of protocol names with PUTGATE on recursing rows, a longer name before one it begins with, each followed by a rule that begins with ":" - nothing is left behind for any source and buffer |
| UrlTable.TableRanked | delegate/src/url.cpp:2814-3150 | The table of the program, rule by rule, lowers the number of the rule wherever it recurses without reading, so the interpreter ends on it |
| UrlTable.TableShaped | delegate/src/url.cpp:2903-3075 | It is of the shape of UrlLike: every rule behind a protocol begins with ":", and no other rule has PUTGATE on a recursing row |
| UrlTable.ScanUrl | delegate/src/url.cpp:2786-2799 | Whatever is scanned as a URL into whatever room, nothing that an abandoned protocol has put is left |
| UrlTable.ScanRule | delegate/src/url.cpp:2800-2810 | The same of every other rule of the table, and so of the extended form |
| SllGrammar.GateIs | delegate/rary/SLL.cpp:56-84 | A gate matches one character of its set, its text, or its text but for the case of letters |
| SllLines.Output | delegate/rary/SLL.cpp:86-175 | For every table and run the output is lines, each of the name of an entry, "=", and the gate of that entry or a part of the source; the source that is left is an end of the source |
| UrlScan.CallsFull | delegate/rary/SLL.cpp:113-127 | A value is refused just when the room left is not more than its length |
| UrlScan.OneUrl | delegate/src/url.cpp:2786-2931 | "http://h/" is scanned to its end and puts "proto=http", "host=h", "hostport=h" and "path=", a line each |
| SllAbandoned.LeftBehind | delegate/rary/SLL.cpp:99-136 | A concrete table in which an abandoned alternative leaves the text of its gate, "a=x" and a line end |
| SllParser.SLLparse | delegate/rary/SLL.cpp:29-157 | The loop over the entries computes the parser's function, and ends on every table in which recursion without reading lowers a rank |
| SllParser.RecurseRow | delegate/rary/SLL.cpp:113-136 | An entry that calls a rule continues, ends or fails as the function says, with the gate given back when the call fails |
| Base64Coder.RoundTrip | delegate/mimekit/mimecodes.cpp:76-265 | Decoding undoes encoding for every byte string and column |
| Base64Coder.RoundTripAnywhere | delegate/mimekit/mimecodes.cpp:160-265 | The same wherever white space is inserted |
| Base64Coder.WhiteSpaceIgnored | delegate/mimekit/mimecodes.cpp:221-243 | White space does not change what is decoded |
| Base64Coder.LinesStripped | delegate/mimekit/mimecodes.cpp:76-158 | Without its line ends the text with lines is the text without, at any column |
| Base64Coder.Length | delegate/mimekit/mimecodes.cpp:76-118 | n bytes become 4*ceil(n/3) + ceil(n/54) characters (section 6.8 of RFC 2045) |
| Base64Coder.QuadBytes | delegate/mimekit/mimecodes.cpp:85-110 | The four sextets of a group give its bytes back, with one or two of padding |
| Base64Coder.Symbols | delegate/mimekit/mimecodes.cpp:29-48 | The 64 symbols in order; every byte is a symbol with its value, white space, padding or nothing |
| Base64Coder.QuadIs | delegate/mimekit/mimecodes.cpp:85-110 | Which bits of one, two or three bytes each character of a group holds, and where "=" stands |
| Base64Coder.LineByLine | delegate/mimekit/mimecodes.cpp:76-118 | A line feed stands behind every 54 bytes and behind the last |
| Base64Coder.Man | delegate/mimekit/mimecodes.cpp:76-118 | "Man", "Ma" and "M" become "TWFu", "TWE=" and "TQ==" |
| Base64Coder.To64 | delegate/mimekit/mimecodes.cpp:76-118 | The stream coder puts the encoding with lines |
| Base64Coder.StrToB64 | delegate/mimekit/mimecodes.cpp:120-158 | The string coder puts the same text as the stream coder |
| Base64Coder.Decoder.Init64 | delegate/mimekit/mimecodes.cpp:38-48 | The table gives every symbol its value and marks white space and padding |
| Base64Coder.Decoder.From64 | delegate/mimekit/mimecodes.cpp:215-265 | The decoder loop computes the decoding function |
| QuotedPrintable.RoundTrip | delegate/mimekit/mimecodes.cpp:270-349 | Decoding undoes encoding for every byte string and every table that escapes "=" (section 6.7 of RFC 2045) |
| QuotedPrintable.PrefixText | delegate/mimekit/mimecodes.cpp:270-349 | Any prefix of the encoding decodes to a prefix of the bytes |
| QuotedPrintable.CutSoft | delegate/mimekit/str_codes.cpp:83-92 | Cutting the text that fits the buffer removes the final soft break, or part of the text |
| QuotedPrintable.StringRoundTrip | delegate/mimekit/str_codes.cpp:56-98 | Through the string coders the bytes come back if and only if the text without its final soft break fits the encoder's buffer with a NUL, and the bytes fit the decoder's buffer with a NUL |
| QuotedPrintable.Layout | delegate/mimekit/mimecodes.cpp:270-306 | No line of the text is longer than 76 characters or begins with ".", and no byte is 8-bit |
| QuotedPrintable.TokenIs | delegate/mimekit/mimecodes.cpp:278-292 | A byte stands as it is, or, when it is of the table or "." at the beginning of a line, as "=" and two upper-case digits |
| QuotedPrintable.DefaultIs | delegate/mimekit/mimecodes.cpp:53-62 | The default table escapes 8-bit bytes, control characters but white space, and "=" |
| QuotedPrintable.EncodedIs | delegate/mimekit/mimecodes.cpp:270-306 | A soft break stands exactly where a line has more than 72 characters, and at the end of a line that has begun |
| QuotedPrintable.Malformed | delegate/mimekit/mimecodes.cpp:308-349 | What the decoder makes of text that no encoder puts |
| QuotedPrintable.AccentedE | delegate/mimekit/mimecodes.cpp:268-349 | 0xE9 becomes "=E9"; "=E9" and "=e9" become 0xE9 |
| QuotedPrintable.Coder.InitQP | delegate/mimekit/mimecodes.cpp:53-62 | The default table |
| QuotedPrintable.Coder.SetQP | delegate/mimekit/mimecodes.cpp:63-69 | Adds the given characters to the table |
| QuotedPrintable.Coder.ToQP | delegate/mimekit/mimecodes.cpp:270-306 | The encoder loop, with its column, puts the encoding |
| QuotedPrintable.Coder.FromQP | delegate/mimekit/mimecodes.cpp:308-349 | The decoder loop puts the decoding |
| QuotedPrintable.Coder.StrToQP | delegate/mimekit/str_codes.cpp:83-92 | The string coder puts the encoding as far as it fits, without a final soft break |
| QuotedPrintable.Coder.StrFromQP | delegate/mimekit/str_codes.cpp:93-97 | The string decoder puts the decoding as far as it fits with a NUL |
| CrawlTable.FindFirst | delegate/fsx/any2fdif.cpp:664-687 | The entry found is the first whose check sum and text match |
| CrawlTable.FoundIs | delegate/fsx/any2fdif.cpp:664-687 | A URL is found whenever one equal up to one trailing slash is there, for any check sum, and only then when the check sum tells the URLs apart |
| CrawlTable.SameUrl | delegate/fsx/any2fdif.cpp:668-676 | Two URLs are one just when they are equal but for a "/" at the end of one |
| CrawlTable.NewDistance | delegate/fsx/any2fdif.cpp:769-818 | What is refused or known changes no entry but a mark; a new URL gets the given distance, or one more than its base, none behind the entry 0 and two without a base, and its base as referer, or is refused when that is too far |
| CrawlTable.Distance | delegate/fsx/any2fdif.cpp:787-810 | The distance of an entry is that of the entry where the count began and the number of links on its chain of referers, modulo 0x10000 or exactly while the limit is less; then no chain is longer than the limit |
| CrawlTable.ChainThere | delegate/fsx/any2fdif.cpp:806-810 | Every entry has such a chain |
| CrawlTable.AddOk | delegate/fsx/any2fdif.cpp:769-818 | A new entry keeps the URLs distinct up to one trailing slash and the hops within the limit |
| CrawlTable.MarkOk | delegate/fsx/any2fdif.cpp:707-720 | A mark keeps the table in order; none is set back to not-yet and indexed is never left |
| CrawlTable.AtMost | delegate/fsx/any2fdif.cpp:664-818 | URLs of a finite set fill at most that many entries |
| CrawlTable.Table.FindUrl | delegate/fsx/any2fdif.cpp:664-687 | The loop finds what the function finds |
| CrawlTable.Table.SetdoneUrl | delegate/fsx/any2fdif.cpp:707-720 | Marks the entry, except an indexed one |
| CrawlTable.Table.AddUrl | delegate/fsx/any2fdif.cpp:748-819 | What happens to a URL that is refused, known, too far, or new; a new one that its base leads to gets one more than the distance of its base and is refused when that exceeds the limit |
| CrawlTable.Table.Getnextlink | delegate/fsx/any2fdif.cpp:824-847 | Hands out the first entry that is not yet done; no entry is handed out twice |
| CrawlTable.AddedFound | delegate/fsx/any2fdif.cpp:769-818 | A URL that is admitted and near enough is found afterwards, whether it was new or known |
| CrawlTable.Crawler.Handle | delegate/fsx/any2fdif.cpp:1300-1437 | One round fetches the URL it took unless it is excluded, logs just that, hands out nothing, and keeps the links of all fetched pages in the table |
| CrawlTable.Crawler.Scanlinks | delegate/fsx/any2fdif.cpp:1015-1185 | Each admitted link of a page that is near enough has an entry, and every new entry is that of a link, with the distance and referer that the base of the page gives it |
| CrawlTable.Crawler.Redirect | delegate/fsx/any2fdif.cpp:1357-1386 | Both URLs get their marks; a new entry has the distance of the URL that was redirected |
| CrawlTable.Crawler.Visit | delegate/fsx/any2fdif.cpp:1355-1437 | A page that is got has its links in the table, and unless it was redirected an entry for it is marked as indexed |
| CrawlTable.Crawler.ScanUrls | delegate/fsx/any2fdif.cpp:1248-1447 | On a finite link graph the crawl ends, after at most as many visits as listed URLs and distinct URLs; nothing is left to be done, every listed URL and every URL handed out was fetched unless excluded, and each link of a fetched page into the realm has an entry |
| Rc4.AlwaysPermutation | delegate/filters/rc4.cpp:8-45 | The state array is a permutation of 0..255 after key setup and any number of rounds |
| Rc4.PermutationHolds | delegate/filters/rc4.cpp:8-45 | A permutation holds every byte value in exactly one place |
| Rc4.Chunks | delegate/filters/rc4.cpp:29-45 | Encrypting in two chunks is encrypting at once |
| Rc4.RoundTrip | delegate/filters/rc4.cpp:29-45 | Encrypting twice from the same state gives the text back |
| Rc4.Conversation | delegate/filters/rc4.cpp:8-45 | What one side sends in any pieces the other side decrypts in any pieces |
| Rc4.XorTwice | delegate/filters/rc4.cpp:41-41 | The exclusive or with the same byte twice is nothing |
| Rc4.MaskBits | delegate/filters/rc4.cpp:41-41 | A bit of the exclusive or is set just when one of the two is |
| Rc4.RoundIs | delegate/filters/rc4.cpp:34-42 | What a round does to the indices, which two values it exchanges, and where the key byte stands |
| Rc4.ScheduleIs | delegate/filters/rc4.cpp:12-26 | What a round of the key schedule adds and exchanges, with the key repeated |
| Rc4.EmptyKey | delegate/filters/rc4.cpp:8-45 | With the empty key the first key bytes are 2, 5 and 7 |
| Rc4.Rc4Key.SetKey | delegate/filters/rc4.cpp:8-27 | The key schedule loop on the array computes the schedule |
| Rc4.Rc4Key.Crypt | delegate/filters/rc4.cpp:29-45 | The loop puts the text of the key stream and leaves the state behind it, also in place |
| DomainLevel.DotAligned | delegate/mimekit/gendom.cpp:421-443 | The host is unchanged, or the lower-case text behind one of its dots |
| DomainLevel.MatchKept | delegate/mimekit/gendom.cpp:373-419 | A pattern that matches a name matches it when it is cut behind enough dots |
| DomainLevel.MatchNew | delegate/mimekit/gendom.cpp:373-419 | A pattern that matches only the cut name has as many dots as that |
| DomainLevel.LevelKept | delegate/mimekit/gendom.cpp:373-419 | Cutting a name at its level does not lower the level |
| DomainLevel.TwiceIsOnce | delegate/mimekit/gendom.cpp:421-443 | For every table and host, generalising twice is generalising once if and only if the first cut changes nothing or the cut name has no lower a level than the whole |
| DomainLevel.Idempotent | delegate/mimekit/gendom.cpp:421-443 | Generalising twice is generalising once, for every table whose levels are at least the labels of their patterns and whose "*" are rests of labels |
| DomainTable.RowEnough | delegate/mimekit/gendom.cpp:47-327 | Patterns "a", "a.b", "=.b" and "a.*.b" of at least as many levels as labels meet that condition |
| DomainTable.TableIdempotent | delegate/mimekit/gendom.cpp:373-443 | With any table of such patterns and any attributes, generalising twice is generalising once |
| DomainTable.ProgramIdempotent | delegate/mimekit/gendom.cpp:47-443 | So it is with the table of the program, row by row |
| DomainLevel.MidLabelStar | delegate/mimekit/gendom.cpp:393-401 | A table with a "*" inside a label for which generalising twice is not generalising once |
| DomainMeans.AttrIs | delegate/mimekit/gendom.cpp:358-370 | The length found is positive just when the first label is one of the attributes and not empty |
| DomainMeans.RowMeans | delegate/mimekit/gendom.cpp:388-416 | Which hosts a row is for, as they are written: the name itself and those under it, with any attribute for "=", and with one label for "*" - or any name of one label in front of what follows it |
| DomainMeans.LevelMeans | delegate/mimekit/gendom.cpp:388-418 | The first row that is for the host decides its level |
| DomainMeans.GenericMeans | delegate/mimekit/gendom.cpp:421-443 | The host becomes as many of its last labels, in lower case, as the level, or two without one, and is left alone when it has no more |
| DomainMeans.CompanyOfJapan | delegate/mimekit/gendom.cpp:47-443 | With table and attributes of the program "www.foo.co.jp" becomes "foo.co.jp" |
| DomainLevel.Reverse | delegate/mimekit/gendom.cpp:28-45 | The string backwards |
| DomainLevel.Domains.Isattr | delegate/mimekit/gendom.cpp:345-371 | The length of the first label when it is one of the attributes, or 0 |
| DomainLevel.Domains.Matches | delegate/mimekit/gendom.cpp:388-416 | The loop over pattern and name decides the match |
| DomainLevel.Domains.LevelOf | delegate/mimekit/gendom.cpp:373-419 | The level of the first entry that matches |
| DomainLevel.Domains.GenericDomain | delegate/mimekit/gendom.cpp:421-443 | The host is cut in place as the function says |
| StableSort.Unique | delegate/rary/bsort.cpp:24-53 | There is only one sorted and stable order of the records |
| StableSort.FirstSmallest | delegate/rary/bsort.cpp:38-46 | The record taken next comes before all that are left |
| StableSort.Bsort | delegate/rary/bsort.cpp:24-53 | For any total preorder the records are a permutation, sorted, with equal records in their old order |

## Left out

- Memory ordering: the atomic actions of the descriptor table are sequentially consistent here.
- File locks, `fopen` failures and `saveContext`: a locked section is one step, and the cache file can always be opened.
- The bytes of a TLS session are opaque; whether OpenSSL accepts them is a parameter of the loading process.
- `ssl_relay`, certificates, options: I/O.
- Header scanners of the relay (`scan_ctype`, `valuescanX`, `canon_date`) are arbitrary functions; that only a multipart gets a boundary is the one thing taken from them.
- MimeThru.Thru: messages with NUL bytes, which reading drops, with CR inside a line, with mixed line ends, or without a line end at their end are outside it, and so are those with a date that `canon_date` rewrites.
- The relay's cache file, filters, masks, PGP, HTML, alternative unfolding and conversion are off; the temporary file of `readPart` is text in memory; writing never fails.
- HeaderDecoder.Decoder.Decode: headers with "=?" are excluded, because decoding words rests on converters outside this model; the header is of one line-end style.
- HeaderEncoder.Encoder.Encode: ESC, NUL and 8-bit bytes in the header are excluded, and with them the encoding and folding of words.
- PushBack.Reading.EncodeWord: what is encoded is not modelled, only what is read and pushed back; characters are values, not pointers into the ring of eight.
- SLL rules are exactly ALT or SEQ; the parser's trace output.
- `str_to64` and `str_from64`, which cut their output as the quoted-printable string coders do.
- Base64 text with bytes over 127, which index the table by a signed character, is outside this model.
- FILE buffering and the string files behind the string coders: byte sequences.
- CrawlTable.Crawler.ScanUrls: a page is what a function of URL and time says; directories, indexing and the digest are left out, and URLs fit the buffer of 1024 bytes.
- "?" in a pattern of the domain table, which the table does not use and which may read behind the end of a name.
- The lazy filling of static tables: they are filled by constructors.
