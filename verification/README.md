# Bin-lift gateway: verified model

The gateway talks JSON through a bundled cJSON and delivers "bin lifted" messages to TCP clients over
a blocking ring queue, resending each message until the client acknowledges it. This project models
the two parts of it that carry real invariants, and proves them in Dafny 4.11
(`dafny verify dfyconfig.toml`).

## The JSON engine (`src/cJSON.c`)

- **Specification.** `Json.dfy` gives a tree value and its text (`Render`, formatted and unformatted);
  `Grammar.dfy`, with `Strings.dfy`, `Numbers.dfy` and `Utf8.dfy`, gives the parser's behaviour on
  every byte buffer as functions of position and depth, error positions included. `RoundTrip.dfy` says
  for which trees the text parses back to the tree, `ByteOrderMark.dfy` what a mark in front of a text
  does. The byte encoding is that of section 3 of RFC 3629, surrogate pairs are those of section 2.2 of
  RFC 2781.
- **Texts.** `JsonTexts.dfy`, `StringTexts.dfy` and `NumberTexts.dfy` spell out the texts of RFC 8259, with
  every choice a writer has (blanks, escapes, upper and lower case digits, fractions and exponents), and
  what they stand for, without naming parser or printer. They also say what the parser takes beyond that.
  `AcceptedTexts.dfy` proves that the parser accepts exactly these texts for exactly these values;
  `PrintedTexts.dfy`, `ShortestTexts.dfy` and `PrettyTexts.dfy` say which of them the printer writes. The
  small facts about the grammar that they share are in `ParseFacts.dfy`.
- **Heap.** `CHeap.dfy` models the C heap as an explicit address space of nodes and string blocks. Which
  allocation requests are granted is an arbitrary fixed pattern and requests are counted, so each
  operation owes its success when all its own requests are granted, and must clean up otherwise.
  Accesses, frees and double frees become proof obligations, and "nothing leaked" is an equality of
  heaps. A ghost tree of addresses says which node owns what; sibling lists have NULL-ended `next` links
  and circular `prev` links. `CHeapFacts.dfy` has the framing lemmas, `SoundTrees.dfy` what the data of
  parsed nodes look like.
- **Code.** `Parser.dfy` and `Printer.dfy` are the classes `ParseBuffer` and `PrintBuffer` with the
  methods and loops of the C functions; `TreeOps.dfy` (delete, duplicate), `SiblingList.dfy` (append,
  detach, insert, replace), `Minify.dfy` and `Compare.dfy` likewise. Each method is proved against the
  specification functions, so the theorems about those hold of the code. `Client.dfy` joins printer,
  parser and comparison on the heap.
- **Keys.** `Keys.dfy` says which names are one key, and has the letter loop of `case_insensitive_strcmp`.
- **Theorems that go across.** `MinifyLaws.dfy` gives laws of minifying, one for each kind of token, and
  shows that they determine the filter. `PrintMinify.dfy`: when minifying the formatted text gives the
  unformatted text. `MinifyStrings.dfy` and `MinifyMeaning.dfy`: when a minified text still parses to the
  tree that was printed; `MinifyText.dfy`: the same for texts from elsewhere. `Compare.dfy`: when
  `cJSON_Compare` is equality up to member order.

## The delivery protocol (`src/sg-ringbuffer.c`, `src/sg-tcp.c`, `src/sg-comm.c`)

- `RingBuffer.dfy` is the ring with its array in place; `RingProtocol.dfy` the step system of any
  number of concurrent push and pop calls. A section under the mutex is one step. A condition wait is
  falling asleep, then being signalled, woken without a signal, or timed out, then running again;
  barging and broadcasts are included. A signal rouses at least one sleeper if there is one.
- `ClientTable.dfy` is the client array with growth and swap-removal; `BroadcastProtocol.dfy` puts
  broadcasts, single sends, table changes and the send loop on top of the ring's step system, so that a
  broadcast may be held up inside `rb_push` while it owns `clients_mtx`.
- `Pending.dfy` is the linked list of unacknowledged messages with its pointer-to-pointer splices;
  `AckProtocol.dfy` the runs of `add_pending`, sweeps and acknowledgements in any interleaving.
  `AckRecord.dfy` reads them off their log alone: what a step owes is said by what was logged before.
- `DeliveryOrder.dfy` puts the two together for the callback of a bin lift, which broadcasts a message and
  only afterwards makes it the pending one of every client. A sweep in between sends a client an older
  lift behind the newer one (`DeliveryOrder.OutOfOrder`); `DeliveryOrder.OrderExact` says exactly when,
  and `DeliveryOrder.OrderWhenExcluded` what would rule it out.

## Where the code differs from its own documentation

- `src/include/cJSON.h:168` advises five spare bytes for `cJSON_PrintPreallocated`. The code needs
  exactly two more than the text has, terminator included (`Printer.PrintPreallocated`).
- `cJSON_Minify` takes a quote behind an escaped backslash for an escaped quote, and from there on has
  strings and the text between them the wrong way round. Minifying a formatted text gives the unformatted
  text exactly under the condition of `PrintMinify.MinifyPrinted`. The meaning survives more often: the
  minified text parses back to the printed tree exactly if no string that the filter enters the wrong way
  round has a space or a slash before its first quote (`MinifyMeaning.MinifiedMeaning`). The formatted
  `["\\", null]` loses the first property only, `["\\", "a b"]` both (`MinifyMeaning.MeaningExamples`).
- `cJSON_Compare` can call two equal trees different: if they share no node, it does so exactly if some
  object in them gives one key two different values (`Compare.SameExact`, an example is
  `Compare.DuplicateKeysUnequal`). A key repeated with equal values does no harm.
- Not every text of RFC 8259 comes through: a number of more than 63 bytes is refused, U+0000 in a string
  cuts it short, and nesting is limited. `AcceptedTexts.Rfc8259` says that there are no other exceptions.
- `skip_utf8_bom` looks for a byte order mark only where there are five bytes, so that a mark before a
  text of one byte is an error (`ByteOrderMark.MarkIgnored`).

## Model

| member | source | states |
|---|---|---|
| Utf8.Utf8RoundTrip | src/cJSON.c:733-778 | for every scalar value the bytes written are the only bytes that a strict UTF-8 decoder maps to it |
| Utf8.Utf16LiteralCorrect | src/cJSON.c:671-731 | an escape with well-formed digits, whatever follows it, is accepted exactly when it spells a scalar value in UTF-16, alone or with the next escape, with that value and length |
| Utf8.LoneSurrogateRejected | src/cJSON.c:691-722 | a low surrogate, or a high one with no low one behind it, is refused |
| Utf8.BitOperations | src/cJSON.c:634-778 | every mask and shift of the two functions is the arithmetic of the model |
| Utf8.ParseHex4 | src/cJSON.c:634-668 | each spelling of a code unit, with each digit in either case, gives that unit; a byte that is no hexadecimal digit gives 0 |
| Utf8.HexSpelling | src/cJSON.c:634-668 | the digits 0-9, a-f and A-F are worth what they are to the base 16, wherever they stand |
| Utf8.WriteUtf16Literal | src/cJSON.c:671-789 | the literal is decoded and its UTF-8 bytes written from last to first, nothing else is touched, 0 exactly on refusal |
| Strings.ScanLiteral | src/cJSON.c:805-832 | the sizing loop finds the closing quote and counts the backslashes it skips, or runs out of buffer |
| Strings.SizingSufficient | src/cJSON.c:805-896 | on every input, malformed escapes included, the decoded bytes and the terminator fit the block of the first pass |
| Strings.DecodeBound | src/cJSON.c:805-886 | the bound behind it, wherever the two passes pair backslashes differently |
| Strings.DecodeLiteral | src/cJSON.c:834-896 | the decoding loop writes inside the block only, leaves the decoded bytes with a terminator, or stops at the failing position |
| Strings.StringRoundTrip | src/cJSON.c:922-1041 | a printed string parses back to itself, up to just behind its closing quote |
| StringTexts.ScanFinds | src/cJSON.c:805-832 | a literal ends at its first quote with an even number of backslashes directly before it |
| StringTexts.LiteralReads | src/cJSON.c:792-903 | each literal of section 7 of RFC 8259 reads as the characters it stands for, whichever of its ways each character is written in |
| StringTexts.LenientReads | src/cJSON.c:792-903 | so does each literal with what the parser takes beyond that: raw control characters, and `\u` with digits that are none |
| StringTexts.ReadsLiteral | src/cJSON.c:792-903 | and nothing else reads as a string |
| NumberTexts.NumberReads | src/cJSON.c:307-381 | a number that no number byte follows reads as what it stands for, and to its end, exactly if it has at most 63 bytes |
| NumberTexts.ReadsNumberAt | src/cJSON.c:307-381 | whatever reads as a number is the text of one, of at most 63 bytes, for its value |
| NumberTexts.DecimalForm | src/cJSON.c:582-586 | the printed int is the only text converted to that int that has a minus sign exactly if it is negative and no leading zero |
| Numbers.StrtodDecimal | src/cJSON.c:582-586 | the conversion of a printed int is that int, all of its bytes used |
| Numbers.NumberRoundTrip | src/cJSON.c:307-381 | a printed int that no number byte follows is read back exactly, within the 63-byte copy |
| Grammar.ValueNesting | src/cJSON.c:1465-1475 | nothing that parses is nested deeper than CJSON_NESTING_LIMIT or holds raw text |
| AcceptedTexts.ValueReads | src/cJSON.c:1336-1740 | at any position each text, of RFC 8259 or lenient, nested as deep as the limit allows and with numbers of at most 63 bytes, reads as the tree it stands for, strings cut at a U+0000 |
| AcceptedTexts.ValueRefused | src/cJSON.c:1336-1740 | one that is nested deeper or has a longer number is not read to its end |
| AcceptedTexts.ReadsValue | src/cJSON.c:1336-1740 | what reads as a value is one of these texts, for its tree |
| AcceptedTexts.DocumentExact | src/cJSON.c:1115-1192 | with `require_null_terminated` the parser accepts exactly these texts with blanks around them, a mark or not before them, and the terminator behind, and stores what they stand for, strings cut at a U+0000 |
| AcceptedTexts.PrefixExact | src/cJSON.c:1115-1192 | without it, what is read is such a text at the start of the buffer, up to its end; and each such start is read if what follows cannot go on with it |
| AcceptedTexts.Rfc8259 | src/cJSON.c:1115-1192 | a text of RFC 8259 comes through for its tree exactly if it is nested at most CJSON_NESTING_LIMIT deep, has no number of more than 63 bytes, and has no U+0000 in its strings |
| PrintedTexts.PrintedText | src/cJSON.c:1391-1854 | what is printed for a tree, formatted or not, is a text of RFC 8259 that stands for that tree |
| ShortestTexts.UnformattedShortest | src/cJSON.c:1391-1854 | the unformatted text is the shortest of RFC 8259 for its tree with whole numbers written out, and the only one of its length with `\u` escapes in lower case |
| PrettyTexts.FormattedIsPretty | src/cJSON.c:1391-1854 | the formatted text is the unformatted one with members on lines of their own, a tab for each open container, a tab behind colons and a space behind the commas of arrays |
| RoundTrip.ValueRoundTrip | src/cJSON.c:1336-1854 | a printed value parses back at any position and depth the limit allows, ending where its text ends |
| RoundTrip.DocumentRoundTrip | src/cJSON.c:1115-1192 | printed text with its terminator parses with `require_null_terminated`, is consumed up to the terminator, and gives the same tree in the same order |
| RoundTrip.DocumentRoundTripExact | src/cJSON.c:1115-1192 | a printable tree comes back exactly if it has no raw text and is nested at most CJSON_NESTING_LIMIT deep |
| RoundTrip.RenderInjective | src/cJSON.c:1391-1854 | different trees without raw text have different texts, also across the two formats and however deep they are nested |
| CHeap.Memory.Allocate | src/cJSON.c:241-251 | succeeds exactly if this request is granted; a refusal changes nothing, otherwise exactly one unused address is added |
| CHeap.Memory.Free | src/cJSON.c:253-276 | only a live address can be freed, and nothing else changes |
| Parser.ParseBuffer.SkipWhitespace | src/cJSON.c:1058-1081 | stops at the first non-blank, or at the last byte, and never moves back behind its start |
| Parser.ParseBuffer.SkipBom | src/cJSON.c:1084-1097 | skips a byte order mark at offset 0 only where a fifth byte follows |
| ByteOrderMark.MarkIgnored | src/cJSON.c:1084-1192 | a mark before a text changes nothing but positions, except before a text of fewer than two bytes or one that has a mark already, which are refused |
| ByteOrderMark.ValueLater | src/cJSON.c:1336-1388 | what the parser does at a position depends on the bytes from there on only |
| Parser.ParseBuffer.ParseNumber | src/cJSON.c:307-381 | value, saturated int and offset as the number grammar says; failure changes nothing |
| Parser.ParseBuffer.ParseString | src/cJSON.c:792-903 | text and offset as the string grammar says, unless its one request is refused; a failure frees the block again and reports the position |
| Parser.ParseBuffer.ParseValue | src/cJSON.c:1336-1388 | unless a request is refused, exactly what the grammar says; success restores the depth and owns exactly the new tree, of sound nodes; failure leaves the heap as it was |
| Parser.ParseBuffer.ParseArray | src/cJSON.c:1465-1560 | the same for arrays: the elements in order, linked both ways, the head's `prev` at the tail |
| Parser.ParseBuffer.ParseObject | src/cJSON.c:1625-1740 | the same for objects, with keys moved from `valuestring` to `string` and none of them NULL |
| Parser.DeleteList | src/cJSON.c:1551-1555 | the list built so far is freed exactly |
| Parser.Parse | src/cJSON.c:1115-1192 | if all its requests are granted it succeeds exactly on the documents, with the tree, end and error position of the grammar; every node has a valid kind, the strings its kind asks for, and number fields in step; at most two requests more than bytes; a failure leaves the heap as it was and a success adds exactly the new tree, under any pattern of refusals |
| Printer.SoundKnown | src/cJSON.c:1391-1462 | a parsed tree is one that the printer accepts |
| Compare.SoundProper | src/cJSON.c:3030-3061 | and one that the comparison accepts |
| Parser.ParseThenDelete | src/cJSON.c:253-276 | parsing and deleting gives the heap back, whatever the text and the refusals; with all requests granted there was a tree in between exactly for the documents |
| Printer.PrintBuffer.Ensure | src/cJSON.c:458-541 | room for the request and one byte, printed prefix kept, capacity more than doubled below INT_MAX/2; a request is turned down only in a fixed buffer without room, beyond INT_MAX, or when an allocation is refused, which frees the buffer |
| Printer.PrintBuffer.UpdateOffset | src/cJSON.c:544-554 | moves exactly to the end of the text |
| Printer.PrintBuffer.HandOver | src/cJSON.c:1242-1272 | a failed print has given back every block it took, a successful one leaves exactly the block of the text |
| Printer.PrintBuffer.PrintString | src/cJSON.c:922-1041 | writes the quoted, escaped text inside the buffer, or there was no room for it and two bytes |
| Printer.CountEscapes | src/cJSON.c:946-976 | the first pass counts exactly the bytes that escaping adds |
| Printer.EscapeQuoted | src/cJSON.c:994-1041 | the escaping loop writes exactly the rendering and its terminator |
| Printer.PrintBuffer.PrintNumber | src/cJSON.c:564-631 | an int-valued number is written as `%d`: a minus sign exactly if it is negative, digits only, no leading zero |
| Printer.PrintBuffer.PrintValue | src/cJSON.c:1391-1462 | success appends exactly the rendering at the current depth; failure means there was no room for it and two bytes |
| Printer.PrintBuffer.PrintArray | src/cJSON.c:1563-1622 | the same for arrays |
| Printer.PrintBuffer.PrintObject | src/cJSON.c:1743-1854 | the same for objects |
| Printer.PrintPreallocated | src/cJSON.c:1316-1333 | succeeds if and only if the buffer has room for the text and two bytes; it asks for no memory and leaves every byte behind the given length alone |
| Printer.PrintBuffered | src/cJSON.c:1285-1313 | with all requests granted it succeeds exactly for a text that fits an `int` with two bytes more, from any first capacity, with and without `realloc`; the block holds the rendering and is all that is new in the heap, and a failed call leaves nothing |
| Printer.Print | src/cJSON.c:1207-1273 | the same in a block of exactly the text and its terminator |
| Client.PrintAndParse | src/cJSON.c:1115-1273 | with all requests granted, a printed tree that fits an `int` comes back as a new sound tree of the same value that shares nothing with it, and that `cJSON_Compare` takes for the original exactly if no object gives one key two values; otherwise the heap is as before; the text block is freed either way |
| Client.PrintAgain | src/cJSON.c:1115-1273 | the tree that came back prints to the text of the original |
| Client.Reformat | src/cJSON.c:1115-1273 | reading a text and writing it again works exactly for documents whose text fits, keeps their value, and leaves exactly the new text in the heap |
| TreeOps.Delete | src/cJSON.c:253-276 | frees exactly what the listed trees own, every address once |
| TreeOps.Duplicate | src/cJSON.c:2747-2831 | a new, disjoint tree with the same data, no reference flags, linked lists; with all requests granted it fails exactly if the child pointers go on below CJSON_CIRCULAR_LIMIT, cyclic ones included; failure leaves nothing allocated |
| TreeOps.CutView | src/cJSON.c:2789-2795 | a finite tree counts as complete at the limit exactly if it is at most that deep |
| TreeOps.SpiralUnfolds | src/cJSON.c:2789-2795 | a node that is its own child is never complete, so that duplicating it fails |
| TreeOps.CycleHasNoView | src/cJSON.c:2789-2795 | an item from which child lists lead into any cycle has no complete unfolding, so that duplicating it fails |
| TreeOps.CopyValue | src/cJSON.c:2747-2831 | a copy stands for the same value, members in the same order |
| Compare.CopyComparesEqual | src/cJSON.c:2747-2831 | a recursive copy compares equal to its original, both ways round, exactly if no object in it gives one key two values |
| Compare.ParsedComparesEqual | src/cJSON.c:3030-3153 | a parsed tree compares equal to any older tree of the same value exactly if no object in it gives one key two values |
| SiblingList.GetArrayItem | src/cJSON.c:1880-1897 | reads the mathematical list at the index, NULL behind its end |
| SiblingList.GetArraySize | src/cJSON.c:1857-1878 | the length of the list, as a C `int` |
| SiblingList.AddItem | src/cJSON.c:1985-2016 | the list becomes the old list with the item at its end; only sibling links and the child pointer have changed in the heap; the container stands for its old value with the item appended |
| SiblingList.DetachItem | src/cJSON.c:2216-2250 | the list loses exactly that element, which is a detached tree of unchanged value; only links have changed; the container stands for its old value without the element |
| SiblingList.InsertItem | src/cJSON.c:2292-2324 | the item stands before the old element at the index, or at the end; only links have changed; the container stands for its old value with the item inserted |
| SiblingList.ReplaceItem | src/cJSON.c:2326-2373 | exactly that element is exchanged, and exactly what it owned is freed; of the rest only links have changed; the container stands for its old value with the element exchanged |
| SiblingList.OperationLaws | src/cJSON.c:2216-2373 | on values, removing what was inserted gives the old value back, and exchanging is removing and inserting |
| SiblingList.DetachStep | src/cJSON.c:2226-2247 | the pointer writes of a detach, for every position, keep `next`, `prev` and `child->prev == last` |
| SiblingList.InsertStep | src/cJSON.c:2307-2322 | the same for an insert before an element |
| SiblingList.ReplaceStep | src/cJSON.c:2338-2366 | the same for a replacement, first, last and only child included |
| Minifier.MinifyInPlace | src/cJSON.c:2882-2928 | the array ends up with the filtered text, of which `MinifyLaws` says everything, and a terminator; no unread byte is overwritten, also for unclosed strings and comments |
| MinifyLaws.MinifyObeys | src/cJSON.c:2833-2928 | for every text: the four blanks go and other bytes stay; a line comment goes up to its newline, a block comment up to its first `*/`, an unclosed one to the end; a lone slash goes; a string stays up to the first quote with no backslash directly before it |
| MinifyLaws.LawsDetermine | src/cJSON.c:2833-2928 | a filter that obeys these laws is the minifier, on every text |
| Minifier.CopyString | src/cJSON.c:2860-2880 | a string token is moved down byte for byte, an escaped quote by two |
| Minifier.MinifyIdempotent | src/cJSON.c:2882-2928 | minifying twice is minifying once, for every input |
| PrintMinify.MinifyPrinted | src/cJSON.c:2860-2928 | minifying the formatted text gives the unformatted text exactly if no string or key but one that ends the text ends in a backslash |
| PrintMinify.MinifyPrintedFails | src/cJSON.c:2874-2879 | a tree for which the two texts differ |
| MinifyMeaning.MinifiedMeaning | src/cJSON.c:2860-2928 | a printed text, formatted or not, parses to the printed tree after minifying exactly if no string that the filter enters the wrong way round has a space or a slash before its first quote |
| MinifyStrings.StringMeaning | src/cJSON.c:2860-2880 | a string token in the minified text reads as itself with the rest of the text behind it, or as something else exactly where the filter took a blank or a comment out of it |
| MinifyMeaning.MeaningExamples | src/cJSON.c:2874-2879 | one tree whose texts differ but keep the meaning, one whose meaning is lost |
| MinifyText.MeaningKept | src/cJSON.c:2860-2928 | any text the parser accepts keeps its value if nowhere two backslashes stand before a quote, with other blanks, escapes and numbers than this program prints |
| MinifyText.TokenKept | src/cJSON.c:2860-2880 | in such a text a string is kept byte for byte and reads the same wherever the rest of the text moves to |
| Compare.GetObjectItem | src/cJSON.c:1909-1939 | the first member with the name, byte for byte or up to the case of letters; a nameless member stops the case-sensitive search only |
| Keys.FoldKeys | src/cJSON.c:133-154 | names are one key exactly if they are equal, or, without regard to case, if they are equally long and differ at most in the case of letters A to Z |
| Keys.CaseCompare | src/cJSON.c:133-154 | the loop gives 0 exactly for names that are one key without regard to case, otherwise the difference of the first letters that differ; a NULL name is never equal |
| Compare.CompareItems | src/cJSON.c:3030-3153 | decides the comparison relation on any two trees, shared ones included |
| Compare.CompareMembers | src/cJSON.c:3113-3146 | every member of one object is found in the other and compares equal |
| Compare.CompareIntValued | src/cJSON.c:557-561 | on int-valued numbers the relative tolerance never matters |
| Compare.CompareUlps | src/cJSON.c:557-561 | two numbers of 53 bits in the same unit compare equal exactly if they differ by at most one unit in the last place of the larger; signs have to agree |
| Compare.SameExact | src/cJSON.c:3030-3153 | on any two trees without a node in common the comparison holds exactly if neither has an object that gives one key two values and the values are equal up to member order and the case rule |
| Compare.SameIsEqual | src/cJSON.c:3030-3153 | on trees in which no object gives one key two values, also where they share nodes, the comparison holds exactly if the values are equal up to member order and the case rule |
| Compare.NormUnordered | src/cJSON.c:3113-3146 | the canonical form behind it does not depend on the order of members |
| Compare.SameEquivalence | src/cJSON.c:3030-3153 | on trees in which no object gives one key two values it is reflexive, symmetric and transitive |
| Compare.DuplicateKeysUnequal | src/cJSON.c:3117-3130 | two well-formed trees of equal value, apart in the heap, that compare different because a key has two values, though each compares equal to itself |
| RingBuffers.RingBuffer.Push | src/sg-ringbuffer.c:30-39 | waits exactly at capacity; otherwise appends to the stored items, in place |
| RingBuffers.RingBuffer.Pop | src/sg-ringbuffer.c:67-77 | waits exactly when empty; otherwise takes the oldest item |
| RingBuffers.PutAppends | src/sg-ringbuffer.c:34-36 | `tail == (head + cnt) % cap` is kept and nothing stored is overwritten |
| RingBuffers.DropRemoves | src/sg-ringbuffer.c:71-73 | advancing `head` removes the item that stood there, the oldest |
| RingProtocol.NextPreserves | src/sg-ringbuffer.c:30-103 | every step of every call keeps the invariant and the capacity, and logs only grow |
| RingProtocol.QueueIsFifo | src/sg-ringbuffer.c:30-103 | in every state of every run the items taken are a prefix of the items stored and the ring holds the rest |
| RingProtocol.ExactlyOnce | src/sg-ringbuffer.c:41-103 | a call that went through moved exactly its one item; one that returned 0 was timed and moved nothing |
| RingProtocol.SleepersCovered | src/sg-ringbuffer.c:30-103 | while a call of a side sleeps, no more calls of that side could go through than are signalled and have not run |
| RingProtocol.NobodySleepsInVain | src/sg-ringbuffer.c:30-103 | with no signal under way sleeping consumers mean an empty ring, sleeping producers a full one, and never both |
| ClientTables.ClientTable.Accept | src/sg-tcp.c:83-90 | appends the client; the array is replaced only when full, by 16 entries or twice as many |
| ClientTables.ClientTable.Cleanup | src/sg-tcp.c:44-56 | swap-removes the first entry of the client, or nothing |
| ClientTables.SwapRemovedTakesOne | src/sg-tcp.c:48-53 | exactly one occurrence goes, all other entries stay, and only the last one moves, to the place of the first occurrence |
| ClientTables.ClientTable.Broadcast | src/sg-tcp.c:234-241 | the loop pushes one copy per table entry in table order behind what was there, and changes nothing else |
| ClientTables.ClientTable.GetClients | src/sg-tcp.c:243-254 | the count and a copy of the table, or -1 and no list exactly when the allocation fails |
| BroadcastProtocol.NextPreserves | src/sg-tcp.c:223-241 | every interleaving of broadcasts, single sends, queue steps and table changes keeps the invariant |
| BroadcastProtocol.OneCopyEach | src/sg-tcp.c:234-241 | a finished broadcast has queued exactly one copy per entry of the table it started with, in table order |
| BroadcastProtocol.CopiesCarryTheData | src/sg-tcp.c:223-241 | every copy carries the bytes of its broadcast |
| BroadcastProtocol.SameOrderForAll | src/sg-tcp.c:129-241 | all copies of one broadcast are queued and popped before all copies of the next, whatever comes between |
| PendingList.AckList.Add | src/sg-comm.c:103-131 | the client's older messages leave the list and the new one stands at its head |
| PendingList.AckList.RemoveClient | src/sg-comm.c:113-124 | the splice loop is the filter on the client |
| PendingList.AckList.Sweep | src/sg-comm.c:148-163 | acknowledged and exhausted messages go, due ones are sent in list order with counter and time updated, the rest stays |
| PendingList.AckList.Ack | src/sg-comm.c:283-289 | the first entry with the client's descriptor and the message's own count is marked and nothing else changes |
| AckProtocol.SweepSends | src/sg-comm.c:157-161 | the events of a sweep name exactly the messages handed to `SgTcpServer_send` |
| AckProtocol.StepPreserves | src/sg-comm.c:103-168 | every step keeps the protocol invariant |
| AckProtocol.OnePerClient | src/sg-comm.c:103-131 | in every run at most one message of a client is pending, so the acknowledgement that stops at the first match marks every match |
| AckProtocol.ResendLimits | src/sg-comm.c:141-168 | a message is sent again at most MAX_RETRIES times, at readings at least TIMEOUT_SEC apart |
| AckProtocol.ResendsAreCurrent | src/sg-comm.c:103-168 | what is sent again is the client's newest message, unchanged, never acknowledged or dropped before |
| AckProtocol.GoneBySweep | src/sg-comm.c:144-163 | with sweeps a second apart a message is gone by sweep 3 * TIMEOUT_SEC + 2, counted from the first whose clock has reached its own reading |
| AckProtocol.StillThere | src/sg-comm.c:144-163 | one sweep fewer is not enough |
| AckRecord.LogExact | src/sg-comm.c:103-168 | in every run each step records exactly what the log before it asks for: an acknowledgement of the waiting message that was sent to that client with that count and of no other, a resend of every waiting message that is timed out, unacknowledged and not used up, the drops of acknowledged, used-up and replaced ones |
| AckRecord.ListExact | src/sg-comm.c:103-168 | the list holds exactly the waiting messages, once each, as they were sent, and the mark stands exactly where an acknowledgement was recorded |
| AckRecord.AckMarks | src/sg-comm.c:283-289 | an acknowledgement changes the mark of the message that went to its client with its count, and of no other |
| AckRecord.AckedExactly | src/sg-comm.c:283-289 | a message counts as acknowledged exactly if an acknowledgement with its client and its count came while it waited |
| AckRecord.SentAgain | src/sg-comm.c:148-163 | without one, each sweep at least five seconds after its last sending sends it again, unchanged, until it has been sent three times more, and only then is it dropped |
| DeliveryOrder.QueuedCopies | src/sg-comm.c:306-325 | in every run each queued copy and each pending message has the bytes of its lift, and a broadcast has queued one copy for each entry of the table, in table order, when it lets the table go |
| DeliveryOrder.OrderExact | src/sg-comm.c:306-325 | in every interleaving of callback, sweeps, acknowledgements and table changes each client is queued its lifts in order exactly if no sweep pushes a message for a client that a broadcast has already queued a newer one for |
| DeliveryOrder.OrderWhenExcluded | src/sg-comm.c:306-325 | it does if sweep and callback exclude each other and the table is read as it was broadcast to |
| DeliveryOrder.OutOfOrder | src/sg-comm.c:315-319 | a run in which a client is queued lift 0 again behind lift 1 |
| DeliveryOrder.ListRuns | src/sg-comm.c:103-168 | the pending list of every such run goes through a run of the acknowledgement protocol, whose theorems so hold there |
| DeliveryOrder.AgainIsSent | src/sg-comm.c:157-161 | what a sweep pushes is what it hands to `SgTcpServer_send`, in list order |

## Left out

- Numbers.Strtod: an exact decimal conversion over `real`; the rounding of `strtod`, infinities, NaN and the locale's decimal point are not modelled, so only int-valued numbers are printed.
- Printer.PrintBuffer.PrintNumber: the `%1.15g` / `%1.17g` branches of `print_number` for other numbers, and nodes whose `valueint` disagrees with their `valuedouble`.
- Printer.PrintBuffered: capacity 0 without `realloc`, where the code copies one byte out of an empty block. While a buffer grows its bytes are in a Dafny array beside its heap block.
- Parser.Parse: a NULL text; `cJSON_Parse` and the other wrappers, which only compute the length.
- MinifyText.MeaningKept: that texts with two backslashes before a quote can keep their value too; when they do is said exactly for printed texts (`MinifyMeaning.MinifiedMeaning`).
- DeliveryOrder.OrderExact: the queue is the log of its pushes, in whose order `RingProtocol.QueueIsFifo` takes them out; the wait inside a push is not repeated here.
- Compare.SameExact: trees with int-valued numbers, strings that are not NULL, and members that have names, as the parser builds them.
- Compare.GetObjectItem: `strcmp` is equality of C strings, and `tolower` is that of the C locale.
- Grammar.Document: of the error position only that it is the offset where the functions of the code stop; nothing independent of them is proved about it.
- SiblingList.InsertItem: a list inserted before one of its own children, which the code does not refuse.
- SiblingList.DetachItem: an item that belongs to some other list, which the code does not detect.
- SiblingList.ReplaceItem: an item that is no child of the parent, which the code does not check.
- TreeOps.Duplicate: reference nodes and constant names are copied as the code does it, but creating references (`create_reference`, `cJSON_AddItemReference*`) is not part of the model.
- RingBuffers.RingBuffer.Push: the critical section only; waiting is in `RingProtocol`, and the computation of the deadline is a free choice of when a wait times out.
- BroadcastProtocol.OneCopyEach: failed allocations in `SgTcpServer_send`, and progress: a broadcast blocked in `rb_push` holds `clients_mtx`, which the send loop may want; only order and completeness are claimed.
- PendingList.AckList.Add: failed allocations, and whether the count and the message belong together, since the caller reads the count outside its lock; both are arguments.
- Bytes shifted and masked are written as arithmetic on integers, justified by `Utf8.BitOperations`.
- `valueint` saturates; overflow of `size_t` in the parser's and printer's additions is not modelled beyond the INT_MAX checks the code makes.
- Hooks and their setup, error pointer, version string, type predicates, constructors and the `cJSON_Add*ToObject` family: no deep invariant.
- Object replacement and detachment by key, and `cJSON_SetValuestring`: combinations of the modelled operations.
- Sockets, epoll, eventfd, thread start and stop, reuse of descriptors after `close`: operating system behaviour.
- Parsing of client commands, the query and clear handlers, GPIO, shared memory, logging and files (`src/main.c`, `src/sg-gpio.c`, `src/sg-gpio-monitor.c`, `src/sg-log.c`).
