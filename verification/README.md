# Fuego: a B-tree, burn records, UPnP streams and a difficulty simulation

A Dafny model of the parts of the Fuego repository whose correctness is hardest to see, with proofs about them.
`dafny verify dfyconfig.toml` checks all of it.

- **The B-tree** (`btree_*.dfy`, `external/parallel_hashmap/btree.h`). Nodes are objects with a parent link, a position,
  a count and two buffers, as in the source; the container is a class over them. The node capacity `K` (at least three)
  and the comparator (any strict weak order) are arbitrary. `Contents()` is the in-order sequence of values, and the rank
  of an iterator is its index there. The pure part (`Tree`, `Flat`, `Before`, `After`, `Rank`) describes linked nodes as
  a finite map. Joining two siblings, cutting a node in two and recutting two siblings are proved there to keep the
  sequence and the rank of every place; merge, split and the two rebalances are then proved to be such steps on the
  objects. Every public operation states the new sequence and where its iterator points.
- **Burn records** (`burn_*.dfy`, `src/BurnTransactionHandler.cpp`, `src/CryptoNoteCore/TransactionExtra.cpp`): the walk
  over an extra field to the first HEAT or YIELD tag, the records behind the tags, the functions that write them, and
  the other functions that read them back; and the same walk where shifts wrap around.
- **UPnP streams** (`codelength`, `minissdp`, `http_*`, `xml_*`, `name_values`; `external/miniupnpc`). Sockets deliver
  their bytes in arbitrary pieces. A method takes a ghost description of a well-formed input, and its contract says how
  the result depends on that input and, where it does, on the pieces. On every input the methods terminate. Where the
  source looks at a byte behind what it has received, the model sets a flag, and the contracts say when.
- **The difficulty simulation** (`dmwda.dfy`, `scripts/dmwda_analysis.py`), over real numbers.

## Model

| member | source | states |
|---|---|---|
| BtreeRuns.Run | external/parallel_hashmap/btree.h:2533-2902 | Every run of insertions, hinted insertions, erasures by iterator, range and key, and clears, from the empty tree, leaves a well-formed tree whose contents are what the same calls leave of a strictly sorted sequence. |
| BtreeRuns.Perform | external/parallel_hashmap/btree.h:2533-2902 | One such call keeps the tree well formed and strictly sorted and changes its contents as it changes the sequence. |
| BtreeRuns.RunMulti | external/parallel_hashmap/btree.h:2593-2902 | The same for containers that may hold equivalent values: the contents are what the calls leave of a sorted sequence. |
| BtreeRuns.PerformMulti | external/parallel_hashmap/btree.h:2593-2902 | One call on such a container. |
| BtreeRuns.WellFormed | external/parallel_hashmap/btree.h:3241-3268 | In a non-empty tree every node holds between one value and its capacity, every child points back to its parent and position, all leaves have the same depth, the root's parent link and `rightmost` are the first and the last leaf, and `size` is the number of values. |
| Btrees.Btree.InsertUnique | external/parallel_hashmap/btree.h:2533-2557 | Inserts exactly when no equivalent key is there, at the one place that keeps the sequence strictly sorted; the iterator points at that place in both cases. |
| Btrees.Btree.InsertHintUnique | external/parallel_hashmap/btree.h:2559-2583 | With any valid hint, right or wrong, the same result as without one. |
| Btrees.Btree.InsertMulti | external/parallel_hashmap/btree.h:2593-2605 | Inserts behind all equivalent values and keeps the sequence sorted. |
| Btrees.Btree.InsertHintMulti | external/parallel_hashmap/btree.h:2607-2628 | With any valid hint the value goes to the hint if it fits there, else behind the next value if it fits there, else behind all equivalent ones; the iterator points at it. |
| BtreeOrdered.HintFollowed | external/parallel_hashmap/btree.h:2607-2628 | The hint is followed exactly when the value fits there, and wherever the value goes it keeps the order. |
| Btrees.Btree.InternalEmplace | external/parallel_hashmap/btree.h:3104-3135 | The value goes in at the rank of the iterator, through growing a small leaf root, rebalancing or splitting where the leaf is full; nothing else moves in the sequence. |
| Btrees.Btree.RebalanceOrSplit | external/parallel_hashmap/btree.h:2904-3003 | Makes room in a full node by moving values to a sibling or by splitting, up to a new root: the sequence stays, nodes on lower levels keep their places, and the returned place has the rank of the given one. |
| Btrees.Btree.RebalanceLeft | external/parallel_hashmap/btree.h:2914-2940 | If values go to the left sibling, the two nodes end up equally full but for one value, or the sibling full when the insertion is at the end of the node. |
| Btrees.Btree.RebalanceRight | external/parallel_hashmap/btree.h:2943-2966 | The same to the right, where the sibling is filled when the insertion is at the start. |
| Btrees.Btree.GrowLeafRoot | external/parallel_hashmap/btree.h:3114-3126 | A full leaf root below the node capacity is replaced by one of twice its size, or of the node capacity if that is less, with the same values. |
| Btrees.Btree.Erase | external/parallel_hashmap/btree.h:2684-2719 | Removes exactly the value at the iterator, in a leaf or in an internal node; the iterator returned points at what followed it. |
| Btrees.Btree.RebalanceAfterDelete | external/parallel_hashmap/btree.h:2721-2759 | Starting from one node that may be too small, the climb ends in a well-formed tree with the same contents, and the iterator keeps its rank. |
| Btrees.Btree.TryMergeOrRebalance | external/parallel_hashmap/btree.h:3016-3068 | A node below the minimum is merged with a sibling if and only if one of the two fits into one node with it; otherwise it may be fed from one. The sequence stays and the place given keeps its rank. |
| Btrees.Btree.BorrowRight | external/parallel_hashmap/btree.h:3042-3048 | The node and its right sibling end up equally full but for one value, which stays with the sibling. |
| Btrees.Btree.BorrowLeft | external/parallel_hashmap/btree.h:3057-3064 | The same with the left sibling; the place moves by as many values as the node gains. |
| Btrees.Btree.TryShrink | external/parallel_hashmap/btree.h:3070-3087 | An empty root is dropped for its only child, or the tree for the empty one; otherwise nothing changes. |
| Btrees.Btree.EraseRange | external/parallel_hashmap/btree.h:2761-2794 | Removes the values between two iterators and returns their number and the iterator to the rest: the contents are those that single erasures at the first rank would leave. |
| Btrees.Btree.EraseSameNode | external/parallel_hashmap/btree.h:2796-2822 | Removes a run of values of one node together with the subtrees between them. |
| Btrees.Btree.EraseFromLeafNode | external/parallel_hashmap/btree.h:2824-2838 | Removes a run of values of a leaf and repairs the tree above it. |
| Btrees.Btree.EraseUnique | external/parallel_hashmap/btree.h:2840-2850 | Removes the equivalent value if there is one and says whether there was. |
| Btrees.Btree.EraseMulti | external/parallel_hashmap/btree.h:2852-2863 | Removes exactly the values between the lower and the upper bound of a key and returns their number. |
| Btrees.Btree.Clear | external/parallel_hashmap/btree.h:2865-2873 | Leaves the empty tree. |
| Btrees.Btree.LowerBound | external/parallel_hashmap/btree.h:3184-3196 | Everything in front of the result is smaller than the key, and nothing from it on. |
| Btrees.Btree.UpperBound | external/parallel_hashmap/btree.h:3198-3210 | Nothing in front of the result is greater than the key, and everything from it on. |
| Btrees.Btree.Find | external/parallel_hashmap/btree.h:3212-3227 | Points at an equivalent value if the tree holds one, and otherwise at the end. It is the first of them in the tree without three-way comparison, and with it the first of its node in a container that may hold several. |
| Btrees.Btree.InternalLast | external/parallel_hashmap/btree.h:3089-3102 | Climbs to the place of the same rank that holds a value; there is none exactly at the end. |
| Btrees.Btree.Increment | external/parallel_hashmap/btree.h:2424-2445 | Goes to the next rank, also from in front of the first value. |
| Btrees.Btree.Decrement | external/parallel_hashmap/btree.h:2447-2468 | Goes to the rank before, and from the first value to in front of it. |
| Btrees.Btree.ForthAndBack | external/parallel_hashmap/btree.h:2424-2468 | Decrementing undoes incrementing, link for link, from every value and from in front of the first one. |
| Btrees.Btree.BackAndForth | external/parallel_hashmap/btree.h:2424-2468 | Incrementing undoes decrementing from every iterator, the end included. |
| Btrees.Btree.Walk | external/parallel_hashmap/btree.h:2424-2445 | Incrementing from the beginning to the end visits the contents in order, each value once. |
| Btrees.Btree.Distance | external/parallel_hashmap/btree.h:2764-2764 | The number of increments between two iterators is the difference of their ranks. |
| Btrees.Btree.Verify | external/parallel_hashmap/btree.h:2892-2902 | The consistency check of the source, with the steps from the root to both ends, succeeds on every well-formed sorted tree, the empty one included. |
| Btrees.Btree.InternalVerify | external/parallel_hashmap/btree.h:3241-3268 | The recursive check succeeds on every subtree between its delimiters and counts its values. |
| BtreeNodes.Node.EmplaceValue | external/parallel_hashmap/btree.h:2137-2159 | Inserts into the value buffer, moves the children behind it up and renumbers exactly those. |
| BtreeNodes.Node.RemoveValue | external/parallel_hashmap/btree.h:2161-2172 | Removes a value and the child behind it and renumbers exactly the later children. |
| BtreeNodes.Node.RebalanceRightToLeft | external/parallel_hashmap/btree.h:2182-2224 | Values and children move from the right sibling through the parent: new contents of the three buffers, and parent and position of every node. |
| BtreeNodes.Node.RebalanceLeftToRight | external/parallel_hashmap/btree.h:2226-2303 | The same in the other direction, both where the moved values fit into initialised slots and where they do not. |
| BtreeNodes.Node.Split | external/parallel_hashmap/btree.h:2305-2344 | The split point by place of insertion, and what the two halves, the parent and all links are afterwards. |
| BtreeNodes.Node.Merge | external/parallel_hashmap/btree.h:2346-2374 | The left node takes over the delimiter and everything of the right one, which is left empty; the parent loses both entries. |
| BtreeNodes.Node.Swap | external/parallel_hashmap/btree.h:2376-2420 | Exchanges the values and the children of two nodes of one kind, of whatever lengths: every child hangs under the other node at the same position, and no other node is touched. |
| BtreeSteps.MoveToLeft | external/parallel_hashmap/btree.h:2182-2224 | On the linked structure this is a recut of the two siblings, at a new delimiter. |
| BtreeSteps.MoveToRight | external/parallel_hashmap/btree.h:2226-2303 | So is this. |
| BtreeSteps.SplitStep | external/parallel_hashmap/btree.h:2305-2344 | On the linked structure splitting is cutting a node in two. |
| BtreeSteps.MergeStep | external/parallel_hashmap/btree.h:2346-2374 | On the linked structure merging is joining two siblings, and the right one falls out. |
| BtreeJoin.JoinCut | external/parallel_hashmap/btree.h:2305-2374 | Joining undoes cutting, on every tree and at every value. |
| BtreeKeep.JoinKeeps | external/parallel_hashmap/btree.h:2346-2374 | Joining two siblings of a tree leaves a tree that spells the same sequence, in which no lower node has moved. |
| BtreeKeep.CutRanks | external/parallel_hashmap/btree.h:2305-2344 | Every place of a node that is cut has its rank in one of the halves. |
| BtreeRecut.RecutKeeps | external/parallel_hashmap/btree.h:2182-2303 | Recutting two siblings leaves a tree that spells the same sequence, in which no lower node has moved. |
| BtreeRecut.RecutRanks | external/parallel_hashmap/btree.h:2182-2303 | Every place of the two siblings has its rank in one of them afterwards; which one follows from the cut. |
| BtreeRank.RankInjective | external/parallel_hashmap/btree.h:2424-2468 | Different places have different ranks, so a rank names one iterator. |
| BtreeOrdered.EraseTimesIsSlice | external/parallel_hashmap/btree.h:2761-2794 | Erasing a slice and erasing its values one by one leave the same values. |
| BtreeSearch.LinearSearch | external/parallel_hashmap/btree.h:1271-1284 | The first value that fails the test. |
| BtreeSearch.BinarySearch | external/parallel_hashmap/btree.h:1304-1319 | On values on which the test is monotone, the same index as the linear search, which separates those that pass from those that fail. |
| BtreeSearch.SearchTo | external/parallel_hashmap/btree.h:1286-1359 | With three-way comparison: a match is reported exactly when there is one, at the lower bound whenever the container allows equivalent values or the values are strict. |
| BurnParser.ParseBurnTransaction | src/BurnTransactionHandler.cpp:76-141 | The walk over the extra field refines the function about which the rows below speak. |
| BurnParser.ReadLength | src/BurnTransactionHandler.cpp:116-130 | The loop over the bytes of a length refines its definition, with the cases where it ends without a length. |
| BurnParser.ExtractAddress | src/BurnTransactionHandler.cpp:263-273 | The leftmost `0x` followed by forty hexadecimal digits, or nothing exactly when there is none. |
| BurnAddress.AddressIff | src/BurnTransactionHandler.cpp:263-273 | What is taken for an address is `0x` and the hexadecimal text of twenty bytes, in any mixture of small and capital letters, and all of these are. |
| BurnRecords.RoundTrip | src/BurnTransactionHandler.cpp:76-260 | A record behind any sequence of well-formed other fields, in front of anything, is parsed into its parts. |
| BurnRecords.OnlyRecords | src/BurnTransactionHandler.cpp:76-260 | An extra field that parses as valid has such a form, and the data are those of its record. |
| BurnRecords.ValidIff | src/BurnTransactionHandler.cpp:63-74 | A valid result if and only if the field holds well-formed fields and then a complete record. |
| BurnRecords.UndefinedIff | src/BurnTransactionHandler.cpp:110-134 | A shift that overflows `int` is reached if and only if a skipped field has five length bytes that spell 2^31 or more. |
| BurnRecords.UndefinedExample | src/BurnTransactionHandler.cpp:110-134 | The shortest input that reaches it. |
| BurnWalk.EndlessIff | src/BurnTransactionHandler.cpp:83-135 | Where shifts wrap around in 32 bits, the walk never ends if and only if it has not ended after as many steps as there are bytes. |
| BurnWalk.WrappedIs | src/BurnTransactionHandler.cpp:116-130 | The size that five length bytes then give is the signed 32-bit number that agrees with what they spell, modulo 2^32. |
| BurnWalk.EndlessIsUndefined | src/BurnTransactionHandler.cpp:110-134 | Only a skipped field with a length of 2^31 or more can lead to that. |
| BurnWalk.EndlessExample | src/BurnTransactionHandler.cpp:110-134 | Six bytes on which the walk never ends: the size of the field is -6. |
| BurnWriter.HeatWriteRead | src/CryptoNoteCore/TransactionExtra.cpp:1239-1262 | A written HEAT record is read back with the first `size mod 256` bytes of its metadata: all of it if and only if it has fewer than 256 bytes. |
| BurnWriter.YieldWriteRead | src/CryptoNoteCore/TransactionExtra.cpp:1319-1366 | A written YIELD record is read back if and only if the metadata has fewer than 256 bytes and stands, with its size, as many bytes behind the chain code as that code says. |
| BurnWriter.YieldWriteReadFits | src/CryptoNoteCore/TransactionExtra.cpp:1319-1366 | That is so when the chain code is one more than the length of the asset name. |
| BurnWriter.YieldWriteReadFails | src/CryptoNoteCore/TransactionExtra.cpp:1319-1366 | A record that is not read back. |
| BurnWriter.AddHeatCommitment | src/CryptoNoteCore/TransactionExtra.cpp:1239-1262 | The writer appends the bytes about which the rows above speak. |
| BurnWriter.AddYieldCommitment | src/CryptoNoteCore/TransactionExtra.cpp:1319-1366 | So does this one. |
| BurnReaders.GetHeatCommitment | src/CryptoNoteCore/TransactionExtra.cpp:1274-1317 | The reader of HEAT records as a function of the bytes. |
| BurnReaders.HeatReadIff | src/CryptoNoteCore/TransactionExtra.cpp:1239-1317 | All written HEAT records with fewer than 256 bytes of metadata are read back from behind some bytes if and only if none of these is the tag. |
| BurnReaders.GetYieldCommitment | src/CryptoNoteCore/TransactionExtra.cpp:1382-1451 | The reader of YIELD records as a function of the bytes. |
| BurnReaders.YieldReadIff | src/CryptoNoteCore/TransactionExtra.cpp:1320-1451 | From a YIELD record that stands first, hash, term, chain code, asset name, metadata and gift are read back, with every 32-bit term, if and only if the three texts have fewer than 256 bytes each. |
| BurnReaders.YieldHidden | src/CryptoNoteCore/TransactionExtra.cpp:1382-1386 | Behind anything that does not begin with the tag it is not found. |
| ByteStrings.HexInjective | src/Common/StringTools.cpp:156-164 | Different bytes have different hexadecimal text, so a parsed hash determines the hash bytes. |
| CodeLength.RoundTrip | external/miniupnpc/codelength.h:17-52 | Every 32-bit length, in front of anything, is decoded from its code, which takes one to five bytes. |
| CodeLength.NoOverflow | external/miniupnpc/codelength.h:17-42 | No input makes a decoded length overflow 32 bits. |
| CodeLength.CodeLengthAt | external/miniupnpc/codelength.h:48-52 | The macro writes the code into the buffer and nothing else. |
| CodeLength.DecodeLengthCheckLimit | external/miniupnpc/codelength.h:37-42 | The bounded decoder refines the definition on the bytes in front of the limit and never reads behind it. |
| MiniSsdp.Socket.ReadCopy | external/miniupnpc/minissdpc.c:137-150 | Copies the next bytes of the stream through refills of the buffer, and fails exactly when the stream is too short. |
| MiniSsdp.Socket.ReceiveDevices | external/miniupnpc/minissdpc.c:258-376 | However the reads split the bytes, the result is a function of their concatenation: the devices read, last first, and the error. |
| MiniSsdp.ReceiveReply | external/miniupnpc/minissdpc.c:258-376 | A reply that encodes a list of devices is received as that list, reversed, from any split into reads. |
| MiniSsdp.ReplyCut | external/miniupnpc/minissdpc.c:258-376 | Every proper prefix of a reply gives exactly the devices that are complete in it, and the error for a bad reply, or for the socket if there is nothing. |
| MiniSsdp.DeviceTexts | external/miniupnpc/minissdpc.c:341-360 | The three strings of a device are read back from its one buffer. |
| MiniSsdp.RequestDevices | external/miniupnpc/minissdpc.c:220-256 | The request that is written, and the error exactly when it does not fit the buffer. |
| HttpHeaders.FindEnd | external/miniupnpc/miniwget.c:136-158 | The scan for the end of the headers as a function of what has been received. |
| HttpHeaders.EndLater | external/miniupnpc/miniwget.c:136-158 | More input never moves an end that has been found. |
| HttpHeaders.LineFeeds | external/miniupnpc/miniwget.c:151-156 | Where lines end in a line feed alone, the end is behind the first two in a row. |
| HttpHeaders.ParseHeaders | external/miniupnpc/miniwget.c:161-227 | The scan over well-formed header lines finds the framing that they and the bytes behind them declare, and says when it reads a number behind what has been received. |
| HttpHeaders.FramingIff | external/miniupnpc/miniwget.c:198-220 | The framing does not depend on what follows the headers if and only if their last field is not a length without anything visible in its value. |
| HttpHeaders.FramingLater | external/miniupnpc/miniwget.c:205-211 | And even then not on what follows the place where the number ends. |
| HttpHeaders.NamesExact | external/miniupnpc/miniwget.c:205-219 | With names that are not the beginning of `content-length` or `transfer-encoding`, the framing is the one that the fields with exactly these names declare. |
| HttpHeaders.NameIff | external/miniupnpc/miniwget.c:205-219 | For every other name there is a value with which it is not. |
| HttpNumbers.AtoiDecimal | external/miniupnpc/miniwget.c:207-207 | A number written in decimal, behind white space and an optional sign and in front of anything but a digit, is read back. |
| HttpNumbers.NamedIff | external/miniupnpc/miniwget.c:205-213 | A name is one of the words if and only if it has its letters, small or capital. |
| HttpNumbers.LengthSaid | external/miniupnpc/miniwget.c:205-211 | The last field taken for a length decides, whatever stands before it. |
| HttpNumbers.Declared | external/miniupnpc/miniwget.c:205-211 | If that is a `Content-Length` with a decimal number, the length of the content is that number. |
| HttpNumbers.ChunkedIff | external/miniupnpc/miniwget.c:212-219 | The content is taken to be chunked if and only if a field with the name of a transfer encoding has a value that begins with `chunked`. |
| HttpText.HexReads | external/miniupnpc/miniwget.c:259-267 | Every number is read back from its hexadecimal text, with small or with capital letters. |
| HttpText.HexLetters | external/miniupnpc/miniwget.c:262-266 | The two may be mixed. |
| HttpText.HexOnly | external/miniupnpc/miniwget.c:249-266 | Nothing else is a digit. |
| HttpChunks.WrittenOk | external/miniupnpc/miniwget.c:236-312 | Any content, divided into pieces in any way, is the content of the chunks that are written for them. |
| HttpChunks.Decoder.Feed | external/miniupnpc/miniwget.c:236-312 | One fragment of chunked content: what is left to do and the content so far always add up to the content that arrives, wherever the fragment begins and ends. |
| HttpChunks.Decoder.ReadDigits | external/miniupnpc/miniwget.c:249-255 | The digits at the front of a fragment are added to those of the size, as long as there is room. |
| HttpChunks.ExtensionCut | external/miniupnpc/miniwget.c:249-258 | So if a fragment begins inside a chunk extension, the size is right if and only if it does not begin with a hexadecimal digit, or both numbers are zero. |
| HttpChunks.ArrivedAll | external/miniupnpc/miniwget.c:236-312 | When nothing is lost, what arrives of the chunks is all their data. |
| HttpResponse.GetResponse | external/miniupnpc/miniwget.c:67-361 | For every split into fragments and every place where the connection ends: exactly the data bytes of the chunks that arrived, or of the body that arrived as many bytes as the number in `Content-Length` says, or all of it if there is none or it is zero; and exactly when a number is read behind what has been received. |
| HttpResponse.OneContent | external/miniupnpc/miniwget.c:67-361 | Unless the headers end in a blank length, any two splits of a response give the same content. |
| HttpResponse.LaterContent | external/miniupnpc/miniwget.c:67-361 | If they do, any two splits in each of which a number ends in what comes with the headers give the same content. |
| HttpResponse.FragmentsMatter | external/miniupnpc/miniwget.c:205-211 | A response of seven bytes, of which only five are kept if two of them come with the headers. |
| HttpResponse.Reader.TakeHeaders | external/miniupnpc/miniwget.c:114-232 | What is left of a fragment behind the headers is never longer than the fragment, so that it fits the buffer it is copied back to. |
| XmlParsing.XmlParser.ParseAtt | external/miniupnpc/minixml.c:40-107 | Reports the attributes of a tag in order and stops at its end; between them and around the equals signs there may be white space, and the quotes are single or double. |
| XmlParsing.XmlParser.ElementData | external/miniupnpc/minixml.c:155-198 | Reports the text of an element when its closing tag follows, or the content of a CDATA section; reads behind the end exactly when only white space, and some, stands in front of a last `<`. |
| XmlParsing.XmlParser.ReadCdata | external/miniupnpc/minixml.c:166-186 | Reports what stands between `<![CDATA[` and the first `]]>`, and goes on to the next tag. |
| XmlParsing.XmlParser.SkipComment | external/miniupnpc/minixml.c:115-129 | Goes behind the first `-->`, and gives up exactly when nothing follows it. |
| XmlParsing.XmlParser.AttValue | external/miniupnpc/minixml.c:66-98 | Reads a quoted value; reads behind the end exactly when the text ends at the equals sign. |
| XmlParsing.XmlParser.ElementName | external/miniupnpc/minixml.c:132-146 | Reads a name without its prefix; reads behind the end exactly when the name runs to the end of the text and its last character is a colon that the loop skips. |
| XmlParsing.XmlParser.ParseElt | external/miniupnpc/minixml.c:111-221 | On every text: reads behind the end only if it ends in `=`, `:` or `<`. |
| XmlParsing.ParseXml | external/miniupnpc/minixml.c:111-229 | For every prefix of a printed document: reads behind its end if and only if the cut stands behind the equals sign of an attribute, the colon of a prefix, or a `<` that only white space separates from an opening tag; and the events are a prefix of those of the document. |
| XmlParsing.ReadsBehind | external/miniupnpc/minixml.c:40-221 | The texts `<a b=`, `<a:` and `<a> <` lead there. |
| XmlParsing.ParseDocument | external/miniupnpc/minixml.c:111-229 | Parsing a printed document, with comments and CDATA sections, behind a declaration and other text, reports the events of its tree in document order and reads nothing behind its end. |
| XmlText.CommentsIff | external/miniupnpc/minixml.c:115-198 | A document is reported as it would be without its comments if and only if none of them stands beside the text of a leaf; that text is then lost. |
| NameValues.TreeRun | external/miniupnpc/upnpreplyparse.c:16-101 | The handlers put the entries of a tree in front of the list, the last one first; an element closed in its own tag waits for the end of its parent. The text of the last port listing that has any is kept. |
| NameValues.EntriesIff | external/miniupnpc/upnpreplyparse.c:16-101 | The entries are the leaves that are not port listings, in order, each with the first 63 characters of its name and the first 127 of its value, if and only if every other element closed in its own tag is the last child of its parent; otherwise some are lost. |
| NameValues.ListingIs | external/miniupnpc/upnpreplyparse.c:74-92 | The port listing that is kept is the text of the last leaf `NewPortListing` that is not empty, and missing exactly when there is none. |
| NameValues.ExactIff | external/miniupnpc/upnpreplyparse.c:16-101 | Where nothing is too long, the entries are under the same condition the leaves themselves. |
| NameValues.SingleLost | external/miniupnpc/upnpreplyparse.c:16-72 | Of two elements closed in their own tags the first is lost and the second is found. |
| NameValues.ParseAndGet | external/miniupnpc/upnpreplyparse.c:103-151 | The value found for a name is that of the last entry with it; under the condition of the previous rows it is the first 127 characters of the last leaf whose name, cut to 63 characters, it is, and missing exactly when no leaf has it. With it the port listing. |
| Dmwda.AverageBounds | scripts/dmwda_analysis.py:152-168 | The weighted average always lies between 48 and 4800, and is 480 if there is nothing to average. |
| Dmwda.AverageChange | scripts/dmwda_analysis.py:152-168 | A change of one block time between 48 and 4800 changes the average over `n` of them by the share `2k / (n (n + 1))`, where `k` is its index. |
| Dmwda.AverageIsFixed | scripts/dmwda_analysis.py:152-168 | Once there are more block times than the window, later ones do not change the average. |
| Dmwda.FixedIff | scripts/dmwda_analysis.py:152-168 | The average is fixed, whatever follows, if and only if there are more block times than the window, or the window is empty. |
| Dmwda.CombinedFixedIff | scripts/dmwda_analysis.py:114-128 | The combined average is fixed if and only if there are more than 120. |
| Dmwda.CombinedIsFixed | scripts/dmwda_analysis.py:114-128 | From index 120 on the combined average is the one at 120, whatever blocks follow. |
| Dmwda.CombinedChange | scripts/dmwda_analysis.py:114-128 | The share of each block time in the combined average at block `i`, from windows of 15, 45 and 120. |
| Dmwda.ConfidenceCancels | scripts/dmwda_analysis.py:120-128 | The confidence cancels out of the weighted combination. |
| Dmwda.RatioKinds | scripts/dmwda_analysis.py:104-132 | The factor is 10 or one tenth in an emergency; otherwise it brings the combined average to 480, between one half and 4. |
| Dmwda.EmergencyIff | scripts/dmwda_analysis.py:104-112 | It is 10 if and only if the last six block times add up to less than 288, and one tenth if and only if they add up to more than 28800. |
| Dmwda.RatioMonotone | scripts/dmwda_analysis.py:104-132 | Shorter block times never give a smaller factor. |
| Dmwda.SteadyRatio | scripts/dmwda_analysis.py:104-132 | With blocks that all take the time `t`, the factor times `t` is 480 for `t` from 120 to 960; outside it is 4 or one half, and 10 or one tenth below 48 and above 4800. |
| Dmwda.NextClose | scripts/dmwda_analysis.py:134-141 | A step goes three tenths of the way to the wanted difficulty, but for less than 1.3, and not below 10000. |
| Dmwda.NextBounds | scripts/dmwda_analysis.py:104-143 | One step keeps the minimum difficulty and changes it by a factor between 0.73, but for rounding, and 3.7. |
| Dmwda.RunBounds | scripts/dmwda_analysis.py:77-143 | So does every step of every run after the protected first blocks. |
| Dmwda.RunMonotone | scripts/dmwda_analysis.py:77-143 | Of two chains the one whose blocks take no longer never has the smaller difficulty. |
| Dmwda.SteadyRun | scripts/dmwda_analysis.py:77-143 | If all blocks take 480, the difficulty stays the initial one. |
| Dmwda.Simulate | scripts/dmwda_analysis.py:77-150 | The first three blocks have the initial difficulty and each later one takes one step from the one before it, within the bounds above and without change at the target time; with them the sums of the block times and the sums of the difficulties. |

## Findings

- The writer of YIELD records (`src/CryptoNoteCore/TransactionExtra.cpp:1319-1366`) puts a chain code, the length of an
  asset name, the name, metadata and a gift behind the term; the parser (`src/BurnTransactionHandler.cpp:194-260`) takes
  the chain code for the length of a scheme name. `BurnWriter.YieldWriteRead` says exactly when a record survives all
  the same, and `YieldWriteReadFails` gives one that does not.
- Both writers cut the size of the metadata down to a byte: 256 bytes or more are not read back whole.
- The other readers of the records (`src/CryptoNoteCore/TransactionExtra.cpp:1274-1317`, `:1382-1451`) do not walk over
  fields: one takes the first byte with the value of its tag for the tag (`BurnReaders.HeatReadIff`), the other looks only
  at the first byte of the extra field (`BurnReaders.YieldHidden`) and never reads the amount.
- `calculate_lwma` (`scripts/dmwda_analysis.py:152-168`) averages the first block times and not the latest ones, so that
  the average stops moving exactly when its window is full (`Dmwda.FixedIff`, `Dmwda.CombinedFixedIff`). The confidence
  has no effect at all (`Dmwda.ConfidenceCancels`). The window for emergencies holds six blocks, though it is declared as
  five, and the factor in an emergency is always one of two numbers (`Dmwda.EmergencyIff`).
- The list made of a UPnP reply loses an element closed in its own tag whenever a sibling follows it
  (`NameValues.EntriesIff`, `NameValues.SingleLost`).
- A comment beside the text of a leaf makes the XML parser lose that text (`XmlText.CommentsIff`).
- The extra field parser shifts into the sign bit of an `int` on lengths of 2^31 or more (`BurnRecords.UndefinedIff`).
  Where such a shift wraps around, the parser can go back and never end (`BurnWalk.EndlessIff`, `BurnWalk.EndlessExample`).
- A `Content-Length` without a visible value at the end of the headers is read from what follows them: the content then
  depends on the fragments, and the number may be read behind what has been received (`HttpHeaders.FramingIff`,
  `HttpResponse.FragmentsMatter`).
- A `Content-Length` of zero does not limit the content (`HttpResponse.GetResponse`).
- A header name that is only the beginning of `content-length` or `transfer-encoding` counts as the whole name
  (`HttpHeaders.NameIff`).
- A fragment that begins inside a chunk extension with a hexadecimal digit changes the size of the chunk
  (`HttpChunks.ExtensionCut`).
- The XML parser looks at the character behind its text in three places. `XmlParsing.ParseXml` says for every document
  that is cut short whether it gets there, and `XmlParsing.ReadsBehind` gives a text for each.

## Left out

- Copying, moving and swapping whole trees, the allocator, exceptions thrown by values, and lookup by other key types.
- BtreeNodes.Node.Internal: the child buffer of a new node starts with arbitrary nodes, where the source leaves it uninitialised.
- Trees whose number of values does not fit `size_t`, and nodes with a capacity below three.
- BurnParser.ParseBurnTransaction: what happens behind a shift that overflows `int` is left open; `BurnWalk` says it for shifts that wrap around.
- BurnWalk.EndlessIff: passes over padding byte by byte, where the source takes a run of it in one step.
- BurnParser.ExtractAddress: the one pattern is matched directly; the regular expression engine is not part of this model.
- Validation of burn amounts, proof generation and the monitoring threads of the burn handler.
- MiniSsdp.ReceiveReply: entries whose sizes add up to 2^32 or more, where the indices of the source wrap around.
- MiniSsdp.Socket.ReceiveDevices: memory never runs out, and `malloc(0)`, which an empty string leads to, does not return null.
- MiniSsdp.RequestDevices: a write always succeeds.
- HttpResponse.GetResponse: the status code, running out of memory and receive timeouts; a response with chunk extensions (but for `HttpChunks.ExtensionCut`), and one with a positive `Content-Length` beside chunks, are read but not described.
- HttpHeaders.ParseHeaders: a `Content-Length` that overflows `int`.
- XmlParsing.ParseXml: attribute values without quotes are read but not described, nor is what is reported of a document that has CDATA sections and is cut short; the character behind the text is taken to be zero.
- NameValues.ParseAndGet: running out of memory, and zero bytes in names.
- BurnReaders.GetYieldCommitment: the fields that are filled before a reader gives up.
- Dmwda.Simulate: `np.std` is an arbitrary function, which is of no consequence, since the confidence cancels; floating point rounding is not modelled.
- The rest of miniupnpc (SSDP discovery, SOAP commands) and of the repository: wallets, the node, consensus and the bundled databases.
