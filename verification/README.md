# Model of the Pico W web device

A Dafny model of the parts of the device firmware that carry its hard promises, with proofs about them:
the JSON engine (`cJSON.c`), the flash log (`ring_buffer.c`) and the credential store on it
(`flash_io.c`), the exchange of versioned state between buddy devices (`json_handler.c`, `tcp_json.c`,
`picow_web.c`), the DHCP lease table (`dhcpserver/dhcpserver.c`), and the scan list with its sort
(`cdll.c`, `find_local_ssid.c`). `dafny verify dfyconfig.toml` checks everything.

Code that changes things in place is modelled in place: classes with the source's fields and methods
with its loops, each proved against a function of the old state; the laws are then lemmas about those
functions. Bytes are integers below 256, sizes are unbounded with the source's widths written out where
they matter. Numbers of a JSON value are reals; the printer is modelled for 32-bit integers, which is
the `%d` path.

| files | what they hold |
|---|---|
| `Bytes`, `Bits` | bytes, C strings, "text stands at offset"; bitwise and, or, shifts |
| `JsonValue`, `JsonParser`, `JsonReader`, `JsonStrings` | values and their text; the parser as a function; the parser as it runs; string decoding |
| `JsonTokens`, `JsonGrammar` | numerals and literals; the texts that the parser reads, all of them and no others |
| `JsonRoundTrip`, `JsonReparse`, `JsonPrinter`, `JsonCompare`, `ChildList` | printed text as such a text, and round trips; the print buffer; comparison; sibling lists on the heap |
| `Mirror`, `Device`, `Gossip`, `BuddyLists` | messages and one exchange; a device; runs of many devices; the buddy list that the JSON carries |
| `Transport`, `Broadcast` | reassembly of segments; several requests from one buffer |
| `Dhcp` | leases, expiry in truncated wrapping ticks, options, packets and their replies |
| `Cdll`, `ApScan` | circular list, bubble sort, access points |
| `RingFormat`, `RingCrc` | headers and check bits; the check as a polynomial division, and what it finds |
| `RingWalk`, `RingImage`, `RingFlash` | following headers; what a write does to a sector; NOR flash |
| `RingSpec`, `RingAppend`, `RingHistory`, `RingCheck` | append on any image; append on well-formed rings; runs of appends and reading back; the check of the ring |
| `RingRead`, `RingRecords`, `RingDelete`, `RingDevice` | reads and searches on the log; what they return; deletion; the ring buffer as it runs |
| `SsidStore`, `FlashIo` | credentials in the log; the operations on them |

## What the proofs say about the code

Where the code does not do what its comments intend, the model follows the code:

- A record that spans two sectors gets its second part from the wrong place of the caller's data
  (ring_buffer.c:459). It is right for all data exactly when both parts have the same length
  (`RingHistory.SecondPartRight`).
- A record that ends exactly with its sector is followed by an empty record of the same length
  (`RingHistory.CutRecord`). A cut record is read back as one record joined from both parts, or as two when
  the first part already fills the read (`RingHistory.AppendedCutIsReadLast`); it comes back as it was written
  exactly when it does not end with its sector and its second part holds the rest
  (`RingHistory.CutReadsRight`).
- A refused append has changed the flash exactly when the record is too long for any sector, the ring
  is full and it may be erased: then the oldest sector is gone (`RingAppend.AppendOutcome`).
- A new record is read last exactly when no earlier read runs past a deleted continuation; then it is
  glued to an older record (`RingRecords.NewRecordIsReadLast`). Two appends and one deletion lead there
  (`RingHistory.DanglingRingIsReachable`).
- rb_delete refuses to work while sector 0 is unused (`RingDevice.RingBuffer.Delete`). Rings that only
  the program wrote use sector 0 as soon as anything is stored (`FlashIo.SectorZero`,
  `FlashIo.AppendKeepsSettled`).
- The check of a full ring that does not start at sector 0 reads one header behind the area
  (ring_buffer.c:312). It passes exactly when that is no sector header or its index fits in between
  (`RingCheck.CheckPasses`); otherwise opening the ring erases it.
- That check asks for rising sector indices only while no sector is erased: its second pass starts at an erased
  sector and stops there (`RingCheck.CheckMeans`).
- Besides the texts of RFC 8259 the parser takes numerals with leading zeros, with a point that no digit follows,
  and without digits between a minus and the point; it takes every byte up to 32 for white space; and a `\u` that
  four hexadecimal digits do not follow ends the string. It reads nothing else
  (`JsonGrammar.EveryTextIsRead`, `JsonGrammar.OnlyTextsAreRead`). As NUL is white space too, a required
  terminator is found only at the very end of the buffer.
- A message that states a length of two gigabytes or more is taken for complete behind its header
  (`Transport.HugeSizeIsComplete`).
- A broadcast to several buddies sends from the buffer that replies come into. A request that leaves
  after the first bare-header reply has reached the size field is never handled
  (`Broadcast.SecondRequest`, `Broadcast.NextRequestIsLost`). Two such losses leave the third of three devices
  behind although all are on the list and nothing is left to broadcast (`BuddyLists.LostRequestsSplit`). A
  device owes a buddy a version that it has broadcast, the buddy does not have, and no request under way
  brings. From a state in which nothing is owed, a step leaves it so exactly when the mirror it broadcasts can
  be sent or is not needed, and the request it loses is not needed (`Gossip.StepKeepsInv`). Only other
  broadcasts and losses make a debt (`Gossip.OwedByUnsmooth`, `Gossip.OwedHasCause`), and a debt ends when the
  buddy gets the version by any way (`Gossip.OwedUntil`). With nothing left to broadcast, devices that their
  last broadcasts connect have equal counters exactly when nothing is owed (`Gossip.QuiescentCountsEqual`,
  `Gossip.InvOwesNothing`).
- A JSON carries the list of buddies it is broadcast to, and whoever takes it over takes over its list.
  Nothing that a device does makes a new list (`BuddyLists.NoNewList`), so devices that start with one list
  keep it for good (`BuddyLists.RunKeepsOneList`). With nothing left to broadcast, the holder of the freshest
  JSON owes nothing exactly when every device on its list has that JSON (`BuddyLists.FreshestIsShared`). With
  one list that names all devices, all counters are equal exactly when nothing is owed
  (`BuddyLists.AllListedAgree`). A device that is on nobody's list is left alone by every run
  (`BuddyLists.RunLeavesUnlisted`): with the default list, whoever is neither george nor freddy falls behind
  without any loss (`BuddyLists.StrangerFallsBehind`).
- Two buddies whose requests cross exchange different JSON of one version instead of agreeing
  (`BuddyLists.CrossedRequestsSwap`): george and freddy can do so as they are switched on
  (`BuddyLists.GeorgeAndFreddySwap`), and again when both increment (`BuddyLists.RacingIncrementsDiverge`). An
  increment keeps one content to a version exactly when nothing else in the system has the next version
  with another content (`Gossip.IncrementKeepsVersioned`); and once nothing is left to broadcast and nothing
  is owed, all JSON is equal exactly when there is one content to a version
  (`Gossip.QuiescentContentsEqual`, `BuddyLists.AllListedAgree`).
- A write of the host name also prunes network names (flash_io.c:247-249); that deletes nothing, because
  every network name has at most one entry (`FlashIo.Credentials.WriteHostname`).
- cJSON_PrintPreallocated needs two bytes more than the text, not five (`JsonPrinter.PrintPreallocated`).
- The client reassembles a reply also when its header is cut, because its expected size lies in the
  buffer that the reply is written to (`Transport.ClientHandlesOnce`).
- A tree with integer numbers compares equal to its copy exactly when no object in it repeats a key with
  another meaning (`JsonCompare.CompareIsEquivalence`).
- better_rssi looks at the length of a name only, so a known name can improve another entry
  (`ApScan.ScanResult`).
- The slot of a client that is gone reads as taken during every second half turn of the tick counter
  (`Dhcp.ExpiredWindow`).

## Model

| member | source | states |
|---|---|---|
| `JsonTokens.NumeralIsRead` | cJSON.c:307-408 | every numeral, with or without minus, fraction and signed exponent, is read as the number of its digits by their places |
| `JsonTokens.NumeralShown` | cJSON.c:307-408 | whatever the number parser uses up from a minus or digit on is such a numeral |
| `JsonTokens.LiteralShown` | cJSON.c:819-946 | whatever is read as a string is a literal of the standard with that meaning, or one up to a \u without four digits, which ends the string |
| `JsonGrammar.DocIsRead` | cJSON.c:1363-1767 | every JSON text, with any blanks and spellings, is parsed wherever it stands to the value it means, or fails when it is too deep |
| `JsonGrammar.DocShown` | cJSON.c:1363-1767 | whatever the parser accepts is a JSON text of the value returned, within the nesting limit |
| `JsonGrammar.EveryTextIsRead` | cJSON.c:1111-1230 | the same for a whole buffer: byte order mark or none, leading blanks, any text, and the terminator exactly where one is required |
| `JsonGrammar.OnlyTextsAreRead` | cJSON.c:1111-1230 | an accepted buffer is such a text, of the value and the end that are returned |
| `JsonRoundTrip.PrintedIsDoc` | cJSON.c:1418-1881 | printed text, formatted or not, is a JSON text of its value with the blanks that the layout names: a line for each member, tabs for its depth |
| `JsonRoundTrip.FormatAddsBlanks` | cJSON.c:1418-1881 | formatting only adds blanks, and unformatted text has none |
| `JsonValue.ValueIntTruncates` | cJSON.c:386-399 | the integer of a number is the number without its fraction, or the nearer end of the 32-bit range |
| `JsonRoundTrip.ValueRoundTrip` | cJSON.c:1363-1415 | wherever the printed text of a value stands in a buffer, parsing there gives the value back and stops right behind the text exactly when the nesting limit allows it, and fails otherwise |
| `JsonRoundTrip.StringRoundTrip` | cJSON.c:819-1068 | every NUL-free byte string comes back from its escaped text |
| `JsonRoundTrip.NumberRoundTrip` | cJSON.c:307-408 | every integer comes back from its decimal text when no number byte follows |
| `JsonRoundTrip.ArrayRoundTrip` | cJSON.c:1492-1649 | array text, formatted or not, parses to the array, or fails when it is too deep |
| `JsonRoundTrip.ObjectRoundTrip` | cJSON.c:1652-1881 | object text, formatted or not, parses to the object with its members in order, or fails when it is too deep |
| `JsonRoundTrip.ContainerRoundTrip` | json_handler.c:103-107 | an array or object within the nesting limit is recovered whatever bytes follow its text, a deeper one is refused |
| `JsonRoundTrip.TerminatedRoundTrip` | cJSON.c:1126-1230 | a value is recovered from its terminated text, also when the terminator is required, exactly when its nesting is at most 1000 |
| `JsonReparse.ParsedValueReusable` | cJSON.c:1363-1415 | everything the parser returns on any input has NUL-free strings and permitted nesting |
| `JsonReparse.ReparseIsStable` | cJSON.c:1126-1230 | any accepted text with integer numbers: the printed result parses to the same result |
| `JsonStrings.SecondPassFits` | cJSON.c:832-923 | for every literal, also one that is rejected half way, the bytes of the second pass and the terminator fit the first pass's estimate |
| `JsonStrings.DigitIsRead` | cJSON.c:661-694 | a byte has the value d as a hexadecimal digit exactly when it is the d-th digit in either case |
| `JsonStrings.HexIsRead` | cJSON.c:661-694 | four bytes are read as n exactly when they are its four digits, each in either case, the most significant first |
| `JsonStrings.UnicodeEscapes` | cJSON.c:819-946 | a literal of plain bytes, short escapes and \u escapes in any mixture parses to what its elements stand for, surrogate pairs as one code point, in UTF-8 (section 7 of RFC 8259, section 3 of RFC 3629) |
| `JsonStrings.MisspelledLiteral` | cJSON.c:698-946 | behind any such elements, an unknown escape, a lone low surrogate, or a high one without a low one makes the literal fail |
| `JsonStrings.Utf8Is` | cJSON.c:761-811 | the bytes of a code point are those of the table in section 3 of RFC 3629: their number, the first by that number, six bits in each other |
| `JsonStrings.ContinuationByte` | cJSON.c:794-799 | the or and the mask of the encoder give the continuation byte of UTF-8 |
| `JsonStrings.LeadByte` | cJSON.c:764-808 | the or with the mark gives the lead byte of UTF-8 |
| `JsonStrings.SurrogatePair` | cJSON.c:753 | masks, shift and or of two surrogates give the code point formula |
| `JsonReader.ReadHex4` | cJSON.c:661-694 | four digits of either case give their number, anything else gives 0 |
| `JsonReader.WriteUtf8` | cJSON.c:761-811 | the encoder loop with its bit operations leaves exactly the UTF-8 bytes of the code point and no other change before them |
| `JsonReader.ReadUtf16Literal` | cJSON.c:698-816 | one or two \u sequences: rejected, or length consumed and the UTF-8 bytes written |
| `JsonReader.ParseBuffer.SkipWhitespace` | cJSON.c:1085-1108 | the offset moves over white space, and back from the end |
| `JsonReader.ParseBuffer.ParseNumber` | cJSON.c:307-408 | the number and the offset behind it, or failure |
| `JsonReader.ParseBuffer.FindStringEnd` | cJSON.c:832-857 | first pass: closing quote and number of escapes |
| `JsonReader.ParseBuffer.FillOutput` | cJSON.c:867-931 | second pass: the decoded bytes inside the estimated buffer, or failure |
| `JsonReader.ParseBuffer.ParseString` | cJSON.c:819-946 | the decoded string up to its first NUL and the offset behind the literal |
| `JsonReader.ParseBuffer.ParseValue` | cJSON.c:1363-1415 | value and offset of the recursive parser, failure included |
| `JsonReader.ParseBuffer.ParseArray` | cJSON.c:1492-1587 | the same for arrays, with the nesting limit and the depth restored |
| `JsonReader.ParseBuffer.ParseElements` | cJSON.c:1526-1559 | the element loop gives the elements in order |
| `JsonReader.ParseBuffer.ParseObject` | cJSON.c:1652-1767 | the same for objects |
| `JsonReader.ParseBuffer.ParseMember` | cJSON.c:1708-1737 | key, colon and value of one member |
| `JsonReader.ParseBuffer.ParseMembers` | cJSON.c:1684-1745 | the member loop gives the members in order |
| `JsonReader.ParseText` | cJSON.c:1126-1230 | byte order mark, white space, one value, and the required terminator |
| `JsonPrinter.CountEscapes` | cJSON.c:976-1000 | the first pass of print_string_ptr counts exactly the bytes that escaping adds |
| `JsonPrinter.PrintBuffer.Ensure` | cJSON.c:485-566 | room is granted exactly up to the capacity, growing keeps what was printed |
| `JsonPrinter.PrintBuffer.UpdateOffset` | cJSON.c:569-581 | the offset comes to the end of the text just printed |
| `JsonPrinter.PrintBuffer.PrintString` | cJSON.c:949-1068 | the quoted and escaped text, terminated, or failure for lack of room |
| `JsonPrinter.PrintBuffer.PrintValue` | cJSON.c:1418-1489 | the text of the value at this depth behind what was printed before |
| `JsonPrinter.PrintBuffer.PrintArray` | cJSON.c:1590-1649 | the text of the array and the depth restored |
| `JsonPrinter.PrintBuffer.PrintObject` | cJSON.c:1770-1881 | the text of the object and the depth restored |
| `JsonPrinter.PrintBuffer.PrintMember` | cJSON.c:1798-1860 | indentation, key, colon, value and separator of one member |
| `JsonPrinter.PrintPreallocated` | cJSON.c:1343-1360 | succeeds exactly when the buffer is two bytes longer than the text, and then holds the text and its terminator |
| `JsonPrinter.PrintGrowing` | cJSON.c:1234-1340 | the text itself from a growing buffer |
| `JsonPrinter.ValueTextNulFree` | cJSON.c:569-581 | printed text holds no NUL, so its length is found again |
| `JsonCompare.CompareDecides` | cJSON.c:3057-3180 | on trees with integer numbers, comparison is true exactly when both mean the same up to key order and neither repeats a key with another meaning |
| `JsonCompare.CompareIsEquivalence` | cJSON.c:3057-3180 | so it is symmetric and transitive, and a tree compares equal to its copy exactly when it is consistent |
| `JsonCompare.CompareIsSymmetric` | cJSON.c:3057-3180 | whatever the numbers, the order of the arguments does not matter |
| `JsonCompare.DistinctKeysAreConsistent` | cJSON.c:3139-3174 | trees without repeated keys are consistent |
| `JsonCompare.RepeatedKeyBreaksCompare` | cJSON.c:3139-3174 | an object that repeats a key with another meaning differs from its own copy |
| `JsonCompare.CloseNumbers` | cJSON.c:584-588 | two numbers count as equal exactly when neither difference, 2^52 times over, exceeds the larger magnitude |
| `JsonCompare.LookupMember` | cJSON.c:1936-1966 | a lookup gives the first member with that key |
| `ChildList.GetArrayItem` | cJSON.c:1907-1925 | the item at the index, or none |
| `ChildList.AddItem` | cJSON.c:2012-2043 | the child list is the old one with the item at its end, links and tail pointer right |
| `ChildList.DetachItem` | cJSON.c:2243-2277 | the child list without that item, which is free of links |
| `ChildList.Unlink` | cJSON.c:2243-2277 | the links of the neighbours, of the tail pointer and of the parent after the pointer writes of a removal |
| `ChildList.InsertItem` | cJSON.c:2319-2351 | the child list with the item at the index, or at the end behind it |
| `ChildList.InsertBefore` | cJSON.c:2334-2350 | the same for an index that exists |
| `ChildList.LinkBefore` | cJSON.c:2334-2350 | all links after the pointer writes of an insertion |
| `ChildList.ReplaceItem` | cJSON.c:2353-2400 | the child list with the replacement at the item's place |
| `ChildList.Relink` | cJSON.c:2353-2400 | all links after the pointer writes of a replacement |
| `Mirror.NamesIgnoreCase` | cJSON.c:133-153 | two names are the same exactly when they differ only in the case of letters |
| `Mirror.IncrementAddsOne` | json_handler.c:54-60 | incrementing adds one to the counter and keeps the JSON printable and within the nesting limit |
| `Mirror.IncrementInjective` | json_handler.c:54-60 | different JSON of one version stays different when both are incremented |
| `Mirror.IncrementKeepsList` | json_handler.c:54-60 | incrementing leaves the buddy list as it is |
| `Mirror.DefaultIsSound` | json_handler.c:26-53 | the default JSON has the default counter, prints and parses back, and fits a message for every name that fits its buffer |
| `Mirror.IncrementedDefault` | json_handler.c:26-60 | the default JSON after one increment: count 2, all else as before, and it fits a message |
| `Mirror.ListedAre` | json_handler.c:119-130 | a name is on the list exactly when the array of the first member "buddy_ip" holds it as a string; an array of strings is listed in order, with repetitions |
| `Mirror.MessageLayout` | json_handler.c:88-115 | the bytes of a message: protocol 1, whole length and counter in four bytes each, the least significant first, then the text |
| `Mirror.MessageRoundTrip` | json_handler.c:88-115 | the receiver of a prepared message reads its size, its version and the same JSON, whatever the buffer holds behind it |
| `Mirror.BareHeaderBehind` | json_handler.c:166-172 | a reply that is a bare header states its own length and leaves the client's JSON alone |
| `Mirror.ExchangeResult` | json_handler.c:136-178 | both sides after an exchange, also when the client has changed since its request was made |
| `Mirror.ExchangeAgrees` | json_handler.c:136-178 | an exchange that nothing disturbs leaves the fresher JSON on both sides |
| `Device.Node.GetMirror` | json_handler.c:26-53 | the mirror, created when there is none |
| `Device.Node.IncMirrorCounter` | json_handler.c:54-60 | the counter is one higher and every other member is as before; without a numeric counter nothing changes |
| `Device.Node.Prepare` | json_handler.c:88-115 | header and text of the mirror, or failure when they do not fit |
| `Device.Node.CheckFreshness` | json_handler.c:159-178 | the client's JSON is taken over, or the own one is sent back |
| `Device.Node.HandleReply` | json_handler.c:136-153 | the server's JSON is taken over exactly when it came and is not older |
| `Device.Node.BuddyItems` | json_handler.c:125 | the items below the first member "buddy_ip" |
| `Device.Node.UpdateBuddies` | json_handler.c:116-134 | the loop opens a connection to every name listed but the own one, in order, when there is a message to send |
| `Device.RunExchange` | tcp_json.c:109-180 | the code of both sides, run in order, leaves both devices with the fresher JSON |
| `Gossip.InitiallyInv` | picow_web.c:290-296 | devices that have broadcast nothing yet satisfy the invariant |
| `Gossip.DeliverIsExchange` | json_handler.c:88-178 | a delivery, of the message made at the broadcast, or of the JSON of a fresher reply or of the device after it has served another, is the exchange of bytes |
| `Gossip.DeliverLeaves` | tcp_json.c:196-285 | after a delivery: which requests are left, which of them carry the fresher JSON, and that nothing else changed |
| `Gossip.SoundStep` | json_handler.c:136-178 | every step keeps all JSON, on devices and under way, sound, and no counter falls |
| `Gossip.StepKeepsInv` | picow_web.c:290-296 | a step keeps the invariant (a broadcast has reached every buddy it is not still waiting for) exactly when what it broadcasts can be sent or is not needed, and what it loses is not needed |
| `Gossip.StepKeepsOrdered` | json_handler.c:88-178 | whatever is lost, broadcast counts stay at or below counters and requests go to buddies with the version broadcast or a newer one |
| `Gossip.InvOwesNothing` | picow_web.c:290-296 | the invariant holds exactly when that order does and no device owes a buddy a version |
| `Gossip.OwesAfter` | json_handler.c:118-131 | exactly what one device owes another after any step |
| `Gossip.OwedByUnsmooth` | json_handler.c:118-131 | a new debt comes only from the debtor's own broadcast that cannot be sent, or its loss of a request that is needed |
| `Gossip.UnsmoothOwes` | json_handler.c:118-131 | and such a step always makes one |
| `Gossip.OwedUntil` | json_handler.c:136-178 | apart from a new broadcast of the debtor, a debt stays exactly as long as the buddy's counter is below it |
| `Gossip.RunKeepsInv` | picow_web.c:290-296 | and so does every run of such steps |
| `Gossip.OwedHasCause` | json_handler.c:118-131 | over every run, what is owed at the end and was not at the start goes back to such a step of the debtor |
| `Gossip.CountsNeverDecrease` | json_handler.c:88-178 | over every run, whatever is lost, no device's counter decreases |
| `Gossip.QuiescentCountsEqual` | picow_web.c:290-296 | with nothing left to broadcast, devices that their last broadcasts connect strongly have equal counters exactly when the invariant holds |
| `Gossip.IncrementKeepsVersioned` | json_handler.c:54-60 | an increment keeps one content to a version exactly when nothing else has the next version with another content |
| `Gossip.QuietKeepsVersioned` | json_handler.c:136-178 | broadcasts, deliveries and losses always keep it |
| `Gossip.QuiescentContentsEqual` | README.md:53-60 | and equal JSON exactly when there is besides one content to a version |
| `Gossip.ContentsConverge` | README.md:53-60 | after a run of fresh increments with nothing left to broadcast all JSON is equal |
| `Gossip.QuietRunsEnd` | picow_web.c:290-296 | without local increments only so many steps can follow, losses included |
| `Gossip.Settles` | README.md:53-60 | left alone and without harmful loss, every system whose messages fit has a run to a state with nothing to broadcast and nothing owed |
| `Gossip.EveryRunSettles` | README.md:53-60 | and every such run that cannot go on ends there |
| `BuddyLists.BuddiesAre` | json_handler.c:119-130 | for every JSON whose first "buddy_ip" is an array, a broadcast goes to exactly the other devices whose names are strings in that array |
| `BuddyLists.BuddiesInOrder` | json_handler.c:126-130 | in the order of the list, each as often as it stands there |
| `BuddyLists.BuddiesAreOpened` | json_handler.c:126-130 | they are the devices behind the names that the loop opens connections to |
| `BuddyLists.StepKeepsCurrent` | json_handler.c:119-130 | with one list to a version, what a device has broadcast it has broadcast to the list of its present JSON |
| `BuddyLists.NoNewList` | json_handler.c:54-60 | every list after a step was there before it |
| `BuddyLists.RunKeepsOneList` | json_handler.c:118-178 | over every run, whatever is lost, devices with one list keep it and broadcast to it |
| `BuddyLists.RunKeepsCurrent` | json_handler.c:118-178 | over every run of fresh increments broadcasts went to the list of the present JSON and a version has one content |
| `BuddyLists.QuiescentListed` | picow_web.c:290-296 | with nothing left to broadcast nothing is owed exactly when no device is behind one that lists it |
| `BuddyLists.FreshestIsShared` | README.md:53-60 | and the holder of the freshest JSON owes nothing exactly when every device on its list has that JSON |
| `BuddyLists.ListedAreFreshest` | README.md:53-60 | with one list for all, nothing is owed exactly when every listed device has the highest counter |
| `BuddyLists.AllListedAgree` | README.md:53-60 | when all devices are on it, counters are equal exactly when nothing is owed, and JSON exactly when there is besides one content to a version |
| `BuddyLists.UpdatesReachTheList` | README.md:53-60 | over every run of fresh increments without harmful loss, lists changing or not: with nothing left to broadcast every device on the list of the freshest JSON has it |
| `BuddyLists.FreshestSettles` | README.md:53-60 | left alone, every such run that cannot go on ends so |
| `BuddyLists.AllListedSettle` | README.md:53-60 | and with equal counters when one list names all devices |
| `BuddyLists.RunLeavesUnlisted` | json_handler.c:119-130 | a device on nobody's list that has broadcast what it has is left alone by every run in which it does not increment |
| `BuddyLists.UnlistedStaysBehind` | json_handler.c:119-130 | so over every run it stays behind a device that has incremented |
| `BuddyLists.UnlistedFallsBehind` | json_handler.c:119-130 | from every settled state with one list there is a run, nothing lost, to a settled state in which it is behind |
| `BuddyLists.StartedWell` | json_handler.c:26-53 | devices just switched on, with any names, satisfy the invariant, fit, and have one list |
| `BuddyLists.StrangerFallsBehind` | json_handler.c:40-43 | any number of devices just switched on settle, and after one increment whoever is neither george nor freddy can be behind with everything settled again |
| `BuddyLists.CrossedRequestsSwap` | json_handler.c:159-170 | two buddies with JSON of one version whose broadcasts cross exchange it and have nothing left to broadcast |
| `BuddyLists.GeorgeAndFreddySwap` | json_handler.c:26-53 | george and freddy as they are switched on, so left different without increment or loss |
| `BuddyLists.RacingIncrementsDiverge` | json_handler.c:159-170 | two buddies that increment different JSON at the same count stay different, with equal counters and nothing lost |
| `BuddyLists.LostRequestsSplit` | json_handler.c:118-131 | three devices on the list of the JSON they all have: the loss of two second requests leaves the third behind with nothing left to broadcast |
| `Broadcast.FirstRequest` | tcp_json.c:196-215 | the connection that opens first sends the prepared message |
| `Broadcast.SecondRequest` | tcp_json.c:196-243 | a request that leaves during a bare-header reply is handled, as the prepared message, exactly when the reply has not reached the size field |
| `Broadcast.NextRequestIsLost` | tcp_json.c:196-285 | after a bare-header reply the next request is a bare header and is never handled |
| `Broadcast.NextRequestForwards` | tcp_json.c:196-285 | after the JSON of a fresher server the next request passes that JSON on |
| `Broadcast.RequestAfterServing` | tcp_json.c:141-243 | after the device has taken over the JSON of another's request, its own next request is never handled, or passes that JSON on when an acknowledgement has set the size again |
| `Transport.ServerHandlesOnce` | tcp_json.c:109-180 | for every cut into segments the server handles a message on the last one only, with the message in the buffer, exactly when it is longer than a header and fits |
| `Transport.HugeSizeIsComplete` | tcp_json.c:109-180 | a stated length from two gigabytes on is negative as an int, so the message counts as complete at once |
| `Transport.ClientHandlesOnce` | tcp_json.c:226-285 | the same for the client and every cut of a reply |
| `Transport.ClientCopiesUpTo` | tcp_json.c:247-285 | of a segment the client copies everything, or just as much as the stated size has left in 16 bits |
| `Transport.AliasedSize` | tcp_json.c:247-285 | while a reply comes in, the size field that it overwrites never falls below its length |
| `Transport.ServerConnection.constructor` | tcp_json.c:77-94 | an accepted connection expects the largest message |
| `Transport.ServerConnection.Recv` | tcp_json.c:109-180 | the receive callback's effect on lengths, flag and buffer |
| `Transport.ClientConnection.Sent` | tcp_json.c:226-243 | the client expects the largest reply |
| `Transport.ClientConnection.Recv` | tcp_json.c:247-285 | the client's receive callback on length and buffer |
| `Dhcp.ExpiredOnlyAfterLease` | dhcpserver/dhcpserver.c:229-271 | with 32-bit ticks and 16-bit expiry, at any real time, a lease is found expired only after its 24 hours |
| `Dhcp.ExpiredWindow` | dhcpserver/dhcpserver.c:229-271 | and exactly in the first half turn of the counter after its end, and again every turn |
| `Dhcp.SearchUsable` | dhcpserver/dhcpserver.c:216-236 | the slot offered is the client's or free after the search |
| `Dhcp.SearchHolder` | dhcpserver/dhcpserver.c:216-236 | a client that holds a slot gets one it holds |
| `Dhcp.SearchClears` | dhcpserver/dhcpserver.c:229-234 | the search changes a slot only by clearing an expired one |
| `Dhcp.SearchFails` | dhcpserver/dhcpserver.c:216-240 | no slot exactly when all are taken by others and none has expired |
| `Dhcp.OfferIsAcknowledged` | dhcpserver/dhcpserver.c:214-278 | an offer followed at once by a request for its address is acknowledged |
| `Dhcp.HolderIsOfferedItsSlot` | dhcpserver/dhcpserver.c:217-222 | a client holding a slot is offered a slot it holds (section 4.3.1 of RFC 2131) |
| `Dhcp.NoOfferWhenFull` | dhcpserver/dhcpserver.c:237-240 | no offer exactly when every slot is taken |
| `Dhcp.StepKeepsInv` | dhcpserver/dhcpserver.c:214-278 | every packet keeps the account of who was acknowledged when |
| `Dhcp.RunKeepsInv` | dhcpserver/dhcpserver.c:214-278 | and so does every run |
| `Dhcp.LeasesAreExclusive` | dhcpserver/dhcpserver.c:246-278 | in every run two clients are acknowledged for one address only more than 24 hours apart |
| `Dhcp.StartIsFine` | dhcpserver/dhcpserver.c:297-305 | the cleared table satisfies the invariant |
| `Dhcp.FindsWhatWasWritten` | dhcpserver/dhcpserver.c:146-181 | opt_find gives the first option of a code at the place where it was written, and nothing for other codes |
| `Dhcp.WrittenStaysAt` | dhcpserver/dhcpserver.c:156-181 | each written option stands at its offset |
| `Dhcp.SlotHasAddress` | dhcpserver/dhcpserver.c:246-258 | a request is for a slot exactly when it carries that slot's address |
| `Dhcp.FieldOfWritten` | dhcpserver/dhcpserver.c:156-181 | read by code and length bytes as RFC 2132 has them, written options hold the first value of each code |
| `Dhcp.ReplyReads` | dhcpserver/dhcpserver.c:280-291 | a client reads the kind, the server as server, router and name server, the mask, the lease of 24 hours in seconds, and the address of the slot |
| `Dhcp.PacketAsks` | dhcpserver/dhcpserver.c:199-258 | what any packet asks for: a discovery, a request for the address in its option 50, or nothing |
| `Dhcp.OfferThenRequest` | dhcpserver/dhcpserver.c:183-295 | a discovery that gets an offer, and a request for the address offered, whatever else the packets hold, end with the acknowledgement of that address and the slot in the table |
| `Dhcp.AcksAreReplies` | dhcpserver/dhcpserver.c:246-278 | the acknowledgements of a run are the replies to its requests |
| `Dhcp.Server.WriteOption` | dhcpserver/dhcpserver.c:156-181 | one option behind those written before |
| `Dhcp.Server.Answer` | dhcpserver/dhcpserver.c:280-291 | the reply with its options one by one |
| `Dhcp.Server.constructor` | dhcpserver/dhcpserver.c:297-305 | all slots free |
| `Dhcp.Server.ProcessDiscover` | dhcpserver/dhcpserver.c:215-244 | the search in place on the lease array |
| `Dhcp.Server.ProcessRequest` | dhcpserver/dhcpserver.c:246-278 | the slot granted and recorded, or nothing changed |
| `Dhcp.Server.Process` | dhcpserver/dhcpserver.c:183-295 | table and reply, address and options, for every packet |
| `Cdll.AddNode` | cdll.c:26-34 | the ring with the node between two neighbours |
| `Cdll.InsertHead` | cdll.c:43-47 | the ring with the node behind its head |
| `Cdll.InsertTail` | cdll.c:56-60 | the ring with the node at its end |
| `Cdll.DeleteNode` | cdll.c:61-67 | the ring without the node, which is a ring of its own |
| `Cdll.SwapNodes` | cdll.c:69-75 | the ring with two neighbours exchanged |
| `Cdll.SwapKeepsOrder` | find_local_ssid.c:56-67 | exchanging neighbours of different strength keeps the order of equal ones |
| `Cdll.Pass` | find_local_ssid.c:52-69 | after a pass everything from the last compared node on is final |
| `Cdll.BubbleSort` | find_local_ssid.c:42-73 | ends on every ring, keeps the head, and leaves a stable permutation of falling strength with all links right |
| `ApScan.UniqueSsid` | find_local_ssid.c:76-94 | whether no entry has that name |
| `ApScan.BetterRssi` | find_local_ssid.c:96-112 | the first entry with a name of that length and a weaker signal |
| `ApScan.ScanResult` | find_local_ssid.c:113-151 | names stay distinct; a new strong name is added at the end; for a known one the first weaker entry of that length is updated, its own entry exactly when that is the first |
| `ApScan.Improve` | find_local_ssid.c:140-148 | the first entry of that name length with a weaker signal, and only it, takes channel and signal |
| `ApScan.PasswordOf` | flash_io.c:180-218 | a lookup in a faithful store gives the last password or none and leaves the log as it is, so its answer stays the same |
| `ApScan.FindBest` | find_local_ssid.c:220-250 | the first entry not yet offered with a password in flash is returned, marked, with its last password, and the log stays as it is |
| `ApScan.OfferAll` | find_local_ssid.c:220-250 | repeated calls return every such entry once, in list order, and then none |
| `ApScan.OffersDescend` | find_local_ssid.c:220-250 | on a sorted list the offers fall in strength and their names differ |
| `ApScan.SortAndOffer` | find_local_ssid.c:195-250 | after the sort, exactly the scanned names with credentials are offered, each once, strongest first |
| `RingFormat.RecordHeaderIsGood` | ring_buffer.c:35-55 | a header as written is accepted and read back: length, id, live and split flags |
| `RingFormat.SectorHeaderIsGood` | ring_buffer.c:57-85 | a sector header as written is accepted with its index |
| `RingCrc.CrcDivides` | ring_buffer.c:14-33 | the check bits of any bytes are the inverted remainder of their bits, the first five inverted, divided by x^5 + x^2 + 1 |
| `RingCrc.CrcSees` | ring_buffer.c:14-33 | bytes that differ in one bit have different check bits |
| `RingCrc.HeaderLayout` | ring_buffer.c:71-103 | the bytes of headers in flash: length and index with the least significant byte first, id, check bits, flags |
| `RingCrc.WrongRecordHeader` | ring_buffer.c:35-55 | a good record header with one bit changed is bad, unless that bit is one of the three flags, and then it is still good |
| `RingCrc.WrongSectorHeader` | ring_buffer.c:57-70 | a good sector header with any one bit changed is bad |
| `RingCrc.ImpossibleHeader` | ring_buffer.c:47-55 | a record header of id 255, of no bytes or of more than the area is never good, whatever its check bits |
| `RingCrc.ZerosAreBad` | ring_buffer.c:57-70 | four zero bytes are no sector header |
| `RingFormat.ErasedHeaders` | ring_buffer.c:47-60 | erased flash is a blank header of either kind |
| `RingFlash.AndErased` | flash_onboard.c:20-25 | programming 0xff changes nothing, programming erased flash stores the byte |
| `RingFlash.PageProgramsOnly` | ring_buffer.c:343-353 | a page buffer of 0xff bytes programs just the bytes put into it |
| `RingFlash.ProgramInSector` | ring_buffer.c:360-377 | byte by byte programming inside a sector is one bitwise and |
| `RingSpec.RbIncrIsSkip` | ring_buffer.c:105-123 | rb_incr stays in the sector or goes to the start of the next one in the ring |
| `RingSpec.Oldest` | ring_buffer.c:215-262 | the sector found has the lowest index of all usable ones, or is sector 0 without any |
| `RingSpec.MaxIndex` | ring_buffer.c:247-250 | the running index is at or above every index seen |
| `RingSpec.BlanksAre` | ring_buffer.c:150-171 | the scan counts the erased bytes from the cursor to the end of the sector and on through the next one, up to the first that is not |
| `RingSpec.StartedStatus` | ring_buffer.c:134-148 | a sector with a good header counts by its first record: blank while there is none, good behind one |
| `RingSpec.Placed` | ring_buffer.c:408-479 | a write that is refused changes nothing |
| `RingSpec.RetryProgress` | ring_buffer.c:505-513 | on every image, a failed try that is repeated erases a used sector, or sector 0 that was not erased |
| `RingSpec.MeasureDrops` | ring_buffer.c:481-518 | and so retries end on every image |
| `RingSpec.ErasedTakesAll` | ring_buffer.c:417-426 | an erased sector takes every record of permitted length |
| `RingImage.RecordAppended` | ring_buffer.c:383-426 | a record at the end of an open sector leaves the records before it as they are |
| `RingImage.SectorStarted` | ring_buffer.c:383-426 | a sector started with a record holds just that record |
| `RingImage.OldestErased` | ring_buffer.c:499-512 | erasing the oldest sector takes exactly its pieces from the front of the log |
| `RingAppend.OldestFound` | ring_buffer.c:215-262 | on a well-formed ring the search finds the sector the ring starts with |
| `RingAppend.EndFound` | ring_buffer.c:178-207 | and the walk from there ends at the erased room, or comes around |
| `RingAppend.PlacedNew` | ring_buffer.c:420-426 | a record that starts a sector: log extended by one piece, index above all others |
| `RingAppend.PlacedFits` | ring_buffer.c:420-426 | a record that fits: log extended by one piece |
| `RingAppend.PlacedSpans` | ring_buffer.c:427-468 | a record that spans: log extended by two pieces |
| `RingAppend.PlacedRefused` | ring_buffer.c:417-475 | with used flash behind it a full sector refuses the record |
| `RingAppend.Evicted` | ring_buffer.c:499-512 | erasing the oldest sector: the ring starts one sector later and loses exactly those pieces |
| `RingAppend.AppendGrows` | ring_buffer.c:481-518 | an append with room: all earlier pieces stay byte for byte, the record ends the log, indices rise from oldest to newest |
| `RingAppend.AppendRefused` | ring_buffer.c:481-518 | without room and without leave to erase nothing changes, and the code says why |
| `RingAppend.AppendEvicts` | ring_buffer.c:481-518 | without room and with leave: exactly the oldest sector goes, everything else survives, and the record ends the log |
| `RingAppend.AppendAdds` | ring_buffer.c:481-518 | every append that is not refused adds its pieces to the log left after making room, with all indices up to the running one |
| `RingAppend.AppendTooLong` | ring_buffer.c:499-507 | a record too long for any sector: its code, and the flash without the oldest sector when a full ring may be erased |
| `RingAppend.AppendOutcome` | ring_buffer.c:481-518 | an append succeeds exactly when the record is not too long and there is or may be made room; a refused one has changed the flash exactly when it was too long on a full ring that may be erased |
| `RingHistory.CutRecord` | ring_buffer.c:427-459 | header lengths of a cut record add up to its size and the first piece is a prefix; an exact fit leaves an empty second record |
| `RingHistory.SecondPartRight` | ring_buffer.c:459 | the second part holds the rest of the data for all data exactly when both parts have the same length |
| `RingHistory.AppendedIsReadLast` | ring_buffer.c:481-518 | a record that fits its sector, with or without an eviction, is returned last by a rewound series of reads exactly when none of the earlier reads dangles |
| `RingHistory.AppendedCutIsReadLast` | ring_buffer.c:427-459 | a record that reaches the end of its sector is read last as both parts joined, or as two records when the first part fills the read, exactly when none of the earlier reads dangles |
| `RingHistory.CutReadsRight` | ring_buffer.c:639-658 | a read that could hold the record gives it back as written exactly when it does not end with its sector and its second part is right |
| `RingHistory.RoomMadeLog` | ring_buffer.c:499-512 | making room takes a prefix from the log |
| `RingHistory.RoomIsLeft` | ring_buffer.c:105-123 | erased room is left exactly when a sector is unused or another record can start behind this one |
| `RingHistory.DanglingRingIsReachable` | ring_buffer.c:522-597 | two appends to erased flash and one deletion lead to a ring on which a read dangles |
| `RingHistory.DeletesFirstHit` | ring_buffer.c:575-597 | with whole records, exactly the first live record of the id that starts with the key leaves the live log |
| `RingHistory.ErasedRing` | ring_buffer.c:687-690 | an erased area is a well-formed ring with an empty log |
| `RingHistory.AppendRun` | ring_buffer.c:481-518 | any run of appends below the index limit succeeds, keeps the ring well formed, and leaves a suffix of the old log and the new pieces |
| `RingCheck.CheckPasses` | ring_buffer.c:268-335 | the check passes on every ring the program wrote, except on a full one that does not start at sector 0, where it depends in this exact way on the memory behind the area |
| `RingCheck.CheckMeans` | ring_buffer.c:268-335 | the check of any flash passes exactly when no sector header is bad and either some sector is erased or the indices never fall from the oldest sector on, with the header behind the area in the place of sector 0 |
| `RingCheck.ZeroedFails` | ring_buffer.c:268-301 | one sector that starts with zero bytes makes it fail |
| `RingCheck.DamageFails` | ring_buffer.c:268-301 | and so does one good sector header with one bit changed |
| `RingRead.AheadStep` | ring_buffer.c:608-637 | going over one record takes exactly one piece off what is ahead of the cursor |
| `RingRecords.NewRecordIsReadLast` | ring_buffer.c:608-663 | a new whole record is returned last exactly when no earlier read dangles |
| `RingRecords.CutRecordIsReadLast` | ring_buffer.c:639-658 | a cut record is returned last, joined or in two, exactly when no earlier read dangles |
| `RingRecords.LiveSplitsSeries` | ring_buffer.c:639-658 | no read dangles when no continuation was deleted |
| `RingRecords.WholeReads` | ring_buffer.c:608-663 | without cut records a series of reads returns the live records of the id in order |
| `RingRecords.FindIsFirst` | ring_buffer.c:522-554 | a search finds the first live record that starts with the key, whatever stood in the scratch buffer |
| `RingDelete.AndClears` | ring_buffer.c:566-570 | programming the flag byte without its live bit clears just that bit |
| `RingDelete.SmudgedHeader` | ring_buffer.c:35-55 | a deleted header is still accepted, with the same length and id |
| `RingDelete.DeleteResult` | ring_buffer.c:558-597 | one flash bit changes; the ring stays well formed; the log gets a dead piece in place of the live one; the live log loses just that entry |
| `RingDevice.RingBuffer.FetchAndCheck` | ring_buffer.c:134-148 | status of the header, and the cursor behind a good sector header |
| `RingDevice.RingBuffer.FindNextWriteable` | ring_buffer.c:178-207 | ends on every image, at the first header that is not good or once around |
| `RingDevice.RingBuffer.FindOldest` | ring_buffer.c:215-262 | cursor, running index and code after the search over all sectors |
| `RingDevice.RingBuffer.CheckSectorRing` | ring_buffer.c:268-335 | code and running index of the check of the whole ring |
| `RingDevice.RingBuffer.CheckHeaders` | ring_buffer.c:276-301 | the pass over all sector headers: bad ones, the last blank one, the highest index |
| `RingDevice.RingBuffer.CheckOrder` | ring_buffer.c:309-326 | the pass for rising indices, with the header it reads behind the area |
| `RingDevice.RingBuffer.Create` | ring_buffer.c:671-702 | everything erased, or the ring as it is with the cursor at its oldest sector when the check passes; after a failed check the flash is as before |
| `RingDevice.RingBuffer.Recreate` | ring_buffer.c:704-718 | a ring that fails its check, such as one with a sector of zero bytes, is erased unless the caller wants the failure |
| `RingDevice.RingBuffer.BlankScan` | ring_buffer.c:150-171 | blank bytes up to the sector's end and on into the next sector |
| `RingDevice.RingBuffer.Partial` | ring_buffer.c:343-353 | one page programmed with what fits it |
| `RingDevice.RingBuffer.AppendPage` | ring_buffer.c:360-377 | the data programmed from the cursor on, page by page, around the ring |
| `RingDevice.RingBuffer.WriteHeaders` | ring_buffer.c:383-398 | sector header where one starts, record header, and the stale header for size zero |
| `RingDevice.RingBuffer.WriteSpanning` | ring_buffer.c:427-468 | both parts of a spanning record, on any image |
| `RingDevice.RingBuffer.SectorAppend` | ring_buffer.c:408-479 | what is written at the cursor, or why not |
| `RingDevice.RingBuffer.Try` | ring_buffer.c:493-513 | one round of the append loop |
| `RingDevice.RingBuffer.Append` | ring_buffer.c:481-518 | ends on every image, with the flash, code and index of the append function and the cursor restored |
| `RingDevice.RingBuffer.Read` | ring_buffer.c:608-663 | the next live record of the id, cut to the size and joined with what continues it |
| `RingDevice.RingBuffer.Find` | ring_buffer.c:522-554 | the next record that starts with the key and its address |
| `RingDevice.RingBuffer.Smudge` | ring_buffer.c:558-573 | the live bit of one header is cleared, the cursor comes back |
| `RingDevice.RingBuffer.Delete` | ring_buffer.c:575-597 | the first record found is deleted and the page buffer is left erased; nothing without one or while sector 0 is unused |
| `SsidStore.EntryRoundTrip` | flash_io.c:225-230 | name and password are read back from an entry |
| `SsidStore.KeyIsName` | flash_io.c:137-146 | an entry starts with a name and its terminator exactly when that is its name |
| `SsidStore.PrunedCount` | flash_io.c:145-175 | pruning leaves at most one entry of the name |
| `SsidStore.PrunedOthers` | flash_io.c:145-175 | and leaves all other names alone |
| `SsidStore.PrunedKeepsLast` | flash_io.c:145-175 | the entry left is the last one |
| `SsidStore.WriteWins` | flash_io.c:222-237 | after a write the name has the new password and every other name its last one or none |
| `SsidStore.FoundIsLast` | flash_io.c:180-218 | a lookup gives the password last written, or none |
| `SsidStore.OtherIdKeepsWins` | flash_io.c:243-251 | a record of another id leaves every network name its last password or none |
| `SsidStore.LatestIsHost` | flash_io.c:239-241 | the latest host name of the log is the one last written |
| `SsidStore.HostAfter` | flash_io.c:243-251 | a new record is the new host name or keeps the old one, also when the oldest records are lost |
| `SsidStore.WriteKeepsHost` | flash_io.c:222-237 | writing and pruning a credential keeps the host name |
| `FlashIo.SectorZero` | ring_buffer.c:583-586 | in a ring that the program wrote sector 0 is in use as soon as anything is stored |
| `FlashIo.AppendKeepsSettled` | ring_buffer.c:481-518 | every append of a writable record keeps that, whether it spans or evicts |
| `FlashIo.AppendSettles` | flash_io.c:109-114 | for a record that stays in one sector: it ends the log, and the ring stays searchable exactly when room is left |
| `FlashIo.Credentials.Reopen` | ring_buffer.c:704-718 | a control block at the oldest sector, and nothing erased, because the check passes |
| `FlashIo.Credentials.CountIds` | flash_io.c:22-50 | how many records of an id a series of reads returns |
| `FlashIo.Credentials.ReadNth` | flash_io.c:52-80 | the n-th of them in the page buffer |
| `FlashIo.Credentials.ReadLatest` | flash_io.c:82-92 | the last of them |
| `FlashIo.Credentials.WriteId` | flash_io.c:94-127 | nothing for a repetition of the latest record, otherwise the record at the end of the log |
| `FlashIo.Credentials.EraseOne` | flash_io.c:145-175 | one round: with two entries of the name the first is deleted |
| `FlashIo.Credentials.EraseRedundant` | flash_io.c:137-177 | ends with all but the last entry of the name deleted |
| `FlashIo.Credentials.Search` | flash_io.c:197-216 | the password of the entry with exactly that name, not of one that shares a prefix |
| `FlashIo.Credentials.FindMatching` | flash_io.c:180-218 | the stored password of a name after pruning |
| `FlashIo.Credentials.WriteSsid` | flash_io.c:222-237 | last write wins: kept by every call, for every name; the host name is kept as well |
| `FlashIo.Credentials.WriteHostname` | flash_io.c:243-251 | the host name ends the log unless it repeats the latest one, and all passwords stay, also with the pruning that follows |
| `FlashIo.Credentials.ReadHostname` | flash_io.c:239-241 | the host name last written, as long as the log has one |
| `FlashIo.ErasedStore` | ring_buffer.c:687-690 | an erased area is a store without entries and host name, where last write wins starts |
| `FlashIo.Credentials.WriteAll` | flash_io.c:222-237 | credentials and host names written in any order leave every network name its last password and the last host name to be read; it stops only before a record that would span or leave no erased room, or at the index limit |

## Left out

- Numbers: rounding in strtod, printing with `%g`, infinities and NaN; the parser works over exact reals and the printer on 32-bit integers.
- The global error pointer, raw, reference and constant-key items, and cJSON_Minify.
- Case-insensitive comparison and the remaining convenience functions of cJSON: easy members only.
- The base address of the ring and last_wrote: informational. printf output everywhere.
- Exchanges that mix their bytes in the one shared json_buffer (tcp_json.c:349-351): each request and each reply is received undisturbed. Requests may leave before, between and after complete exchanges of their device, as client and as server (Broadcast shows what they carry then), but not while a message is half received.
- A broadcast while requests of the one before are outstanding: the main loop compares the counters every ten seconds whatever is outstanding (picow_web.c:290-296), but a Poll step waits until all requests are answered or lost. Otherwise replies to the older requests come into the buffer of the newer ones, which is the mixing of the line above.
- Connection set-up, lost connections and busy flags. A name on the list that no device has gets no connection; an entry of the list that is not a string is skipped, where the source passes a null pointer to strcmp.
- mDNS, SNTP, the web server, CGI, relay control, dnsserver and the test programs.
- The DHCP reply packet beyond its address and options, the length checks and the socket; memory behind the options of a packet is a parameter.
- JsonReader.ParseBuffer.ParseNumber: over exact reals, without the rounding of strtod.
- JsonPrinter.PrintBuffer.Ensure: memory is assumed to be available when the buffer grows.
- JsonPrinter.PrintGrowing: the same.
- JsonCompare.CompareDecides: stated for integer numbers, because the comparison of doubles allows for rounding.
- JsonCompare.CompareIsEquivalence: the same; CompareIsSymmetric holds for all numbers.
- ChildList.ReplaceItem: freeing the old item is not modelled.
- Transport.ClientConnection.Recv: a reply whose header states more than the buffer holds is written past its end by the source; memory there is not modelled.
- Gossip.ContentsConverge: fresh increments are sufficient, not necessary; QuiescentContentsEqual and IncrementKeepsVersioned give the exact conditions for a state and for a step.
- BuddyLists.StepKeepsCurrent: one list to a version is sufficient, not necessary.
- BuddyLists.RacingIncrementsDiverge: a family of runs, not all; the exact conditions are those two.
- BuddyLists.CrossedRequestsSwap: the same.
- BuddyLists.LostRequestsSplit: a family of runs; StepKeepsInv and QuiescentCountsEqual have the exact conditions.
- RingAppend.AppendGrows: the running sector index is assumed to stay below its 24-bit limit, as the source does.
- RingDevice.RingBuffer.Read: stated for well-formed rings with erased room ahead, because on a completely full ring a search can run around for ever.
- RingDevice.RingBuffer.Find: the same.
- RingDevice.RingBuffer.Delete: the same.
- RingRecords.FindIsFirst: stated for ids without cut records and without a live record that ends inside the key; otherwise old bytes of the scratch buffer decide, as FindFrom says.
- RingHistory.DeletesFirstHit: the same.
- FlashIo.AppendSettles: stated for records that stay in one sector; AppendKeepsSettled is for all.
- FlashIo.Credentials.Reopen: the memory behind the area is assumed not to be a sector header; CheckPasses has the exact condition.
- FlashIo.Credentials.CountIds: needs erased room in the ring, as reading does.
- FlashIo.Credentials.ReadNth: the same.
- FlashIo.Credentials.ReadLatest: the same.
- FlashIo.Credentials.WriteId: the same, and a record that stays in one sector.
- FlashIo.Credentials.EraseOne: needs erased room in the ring, and entries that are not cut.
- FlashIo.Credentials.EraseRedundant: the same.
- FlashIo.Credentials.Search: the same.
- FlashIo.Credentials.FindMatching: the same; an empty name is answered with no password, where the source returns success and leaves the caller's buffer alone.
- FlashIo.Credentials.WriteSsid: stated for entries that stay in one sector and leave erased room behind; name and password together fit the 64-byte buffer of the source.
- FlashIo.Credentials.WriteHostname: stated for names of at most a page that stay in one sector and leave erased room behind, and whose C string is shorter than 64 bytes.
- FlashIo.Credentials.ReadHostname: needs erased room in the ring, as reading does.
- FlashIo.Credentials.WriteAll: the same as for WriteSsid and WriteHostname; it stops before a record for which that does not hold.
- ApScan.PasswordOf: needs erased room in the ring, as the lookup does.
- ApScan.FindBest: the same.
- ApScan.OfferAll: the same.
- ApScan.SortAndOffer: the same.
- JsonCompare.RepeatedKeyBreaksCompare: one object; the exact condition is in CompareIsEquivalence.
