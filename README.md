# EtherNet/IP driver core, modelled in Dafny

This project models the sequential core of the EPICS `ether_ip` driver. The driver reads and writes tags of Allen-Bradley ControlLogix PLCs over EtherNet/IP, using the CIP (Common Industrial Protocol) messages of the Logix5000 data access publication. The model has five parts:

- **CIP and EtherNet/IP wire codec** (`ether_ip.c`; modules `Bytes`, `Tags`, `Cip`, `Paths`, `UnconnectedSend`, `Encapsulation`, `Multi`):
  - little-endian packing;
  - the tag-string parser and renderer;
  - symbolic and element path segments;
  - MR (message router) requests and responses;
  - ReadData and WriteData requests;
  - typed element get and put;
  - the Unconnected Send envelope;
  - the encapsulation header and SendRRData;
  - the Multiple Service Packet request builder and response splitter.

  Every builder writes into an `array<byte>` from a position and returns the position behind what it wrote. Its contract ties the written bytes to a byte-sequence function, and the size functions are proved equal to the bytes laid out.
- **Driver registry and scan lists** (`drvEtherIP.c`; modules `Registry`, `Scan`):
  - PLCs, their scan lists and the tags on them, as classes whose methods update fields in place. A collection is a `seq` field.
  - Tag registration, which is idempotent, keeps names unique and moves a tag to a faster list.
  - Callback sets.
  - Batch sizing under a byte budget, with the `do_write`/`is_writing` latch.
  - Write sizes derived from the read probe.
  - Distribution of a multi-reply to the tags.
  - Invalidation on disconnect.
  - The reschedule rule.
- **Device support** (`devEtherIP.c`; modules `BitArray`, `Links`, `BinaryOutput`):
  - `get_bits` and `put_bits` over packed 32-bit BOOL-array words;
  - `find_token` and the flag, tag and element analysis of `analyze_link`;
  - the write decision of the binary output records.
- **Memory string file** (`mem_string_file.c`; module `MemStringFile`): the ring buffer with wrap-around and overrun, as a class over an `array<char>`. Its text is specified as "the last size-1 characters of everything added since the last clear".
- **Intrusive doubly linked list** (`dl_list.h`, `dl_list.c`; module `DLList`): nodes and list as heap objects with `prev`/`next`/`first`/`last` fields. The node order is recorded in a ghost sequence.

A C pointer that may be null becomes an `Option`. A `size_t` or CIP integer becomes a bounded integer subtype, with the C truncation written out. `long` is 32 bits wide, because `EIP_startup` refuses to run unless the UDINT type, an `unsigned long`, has 4 bytes (`check_sizes`, `ether_ip.c`). `size_t` is taken to be 64 bits wide, as on an LLP64 target; on a 32-bit target its wrap-arounds happen at 2^32 instead. Timestamps and the registry's scan-list periods are integers; the scan period `analyze_link` computes is a `real` in `Links`.

## Model

| member | source | states |
|---|---|---|
| Bytes.LEofFromLE | ether_ipApp/src/ether_ip.c:115-128 | encoding the value that a byte string decodes to gives that byte string back |
| Bytes.FromLEofLE | ether_ipApp/src/ether_ip.c:76-90 | decoding the little-endian image of a value gives the value reduced modulo the width |
| Bytes.PackUSINT | ether_ipApp/src/ether_ip.c:70-74 | stores the one byte at the position, changes nothing else and advances the position by one |
| Bytes.PackUINT | ether_ipApp/src/ether_ip.c:76-81 | stores the two-byte little-endian image of the value, changes nothing else, advances by two |
| Bytes.PackUDINT | ether_ipApp/src/ether_ip.c:83-90 | stores the four-byte little-endian image of the value, changes nothing else, advances by four |
| Bytes.UnpackUINTValue | ether_ipApp/src/ether_ip.c:115-120 | reads the little-endian value of the two bytes at the position |
| Bytes.UnpackUDINTValue | ether_ipApp/src/ether_ip.c:122-129 | reads the little-endian value of the four bytes at the position |
| Bytes.UINTRoundTrip | ether_ipApp/src/ether_ip.c:76-81 | unpack_UINT reads back the value pack_UINT wrote and advances by the same two bytes |
| Bytes.UDINTRoundTrip | ether_ipApp/src/ether_ip.c:83-90 | unpack_UDINT reads back the value pack_UDINT wrote and advances by the same four bytes |
| Tags.Cspn | ether_ipApp/src/ether_ip.c:373 | the length of the longest prefix without '.' or '[', which is followed by one of those two or by the end |
| Tags.Strchr | ether_ipApp/src/ether_ip.c:404 | the index of the first occurrence of the character, with none before it; None exactly when it does not occur |
| Tags.Digits | ether_ipApp/src/ether_ip.c:402 | the digits atol reads form a prefix of the text made only of decimal digits |
| Tags.Decimal | ether_ipApp/src/ether_ip.c:437-438 | the "%u" text of an element index is a non-empty string of decimal digits |
| Tags.DecimalValue | ether_ipApp/src/ether_ip.c:437-438 | the digits printed for a number have that number as their decimal value |
| Tags.AtolDecimal | ether_ipApp/src/ether_ip.c:402 | atol reads back the number "%u" printed when a non-digit (or the end) follows it |
| Tags.ParseTag | ether_ipApp/src/ether_ip.c:362-418 | the loop builds exactly the segment list Parse describes (empty list for the null result) |
| Tags.NextSegments | ether_ipApp/src/ether_ip.c:373-415 | one turn of the loop: the segments of the name at the start and where parsing resumes on a shorter rest; failure exactly when the whole parse fails |
| Tags.IndexedName | ether_ipApp/src/ether_ip.c:397-414 | a name followed by '[' gives a name and an element segment and resumes after ']' (and one '.'); no ']' makes the parse fail |
| Tags.ParseRender | ether_ipApp/src/ether_ip.c:362-445 | parsing the string EIP_copy_ParsedTag renders from a well-formed segment list gives that list back |
| Tags.RenderParse | ether_ipApp/src/ether_ip.c:362-445 | for a tag string that is the rendering of a well-formed list, parsing yields that list and rendering the parse reproduces the string |
| Tags.UnclosedIndex | ether_ipApp/src/ether_ip.c:397-406 | a name followed by '[' with no ']' after it makes EIP_parse_tag return null (empty list) |
| Cip.TypeSize | ether_ipApp/src/ether_ip.c:904-917 | the element size is 1, 2 or 4 bytes for the known types and 0 exactly for the types it does not know |
| Cip.PutServicePath | ether_ipApp/src/ether_ip.c:666-675 | writes the service, the path size in words and the encoded tag path, nothing else, and returns the position after them |
| Cip.MakeReadData | ether_ipApp/src/ether_ip.c:931-945 | writes exactly CIP_ReadData_size bytes, the request's byte image, and nothing else |
| Cip.ReadDataLayout | ether_ipApp/src/ether_ip.c:924-945 | the request is CIP_ReadData_size bytes long, ends with the element count as a UINT, and its data starts two bytes before its end |
| Cip.MakeWriteData | ether_ipApp/src/ether_ip.c:1328-1351 | writes exactly CIP_WriteData_size bytes (service, path, type, count, raw data) and nothing else |
| Cip.WriteSizeFromRead | ether_ipApp/src/ether_ip.c:1316-1321 | the size of a write request is the read request's size plus the type, count and data bytes that replace the count |
| Cip.RawMRResponseData | ether_ipApp/src/ether_ip.c:706-726 | the data starts after the 4-byte header and the extended status words; its length is 0 exactly when the response ends there, else it reaches the response's end |
| Cip.ResponseDataRoundTrip | ether_ipApp/src/ether_ip.c:706-726 | for a response built from service, status, extended status and data, the located data is exactly that data |
| Cip.CheckReadDataResponse | ether_ipApp/src/ether_ip.c:1298-1308 | accepts exactly a ReadData reply with general status 0, and then returns where its data lies |
| Cip.ReadReplyData | ether_ipApp/src/ether_ip.c:1298-1308 | a ReadData reply is accepted exactly when its status is 0, and then its data is returned |
| Cip.ChecksMatchService | ether_ipApp/src/ether_ip.c:1298-1513 | check_CIP_ReadData_Response (1298-1308), check_CIP_WriteData_Response (1368-1383) and check_CIP_MultiRequest_Response (1496-1513): a reply accepted as a write reply or a multi-request reply is not accepted as a reply of another service |
| Cip.GetUDINT | ether_ipApp/src/ether_ip.c:1077-1110 | fails exactly for an unknown type; REAL yields the raw image; other types yield the little-endian value of the element's bytes |
| Cip.GetDINT | ether_ipApp/src/ether_ip.c:1112-1145 | fails exactly for an unknown type; an integer value lies in the 32-bit signed range |
| Cip.DINTofUDINT | ether_ipApp/src/ether_ip.c:1077-1145 | get_CIP_DINT is get_CIP_UDINT's value sign-extended by the element width (BOOL and SINT are not sign-extended) |
| Cip.GetUSINT | ether_ipApp/src/ether_ip.c:1147-1166 | succeeds exactly for BOOL and SINT data, with the same value as get_CIP_UDINT |
| Cip.PutUDINT | ether_ipApp/src/ether_ip.c:1231-1260 | for a known type, writes the element's image of the value at the element's offset and nothing else; otherwise fails and changes nothing |
| Cip.PutDINT | ether_ipApp/src/ether_ip.c:1262-1295 | as put_CIP_UDINT for the value taken modulo 2^32; an unknown type fails and changes nothing |
| Cip.PutThenGetUDINT | ether_ipApp/src/ether_ip.c:1231-1260 | with get_CIP_UDINT (1077-1110): reading back an element of an integer type gives the written value reduced to the element width |
| Cip.PutKeepsOthers | ether_ipApp/src/ether_ip.c:1231-1295 | writing one element leaves every other element's value unchanged |
| Cip.PutThenGetDINT | ether_ipApp/src/ether_ip.c:1262-1295 | with get_CIP_DINT (1112-1145): a DINT written to DINT or BITS data reads back unchanged, to INT data when it fits 16 bits, to BOOL/SINT as its low byte |
| Paths.EncodeSegment | ether_ipApp/src/ether_ip.c:462-538 | a segment's image has the size tag_path_size counts for it, an even number of bytes |
| Paths.EncodePath | ether_ipApp/src/ether_ip.c:462-538 | a path's image has the byte size tag_path_size counts, an even number |
| Paths.TagPathSize | ether_ipApp/src/ether_ip.c:462-489 | the loop's word count is half the byte length of the path make_tag_path writes |
| Paths.PutName | ether_ipApp/src/ether_ip.c:498-507 | writes 0x91, the name length, the name and a pad byte for an odd length, and nothing else |
| Paths.PutElement8 | ether_ipApp/src/ether_ip.c:510-514 | an index up to 0xFF is written as 0x28 and one byte |
| Paths.PutWideElement | ether_ipApp/src/ether_ip.c:515-531 | a wider index is written as its code, a zero byte and the 2- or 4-byte little-endian index |
| Paths.PutElement | ether_ipApp/src/ether_ip.c:509-533 | writes exactly the image of the element segment, choosing the 1-, 2- or 4-byte form by the index |
| Paths.MakeTagPath | ether_ipApp/src/ether_ip.c:491-538 | writes exactly the encoded path, twice tag_path_size bytes, and returns the position after it |
| Paths.PathStartsWithSymbol | ether_ipApp/src/ether_ip.c:498-500 | the path of a well-formed tag starts with the ANSI extended symbol segment and the first name's length |
| Paths.CIAPath | ether_ipApp/src/ether_ip.c:305-333 | the class/instance path is 0x20 class 0x24 instance, followed by 0x30 attribute only when the attribute is not 0 |
| Paths.MakeCIAPath | ether_ipApp/src/ether_ip.c:311-333 | writes exactly that path, CIA_path_size words long, and returns the position after it |
| Paths.MakeMRRequest | ether_ipApp/src/ether_ip.c:666-675 | writes the service and the path size in words, nothing else, advancing by two |
| Paths.RequestDataAfterPath | ether_ipApp/src/ether_ip.c:660-682 | for a request made by make_MR_Request, raw_MR_Request_data (679-682) finds the data at MR_Request_size of its path |
| UnconnectedSend.CalcTickTime | ether_ipApp/src/ether_ip.c:817-831 | succeeds exactly up to 8355840 ms, and then ticks times 2^tick_time brackets the time with ticks at most 255 and tick_time at most 15 |
| UnconnectedSend.UnconnectedSendTicks | ether_ipApp/src/ether_ip.c:860-864 | the only split of 245760 ms meeting calc_tick_time's promise is tick time 10 with 240 ticks |
| UnconnectedSend.UnconnectedSendTimeout | ether_ipApp/src/ether_ip.c:817-831 | as called from make_CM_Unconnected_Send (line 864): calc_tick_time computes tick time 10 and 240 ticks for the constant timeout |
| UnconnectedSend.MakeCMUnconnectedSend | ether_ipApp/src/ether_ip.c:856-893 | writes the header, timing, message size, skipped padded message room and route to the slot, and returns where the nested request goes |
| UnconnectedSend.PutUnconnectedSendHead | ether_ipApp/src/ether_ip.c:866-874 | writes the MR header, the connection manager path, tick time, ticks and message size, nothing else |
| UnconnectedSend.PutRoute | ether_ipApp/src/ether_ip.c:883-888 | writes path size 1, a reserved 0, port 1 and the slot, nothing else |
| UnconnectedSend.UnconnectedSendLayout | ether_ipApp/src/ether_ip.c:841-893 | the request occupies CM_Unconnected_Send_size bytes: fixed head bytes, the message size as a UINT, the untouched message room and the slot last; bytes around it are unchanged |
| UnconnectedSend.MessageSizeField | ether_ipApp/src/ether_ip.c:866-870 | the head holds the fixed bytes and reads back the message size modulo 2^16 |
| Encapsulation.MakeEncapsulationHeader | ether_ipApp/src/ether_ip.c:1895-1936 | fails and writes nothing exactly when header plus length exceed the buffer; otherwise writes exactly the 24-byte header and returns the position after it |
| Encapsulation.HeaderFields | ether_ipApp/src/ether_ip.c:1907-1919 | the header reads back as command, length, session, status 0, the fixed server context and the options |
| Encapsulation.MakeSendRRData | ether_ipApp/src/ether_ip.c:2119-2150 | fails and writes nothing exactly when the encapsulated length does not fit the buffer; otherwise writes exactly the header and the RRData fields |
| Encapsulation.PutRRData | ether_ipApp/src/ether_ip.c:2129-2135 | writes interface handle 0, timeout 0, item count 2, the null address item and the unconnected data item with its length, nothing else |
| Encapsulation.SendRRDataFields | ether_ipApp/src/ether_ip.c:2119-2135 | the request reads back as SendRRData, a length of the RRData fields plus the data, the session, two items, data type 0xB2 and the data length |
| Encapsulation.SendRRDataHeader | ether_ipApp/src/ether_ip.c:2121-2125 | the header's command is SendRRData, its length the 16-bit RRData length and its session the connection's |
| Multi.PrepareMultiRequest | ether_ipApp/src/ether_ip.c:1411-1434 | writes the MR header, the message router path, the count, the first offset (count+1)*2 and zero for every other offset, nothing else |
| Multi.PreparedSize | ether_ipApp/src/ether_ip.c:1398-1434 | what prepare_CIP_MultiRequest writes is CIP_MultiRequest_size(count, 0) bytes |
| Multi.PreparedLayout | ether_ipApp/src/ether_ip.c:1411-1434 | the prepared request has its count at byte 6 and an offset table that reads as the first offset followed by zeros |
| Multi.PreparedFields | ether_ipApp/src/ether_ip.c:1418-1423 | the path is two words long and the count field holds the count |
| Multi.GetMultiResponse | ether_ipApp/src/ether_ip.c:1552-1583 | finds no reply exactly when the reply number is not below the count in the response |
| Multi.ItemResult | ether_ipApp/src/ether_ip.c:1443-1478 | an item is found exactly for a request number below the count whose offset is not 0 |
| Multi.MultiRequestItem | ether_ipApp/src/ether_ip.c:1443-1478 | returns the item position the offset table gives and writes only the next offset, as ItemWrite describes |
| Multi.ItemOnTable | ether_ipApp/src/ether_ip.c:1443-1478 | the item position is read from the offset table, relative to the count field |
| Multi.ItemStepOnTable | ether_ipApp/src/ether_ip.c:1471-1475 | a call keeps the count and sets only the next entry of the offset table, to this offset plus the item size |
| Multi.InOrder | ether_ipApp/src/ether_ip.c:1411-1478 | after items 0..n-1 were placed in order, offset j is (count+1)*2 plus the sizes of the items before j, and later offsets are 0 |
| Multi.ItemsInOrder | ether_ipApp/src/ether_ip.c:1443-1478 | called in order, each item is found right behind the previous ones, and an item called too early is refused |
| Multi.ItemsEnd | ether_ipApp/src/ether_ip.c:1443-1478 | with CIP_MultiRequest_size (1398-1404): the count field's position plus the last item's offset and size is exactly CIP_MultiRequest_size(count, sum of the sizes) |
| Multi.ReplyCount | ether_ipApp/src/ether_ip.c:1488-1513 | a multiple reply built from replies holds their count at byte 4 and is accepted by check_CIP_MultiRequest_Response |
| Multi.SplitReplies | ether_ipApp/src/ether_ip.c:1552-1583 | in a multiple reply built from replies, reply i is found exactly for i below their number, at the right place with its own size |
| Multi.ReplyAt | ether_ipApp/src/ether_ip.c:1552-1583 | a reply starts at the count field plus its offset; its size reaches the next offset, or the end for the last one |
| Registry.CallbacksStayDistinct | ether_ipApp/src/drvEtherIP.c:1260-1299 | adding a callback leaves it in a list without duplicates, removing one leaves it out, and no other callback's membership changes |
| Registry.AddThenRemoveCallback | ether_ipApp/src/drvEtherIP.c:1260-1299 | removing a callback that was just added restores the list it was added to |
| Registry.TagInfo.constructor | ether_ipApp/src/drvEtherIP.c:135-160 | a new tag keeps its string, parsed tag and element count, has no scan list, callbacks, sizes, data, or pending write |
| Registry.TagInfo.ReserveTagData | ether_ipApp/src/drvEtherIP.c:165-190 | succeeds exactly when the buffer is large enough or the request is below the buffer limit; a grown buffer is exactly the requested number of zero bytes; otherwise the data is unchanged |
| Registry.TagInfo.AddCallback | ether_ipApp/src/drvEtherIP.c:1260-1281 | the callback list gains the callback unless it is already there, and nothing else in the tag changes |
| Registry.TagInfo.RemoveCallback | ether_ipApp/src/drvEtherIP.c:1283-1299 | the callback list loses the callback if it is there, and nothing else in the tag changes |
| Registry.NewTagInfo | ether_ipApp/src/drvEtherIP.c:135-160 | fails exactly for a tag string that does not parse; otherwise a fresh, empty tag with the parse and the element count |
| Registry.FindName | ether_ipApp/src/drvEtherIP.c:295-306 | finds the first tag in the list with the name, and nothing exactly when no tag has that name |
| Registry.FindUnique | ether_ipApp/src/drvEtherIP.c:295-306 | in a list with unique names, the search for a tag's name finds that tag |
| Registry.AppendUnique | ether_ipApp/src/drvEtherIP.c:315-319 | appending a tag whose name is new keeps the names unique |
| Registry.RemoveName | ether_ipApp/src/drvEtherIP.c:309-313 | removing a tag removes exactly its name and keeps the names unique |
| Registry.FindPeriodFrom | ether_ipApp/src/drvEtherIP.c:952-967 | finds the first scan list with the period, and none exactly when no list has it |
| Registry.LocateFrom | ether_ipApp/src/drvEtherIP.c:972-985 | find_PLC_tag finds a list and a position holding the name, or the name is on no list |
| Registry.LocateUnique | ether_ipApp/src/drvEtherIP.c:972-985 | in a valid layout, looking up a tag's name finds that very tag |
| Registry.SameList | ether_ipApp/src/drvEtherIP.c:1219-1258 | in a valid layout a tag name is on at most one scan list |
| Registry.WithdrawValid | ether_ipApp/src/drvEtherIP.c:309-313 | taking a tag off its list keeps the layout valid, removes only its name, and leaves every other list and every period alone |
| Registry.InsertValid | ether_ipApp/src/drvEtherIP.c:952-967 | adding a tag with a new name to the list for a period keeps the layout valid |
| Registry.InsertPlace | ether_ipApp/src/drvEtherIP.c:952-967 | the tag is appended to the list with that period, or to a new list at the end when there is none; all other lists stay |
| Registry.AddTagPlace | ether_ipApp/src/drvEtherIP.c:1219-1258 | drvEtherIP_add_tag keeps the layout valid; a new tag goes last on the period's list; a known tag ends on the list of the shorter period, and stays put when its list is fast enough |
| Registry.NotElsewhere | ether_ipApp/src/drvEtherIP.c:309-313 | a withdrawn tag's name is on no list afterwards |
| Registry.InsertByList | ether_ipApp/src/drvEtherIP.c:952-967 | inserting is get_PLC_ScanList with create followed by an append to the list it returns |
| Registry.FindAppended | ether_ipApp/src/drvEtherIP.c:952-967 | a list created for a missing period is the one found for that period |
| Registry.WithListValid | ether_ipApp/src/drvEtherIP.c:952-967 | creating a scan list keeps the layout valid |
| Registry.UnlinkAt | ether_ipApp/src/drvEtherIP.c:309-313 | unlinking a tag from a list with unique names removes exactly its position |
| Registry.AddTagPeriod | ether_ipApp/src/drvEtherIP.c:1219-1258 | after add_tag the tag is scanned at the minimum of its old period and the requested one, or at the requested one if it is new |
| Registry.AddTagOthers | ether_ipApp/src/drvEtherIP.c:1219-1258 | add_tag leaves every other tag's period unchanged |
| Registry.AddTagIdempotent | ether_ipApp/src/drvEtherIP.c:1219-1258 | adding the same tag with the same period a second time changes nothing |
| Registry.ScanList.constructor | ether_ipApp/src/drvEtherIP.c:259-281 | a new scan list has the period, no tags, is enabled and has no errors or times |
| Registry.ScanList.FindTag | ether_ipApp/src/drvEtherIP.c:295-306 | the loop returns the first tag with the name, or null when there is none |
| Registry.RemoveScanListTagInfo | ether_ipApp/src/drvEtherIP.c:309-313 | the tag is unlinked from the list and has no scan list; the list's schedule, the tag's element count, sizes, data, callbacks and write flags are unchanged |
| Registry.AddScanListTagInfo | ether_ipApp/src/drvEtherIP.c:315-319 | the tag is appended to the list and points back to it; the schedule, the tag's element count, sizes, data, callbacks and write flags are unchanged |
| Registry.PLC.constructor | ether_ipApp/src/drvEtherIP.c:337-359 | a new PLC has the name, no scan lists, is not connected and has no errors |
| Registry.PLC.GetScanList | ether_ipApp/src/drvEtherIP.c:952-967 | returns the first list with the period; otherwise a fresh empty list appended when asked to create, else null |
| Registry.PLC.FindTag | ether_ipApp/src/drvEtherIP.c:972-985 | returns the list and the tag the lookup of the name finds, or nulls |
| Registry.PLC.AppendTag | ether_ipApp/src/drvEtherIP.c:315-319 | the tag is appended to list j and only that list's view changes; the tag's element count, sizes, data, callbacks and write flags are unchanged |
| Registry.PLC.WithdrawTag | ether_ipApp/src/drvEtherIP.c:309-313 | the tag leaves list j and only that list's view changes; the tag's element count, sizes, data, callbacks and write flags are unchanged |
| Registry.PLC.AddTag | ether_ipApp/src/drvEtherIP.c:1219-1258 | the layout becomes AddTagTo of the old one; a known tag is returned with the larger element count and its sizes, data, callbacks and write flags unchanged; a new tag is fresh and empty, or null exactly when its string does not parse; every other registered tag keeps its list, element count and value |
| Registry.PLC.UpdateTag | ether_ipApp/src/drvEtherIP.c:1224-1238 | a known tag moves to a faster list when needed and keeps the larger element count; its sizes, data, callbacks and write flags are unchanged |
| Registry.PLC.CreateTag | ether_ipApp/src/drvEtherIP.c:1239-1253 | a new, empty tag (no sizes, data, callbacks or write) is appended to the period's list (created if missing), or null exactly when the string does not parse |
| Registry.PLC.MoveTag | ether_ipApp/src/drvEtherIP.c:1227-1236 | a tag on a too slow list is withdrawn from it and appended to the list with the period; its element count, sizes, data, callbacks and write flags are unchanged |
| Registry.FindPLCFrom | ether_ipApp/src/drvEtherIP.c:934-942 | finds the first PLC with the name, or none exactly when none has it |
| Registry.AppendPLC | ether_ipApp/src/drvEtherIP.c:944-948 | appending a PLC with a new name keeps names unique, and it is then found |
| Registry.Driver.GetPLC | ether_ipApp/src/drvEtherIP.c:934-949 | returns the PLC with the name; otherwise a fresh PLC appended when asked to create, else null; names stay unique |
| Scan.SlotOf | ether_ipApp/src/drvEtherIP.c:567-591 | a tag in a write cycle counts its write request and response sizes, otherwise its read sizes |
| Scan.Latch | ether_ipApp/src/drvEtherIP.c:556-570 | a skipped tag is untouched; otherwise is_writing becomes do_write or is_writing and do_write is cleared |
| Scan.LongestFittingBatch | ether_ipApp/src/drvEtherIP.c:537-622 | the count is the longest run of scanned tags whose multi request and response both fit the limit, with their summed sizes; it falls short of the candidates exactly on overflow; a lone tag too big gives 0 |
| Scan.SizeFromBatch | ether_ipApp/src/drvEtherIP.c:554-617 | the loop from tag i on computes the batch Batched describes over the remaining candidates, and examines every tag unless it overflows |
| Scan.PrefixesFit | ether_ipApp/src/drvEtherIP.c:593-616 | every prefix of the chosen batch fits the limit, and the totals are the batch's summed sizes |
| Scan.NoLongerPrefixFits | ether_ipApp/src/drvEtherIP.c:593-613 | no longer prefix of the candidates fits the limit |
| Scan.FirstAlone | ether_ipApp/src/drvEtherIP.c:605-612 | when the first candidate alone exceeds the limit the count is 0 |
| Scan.DetermineMultiRequestCount | ether_ipApp/src/drvEtherIP.c:537-622 | returns the count and sizes LongestFittingBatch describes and the multi sizes for them (left as before when nothing was examined); latches exactly the examined tags and changes nothing else |
| Scan.SizeTag | ether_ipApp/src/drvEtherIP.c:556-616 | one scanned tag: it is latched, its slot is added, and it joins the batch exactly when the batch still fits |
| Scan.Plan | ether_ipApp/src/drvEtherIP.c:674-707 | the request sizes of the first count scanned tags, in list order |
| Scan.PlanRequests | ether_ipApp/src/drvEtherIP.c:674-707 | the loop that places the requests visits exactly the planned scanned tags in order |
| Scan.CandidateItems | ether_ipApp/src/drvEtherIP.c:554-557 | with the request loop's test (674-677): the sizing loop and the request loop skip the same tags |
| Scan.BatchPlan | ether_ipApp/src/drvEtherIP.c:537-707 | the requests placed are those the sizing counted, in order, and their sizes add up to the requests size it computed |
| Scan.ProbeScanned | ether_ipApp/src/drvEtherIP.c:409-448 | after completion a tag is scanned exactly when the probe read was answered with more than 4 bytes and its request was not empty; an unanswered tag gets all sizes 0 |
| Scan.ProbedWriteSizes | ether_ipApp/src/drvEtherIP.c:428-439 | the write sizes estimated from the read sizes equal the sizes of the actual write request and reply |
| Scan.CompleteList | ether_ipApp/src/drvEtherIP.c:398-450 | every tag of the list is probed and completed; some probe succeeds exactly when some tag was answered |
| Scan.ProbeTag | ether_ipApp/src/drvEtherIP.c:401-449 | one tag: answered exactly when the PLC answers its read, with the sizes completed from the answer and nothing else changed |
| Scan.CompletePLCTagInfos | ether_ipApp/src/drvEtherIP.c:384-457 | succeeds exactly when no list has tags or some tag was answered; every tag's sizes are completed |
| Scan.AfterReply | ether_ipApp/src/drvEtherIP.c:759-807 | after its reply a tag's buffer stays consistent, stays below the buffer limit when it was, and no write is in progress; a reply whose size runs past the bytes received is accepted when reserve_tag_data would refuse its data |
| Scan.HandleReply | ether_ipApp/src/drvEtherIP.c:753-809 | the tag's value becomes AfterReply of its old value, and nothing else in it changes |
| Scan.ReadReplyStored | ether_ipApp/src/drvEtherIP.c:772-787 | an accepted read's data lands at the start of the buffer, grown to fit, and is all valid |
| Scan.OversizeReplyLost | ether_ipApp/src/drvEtherIP.c:165-190 | a read reply whose size ran past the bytes received (a size that wrapped in size_t) is never copied: reserve_tag_data refuses it and the tag has no valid value |
| Scan.ReadReplyLost | ether_ipApp/src/drvEtherIP.c:772-806 | a refused reply, one without data or one needing a buffer at the limit leaves no valid value and nothing else changed |
| Scan.ReadDuringWrite | ether_ipApp/src/drvEtherIP.c:774-781 | a read reply that arrives after device support asked for a write leaves the tag as it was |
| Scan.WriteReplyEnds | ether_ipApp/src/drvEtherIP.c:759-769 | a write reply ends the write; the value stays valid exactly when the write was accepted |
| Scan.StaleDataSize | ether_ipApp/src/drvEtherIP.c:772-787 | a refused read following an accepted 6-byte read still sees data_size 6 as written, while the intended handling leaves the tag invalid |
| Scan.Numbering | ether_ipApp/src/drvEtherIP.c:739-816 | a scanned tag's reply number is its rank among the scanned tags, below the number of replies |
| Scan.NumberingRank | ether_ipApp/src/drvEtherIP.c:739-815 | tag k gets reply rank(k) when scanned and within range, and none otherwise |
| Scan.ReplyToTag | ether_ipApp/src/drvEtherIP.c:743-816 | one scanned tag gets its reply exactly when the multiple reply has reply i, and then ends with its outcome; no other tag changes; a reply's size may run past the bytes received when its data is one reserve_tag_data refuses |
| Scan.ReplyLoop | ether_ipApp/src/drvEtherIP.c:739-817 | succeeds exactly when the reply has count replies; every tag ends with its outcome, the callbacks of the answered tags fire in list order, and on success the next tag is the one after the count-th scanned tag |
| Scan.DistributeReplies | ether_ipApp/src/drvEtherIP.c:739-817 | the same over the tags themselves: each tag ends with the outcome of the reply with its number, only its value changes, and the callbacks fire in order; replies need only their header inside the bytes received when their size wrapped past the buffer limit |
| Scan.InvalidatedHolds | ether_ipApp/src/drvEtherIP.c:476-477 | invalidating keeps the buffer consistent, is idempotent, and leaves no valid value and no write in progress |
| Scan.InvalidateTag | ether_ipApp/src/drvEtherIP.c:471-478 | the tag's value is invalidated and nothing else in it changes |
| Scan.InvalidateList | ether_ipApp/src/drvEtherIP.c:468-490 | every tag of the list is invalidated and the callbacks fire tag by tag in list order |
| Scan.InvalidatePLCTags | ether_ipApp/src/drvEtherIP.c:459-492 | every tag of every list is invalidated and all callbacks fire, list by list |
| Scan.Disconnect | ether_ipApp/src/drvEtherIP.c:494-502 | a connected PLC is disconnected and its tags invalidated with their callbacks; an unconnected one stays as it is |
| Scan.Reschedule | ether_ipApp/src/drvEtherIP.c:867-881 | after a good transfer the list is due again one period after its scan time; after a failure it is due a timeout after the end, both error counters grow and the PLC is disconnected |
| Scan.TransferFailed | ether_ipApp/src/drvEtherIP.c:872-880 | a failed transfer counts the errors, reschedules after the timeout and disconnects the PLC |
| BitArray.SetBitBits | ether_ipApp/src/devEtherIP.c:229-232 | setting or clearing one bit of a word changes that bit and no other |
| BitArray.BitsDetermine | ether_ipApp/src/devEtherIP.c:177-212 | two values below 2^n with the same n low bits are equal |
| BitArray.NextBit | ether_ipApp/src/devEtherIP.c:194-203 | the mask moves to the next bit, or to bit 0 of the next element after bit 31 |
| BitArray.BitsValueBound | ether_ipApp/src/devEtherIP.c:177-212 | the value of a run of n bits is below 2^n |
| BitArray.BitsValueBits | ether_ipApp/src/devEtherIP.c:177-212 | bit i of the run's value is the i-th bit of the run in the BOOL array, counted from the start bit across element boundaries |
| BitArray.GetBits | ether_ipApp/src/devEtherIP.c:177-212 | succeeds exactly for integer data, and then returns the value of the record's run of bits (at least one); fails with 0 otherwise |
| BitArray.GetRun | ether_ipApp/src/devEtherIP.c:193-210 | the loop over bits 1.. completes the run's value from the first bit's value |
| BitArray.StoreWord | ether_ipApp/src/devEtherIP.c:236-261 | put_CIP_UDINT stores the word's kept bits in the element and changes no byte outside it |
| BitArray.PutBits | ether_ipApp/src/devEtherIP.c:215-267 | succeeds exactly for integer data and then leaves the run holding the value's bits with everything else unchanged (PutDone); fails changing nothing otherwise |
| BitArray.PutRun | ether_ipApp/src/devEtherIP.c:233-261 | the loop over bits 1.. and the final store complete the run |
| BitArray.PutThenGetBits | ether_ipApp/src/devEtherIP.c:177-267 | after put_bits each bit of the run reads as the value's bit, for bit positions the element type keeps |
| BitArray.PutThenGetWord | ether_ipApp/src/devEtherIP.c:177-267 | on 32-bit elements get_bits after put_bits returns the value modulo 2^bits |
| BitArray.PutKeepsOtherElements | ether_ipApp/src/devEtherIP.c:215-267 | put_bits leaves every element outside the run unchanged |
| BitArray.PutThenGetBit | ether_ipApp/src/devEtherIP.c:177-267 | one bit of the run reads back as written when its position is kept by the element type |
| Links.SkipBlanks | ether_ipApp/src/devEtherIP.c:636-637 | stops at the first non-space at or after the start, or at the end |
| Links.TokenShape | ether_ipApp/src/devEtherIP.c:633-647 | no token exactly when only spaces remain; a token is preceded by spaces only, holds no space, and ends at a space or the end of the text |
| Links.FindToken | ether_ipApp/src/devEtherIP.c:633-647 | the loop returns the token Token describes |
| Links.FirstOption | ether_ipApp/src/devEtherIP.c:707-742 | with the option table (62-78): an option found is one whose text starts the token |
| Links.FirstOptionSpec | ether_ipApp/src/devEtherIP.c:707-742 | the option found is the first one in table order whose text starts the token; none found means no option matches |
| Links.MatchOption | ether_ipApp/src/devEtherIP.c:707-742 | the strncmp loop over the table finds the option FirstOption describes |
| Links.CheckAsWrittenMissesNumbers | ether_ipApp/src/devEtherIP.c:720-732 | as written, the scan flag check refuses only an overflow, the bit flag check never refuses when no scan period overflowed; the corrected check refuses a missing number and an overflow |
| Links.ScanFlagWithoutNumber | ether_ipApp/src/devEtherIP.c:718-727 | for the link flag "S " with no number the check as written accepts, the corrected one refuses |
| Links.BitOf | ether_ipApp/src/devEtherIP.c:731 | the bit number is the integer part of the scanned value when it fits a size_t |
| Links.FlagsKeep | ether_ipApp/src/devEtherIP.c:705-749 | the flag loop only adds special options; a period or bit it sets comes from an accepted number after an S or B flag, and then that flag is set |
| Links.InvalidFlagMatchesNothing | ether_ipApp/src/devEtherIP.c:743-748 | an invalid-flag error points at a token that starts no option of the table |
| Links.BadNumberRefused | ether_ipApp/src/devEtherIP.c:718-739 | under the corrected number check (a missing or overflowing number; see Findings for the source's `end==p` and `period==HUGE_VAL` tests at 721 and 732), an S or B flag whose number is refused stops the loop with the scan or bit flag error |
| Links.ScanFlags | ether_ipApp/src/devEtherIP.c:705-749 | the while loop over the tokens after the tag computes ParseFlags from empty flags; ParseFlags uses the corrected number check, not the source's tests at 721 and 732 (see Findings) |
| Links.FlagErrors | ether_ipApp/src/devEtherIP.c:705-749 | the flag loop fails only with an invalid flag, a bad scan flag or a bad bit flag |
| Links.PeriodOf | ether_ipApp/src/devEtherIP.c:752-766 | the period is positive: the scan flag's when positive, else the record's SCAN period when positive, else the default rate when positive, else 1 second |
| Links.DefaultPeriod | ether_ipApp/src/devEtherIP.c:752-766 | computes PeriodOf |
| Links.LastOpenSpec | ether_ipApp/src/devEtherIP.c:776-778 | the position found holds the last '[' before the given end; none found means there is no '[' there |
| Links.ArrayTagShape | ether_ipApp/src/devEtherIP.c:770-796 | a tag not ending in ']' or read as one element is kept whole with element 0; a cut tag is the non-empty text before the last '[' followed by a number; no '[' after the first character is a malformed tag |
| Links.CutArrayTag | ether_ipApp/src/devEtherIP.c:770-796 | the backward scan for '[' and the element number compute ArrayTag, which refuses a missing '[', a '[' in first place, no number, and a number that saturates the 32-bit `long` |
| Links.CutTagWord | ether_ipApp/src/devEtherIP.c:770-796 | the tag kept from a token is non-empty and holds no space |
| Links.PlaceCoversRun | ether_ipApp/src/devEtherIP.c:812-834 | for a BOOL array the word and mask bit locate the bit number, and the element count registered reaches the word of the run's last bit; otherwise the element is kept, the mask is the bit flag's bit and one element more is registered |
| Links.PlaceElement | ether_ipApp/src/devEtherIP.c:812-829 | computes Place |
| Links.AnalyzeParts | ether_ipApp/src/devEtherIP.c:657-834 | an accepted link has a non-empty PLC name and tag without spaces and a positive period |
| Links.MissingPLCExactly | ether_ipApp/src/devEtherIP.c:676-682 | the missing-PLC error occurs exactly for a link text of spaces only |
| Links.SaturatedElementRefused | ether_ipApp/src/devEtherIP.c:785-791 | the link `P t[99999999999]`, whose element number saturates strtol's 32-bit `long` at LONG_MAX, is refused as a malformed array tag |
| Links.AnalyzeLink | ether_ipApp/src/devEtherIP.c:657-834 | the token, flag, period, array-tag and placement steps compute Analyze; its flag step uses the corrected number check, not the source's tests at 721 and 732 (see Findings); an element number that saturates the 32-bit `long` is refused |
| MemStringFile.KeepLastTwice | ether_ipApp/src/mem_string_file.c:59-111 | keeping the last m characters after each addition is the same as keeping the last m characters of everything added |
| MemStringFile.Advance | ether_ipApp/src/mem_string_file.c:80-108 | the tail moves forward by the length modulo the buffer size; the head moves to one past the new tail exactly when the stored count plus the length reaches the buffer size, and stays otherwise |
| MemStringFile.CopyIn | ether_ipApp/src/mem_string_file.c:66-78 | the text lands at the tail, wrapping around the end of the buffer, and every position past the copied text keeps its byte |
| MemStringFile.AddKeepsLast | ether_ipApp/src/mem_string_file.c:59-111 | after copying and advancing, the ring from head to tail holds the last size-1 characters of the old contents followed by the text |
| MemStringFile.Write | ether_ipApp/src/mem_string_file.c:135-146 | writing in bunches of 100 and a remainder appends exactly the given characters to the stream |
| MemStringFile.DumpText | ether_ipApp/src/mem_string_file.c:160-175 | the stream receives the stored text and a newline, or nothing when the buffer is empty, whether or not the text wraps |
| MemStringFile.StringFile.constructor | ether_ipApp/src/mem_string_file.c:26-40 | the buffer is not yet allocated and the stored text is empty |
| MemStringFile.StringFile.Init | ether_ipApp/src/mem_string_file.c:42-57 | a first call allocates a buffer of the initial size with head and tail at its start; later calls change nothing; the stored text is unchanged |
| MemStringFile.Store | ether_ipApp/src/mem_string_file.c:66-109 | on the buffer: the new tail is the old one plus the length modulo the size, holds a NUL, and the ring from the new head holds the last size-1 characters of the old ring followed by the text |
| MemStringFile.StringFile.Add | ether_ipApp/src/mem_string_file.c:59-111 | the stored text becomes the last size-1 characters of the old text followed by the new text; the tail moves by the text's length modulo the buffer size and a NUL is stored at it |
| MemStringFile.StringFile.Clear | ether_ipApp/src/mem_string_file.c:149-154 | the stored text becomes empty |
| MemStringFile.StringFile.Dump | ether_ipApp/src/mem_string_file.c:160-178 | the stream receives the stored text and a newline when it is not empty, and the buffer is empty afterwards |
| DLList.List.constructor | ether_ipApp/src/dl_list.h:17-21 | an initialised list holds no nodes |
| DLList.List.Walk | ether_ipApp/src/dl_list.h:23-33 | following next from first visits exactly the list's nodes in order |
| DLList.List.Append | ether_ipApp/src/dl_list.h:35-45 | the node joins the end of the list, its prev is the old last node and its next is null; the list stays well linked |
| DLList.List.Unlink | ether_ipApp/src/dl_list.h:47-60 | the node leaves the list at its position, the others keep their order, and its own links are cleared |
| DLList.List.Bypass | ether_ipApp/src/dl_list.h:50-57 | the neighbours of the node are linked to each other, and first or last move when the node was at an end |
| DLList.List.DecapAsWritten | testether_ipApp/src/dl_list.c:6-16 | the head node is returned and first moves to its successor, but the new first node keeps the removed node as its prev |
| DLList.DanglingFirst | testether_ipApp/src/dl_list.c:6-16 | a list whose first node has a prev is not well linked |
| DLList.List.Decap | testether_ipApp/src/dl_list.c:6-16 | the head node is returned and removed, null for an empty list, and the list stays well linked; the returned node's own links are unchanged |
| BinaryOutput.WriteBits | ether_ipApp/src/devEtherIP.c:1251-1297 | with lock_data (127-154): a completed write only clears pact; a bad link, or a lock_data that fails (not connected, no lock, no valid data, or no more elements than the record's element), alarms; equal bits leave data and do_write alone; different bits are stored, do_write is set and the record waits |
| BinaryOutput.WriteSettles | ether_ipApp/src/devEtherIP.c:1273-1287 | after a write to 32-bit data the record does not write again exactly when the value fits the bit count |

## Left out

- Sockets, session registration, the EtherNet/IP handshakes and `EIP_read_tag`/`EIP_write_tag` are left out. A received reply is an input byte sequence.
- Threads, mutexes, semaphores, `epicsMutex` and `semTake` calls are left out, and the code is treated as sequential. A `do_write` set concurrently is an input flag of the distribution step. The `PLC_scan_task` loop is modelled only in its reschedule branch.
- OS time is left out: timestamps are integer parameters.
- The `double` period that `analyze_link` passes to `drvEtherIP_add_tag` is not carried into `Registry`, whose periods are integers; the hand-over of the period from a link to the registry, and `double` comparison of periods, are not modelled.
- Tags.Atol: reads the digits as an unbounded number and the element conversion wraps it modulo 2^64. C's `atol` returns a 32-bit `long`, and its result for a number outside that range is undefined; the model gives the wrapped value.
- Floating point is left out:
  - `pack_REAL` and `unpack_REAL`, and `get/put_CIP_double`;
  - the REAL branches of `get/put_CIP_*`, where a REAL is a raw 32-bit image;
  - the scan-time statistics.
- `strtod` and `strtol` in `analyze_link` are inputs: one scan result per text position, constrained to what the C library can return. NaN and infinities are not modelled; an overflow is a `huge` flag.
- `Links.BitOf`: converting a bit number out of the `size_t` range is undefined behaviour in C; the model gives 0.
- `1U << bit` for a bit of 32 or more is undefined in C. The model keeps the bit number and does not compute a mask from it.
- `analyze_link`'s PLC lookup, its `get_period` call (a database read) and `check_link` are not modelled. `check_link`'s result enters as the `linkOk` parameter of `BinaryOutput.WriteBits`.
- Failures of `strdup`, `malloc` and `calloc` are not modelled. `msfInit` always gets its buffer and registration always gets its objects.
- Diagnostic printing is left out: `EIP_printf`, TPRO output, the `dump_*` routines and `msfPrint`/`msfPrintf` (`vsprintf`). The FILE stream of `msfDump` is an emitted character sequence.
- `EIP_BUFFER_SIZE` and the request and response limits are parameters, because their values are not fixed in the modelled files.
- Device support sees a tag's data as an `array<byte>`, while `Registry` keeps it as a `seq<byte>` field. The sharing of that buffer between driver and records is not modelled.
- The registry's collections are `seq` fields of the classes rather than `DL_List` chains. The doubly linked list itself is modelled separately in `DLList`.
- The ai, ao, mbbi and stringin record routines and `check_*_callback` bodies are not modelled. Only the binary output write decision and the bit operations it uses are.
- The connected-messaging code compiled out under `DEFINE_CONNECTED_METHODS` is not modelled.
- Scan.DistributeReplies: the offset table of a multiple reply is trusted to put each reply's 4-byte header inside the bytes received, and the rest of the reply too unless its size (wrapped around in `size_t`) asks for data `reserve_tag_data` refuses. An offset past the bytes received makes the driver read past them, and the model does not describe that. The tags' buffers are taken to be below the buffer limit, as `reserve_tag_data` keeps them.
- Multi.PreparedSize: stated for a count of at least 1. With count 0 `prepare_CIP_MultiRequest` writes 10 bytes, more than `CIP_MultiRequest_size(0, 0)`. The driver never calls it with 0, because `process_ScanList` returns before building an empty batch.
- BitArray.GetBits: requires that the tag's data holds every element the run of bits reaches (`HoldsRun`). `lock_data` checks only that some data is valid and that the tag has more elements than the record's first one, and `get_CIP_UDINT` does no bounds check. A run that reaches past the data, for example 4 bits from "B 30" on a one-element tag (with a bit flag `analyze_link` registers only `element + 1` elements), reads out of bounds in C and is excluded from the model. It also requires integer (non-REAL) data, because the bit operations are modelled only for the integer element types.
- BitArray.PutBits: requires `HoldsRun` for the same reason. `put_CIP_UDINT` writes without a bounds check, so a run that reaches past the tag's data writes out of bounds in C; the model does not describe those writes. It also requires integer (non-REAL) data, as `BitArray.GetBits` does.
- BinaryOutput.WriteBits: when the data is locked it requires `HoldsRun`, which `lock_data` does not establish; records whose run reaches past the tag's data are excluded, as for `BitArray.GetBits` and `BitArray.PutBits`.
- BinaryOutput.WriteBits: requires non-REAL data when the data is locked. The bit operations are modelled only for the integer element types.
- Tags.ParseRender: rendering a parsed tag gives back the text only for canonical tags: decimal indices without leading zeros or signs, and no empty names.
- Scan.DetermineMultiRequestCount: as in `drvEtherIP.c`, a first candidate that alone exceeds the limit gives 0. `process_ScanList` then returns and leaves the rest of the list unserviced for that pass, rather than skipping the tag.

## Findings

| source | as written | input that shows it | evidently intended | confidence | as-written member | corrected member |
|---|---|---|---|---|---|---|
| ether_ipApp/src/drvEtherIP.c:772-787 | `data_size` is set only when `check_CIP_ReadData_Response` accepts a reply, so a refused read reply in the same batch reuses the previous reply's size | a batch whose first read reply carries a DINT (6 bytes) and whose second is refused with status 5: the second tag is reserved and copied with 6 bytes from no data | a refused read reply leaves its tag without valid data | not executed | Scan.StaleDataSize | Scan.AfterReply |
| testether_ipApp/src/dl_list.c:6-16 | `DLL_decap` moves `first` to the removed node's successor but leaves that successor's `prev` pointing at the removed node | a list of two nodes: after decap the remaining first node still has a `prev` | the new first node's `prev` is cleared, as `DLL_unlink` does | not executed | DLList.List.DecapAsWritten | DLList.List.Decap |
| ether_ipApp/src/devEtherIP.c:720-721 | the S flag compares `strtod`'s end with the flag's start `p`, but `strtod` starts two characters later and never ends before where it starts | the link flags "S " (a scan flag without a number) are accepted with period 0 | a missing number after S is refused | not executed | Links.ScanFlagWithoutNumber | Links.BadNumberRefused |
| ether_ipApp/src/devEtherIP.c:731-732 | the B flag makes the same end check, and tests the scan period for `HUGE_VAL` instead of the bit number | any B flag: the check never refuses it unless an earlier scan period overflowed | a missing or overflowing bit number after B is refused | not executed | Links.CheckAsWrittenMissesNumbers | Links.ScanFlags |
