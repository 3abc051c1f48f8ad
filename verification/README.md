# Verified model of the libmodbuspp data path

libmodbuspp is a C++ layer over libmodbus. This project models the part of it
that is not input or output, and proves what that part is for:

- **The RTU frame check** (`Bytes`, `CrcReference`, `CrcTables`,
  `CrcDetection`, `CrcDistance`). The two-table loop of `RtuLayer::crc16` is
  proved to compute the byte-swapped shift-register CRC of the MODBUS over
  Serial Line Specification V1.02, section 6.2.2, for every buffer and with all
  256 entries of both tables. From linearity, parity and an argument that runs
  the register backwards it follows that a frame made by `prepareToSend` and
  then damaged is rejected whenever one, two or three bits are wrong (up to the
  256 bytes of an RTU buffer), an odd number of bits (any length), or any
  nonzero pattern within sixteen consecutive places (any length). Four bits,
  and seventeen places, are shown to be too many.
- **The ADU buffer** (`Frames`, `Messages`, `Requests`). `Frames` is the buffer
  as a value, `Messages` the objects that change it in place. The two
  implementations of `prepareToSend` agree, transaction identifiers count
  requests modulo 65536, responses keep theirs, a PDU survives the way from TCP
  over RTU and back, coils are packed as section 6.11 of the MODBUS Application
  Protocol V1.1b3 asks.
- **The register codec** (`Swap`, `DataCodec`, `DataArrays`, `JsonValues`).
  Values of any even size in the four byte and word orders, on both kinds of
  host, singly, in arrays, and from a configuration.
- **The memory map as a write-through cache** (`Mirror`, `Slaves`,
  `SlaveRuns`, `JsonBits`). `Mirror` is one table with the real slave's table
  behind it, as a state machine; `Slaves` has the objects, `SlaveRuns` the four
  tables together. Over every run of operations, with
  any mixture of answered, failed and offline calls, a block differs from the
  real slave only in an explicitly tracked dirty set; while the device is
  closed the block is an address map.
- **Opening a router** (`Router`): all masters and the listener, or none.

How the environment appears: whether memory can be had, whether a connection
can be made and what the device does with a call (`Link`: closed, answers,
fails with or without having taken effect) are parameters. An answered call
transfers exactly the requested range; a failed read transfers nothing. The
real slave's tables change only through the one `BufferedSlave` in front of
them: no other master and no process of its own writes them. The
byte order of the host is a field of `Data`. The sizes 1 and 7 of the two
headers, 256 and 260 of the two buffers and the unit number 0xFF are
libmodbus constants.

`hide` statements in the proofs only keep definitions from the solver where
the step does not need them.

## Where the code and its documentation differ

The model follows the code.

- `Message::crc` refuses frames of four bytes and more, where its
  documentation says fewer than four. `CheckMessageIff` gives the exact
  condition under which `checkMessage` answers as it should, and
  `PreparedFramesAreRefused` the consequence. Statements about accepted frames
  use the standard's condition (`Accepted`).
- `updateBlockFromSlave` and `updateSlaveFromBlock` are documented to return
  true when successful, and also return true when the device is closed and
  nothing was transferred. `PullAllTruthfulIff` and `PushAllTruthfulIff` give
  the exact condition under which true can be trusted; `PullAllTrueIff` and
  `PushAllTrueIff` do so for a device that opens or closes between the tables.
- `writeCoils`, `writeRegisters` and `writeReadRegisters` that the device does
  not carry out, whether it fails or a range lies outside the real slave,
  return -1 with the block already changed (`WriteReadFailure`).
  `FailedWriteKeepsBlockIff` and `RejectedKeepsBlockIff` say when a call that
  returns -1 does leave the block as it was.
- `Data::updateValue` leaves the registers in network order, so on a
  little-endian host they no longer show the value, unless both bytes of every
  register are equal (`Data.UpdateValue`, `StillShownIff`). `writeRegisters` is
  not affected: it recomputes them.
- `Response::setBitValue` and `setBitValues` are documented to put bits from
  PDU byte 2 on (their `index*2` is that of registers), and count them from the
  function code instead. `MeetsDocumentationIff` gives the exact condition
  under which a call does what it should, `InDocumentedPlaceIff` what can be
  read in the documented place of each value, `FunctionCodeSurvivesIff` and
  `ByteCountSurvivesIff` when the two header bytes are kept, and
  `EighthBitHitsByteCount` an input for which it fails.
- `start + pduAddressing () ? 0 : 1` does not pass on the requested address: of
  the requests inside a block only the one for PDU address 0 goes where it
  should (`RequestInBlockForwardedIff`; `RequestForwardedIff` for every request
  and block). `ForwardedAstray` has three that fail. `ForwardedAddressIff`
  compares with the element the answer is stored in.
- Growing a register block clears the wrong registers
  (`RegisterGrowthIff`).
- A refused allocation leaves a table whose count no longer fits, unless it
  was empty (`Slaves.Block.SetBlock`).

## Model

| member | source | states |
|---|---|---|
| `CrcReference.FeedIsFeedBits` | src/rtulayer.cpp:275-289 | feeding bytes to the standard's register is feeding their bits, least significant first |
| `CrcReference.FeedIsLinear` | src/rtulayer.cpp:275-289 | the register is linear in its start value and the message, for every length |
| `CrcReference.WorkedCrc` | src/rtulayer.cpp:275-289 | the register after 11 03 00 6B 00 03 is 0x8776 |
| `CrcTables.TablesAreShifts` | src/rtulayer.cpp:30-87 | all 256 entries of both tables are eight polynomial shifts of their index |
| `CrcTables.TableStep` | src/rtulayer.cpp:283-285 | one round of the loop is the standard's byte step, with `crcHi` the low-order half of the register |
| `CrcTables.Crc16` | src/rtulayer.cpp:275-289 | for every buffer and count the loop returns the byte-swapped bit-by-bit CRC |
| `CrcDetection.AcceptedIffResidueZero` | src/rtulayer.cpp:229-232 | crc16 of all but two bytes equals the last word if and only if the CRC over the whole frame is 0 |
| `CrcDetection.AppendedCrcIsAccepted` | src/rtulayer.cpp:219-221 | any bytes followed by their crc16, high byte first, are an accepted frame with residue 0 |
| `CrcDetection.CrcOfThree` | src/rtulayer.cpp:275-289 | crc(a xor b xor c) is crc(a) xor crc(b) xor crc(c) for equal lengths |
| `CrcDetection.UndetectedIff` | src/rtulayer.cpp:229-232 | damage passes if and only if it leaves a cleared register at zero |
| `CrcDetection.AcceptedFramesAreEven` | src/rtulayer.cpp:213-232 | every accepted frame has an even number of one bits |
| `CrcDetection.OddErrorsDetected` | src/rtulayer.cpp:213-232 | any odd number of flipped bits is detected, at every length |
| `CrcDetection.BurstBits` | src/rtulayer.cpp:275-289 | a nonzero pattern within sixteen places never leaves the register at zero |
| `CrcDetection.BurstsDetected` | src/rtulayer.cpp:213-232 | every nonzero error within sixteen consecutive bits, CRC included, is detected |
| `CrcDetection.SeventeenBitBurstPasses` | src/rtulayer.cpp:213-232 | sixteen is exact: in every frame of three bytes or more a seventeen-bit burst passes |
| `CrcDistance.NoReturn` | src/rtulayer.cpp:275-289 | none of the first 2048 shifts of the register brings 1 back |
| `CrcDistance.TwoBits` | src/rtulayer.cpp:275-289 | two wrong bits up to 2048 places apart leave the register nonzero |
| `CrcDistance.SmallErrorsDetected` | src/rtulayer.cpp:213-232 | one, two or three wrong bits are detected in every frame of up to 256 bytes |
| `CrcDistance.FourBitErrorPasses` | src/rtulayer.cpp:213-232 | three is exact: in every frame of three bytes or more some four-bit error passes |
| `Frames.SetWordReadsBack` | src/message.cpp:164-187 | a word set at any PDU offset, negative ones included, reads back; nothing else changes; the size is the old one or just covers the word |
| `Frames.SetByteReadsBack` | src/message.cpp:157-187 | the same for a byte, such as the slave number at -1 |
| `Frames.Layout` | src/message.cpp:157-209 | one byte in front of the PDU on RTU and seven on TCP, words big-endian, buffers of 256 and 260 bytes |
| `Frames.SetPduKeeps` | src/message.cpp:276-290 | the PDU and the size are those given; the header and every byte behind the new PDU stay |
| `Frames.EncodersAgree` | src/message.cpp:233-273 | from the same state the backend-less and the layers' `prepareToSend` leave the same bytes, size and next id |
| `Frames.RtuFrameIsAccepted` | src/rtulayer.cpp:213-226 | a prepared RTU message is the old bytes and a matching CRC, an even number of ones, nothing else touched |
| `Frames.WorkedFrame` | src/rtulayer.cpp:213-226 | 11 03 00 6B 00 03 leaves as 11 03 00 6B 00 03 76 87 |
| `Frames.NothingToPrepare` | src/message.cpp:233-273 | without a PDU, or on the other network, the result is false and nothing changes |
| `Frames.DamageIsDetected` | src/rtulayer.cpp:213-232 | a prepared frame with up to three wrong bits, an odd number, or a burst of up to sixteen is not accepted |
| `Frames.TcpHeaderIsFilled` | src/tcplayer.cpp:67-86 | length word is ADU size minus 6, protocol 0, the layer's id for requests only; unit and PDU untouched |
| `Frames.CheckMessageIff` | src/rtulayer.cpp:229-232 | `checkMessage` gives the verdict of the standard if and only if the frame has fewer than four bytes |
| `Frames.CheckMessageThrows` | src/message.cpp:328-339 | which exception on TCP and for four bytes and more; below that, what is compared |
| `Frames.PreparedFramesAreRefused` | src/message.cpp:328-339 | it throws for every frame that `prepareToSend` made, though each is acceptable |
| `Frames.BridgeRoundTrip` | src/message.cpp:284-290 | TCP message to RTU frame, received without CRC and copied back: same PDU bytes and size, for every PDU that fits; slave number and TCP header are those of the messages copied into |
| `Frames.Received` | src/master.cpp:168-178 | the received bytes stand at the front of the buffer, the rest is kept, and on RTU the size leaves out the two CRC bytes |
| `Frames.FromBytesCannotPrepare` | src/message.cpp:465-470 | a message made from RTU bytes never has room for `prepareToSend`; one made from TCP bytes always has |
| `Frames.NextIdCounts` | src/tcplayer.cpp:73-79 | after any run the layer's counter is 1 plus the number of requests, modulo 65536 |
| `Frames.RequestIds` | src/tcplayer.cpp:67-86 | over any run with responses and rejected messages between, the k-th request carries (1 + k) mod 65536 |
| `Frames.RequestIdsDiffer` | src/tcplayer.cpp:67-86 | two requests fewer than 65536 requests apart carry different ids |
| `Frames.ResponseKeepsId` | src/response.cpp:68-81 | a response copied from a request, edited any number of times at PDU offsets and prepared keeps id and unit, uses no id |
| `Messages.Message.constructor` | src/message.cpp:453-462 | a new message is a zero buffer of 256 or 260 bytes, with unit number 0xFF on TCP |
| `Messages.Message.FromBytes` | src/message.cpp:465-470 | the buffer and size are exactly the given ADU |
| `Messages.Message.ResponseTo` | src/response.cpp:68-81 | the request's ADU, size and counter, in a buffer of its own, with the response flag set |
| `Messages.Message.Size` | src/message.cpp:201-209 | the PDU size, 0 while the size does not pass the header |
| `Messages.Message.GetByte` | src/message.cpp:157-161 | the byte at a PDU offset |
| `Messages.Message.GetWord` | src/message.cpp:164-168 | the big-endian word at a PDU offset |
| `Messages.Message.SetByte` | src/message.cpp:181-187 | one byte and the size change, nothing else |
| `Messages.Message.SetWord` | src/message.cpp:171-178 | two bytes and the size change, nothing else |
| `Messages.Message.SetAduSize` | src/message.cpp:342-346 | only the size changes |
| `Messages.Message.SetPduBytes` | src/message.cpp:276-281 | exactly the PDU and the size are replaced; header and bytes behind stay |
| `Messages.Message.SetPdu` | src/message.cpp:284-290 | the PDU becomes the other message's, which may be this one or of the other kind; the header stays |
| `Messages.Message.PrepareToSend` | src/message.cpp:233-273 | buffer, flag, counters and result are those of the chosen encoder, layer counter included |
| `Messages.RtuLayer.PrepareToSend` | src/rtulayer.cpp:213-226 | in place, the RTU encoder |
| `Messages.RtuLayer.CheckMessage` | src/rtulayer.cpp:229-232 | the check with its exceptions as values |
| `Messages.TcpLayer.constructor` | src/tcplayer.cpp:101-103 | the counter starts at 1 |
| `Messages.TcpLayer.PrepareToSend` | src/tcplayer.cpp:67-86 | in place, the TCP encoder with its counter |
| `Requests.BitIsTransmitted` | src/request.cpp:118-123 | the bit a coil index selects is the one transmitted in that place, least significant first |
| `Requests.BitAfterPut` | src/request.cpp:174-182 | storing a bit changes that bit of the byte and no other |
| `Requests.BitsReadBack` | src/request.cpp:118-132 | coils, and bits of a response, set at any index read back as set; the others and all bytes in front keep their values; the size covers them |
| `Requests.SetCoilValue` | src/request.cpp:174-182 | one coil, in place, at bit index mod 8 of PDU byte 6 + index / 8 |
| `Requests.SetCoilValues` | src/request.cpp:185-191 | exactly the chosen coils take the values, from PDU byte 6 on; other coils and the first six PDU bytes stay; the size covers all written |
| `Requests.CoilsAreTaken` | src/request.cpp:118-191 | coil i is bit i mod 8 of PDU byte 6 + i / 8; bytes 0 to 5 and all other coils stay |
| `Requests.CoilsOfTheStandard` | src/request.cpp:174-191 | the example of section 6.11: ten coils come out as 0F 00 13 00 0A 02 CD 01 |
| `Requests.CoilValue` | src/request.cpp:118-123 | bit index mod 8 of PDU byte 6 + index / 8 |
| `Requests.CoilValues` | src/request.cpp:126-132 | the coils of the range, the rest of the array untouched |
| `Requests.SetBitValue` | src/response.cpp:129-137 | one bit of a response, counted from PDU byte 0, in place; every other bit stays |
| `Requests.SetBitValues` | src/response.cpp:140-146 | exactly the chosen bits take the values; the size covers all written |
| `Requests.BitValue` | src/response.cpp:177-182 | the bit at an index, counted as `setBitValue` counts |
| `Requests.BitValues` | src/response.cpp:185-191 | the bits of the range, the rest of the array untouched |
| `Requests.ByteSurvivesIff` | src/response.cpp:129-146 | any byte among or behind the first bit's byte is kept if and only if the range misses it or gives its bits the values they had |
| `Requests.FunctionCodeSurvivesIff` | src/response.cpp:129-146 | the function code is kept if and only if the range starts at 8 or later or gives its bits the values they had |
| `Requests.ByteCountSurvivesIff` | src/response.cpp:129-146 | the same for the byte count at PDU byte 1 |
| `Requests.InDocumentedPlaceIff` | include/modbuspp/response.h:87-101 | what stands in the documented place of value i is value i + 16 or the old bit; it is value i if and only if they are equal |
| `Requests.MeetsDocumentationIff` | include/modbuspp/response.h:87-101 | exactly the documented bits change, and are covered, if and only if the values repeat every sixteen and match the bits in both places, and the size suffices already |
| `Requests.EighthBitHitsByteCount` | src/response.cpp:129-137 | bit 8 of ten: the byte count becomes 3, the documented place keeps its zero |
| `Swap.SwapBytes` | include/modbuspp/swap.h:27-36 | the in-place loop reverses all bytes, for every even size |
| `Swap.ExchangeWords` | include/modbuspp/swap.h:45-48 | one round puts two more words in their final places |
| `Swap.SwapWords` | include/modbuspp/swap.h:41-50 | the in-place loop reverses the order of words |
| `Swap.SwapBytesInWords` | include/modbuspp/swap.h:55-64 | the in-place loop swaps the bytes of every word |
| `Swap.ArrangedTwice` | include/modbuspp/swap.h:27-64 | the four orders compose as a commutative group of four |
| `Swap.SwapAlgebra` | include/modbuspp/swap.h:27-64 | every swap undoes itself; reversing all is swapping words and bytes in words, in either order |
| `DataCodec.CodecRoundTrip` | include/modbuspp/data.h:234-256 | decoding inverts encoding and encoding inverts decoding, for every even size and order |
| `DataCodec.OrdersByName` | include/modbuspp/data.h:174-189 | for every even size and each order, which two bytes of the number register `i` holds, and which comes first |
| `DataCodec.FourByteOrders` | include/modbuspp/data.h:174-189 | on four bytes these are the layouts abcd, cdab, badc and dcba |
| `DataCodec.HostWordOrder` | include/modbuspp/data.h:239-242 | a register loaded from memory and converted is the big-endian word on either host |
| `DataCodec.EncodedValue` | include/modbuspp/data.h:234-243 | on either host, in every order and size, the registers read in that order are the integer that the memory image is |
| `DataCodec.DecodedValue` | include/modbuspp/data.h:247-256 | and the image read from registers is the integer they showed |
| `DataCodec.SameValueIffSameRegisters` | include/modbuspp/data.h:234-243 | two values of one size and order, on hosts of any kind, have equal registers if and only if they are the same integer |
| `DataCodec.NumberValue` | include/modbuspp/swap.h:69-88 | the bytes in network order are the same integer as the image |
| `DataCodec.AbcdExample` | include/modbuspp/data.h:234-243 | 0x12345678 is 0x1234, 0x5678 on both hosts |
| `DataCodec.ReadingKeepsRegisterIff` | include/modbuspp/data.h:247-256 | after `updateValue` a register is unchanged if and only if the host is big-endian or its bytes are equal |
| `DataCodec.StillShownIff` | include/modbuspp/data.h:247-256 | registers exchanged by `updateValue` encode the number decoded from them before if and only if the host is big-endian or each had equal bytes |
| `DataCodec.Data.constructor` | include/modbuspp/data.h:70-80 | registers show the initial number in the chosen order, as an integer too |
| `DataCodec.Data.Assign` | include/modbuspp/data.h:127-131 | value replaced and registers show it |
| `DataCodec.Data.SetEndianness` | include/modbuspp/data.h:143-146 | value kept, registers show it in the new order |
| `DataCodec.Data.SwapFor` | include/modbuspp/data.h:174-189 | the local copy is rearranged for the order of the object |
| `DataCodec.Data.UpdateRegisters` | include/modbuspp/data.h:234-243 | on either host the registers are the encoding of the number, whatever they were, and show its integer |
| `DataCodec.Data.UpdateValue` | include/modbuspp/data.h:247-256 | on either host the value is the integer that the registers showed; they end up in network order and still encode it if and only if the host is big-endian or each had equal bytes |
| `DataArrays.FlatGroup` | include/modbuspp/slave.h:486-495 | in the flattened buffer the i-th group of registers encodes the i-th number |
| `DataArrays.FlatShowsValue` | include/modbuspp/slave.h:486-495 | read in its order, the i-th group is the integer of the i-th value on its host |
| `DataArrays.ArrayRoundTrip` | include/modbuspp/slave.h:452-497 | values written and read back on a closed device are unchanged when they fit; otherwise fewer registers come back |
| `DataArrays.GroupsIsProduct` | include/modbuspp/slave.h:452-454 | n groups of m registers are n * m registers |
| `DataArrays.AllGroupsReadBack` | include/modbuspp/slave.h:452-497 | the same for all groups at once and for addresses outside the block |
| `DataArrays.WriteThenRead` | include/modbuspp/slave.h:452-497 | written from objects and read into objects: n times the register count and equal numbers exactly when they fit; otherwise less, and no object read into changes |
| `DataArrays.WriteInputData` | include/modbuspp/bufferedslave.h:214-225 | the block of input registers takes the current values in order, the real slave nothing |
| `DataArrays.WriteData` | include/modbuspp/slave.h:486-497 | the block takes the current values in order, even when their registers were stale |
| `DataArrays.ReadData` | include/modbuspp/slave.h:452-470 | every value is decoded from its group, or none changes when the count differs |
| `JsonValues.GetDataValues` | src/json_p.h:89-117 | one element per value in the chosen order, with the image configured; text that is no number gives zero |
| `JsonValues.ConfiguredValue` | src/json_p.h:89-117 | the i-th group of registers written is the integer configured, 0 for text that is no number |
| `JsonValues.WriteRegisterValues` | src/json_p.h:120-154 | the table asked for, holding or input registers, takes the configured values as far as its block reaches, none and -1 when the address is outside; the other table, and on an unusable value both, are untouched |
| `Mirror.ReadReturns` | src/bufferedslave.cpp:253-363 | element by element for every link: the real slave's elements when it answers, the block's when closed, clamped; else -1 and nothing changes |
| `Mirror.WriteReturns` | src/bufferedslave.cpp:367-434 | element by element for every link: when it is -1, the values in the block, the same in the real slave when the call gets there, nothing else changed |
| `Mirror.WriteLocalReturns` | src/bufferedslave.cpp:504-545 | the values go into the block only; the real slave stays whatever the device is |
| `Mirror.WriteReadReturns` | src/bufferedslave.cpp:445-480 | for every link: when it is -1, how many are read, and the real slave element by element |
| `Mirror.WriteReadCells` | src/bufferedslave.cpp:445-480 | and the block: elements read over elements written over old ones |
| `Mirror.ResizeReturns` | src/bufferedslave.cpp:743-822 | the first min(old, new) elements, then zeros, at the new start; the real slave stays |
| `Mirror.RunKeepsCoherence` | src/bufferedslave.cpp:253-434 | over every run with any failures a cell outside the dirty set equals the real slave's |
| `Mirror.StepKeepsCoherence` | src/bufferedslave.cpp:253-545 | every single operation keeps that |
| `Mirror.PullMirrors` | src/bufferedslave.cpp:645-698 | a pull from an open device succeeds exactly when it is answered and in range, and then the block is the real slave's |
| `Mirror.PushMirrors` | src/bufferedslave.cpp:701-740 | a successful push makes the real slave's range the block, which does not change |
| `Mirror.PushKeepsRest` | src/bufferedslave.cpp:701-740 | a push changes nothing of the real slave in front of or behind the block |
| `Mirror.SafeRunStaysClean` | src/bufferedslave.cpp:253-434 | reads and answered writes never dirty a cell |
| `Mirror.CoherenceAfterPull` | src/bufferedslave.cpp:575-599 | after a successful pull and any run: differences only in the dirty set, and none at all if every write was answered |
| `Mirror.DifferenceHasCause` | src/bufferedslave.cpp:367-545 | where block and real slave differ after a pull and any run, some event wrote that very cell unanswered, locally or offline, or moved or grew the block |
| `Mirror.FailedWriteCanDiffer` | src/bufferedslave.cpp:379-390 | the dirty set is needed: a failed write does leave a difference |
| `Mirror.WriteReadOffline` | src/bufferedslave.cpp:445-480 | write before read, both ranges clamped on their own, nothing outside the write range changes, -1 changes nothing |
| `Mirror.WriteReadOnline` | src/bufferedslave.cpp:464-475 | with an answer the elements read are the real slave's after the write |
| `Mirror.WriteReadFailure` | src/bufferedslave.cpp:464-475 | -1 exactly when an open device does not carry out both halves, whatever the cause; the block then holds the write |
| `Mirror.RejectedKeepsBlockIff` | src/bufferedslave.cpp:445-480 | a call that returns -1 leaves the block as it was if and only if an address was outside it or it held those values before |
| `Mirror.FailedWriteKeepsBlockIff` | src/bufferedslave.cpp:367-434 | the same for plain writes of coils and registers |
| `Mirror.WriteIsMemoryWrite` | src/bufferedslave.cpp:367-396 | a write is an update of an address map |
| `Mirror.ResizeIsMemoryResize` | src/bufferedslave.cpp:743-822 | resizing keeps the first min(old, new) elements and adds zeros |
| `Mirror.RunIsMemoryRun` | src/bufferedslave.cpp:253-822 | over every run with the device closed the block equals the address map, element for element |
| `Slaves.Block.Read` | src/bufferedslave.cpp:253-277 | block, result and the caller's array after a read; all accesses in bounds |
| `Slaves.Block.Write` | src/bufferedslave.cpp:367-396 | block, real slave and result after a write |
| `Slaves.Block.WriteRead` | src/bufferedslave.cpp:445-480 | block, real slave, result and the caller's array after a combined call |
| `Slaves.Block.UpdateFromSlave` | src/bufferedslave.cpp:645-698 | the pull, reading the block onto itself |
| `Slaves.Block.UpdateSlave` | src/bufferedslave.cpp:701-740 | the push, writing the block onto itself |
| `Slaves.Block.SetBlock` | src/bufferedslave.cpp:743-781 | new contents and start; with a refused allocation only the array is lost, and the table stays consistent if and only if it was empty |
| `Slaves.BufferedSlave.ReadCoils` | src/bufferedslave.cpp:253-277 | element i is the real slave's coil at addr - 1 + i, with PDU addressing at addr + i, or the block's when closed; the array behind the elements read, all of it on -1, keeps its contents |
| `Slaves.BufferedSlave.AddressesAreInverse` | src/slave.cpp:258-269 | data and PDU addresses translate into each other; data address 1 is PDU address 0 with data addressing, 0 is 0 with PDU addressing |
| `Slaves.BufferedSlave.ReadRegisters` | src/bufferedslave.cpp:310-334 | likewise for holding registers |
| `Slaves.BufferedSlave.WriteCoils` | src/bufferedslave.cpp:367-396 | likewise for writing coils: value i is then in the block, and when answered in the real slave, at that address |
| `Slaves.BufferedSlave.WriteRegisters` | src/bufferedslave.cpp:407-434 | likewise for writing holding registers |
| `Slaves.BufferedSlave.WriteDiscreteInputs` | src/bufferedslave.cpp:504-520 | the block only, even when the device is open, at that address |
| `Slaves.BufferedSlave.WriteInputRegisters` | src/bufferedslave.cpp:529-545 | the block only, even when the device is open, at that address |
| `Slaves.BufferedSlave.WriteReadRegisters` | src/bufferedslave.cpp:445-480 | both data addresses translated; the array behind the elements read keeps its contents |
| `Slaves.BufferedSlave.SetBlock` | src/bufferedslave.cpp:48-68 | the right table is resized and starts at the PDU address of the data address given, a negative one meaning 0 |
| `Slaves.BufferedSlave.UpdateBlockFromSlave` | src/bufferedslave.cpp:593-599 | table after table, stopping at the first failure |
| `Slaves.BufferedSlave.UpdateSlaveFromBlock` | src/bufferedslave.cpp:568-572 | coils, then holding registers |
| `SlaveRuns.SlaveRunKeepsCoherence` | src/bufferedslave.cpp:253-740 | over every run on all four tables, full pulls and pushes included, none loses coherence |
| `SlaveRuns.PullAllMirrors` | src/bufferedslave.cpp:593-599 | with an open device it is true if and only if every table could be read whole, and then all mirror the real slave |
| `SlaveRuns.PushAllMirrors` | src/bufferedslave.cpp:568-572 | with an open device it is true if and only if both tables went over, and then both mirror; no block changes |
| `SlaveRuns.PullAllStops` | src/bufferedslave.cpp:593-599 | coils, holding registers, discrete inputs, input registers; the first table refused stops it, and that one and those behind it stay as they were |
| `SlaveRuns.PushAllStops` | src/bufferedslave.cpp:568-572 | coils, then holding registers, which are not sent when the coils are refused |
| `SlaveRuns.PullAllTrueIff` | src/bufferedslave.cpp:593-599 | for any mixture of open and closed: true if and only if every table was skipped or came over; then all are current if and only if the skipped ones were |
| `SlaveRuns.PushAllTrueIff` | src/bufferedslave.cpp:568-572 | the same for coils and holding registers and the push |
| `SlaveRuns.PullAllTruthfulIff` | src/bufferedslave.cpp:593-599 | closed: true with nothing read; true means current blocks if and only if the device is open or they were current before |
| `SlaveRuns.PushAllTruthfulIff` | src/bufferedslave.cpp:568-572 | closed: true with nothing written; true means a current real slave if and only if the device is open or it was current before |
| `SlaveRuns.SafeEventsStayClean` | src/bufferedslave.cpp:253-740 | reads, answered writes and full updates leave no element of any table behind, over every run |
| `SlaveRuns.CoherenceAfterPullAll` | src/bufferedslave.cpp:593-599 | after a successful full update and any run on all tables: differences only in dirty elements, and none if every write was answered |
| `SlaveRuns.HistoryIsRun` | src/bufferedslave.cpp:568-599 | in every run of the slave each table goes through its own history of operations, pulls and pushes stopped by earlier tables left out, and nothing else |
| `SlaveRuns.SlaveDirtyHasCause` | src/bufferedslave.cpp:253-740 | a dirty element of any table has a cause among the events of the slave's run, met in the state it was in |
| `SlaveRuns.SlaveDifferenceHasCause` | src/bufferedslave.cpp:253-740 | where any of the four tables differs from the real slave after a full update and any run, some event of that run left that very element behind |
| `SlaveRuns.ClosedSlaveIsMemory` | src/bufferedslave.cpp:253-822 | over every run with the device closed, full updates included, the four blocks are four address maps |
| `Slaves.ForwardedAddressIff` | src/bufferedslave.cpp:107-147 | the forwarded address is that of the element the answer is stored in if and only if that is 0 (or -1 with data addressing) |
| `Slaves.RequestForwardedIff` | src/bufferedslave.cpp:107-147 | clamp included, the forwarded address is the requested one if and only if the request is for 0 and, with data addressing, is not moved by the clamp (for 1 when clamped to -1 with PDU addressing) |
| `Slaves.RequestInBlockForwardedIff` | src/bufferedslave.cpp:107-147 | of the requests inside the block only the one for PDU address 0 goes where it should |
| `Slaves.ForwardedAstray` | src/bufferedslave.cpp:107-147 | three requests, inside the block, behind it, and to an empty one, with the wrong address forwarded |
| `Slaves.RegisterGrowthIff` | src/bufferedslave.cpp:849-853 | the registers cleared are the new ones, and lie in the block, if and only if there were none before |
| `JsonBits.GetBitValues` | src/bufferedslave.cpp:1038-1090 | the first nmemb bits, each value at its offset (eight places an octet, one any other): b of a flag, i != 0 of a number, the binary digits of an octet; fails exactly at the first invalid value still needed; also nmemb of 0 or less |
| `JsonBits.ExpansionStands` | src/bufferedslave.cpp:1038-1090 | in the whole expansion every value stands at its offset |
| `JsonBits.ValidIff` | src/bufferedslave.cpp:1043-1080 | which values are accepted |
| `JsonBits.TestBits` | src/bufferedslave.cpp:1054-1061 | the first bits of an octet, least significant first |
| `JsonBits.WriteBits` | src/bufferedslave.cpp:967-995 | the wanted prefix is stored in the chosen table, clamped, whatever stands behind the last value needed; nothing changes when none is wanted, or else exactly when one of the values needed is invalid |
| `Router.Device.Open` | src/device.cpp:81-92 | nothing is tried when open; without a backend it stays closed |
| `Router.Device.Close` | src/device.cpp:95-103 | closed afterwards |
| `Router.Router.OpenAll` | src/router.cpp:168-189 | true if and only if every master is or can be opened and the listener can; true: all open; false: all masters closed |
| `Router.Router.Open` | src/device.cpp:81-92 | the same through `Device::open`; an open router, and one without a backend, is left as it is |
| `Router.Router.Close` | src/router.cpp:56-67 | closes listener and masters, but only when open |
| `Router.Router.Recover` | src/server.cpp:338-350 | re-opening with masters still open: all or nothing again; on failure the router still counts as open |

## Left out

- libmodbus calls, sockets, serial lines, timing and threads: only their success or failure appears.
- `Slaves.BufferedSlave.SetBlock`: memory is taken to be available (`Slaves.Block.SetBlock` has the other case), and growing a register block is excluded, because what the code clears then is not in the block (`RegisterGrowthIff`).
- `Messages.Message.FromBytes`: ADUs longer than the network's maximum are excluded; the source does not check, and no such ADU can be sent. With it `crc16` never has to shorten its 16-bit count.
- `Frames.Adu.CanPrepare`: an RTU message made from bytes has a buffer without room for the CRC (`FromBytesCannotPrepare`); the source writes it behind the buffer, and such calls are excluded from every statement about `prepareToSend`.
- `SlaveRuns.SlaveEvent`: events that grow a non-empty block of registers are included in the runs but are not what the source does (`RegisterGrowthIff`).
- `Frames.CheckMessage`: frames of fewer than two bytes are excluded; the source then reads in front of the buffer.
- `Slaves.Block.Read`: negative counts are excluded; the source passes them to `memcpy`.
- `Slaves.Block.SetBlock`: negative counts are excluded; the source turns them into allocations that cannot succeed.
- `Mirror.MemoryRun`: the address map is the reference for a closed device only; with an open one the reference is the real slave's table.
- `Requests.SetBits`: `Request` and `Response` are modelled as methods on a message, because classes here have no inheritance.
- `DataCodec.Data.UpdateRegisters`: the template's arithmetic type is its memory image; numeric conversions, floating point included, are not interpreted.
- Discrete inputs and input registers have no read method of their own on `BufferedSlave`: they are `Slaves.Block.Read` on those tables.
- Register values inside requests and responses, slave reports, `clear`, exception codes: plain uses of `SetWord` and `SetByte`.
- `readFromDevice` and `writeToDevice`: their address argument is covered by `ForwardedAddressIff`; the calls themselves are not modelled.
- JSON text, string-to-number conversion, settings strings, timeouts, callbacks, `addMaster`, printing.
