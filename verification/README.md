# Verification of the Torque Sockets core

A Dafny model of the parts of Torque Sockets and its core library where most can go wrong: the
notify protocol over UDP, the multi-precision arithmetic of the bundled LibTomMath, bit streams and
containers, and the small shared-state services. One module stands for one source file or one step
of an algorithm. Code that updates objects is written as classes and methods with loops; what the
methods promise is stated by functions and predicates, and lemmas prove what those are worth.

`dafny verify dfyconfig.toml` checks everything.

## What is modelled

**Notify protocol.** `Endpoint` says what one endpoint does with a header, `NotifyProtocol` lets two
endpoints exchange packets over a channel that loses, repeats and reorders them and proves what
delivery verdicts mean over whole runs. `PacketHeader` gives the header's bits, and `Connection` is
the class with the source's fields: its methods write and read real bytes through `BitStream` and are
proved to do exactly the endpoint's steps. `DatagramChannel` puts two such objects and their datagrams
together and carries the results over to them. `RangedIntegers` adds the integers of a known range.

- A run starts with established connections whose initial sequences match. A sequence number does
  not pass 2^32 during a run.
- Delivered packets are late by fewer than 2017 sequence numbers, and their acks by fewer than 994;
  `ReadsBack` shows that these bounds suffice, `StaleSequence` and `StaleAck` that no larger ones do.
- The channel is a set of packets: receiving leaves the packet in flight, dropping removes it.
- The ack mask has one word, so the loop that shifts whole words never runs, and the shifted-out
  bits of the word are not used.
- The unread part of the ack mask of a short packet is taken as zero; in a run it is never looked at.
- The packet flag of an incoming header is not checked: the assertion on it belongs to the socket.

**Multi-precision arithmetic.** Digits have 28 bits in 32-bit cells, words have 64 bits, and the
cutoffs are the library's defaults. `MpInt` is the class of numbers with their used digits; the
operands of a method may be the object it changes. Out-of-memory errors are not modelled. The cells
above the used digits are zeros, except where a product by columns leaves a word of unset stack
there; the one place that reads such a word is the baseline Montgomery reduction, and the words are
parameters of what calls it (`unset`).

**Containers and services.** `HashTableFlat`, `HashTableArray`, `ThreadQueue`, `ClientPuzzle` and
`SmallBlockAllocator`. The hash functions are parameters; so are the clock, the random numbers, the
hash of a puzzle solution and the pages that the zone allocator hands out. For the thread queue the
steps are its locked sections, so every interleaving of them is a run. Server nonces are assumed to
be distinct. In `HashTableArray` a node is known by its address, a number, and each of its fields is
a sequence over all nodes.

## What the code does otherwise than it says

- A data packet whose number a ping or ack already brought is acknowledged as delivered but never
  posted (`NotifyProtocol.DeliveredNeedNotBePosted`).
- `mp_div` says that it makes y >= b/2; it makes the leading digit 27 bits long, so y >= b/4, and
  that is what the proof that one add-back is enough uses.
- `mp_toom_mul` is wrong for operands of opposite sign whose middle thirds are zero and whose low
  thirds have a short, nonzero product: `mp_lshd` leaves an unclamped zero, `mp_add` takes it for the
  larger operand, and the product is too large by b^n (`Multiply.Mul`, `Multiply.WrongProduct`).
  `ToomParts` says for which magnitudes this cannot happen at any depth of the recursion.
- `mp_montgomery_calc_normalization` gives n instead of R mod n = 0 for n = 1, and for powers of two
  of more than one digit whose leading digit is below 2^27. It is right for every odd n > 1.
- `mp_reduce_is_2k` accepts moduli with 2^p - n = 2^28, whose constant then reads as 0. All but
  n = 2^28 itself are then reduced by wrongly (`FoldingReduction.FoldsRightIsExact`,
  `FoldingReduction.WrongFold`).
- `mp_montgomery_reduce` sets the used length to 2k + 1 without clearing the digits it takes in, and
  `fast_s_mp_mul_digs` copies one unset word of its stack to the place above the product. For moduli
  of 256 digits or more a product with an operand of fewer than 80 digits (whose lengths add up to
  less than 511) is therefore reduced rightly only if that word happens to be 0 (`Reductions.MulReduce`,
  `Reductions.UnsetWordDecides`).
- When the zone allocator has no page for new status blocks, `_alloc_new_top_page` fails, but takes
  down that all blocks of the page it did not get are unused; its next call hands out a status block
  at address 0 (`SmallBlockAllocator.Allocator.AllocNewTopPage`).
- With the default cutoffs `mp_sqr` never gets to `s_mp_sqr`.
- `looping_counter` turns every start that is in range into 0, so the scan of `_remove` in
  hash_table_flat begins at bucket 1 and not after the hole, and entries can become unfindable
  (`HashTableFlat.FlatTable.Remove`, `HashTableFlat.LostKey`).

## Model

| member | source | states |
|---|---|---|
| Endpoint.RingSlotsDiffer | torque_sockets/torque_connection.h:142-143 | Two sequences less than a window apart never share a slot of the ring of receive numbers. |
| Endpoint.SendKeepsValid | torque_sockets/torque_connection.h:113-143 | Sending keeps the endpoint invariant, and the ack byte count is between 0 and 4, so the assertion on it cannot fire. |
| Endpoint.ReceiveKeepsValid | torque_sockets/torque_connection.h:178-317 | Whatever a header says, receiving it keeps the endpoint invariant (all distances within the window). |
| Endpoint.AckAckSource | torque_sockets/torque_connection.h:281-301 | The number the peer is known to have seen is the old one or one recorded when a packet that is now acknowledged left. |
| Endpoint.NewestAcked | torque_sockets/torque_connection.h:281-297 | That number is the one recorded when the newest packet that the header calls delivered left; if it calls none delivered, nothing changes. |
| NotifyProtocol.RebuildsExactly | torque_sockets/torque_connection.h:193-209 | A number is rebuilt from its low bits exactly when it is at least the base and less than one range ahead of it. |
| NotifyProtocol.RebuildOfStale | torque_sockets/torque_connection.h:193-215 | A number behind the base is rebuilt one full range too high, which is what the window test then rejects. |
| NotifyProtocol.ReadsBack | torque_sockets/torque_connection.h:193-215 | An in-time packet is accepted if and only if neither of its numbers has been passed, and then both full numbers are the ones sent. |
| NotifyProtocol.AcceptsExactly | torque_sockets/torque_connection.h:192-236 | A header is accepted if and only if some sequence in the 32 from the last received on and some ack from the highest acked to the last sent have its low bits, it has at most four ack bytes, and its type is known; those two numbers are the ones that are read. |
| NotifyProtocol.AcceptedMeans | torque_sockets/torque_connection.h:255-317 | What an accepted header does, field by field: numbers, the bit for each sequence of the window, what the peer is known to have seen, the verdict for each newly acknowledged sequence, the data packet event, and the answer, which goes out exactly for a ping or when more than 16 received sequences are not known to the peer. |
| NotifyProtocol.StaleSequence | torque_sockets/torque_connection.h:193-215 | A packet with a good ack whose sequence was passed, by up to one range, is ignored if and only if it is less than 2017 behind; from 2017 on it is accepted and read back 2048 too high. |
| NotifyProtocol.StaleAck | torque_sockets/torque_connection.h:193-215 | A packet with a good sequence whose ack was passed is accepted if and only if the ack, one range on, has been sent; with a full window outstanding that is from 994 behind on. |
| NotifyProtocol.VerdictBitsAreThere | torque_sockets/torque_connection.h:281-298 | Every verdict bit that a receiver looks at was transmitted, and it says truthfully whether the peer accepted that data packet. |
| NotifyProtocol.NextKeeps | torque_sockets/torque_connection.h:77-317 | Every step of either party (send data, send ping, receive, drop) keeps the two-party invariant. |
| NotifyProtocol.NotDeliveredIsNeverPosted | torque_sockets/torque_connection.h:257-317 | In every run over a losing, repeating, reordering channel, a "not delivered" verdict for q, at any moment, means that the peer posts q at no moment, before or after. |
| NotifyProtocol.DeliveredIsAccepted | torque_sockets/torque_connection.h:257-317 | A "delivered" verdict for q means that the peer accepted data packet q; it posted it if and only if no ping or ack with that number came first. |
| NotifyProtocol.SwappedRun | torque_sockets/torque_connection.h:54-317 | The two parties are interchangeable: a run with the parties swapped is a run. |
| NotifyProtocol.RightPartyVerdicts | torque_sockets/torque_connection.h:257-317 | So both verdicts mean the same when the other party reports them. |
| NotifyProtocol.VerdictIsExact | torque_sockets/torque_connection.h:257-317 | If no ping or ack overtakes the data packet of its number, "delivered" holds exactly when the peer posts the packet. |
| NotifyProtocol.DeliveredNeedNotBePosted | torque_sockets/torque_connection.h:271-317 | Without that condition it does not: a concrete run in which packet 1 is reported delivered and never posted. |
| NotifyProtocol.PostedAsSent | torque_sockets/torque_connection.h:54-74 | What is posted under a number is the data sent under that number, and posted numbers strictly increase. |
| NotifyProtocol.WindowHolds | torque_sockets/torque_connection.h:113-143 | In every reachable state highest_acked <= peer's last_seq_recvd <= last_send <= highest_acked + 30; the peer's last_recv_ack_ack <= highest_acked and within 32; at most 4 ack bytes; the ring still has the value written for every unacknowledged sequence. |
| NotifyProtocol.ArrivalsAreReadExactly | torque_sockets/torque_connection.h:193-301 | Whenever an in-time packet arrives it is ignored, or both its numbers are read back exactly and every verdict bit needed is in it. |
| NotifyProtocol.AckFloorHolds | torque_sockets/torque_connection.h:281-301 | In every reachable state the number the peer is known to have seen is what had been received when the newest packet reported delivered left (at first the initial number), or 32 below the last received if that is more. |
| NotifyProtocol.DeliverAnswers | torque_sockets/torque_connection.h:303-317 | A delivered packet puts one ack of everything received in flight, if it is accepted and is a ping or leaves more than 16 sequences the peer does not know of; otherwise nothing. |
| NotifyProtocol.HalfFullWasAnswered | torque_sockets/torque_connection.h:303-317 | In every run, whenever more than 16 received sequences are not known to the peer, an ack up to the last received one has been put in flight. |
| NotifyProtocol.VerdictsInOrder | torque_sockets/torque_connection.h:281-303 | The verdicts of an endpoint are for initial_send + 1, ..., highest_acked: each once, in this order, none missing. |
| PacketHeader.ParseEncode | torque_sockets/torque_connection.h:121-135 | A written header is read back as it was, whatever bits follow it. |
| PacketHeader.FlagIsSet | torque_sockets/torque_connection.h:123 | The top bit of the first byte of every header is set. |
| PacketHeader.EncodeOnTheWire | torque_sockets/torque_connection.h:121-135 | The layout in numbers: the first byte is type (0 data, 1 ping, 2 ack) + 4 * (sequence mod 32) + 128; six more bits of the sequence, ten of the ack, three for the count of ack bytes, and the low bits of the ack word follow. |
| PacketHeader.ParseOnTheWire | torque_sockets/torque_connection.h:178-244 | Whatever has that layout, whoever wrote it, is read as those numbers. |
| Connection.ShiftWordBits | torque_sockets/torque_connection.h:271-278 | Shifting the 32-bit ack word and setting its low bit for a data packet does to the bits what the protocol says; higher bits are lost. |
| Connection.WordBitIsVerdict | torque_sockets/torque_connection.h:286-289 | The bit test on the ack word that was read gives the verdict that the header carried. |
| Connection.DatagramCarries | torque_sockets/torque_connection.h:77-106 | The bytes of a datagram give back the header, and as much of the data as the packet buffer has room for. |
| Connection.TorqueConnection.constructor | torque_sockets/torque_connection.h:500-517 | A new connection has sent, received and acknowledged nothing beyond its initial numbers. |
| Connection.TorqueConnection.SetInitialRecvSequence | torque_sockets/torque_connection.h:343-346 | Sets the three receive numbers, and nothing else, to the peer's initial sequence. |
| Connection.TorqueConnection.WindowFull | torque_sockets/torque_connection.h:388-393 | True if and only if 30 or more data packets are unacknowledged. |
| Connection.TorqueConnection.WritePacketHeader | torque_sockets/torque_connection.h:111-152 | The stream gets the header in the layout of the wire, with the numbers of the connection, and nothing else in the buffer changes; a data packet takes the next sequence. |
| Connection.TorqueConnection.SendPacket | torque_sockets/torque_connection.h:77-108 | One datagram goes out: its first byte and its header in numbers, and behind the padding the data, as far as there is room. |
| Connection.TorqueConnection.PostVerdicts | torque_sockets/torque_connection.h:281-301 | The loop appends exactly the verdicts of the header, in order, and takes what the peer is known to have seen from the ring slot of the newest delivered packet, or leaves it if none was delivered. |
| Connection.TorqueConnection.ReadPacketHeader | torque_sockets/torque_connection.h:155-318 | For every byte string the new state is the one the protocol gives for the header in it; a rejected header changes nothing; exactly one ack packet, with the numbers of the connection, goes out for an accepted ping and when last received minus known to the peer is above 16, and none otherwise. |
| Connection.TorqueConnection.ReadRawPacket | torque_sockets/torque_connection.h:54-74 | For every datagram the state, the posted events and the reply are those of the protocol's receive step. |
| DatagramChannel.CarriesWhatFits | torque_sockets/torque_connection.h:77-106 | Every datagram that is sent carries some packet completely: the one meant, with the data that fitted. |
| DatagramChannel.ReceiveMatches | torque_sockets/torque_connection.h:54-74 | Reading the bytes of a datagram does to the connection what hearing and answering the packet in it does to a party. |
| DatagramChannel.Link.constructor | torque_sockets/torque_connection.h:500-517 | Two connections, each told the initial sequence of the other, start a run of the protocol. |
| DatagramChannel.Link.SendLeft | torque_sockets/torque_connection.h:77-108 | When one connection object sends, the run of the protocol goes on by one step, with the data that went into the datagram. |
| DatagramChannel.Link.DeliverLeft | torque_sockets/torque_connection.h:54-74 | When any datagram that was ever handed over arrives in time, again or out of order, the run goes on by one step. |
| DatagramChannel.Link.SendRight | torque_sockets/torque_connection.h:77-108 | The same for the other connection. |
| DatagramChannel.Link.DeliverRight | torque_sockets/torque_connection.h:54-74 | The same for the other connection. |
| DatagramChannel.Link.NotDelivered | torque_sockets/torque_connection.h:257-317 | End to end, over bytes: once one connection has reported q as not delivered, the event queue of the other never has a packet q. |
| DatagramChannel.Link.Delivered | torque_sockets/torque_connection.h:257-317 | Once it has reported q as delivered, the other has accepted q, and its queue has packet q if and only if no ping or ack with that number came first. |
| DatagramChannel.Link.ReportedInOrder | torque_sockets/torque_connection.h:281-303 | Each connection has reported every number up to the highest acknowledged one, once and in order. |
| DatagramChannel.Link.PostedWasSent | torque_sockets/torque_connection.h:54-106 | Whatever a connection posts is the payload of a data packet that the other has sent under that number. |
| BitStream.CopyBits | core/bit_stream.h:105-169 | Exactly the requested bits of the destination are replaced by the source bits, for every pair of bit offsets and every count, and no byte outside the requested bits is read. |
| BitStream.CopyAligned | core/bit_stream.h:115-129 | The aligned case gives that result. |
| BitStream.CopyWithin | core/bit_stream.h:137-142 | The case inside one destination byte gives that result. |
| BitStream.CopyUp | core/bit_stream.h:134-168 | The sliding case with the destination bit above the source bit gives that result. |
| BitStream.CopyDown | core/bit_stream.h:149-168 | The sliding case with the source bit above the destination bit gives that result. |
| BitStream.Stream.WriteBits | core/bit_stream.h:171-208 | As many bits as there is room for are written at the position; the error flag is set exactly when some did not fit. |
| BitStream.Stream.ReadBits | core/bit_stream.h:210-245 | As many bits as are left are read; the error flag is set exactly when some were missing. |
| BitStream.Stream.WriteInteger | core/bit_stream.h:255-259 | The low bits of the value, lowest first, are written. |
| BitStream.Stream.ReadInteger | core/bit_stream.h:247-253 | The number the bits stand for; missing bits count as zero. |
| BitStream.Stream.AdvanceToNextByte | core/bit_stream.h:29-31 | The position moves to the next byte boundary, by less than a byte. |
| Bits.FromNatBits | core/bit_stream.h:247-259 | Writing n in w bits and reading it back gives n mod 2^w. |
| RangedIntegers.NextBinaryLog | core/power_two_functions.h:15-18 | The least number of bits that so many values need. |
| RangedIntegers.WriteRanged | core/bit_stream.h:63-73 | The distance from the start of the range is written in as many bits as the range needs. |
| RangedIntegers.ReadRanged | core/bit_stream.h:75-85 | The start of the range plus the number that the bits stand for. |
| RangedIntegers.RangedRoundTrip | core/bit_stream.h:63-85 | Every value of the range is read back from the bits it was written in. |
| RangedIntegers.CountTakesThreeBits | torque_sockets/torque_connection.h:128 | The ack byte count of a header takes three bits. |
| DigitLoops.AddDigits | lib/libtommath/bn_s_mp_add.c:19-104 | The digits of the sum. |
| DigitLoops.SubDigits | lib/libtommath/bn_s_mp_sub.c:19-83 | The difference of the magnitudes; for a smaller first operand it is too large by exactly b^used. |
| DigitLoops.CmpDigits | lib/libtommath/bn_mp_cmp_mag.c:19-50 | Compares by length first; right whenever the longer operand has no leading zero. |
| DigitLoops.MulDigit | lib/libtommath/bn_mp_mul_d.c:20-74 | The product with one digit. |
| DigitLoops.Trim | lib/libtommath/bn_mp_clamp.c:26-39 | Leading zeros go, the value stays. |
| BitShifts.ShiftUpDigits | lib/libtommath/bn_mp_mul_2d.c:44-77 | The bit loop multiplies by 2^k. |
| BitShifts.ShiftDownDigits | lib/libtommath/bn_mp_div_2d.c:58-85 | The bit loop divides by 2^k, rounding down. |
| BitShifts.CountBits | lib/libtommath/bn_mp_count_bits.c:20-40 | The number of bits of the magnitude. |
| BigInt.MpInt.SAdd | lib/libtommath/bn_s_mp_add.c:19-104 | abs(a) + abs(b), without leading zeros, also when the result is an operand. |
| BigInt.MpInt.SSub | lib/libtommath/bn_s_mp_sub.c:19-83 | abs(a) - abs(b), without leading zeros, with the exact surplus when abs(a) < abs(b). |
| BigInt.MpInt.Cmp | lib/libtommath/bn_mp_cmp.c:20-38 | The order of the two signed values. |
| BigInt.MpInt.Add | lib/libtommath/bn_mp_add.c:19-47 | a + b, unless the signs differ and the operand with more digits, not being clamped, is the smaller one; then the sum is off by b^(its length), on the side of its sign. |
| BigInt.MpInt.Sub | lib/libtommath/bn_mp_sub.c:20-53 | a - b. |
| BigInt.MpInt.MulD | lib/libtommath/bn_mp_mul_d.c:20-74 | a times a digit. |
| BigInt.MpInt.Lshd | lib/libtommath/bn_mp_lshd.c:19-62 | Multiplication by b^n; a zero becomes n zero digits, unclamped. |
| BigInt.MpInt.Rshd | lib/libtommath/bn_mp_rshd.c:19-67 | Division by b^n, rounding down. |
| BigInt.MpInt.Mul2d | lib/libtommath/bn_mp_mul_2d.c:19-80 | Multiplication by 2^n. |
| BigInt.MpInt.Div2d | lib/libtommath/bn_mp_div_2d.c:19-92 | Division by 2^n, rounding the magnitude down. |
| BigInt.MpInt.Mod2d | lib/libtommath/bn_mp_mod_2d.c:20-50 | The magnitude modulo 2^n. |
| BigInt.MpInt.TwoExpt | lib/libtommath/bn_mp_2expt.c:24-43 | 2^n. |
| Division.DivisionIsUnique | lib/libtommath/bn_mp_div.c:90-102 | a = q*b + r with abs(r) < abs(b) and r zero or signed like a determines q and r: they are the quotient and remainder that round toward zero. |
| Division.TrialIsLarge | lib/libtommath/bn_mp_div.c:204-227 | A trial digit that is not too large always passes the three-digit test, so the correction loop does not go below the true digit. |
| Division.TrialIsTight | lib/libtommath/bn_mp_div.c:204-227 | Wherever the correction loop stops the digit is at most one too large; for x[i] = 0, where the forced length ends the loop early, because the divisor is normalised. |
| Division.TrialDigit | lib/libtommath/bn_mp_div.c:190-227 | The trial digit is the true digit or one more. |
| Division.DivideDigit | lib/libtommath/bn_mp_div.c:229-255 | After one digit, with one add-back at most, x is below the shifted divisor and nothing is lost. |
| Division.FirstDigit | lib/libtommath/bn_mp_div.c:169-182 | The leading digit, at most 3, is found by repeated subtraction. |
| Division.DivideLoops | lib/libtommath/bn_mp_div.c:165-256 | x = q*y + remainder, with the remainder below y. |
| Division.Normalise | lib/libtommath/bn_mp_div.c:151-163 | Both operands are shifted equally until the leading digit of the divisor has 27 bits. |
| Division.Div | lib/libtommath/bn_mp_div.c:103-284 | Quotient and remainder of signed numbers of every size, also written over the operands; it fails only for b = 0 and then changes nothing. |
| Division.DivBitByBit | lib/libtommath/bn_mp_div.c:21-86 | The bit-by-bit version meets the same contract. |
| Columns.Convolution | lib/libtommath/bn_fast_s_mp_mul_digs.c:47-81 | The columns of digit products add up to the product; what n columns leave out is a multiple of b^n. |
| Columns.ColumnIsPairs | lib/libtommath/bn_fast_s_mp_mul_digs.c:57-74 | The walk of the column loop meets exactly the digit pairs of the column. |
| Columns.SquareColumn | lib/libtommath/bn_fast_s_mp_sqr.c:52-82 | A column of a square is twice the sum over half its pairs, plus the diagonal in even columns. |
| Products.AddColumn | lib/libtommath/bn_fast_s_mp_mul_digs.c:57-80 | Carry plus column, without overflow of 64 bits under the caller's size guard. |
| Products.AddSquareColumn | lib/libtommath/bn_fast_s_mp_sqr.c:49-82 | Carry plus column of a square, by the doubled half, without overflow. |
| Products.FastMulDigs | lib/libtommath/bn_fast_s_mp_mul_digs.c:34-102 | a*b mod b^digs; the last carry is zero when all columns are produced. |
| Products.FastSqr | lib/libtommath/bn_fast_s_mp_sqr.c:28-109 | a^2. |
| Products.FastMulHighDigs | lib/libtommath/bn_fast_s_mp_mul_high_digs.c:27-93 | The columns from digs up; below them the digits are whatever they were. |
| Products.MultiplyAdd | lib/libtommath/bn_s_mp_mul_digs.c:43-78 | One row of schoolbook multiplication adds digit times number at its place. |
| Products.SlowMulDigs | lib/libtommath/bn_s_mp_mul_digs.c:22-85 | a*b mod b^digs, row by row. |
| Products.SlowMulHighDigs | lib/libtommath/bn_s_mp_mul_high_digs.c:21-76 | The product without its columns below digs, row by row. |
| SmallFactors.Mul2 | lib/libtommath/bn_mp_mul_2.c:19-77 | Twice a number. |
| SmallFactors.Div2 | lib/libtommath/bn_mp_div_2.c:19-63 | Half the magnitude, rounded down. |
| SmallFactors.Div3 | lib/libtommath/bn_mp_div_3.c:20-73 | A third of the magnitude, rounded down, by multiplying with the inverse of 3 and correcting. |
| Interpolation.Interpolate | lib/libtommath/bn_mp_toom_mul.c:162-244 | From the five values of the product polynomial its five coefficients: every halving and every division by three is exact, signs included. |
| Interpolation.Recombine | lib/libtommath/bn_mp_toom_mul.c:246-271 | The sum of the coefficients at their places, except that a short negative w0 loses against a shifted zero w1, which adds b^n. |
| Multiply.MulDigs | lib/libtommath/bn_s_mp_mul_digs.c:22-85 | abs(a)*abs(b) mod b^digs, by columns or by rows. |
| Multiply.MulHighDigs | lib/libtommath/bn_s_mp_mul_high_digs.c:21-76 | The high columns of abs(a)*abs(b), and anything below. |
| Multiply.KaratsubaMul | lib/libtommath/bn_mp_karatsuba_mul.c:47-162 | abs(a)*abs(b) from three half-size products. |
| Multiply.ToomValue | lib/libtommath/bn_mp_toom_mul.c:20-24 | The five coefficients at their places give the product of the two numbers split in three. |
| Multiply.ToomMul | lib/libtommath/bn_mp_toom_mul.c:25-278 | a*b when signs agree; with opposite signs, when the five products inside are right, a*b, plus b^n exactly for the operands ToomMisses describes. |
| Multiply.Mul | lib/libtommath/bn_mp_mul.c:19-61 | a*b for equal signs at every size, and for opposite signs whenever the magnitudes are Exact, as they all are below 350 digits; when the five products inside are right (always below 1034 digits), it is right if and only if ToomMisses does not hold, and too large by b^n otherwise. |
| ToomParts.PointsShorter | lib/libtommath/bn_mp_toom_mul.c:37-160 | Every operand of a product inside has fewer digits than the shorter operand outside, so the recursion ends. |
| ToomParts.OneLevelIsInnerExact | lib/libtommath/bn_mp_mul.c:24-28 | Below 1034 digits the products inside are all too small for Toom-Cook, and right. |
| Multiply.ExactIs | lib/libtommath/bn_mp_toom_mul.c:37-271 | From 350 digits on magnitudes are Exact if and only if the five products inside are right and ToomMisses does not hold. |
| Multiply.WrongProduct | lib/libtommath/bn_mp_toom_mul.c:246-271 | A concrete pair of 350-digit operands of opposite sign whose product comes out too large by b^116. |
| Squaring.KaratsubaSqr | lib/libtommath/bn_mp_karatsuba_sqr.c:25-116 | a^2 from three half-size squares. |
| Squaring.ToomSqr | lib/libtommath/bn_mp_toom_sqr.c:20-220 | a^2 from five squares; there is no sign to go wrong. |
| Squaring.Sqr | lib/libtommath/bn_mp_sqr.c:20-53 | a^2 for every size and sign. |
| Montgomery.ReducedIsUnique | lib/libtommath/bn_mp_montgomery_reduce.c:18-113 | For odd n there is only one r in [0, n) with r*R = x mod n. |
| Montgomery.MuClears | lib/libtommath/bn_fast_mp_montgomery_reduce.c:69-76 | Adding mu*n makes the lowest digit zero. |
| Montgomery.AddRow | lib/libtommath/bn_fast_mp_montgomery_reduce.c:92-107 | The row mu*n is added to the columns; no column overflows 64 bits for fewer than 256 digits. |
| Montgomery.ReduceColumn | lib/libtommath/bn_fast_mp_montgomery_reduce.c:68-111 | One turn of the outer loop clears a column and carries on what it held, keeping the value modulo n. |
| Montgomery.FastReduce | lib/libtommath/bn_fast_mp_montgomery_reduce.c:26-167 | x*R^-1 mod n in [0, n), for odd n of fewer than 256 digits and x < n*R, with at most one subtraction. |
| Montgomery.AddRowToCells | lib/libtommath/bn_mp_montgomery_reduce.c:64-83 | The inner loop of the baseline form, over 32-bit cells that need not be digits: the row mu*n is added, and what the loop writes are digits. |
| Montgomery.PropagateUp | lib/libtommath/bn_mp_montgomery_reduce.c:87-92 | The carry loop keeps the value, counting 2^32 for every cell that wraps; only cells that are no digits wrap, each once. |
| Montgomery.NextDigitClear | lib/libtommath/bn_mp_montgomery_reduce.c:46-84 | Each turn makes one more digit zero. |
| Montgomery.Reduce | lib/libtommath/bn_mp_montgomery_reduce.c:20-113 | By columns (n below 256 digits) x*R^-1 mod n. The baseline form reduces the number that x and all the cells above it spell, less 2^32 for each cell that wrapped. |
| Montgomery.RightIfMultiple | lib/libtommath/bn_mp_montgomery_reduce.c:39-44 | Such a reduction gives x*R^-1 mod n if and only if what came in addition is a multiple of n. |
| Montgomery.DigitsAbove | lib/libtommath/bn_mp_montgomery_reduce.c:39-44 | When the cells above x are digits: if and only if the number they spell is a multiple of n. |
| Montgomery.OneWordAbove | lib/libtommath/bn_mp_montgomery_reduce.c:39-44 | When there is one word of unset memory above x and zeros else: if and only if the word is 0. |
| MontgomerySetup.FourBitInverse | lib/libtommath/bn_mp_montgomery_setup.c:38 | The starting value is the inverse modulo 16. |
| MontgomerySetup.HenselStep | lib/libtommath/bn_mp_montgomery_setup.c:39-45 | Each step doubles the number of right bits, also when it wraps at 32 bits. |
| MontgomerySetup.Setup | lib/libtommath/bn_mp_montgomery_setup.c:20-54 | rho*n0 = -1 mod 2^28; fails exactly for an even modulus. |
| MontgomerySetup.CalcNormalization | lib/libtommath/bn_mp_montgomery_calc_normalization.c:24-54 | R mod n if and only if the modulus is not Stuck; for those it gives n itself. |
| Barrett.EstimateIsLow | lib/libtommath/bn_mp_reduce.c:32-58 | The quotient estimate is never too large. |
| Barrett.EstimateIsClose | lib/libtommath/bn_mp_reduce.c:32-58 | It is too small by at most 2 plus what the truncated product lost. |
| Barrett.HighQuotient | lib/libtommath/bn_mp_reduce.c:35-58 | The truncated product loses at most k = m.used from the quotient. |
| Barrett.EstimateBounds | lib/libtommath/bn_mp_reduce.c:32-58 | Both bounds for the powers at hand. |
| Barrett.ReduceSetup | lib/libtommath/bn_mp_reduce_setup.c:21-29 | b^(2k) / m. |
| Barrett.Reduce | lib/libtommath/bn_mp_reduce.c:22-95 | x mod m for every 0 <= x < m^2; the final loop ends with that value. |
| FoldingReduction.Reduce2k | lib/libtommath/bn_mp_reduce_2k.c:19-55 | a mod n when d = 2^p - n; with d = 0 it is a mod 2^p mod n. |
| FoldingReduction.Reduce2kSetup | lib/libtommath/bn_mp_reduce_2k_setup.c:19-42 | d is the low digit of 2^p - n, the whole of it exactly when it has one digit. |
| FoldingReduction.ReduceIs2k | lib/libtommath/bn_mp_reduce_is_2k.c:19-46 | True exactly when 2^p - n <= 2^28. |
| FoldingReduction.FoldsRightIsExact | lib/libtommath/bn_mp_reduce_2k.c:19-55 | With the constant of the set-up an accepted n > 0 is reduced by rightly, for every number, if and only if 2^p - n < 2^28 or n = 2^28. |
| FoldingReduction.PowerIsLost | lib/libtommath/bn_mp_reduce_2k.c:19-55 | For any other accepted n, 2^p is reduced to 0 instead of 2^28. |
| FoldingReduction.ReduceSpecial | lib/libtommath/bn_mp_exptmod.c:83-93 | Test, set-up and reduction together: what the reduction makes of a number, for every accepted modulus; no change for the others. |
| FoldingReduction.WrongFold | lib/libtommath/bn_mp_reduce_is_2k.c:19-46 | n = 3*2^28 is accepted, and 2^30 is then reduced to 0. |
| Reductions.Redux | lib/libtommath/bn_mp_exptmod_fast.c:85-133 | Whichever reduction is chosen, x divided by its scale modulo n, below n; for Montgomery reduction and 256 digits or more if and only if the word above x is 0, for folding when the modulus can be folded by. |
| Reductions.ProductLeavesRoom | lib/libtommath/bn_fast_s_mp_mul_digs.c:84-93 | The unset word that a product by columns leaves lies just above the product, and below place 2k - 1 of a k-digit modulus. |
| Reductions.MulReduce | lib/libtommath/bn_mp_exptmod_fast.c:183-191 | The product of two residues, reduced, is right if and only if the modulus has fewer than 256 digits, or the product was not formed by columns, or the word of unset memory it left is 0. |
| Reductions.SqrReduce | lib/libtommath/bn_mp_exptmod_fast.c:172-179 | The square of a residue, reduced; squaring leaves no unset word. |
| Reductions.UnsetWordDecides | lib/libtommath/bn_fast_s_mp_mul_digs.c:84-93 | 2 * 2 modulo b^255 + 1: the result stands for 4 if and only if the unset word is 0. |
| Reductions.BaseOfTwo | lib/libtommath/bn_mp_exptmod_fast.c:158-161 | For every odd modulus there is a base G with G*R = 2, so that table entry 1 is 2. |
| Exponentiation.BuildTable | lib/libtommath/bn_mp_exptmod_fast.c:147-191 | Entry 1 and the upper half of the table are residues; when all fits they hold the powers of G, scaled. |
| Exponentiation.TableEntry | lib/libtommath/bn_mp_exptmod_fast.c:253-256 | Every entry that is looked up was computed and holds its power. |
| Exponentiation.FetchBit | lib/libtommath/bn_mp_exptmod_fast.c:202-215 | Bits are fetched from the top; the bits fetched so far are the leading bits of X, and at the end all of X. |
| Exponentiation.TakeBit | lib/libtommath/bn_mp_exptmod_fast.c:217-265 | The window machine: the result is G to the bits outside the open window, and with the window every bit taken so far is accounted for. |
| Exponentiation.ScanExponent | lib/libtommath/bn_mp_exptmod_fast.c:201-266 | After the loop the bits outside and inside the window make up X. |
| Exponentiation.FinishWindow | lib/libtommath/bn_mp_exptmod_fast.c:268-291 | The bits of an unfinished window are worked off one by one. |
| Exponentiation.Mod | lib/libtommath/bn_mp_mod.c:20-43 | a mod b for b > 0, never negative. |
| Exponentiation.SmallBaseFits | lib/libtommath/bn_mp_exptmod_fast.c:158-161 | The product of the base with R mod P is right unless G is negative and both G and P have 350 digits or more. |
| Exponentiation.PowerProductFits | lib/libtommath/bn_mp_exptmod_fast.c:183-291 | A product of a power and a table entry is reduced rightly under the condition StepsFit: a modulus of fewer than 256 digits, or unset words that are all 0, or no such product short enough for columns. |
| Exponentiation.ShortModulusFits | lib/libtommath/bn_mp_exptmod_fast.c:94-105 | For P below 256 digits and redmode 0 everything fits, whatever the base, its sign and the unset words. |
| Exponentiation.ExptmodFast | lib/libtommath/bn_mp_exptmod_fast.c:32-315 | G^X mod P for every X >= 0 and P > 1, for Montgomery reduction (redmode 0) and for every modulus accepted for folding (redmode 2), when the base and the steps fit; a residue in any case. It fails only for redmode 0 and an even P, and then changes nothing. |
| HashTableFlat.NextLargerHashPrime | core/hash.h:1-13 | The least number of the list that is larger. |
| HashTableFlat.Find | core/hash_table_flat.h:221-234 | The first entry with the key in probing order, or the table size when an empty bucket comes first; probing ends because the table is not full. |
| HashTableFlat.FindIsRight | core/hash_table_flat.h:221-234 | When every entry is reached by probing from where its key starts, a lookup that fails means that the key is not there. |
| HashTableFlat.FillKeeps | core/hash_table_flat.h:135-145 | Filling the first free bucket keeps every entry reached. |
| HashTableFlat.FlatTable.InsertInTable | core/hash_table_flat.h:135-145 | The entry goes to the first free bucket of its probe, so it is reached; the others stay where they are, and all stay reached if they were. |
| HashTableFlat.FlatTable.Grow | core/hash_table_flat.h:149-171 | The next size of the list, exactly the same entries, all reached, and those of one key in the order of the old buckets. |
| HashTableFlat.FlatTable.Insert | core/hash_table_flat.h:147-175 | Adds the entry, behind those of its key, where a probe reaches it; keeps the load at most one half and every entry findable. The table grows exactly when it is at the threshold; otherwise only a free bucket changes. |
| HashTableFlat.FlatTable.FindKey | core/hash_table_flat.h:221-234 | Gives the first entry of the key in probing order, unless an empty bucket comes before; so a key with a reached entry is found, and a key with a single entry is found if and only if that entry is reached. |
| HashTableFlat.FlatTable.Reinsert | core/hash_table_flat.h:190-216 | The scan ends and loses and repeats no entry, whatever the table. If all entries were reached, it leaves them all reached when it starts at the hole, and otherwise if and only if no remaining probe path needs the hole or the scan gets to an entry whose path does. |
| HashTableFlat.MoveIsNearer | core/hash_table_flat.h:190-216 | Each move brings the entries nearer to where their keys start, so the scan ends also in a table that an earlier removal has left with unreachable entries. |
| HashTableFlat.FlatTable.RemoveFrom | core/hash_table_flat.h:177-219 | Removes exactly that entry from any table, with the same condition on what stays findable, for any start of the scan. |
| HashTableFlat.FlatTable.Remove | core/hash_table_flat.h:177-219 | As written, with the start at 0 that looping_counter gives, exactly that entry goes, from any table; if every entry was findable, the remaining ones are if and only if the removed bucket is 0 or one of those conditions holds. |
| HashTableFlat.UnreachedIsLost | core/hash_table_flat.h:221-234 | An entry that is not reached cannot be found. |
| HashTableFlat.ReachedIsFound | core/hash_table_flat.h:221-234 | A lookup that ends at an empty bucket has left out no reached entry of its key. |
| HashTableFlat.ValuesAfter | core/hash_table_flat.h:135-145 | A new entry comes last in the probing order of its key and changes nothing for other keys. |
| HashTableFlat.PrimesIncrease | core/hash.h:5 | The list of sizes increases, so the first larger number is the least. |
| HashTableFlat.LostKey | core/hash_table_flat.h:190-216 | A table of five buckets and two colliding keys: removing the first makes the second unfindable. |
| HashTableArray.VisitsAllMatches | core/hash_table_array.h:233-271 | find followed by next_match visits exactly the indexes that hold the key, each once, in increasing order. |
| HashTableArray.TakenOut | core/hash_table_array.h:109-115 | Unlinking a node leaves every chain the chain of its bucket, without that node. |
| HashTableArray.PutIn | core/hash_table_array.h:117-128 | Linking a node in at its place leaves every chain the chain of its bucket, with that node. |
| HashTableArray.PlaceByIndex | core/hash_table_array.h:122-124 | In its chain the nodes before a node are those with smaller indexes, so the walk by index stops at its place. |
| HashTableArray.Table.constructor | core/hash_table_array.h:85-89 | The shared empty table holds nothing. |
| HashTableArray.Table.Find | core/hash_table_array.h:260-271 | The first index that holds the key; no valid index exactly when there is none. |
| HashTableArray.Table.NextMatch | core/hash_table_array.h:233-244 | The next index that holds the same key, or the count. |
| HashTableArray.Table.RemoveFromHash | core/hash_table_array.h:109-115 | The node leaves its chain; all other chains and the order stay. |
| HashTableArray.Table.InsertInHash | core/hash_table_array.h:117-128 | The node gets the hash and bucket of its key and its place by index in that chain. |
| HashTableArray.Table.ShiftItems | core/hash_table_array.h:142-148 | The loop moves and renumbers exactly the items in between; its assertion on the old number holds. |
| HashTableArray.Table.MoveInChain | core/hash_table_array.h:153-169 | After a move the chains are in index order again, whether or not the node had to be moved in its chain. |
| HashTableArray.Table.MoveItemBack | core/hash_table_array.h:130-170 | The entry moves back by the given count and those in between move up; past the end nothing happens. If the 32-bit sum wraps to an index in front, the node there is overwritten, the chains stay, and the table is no longer valid. |
| HashTableArray.Table.SetItemKey | core/hash_table_array.h:224-231 | The entry at the index has the new key; order, values and other keys stay. |
| HashTableArray.Table.Remove | core/hash_table_array.h:246-259 | That entry goes, the others keep their order. |
| HashTableArray.Table.CheckSize | core/hash_table_array.h:284-305 | When it is too small, a table of the next size of the list, with the same entries, all chains in index order; otherwise no change. |
| HashTableArray.Table.Insert | core/hash_table_array.h:272-280 | The entry is added at the end. |
| HashTableArray.Table.InsertUnique | core/hash_table_array.h:20 | Adds the entry exactly when its key was not there. |
| HashTableArray.Table.FindWhere | core/type_database.h:431-440 | The loop of the conversion lookup finds the first entry of the key that suits, or none if there is none. |
| ThreadQueue.StepKeeps | core/thread_queue.h:27-180 | Every locked section, by whichever thread, keeps the invariant of the queue and of its event log. |
| ThreadQueue.CollectedOnce | core/thread_queue.h:27-95 | In every interleaving each request is collected at most once, with the response its worker wrote, never after a granted cancellation, and cannot be cancelled once collected. |
| ThreadQueue.StartedInOrder | core/thread_queue.h:158-177 | Requests are started in the order in which they were posted. |
| ThreadQueue.RequestIsKept | core/thread_queue.h:57-71 | In every run the record of request n holds the buffer of the n-th post. |
| ThreadQueue.NoneIsLost | core/thread_queue.h:27-96 | In every run each request posted is in the list, or was collected, or a cancellation of it was granted. |
| ThreadQueue.CancelledIsNotStarted | core/thread_queue.h:74-96 | A request whose cancellation was granted is not started afterwards. |
| ThreadQueue.PermitsAreConserved | core/thread_queue.h:57-71 | Permits left plus permits taken are the number of posts. |
| ThreadQueue.RecordIsKept | core/thread_queue.h:27-96 | The record that a worker processes, whichever worker, is never deleted and stays in process. |
| ThreadQueue.RecordIsItsOwn | core/thread_queue.h:158-177 | No two workers process the same record. |
| ThreadQueue.NoneIsStranded | core/thread_queue.h:57-71 | Waiting requests never exceed the permits plus the workers between the semaphore and the lock. |
| ThreadQueue.ThreadQueue.PostRequest | core/thread_queue.h:57-71 | Appends a waiting record with exactly the posted buffer, and one permit; returns its index, the number of posts before it. |
| ThreadQueue.ThreadQueue.PickRequest | core/thread_queue.h:158-177 | The oldest waiting record, with the buffer that was posted under its index, becomes that worker's and nothing else changes; exactly when none waits the worker goes back to the semaphore. |
| ThreadQueue.ThreadQueue.FinishRequest | core/thread_queue.h:178-179 | The worker's own record, which is still there, gets the response and is complete; nothing else changes. |
| ThreadQueue.ThreadQueue.CancelRequest | core/thread_queue.h:74-96 | True exactly when the list has the request; then its record is marked if a worker has it and deleted if not, and nothing else changes. |
| ThreadQueue.ThreadQueue.GetNextResult | core/thread_queue.h:27-54 | The first complete record that is not cancelled is taken, with its own request; the complete ones before it go too, everything else stays. |
| ThreadQueue.ThreadQueue.WaitSemaphore | core/thread_queue.h:160 | A worker takes a permit and is on its way to the lock. |
| ClientPuzzle.CheckOneSolution | torque_sockets/client_puzzle.h:198-207 | Accepts exactly when the first difficulty bits of the hash are zero. |
| ClientPuzzle.TablesAreRight | torque_sockets/client_puzzle.h:120-181 | In every run with distinct server nonces each table holds exactly the client nonces accepted under its server nonce. |
| ClientPuzzle.SucceedsIff | torque_sockets/client_puzzle.h:165-181 | A check succeeds exactly when difficulty and solution are right, the server nonce is the current or the previous one, and the pair of nonces was not accepted before. |
| ClientPuzzle.FailsBecause | torque_sockets/client_puzzle.h:165-181 | In every run each failure code is given exactly when that test is the first to fail, in this order: difficulty, server nonce among the last two of the run, solution, client nonce not accepted under that server nonce before. |
| ClientPuzzle.AcceptedOnce | torque_sockets/client_puzzle.h:165-181 | No pair of nonces is accepted twice in a run. |
| ClientPuzzle.NonceTable.CheckAdd | torque_sockets/client_puzzle.h:77-88 | True exactly when the nonce was not in the table, and then it is; the other nonces stay. |
| ClientPuzzle.NonceTable.Reset | torque_sockets/client_puzzle.h:67-72 | The table is empty. |
| ClientPuzzle.Manager.TickAt | torque_sockets/client_puzzle.h:120-141 | Exactly when more than 30000 ms have passed the current nonce and its table become the previous ones, and the other table is emptied for the new nonce; otherwise nothing changes. |
| ClientPuzzle.Manager.CheckSolution | torque_sockets/client_puzzle.h:165-181 | Each result code exactly under its condition on difficulty, nonces, hash and tables; the new tables are those of the run model. |
| SmallBlockAllocator.FindBucket | core/small_block_allocator.h:184-193 | The smallest size of the list that is large enough. |
| SmallBlockAllocator.SizeLaw | core/small_block_allocator.h:184-193 | The sizes: every one up to six lines, then four, five and six times each power of two. |
| SmallBlockAllocator.LittleIsWasted | core/small_block_allocator.h:184-193 | A block is at most a third larger than the lines asked for. |
| SmallBlockAllocator.StatusBytesApart | core/small_block_allocator.h:148-164 | Blocks at different addresses have different status bytes. |
| SmallBlockAllocator.CarvedBlock | core/small_block_allocator.h:88-99 | The next lines of the top page overlap no block, live or free, and stay inside the page. |
| SmallBlockAllocator.Allocator.constructor | core/small_block_allocator.h:128-137 | An allocator without pages and blocks. |
| SmallBlockAllocator.Allocator.AllocNewTopPage | core/small_block_allocator.h:139-169 | The new page is chained in, with a status block of its own in a status page that is new after every sixteen; everything else stays right. Without a data page nothing changes; without the status page it needs the allocator is stranded, and the next data page gets its status block at address 0. |
| SmallBlockAllocator.Allocator.Reuse | core/small_block_allocator.h:76-85 | The block freed last of that size is live again; its status byte was marked free. |
| SmallBlockAllocator.Allocator.Allocate | core/small_block_allocator.h:62-100 | A block that was not live, of the smallest size that is large enough: the one of that size freed last if there is one, else a new one from the top page, which is replaced exactly when too few lines are left; nothing exactly for too large a request and when there is no page to replace the top page by; no block ever changes its size. |
| SmallBlockAllocator.Allocator.Deallocate | core/small_block_allocator.h:114-126 | The block goes to the front of the list of the size it came from, and nothing else changes. |
| SmallBlockAllocator.Allocator.LiveBlock | core/small_block_allocator.h:62-100 | In every reachable state a live block is 16-byte aligned, past the struct of one of the allocator's pages, and inside that page. |
| SmallBlockAllocator.Allocator.LiveBlocks | core/small_block_allocator.h:62-100 | Two live blocks have no byte in common. |
| SmallBlockAllocator.Allocator.Destroy | core/small_block_allocator.h:171-182 | Every data page and every status page is given back exactly once. |
| SmallBlockAllocator.Allocator.Clear | core/small_block_allocator.h:10 | The same, and then the allocator is as new. |

## Left out

- Multiply.Mul: for operands of opposite sign whose five products inside are not all right, which takes 1034 digits or more, nothing is said about the value.
- Multiply.ToomMul: the same, for the same reason.
- Exponentiation.ExptmodFast: when the base or a step does not fit it only says that the result is a residue. The condition on the unset words is exact for each multiplication (Reductions.MulReduce) and sufficient for the whole power; a wrong factor can be hidden by what follows, for instance by a factor 0.
- Montgomery.Reduce: the two highest cells of the 2k + 1 it takes in are digits, and the number they all spell is below n*R; Reductions.ProductLeavesRoom shows that the products it is given leave no other.
- HashTableFlat.FlatTable.Remove: the order in which a lookup meets several entries of one key afterwards is not stated.
- HashTableArray.Table.Insert: only at the end; insertion at a given index and `move_item_forward`, which subtracts the item count where it should subtract the distance, are not modelled, nor are nodes as heap objects or their deletion.
- SmallBlockAllocator.Allocator.Allocate: nothing is said about blocks once the allocator is stranded for want of a status page, as their status bytes are then at address 0.
- ThreadQueue.ThreadQueue.PostRequest: request indexes do not wrap at 2^32.
- The connection handshake, puzzles aside: torque_socket.h and the arranged connection logic.
- Simulated loss and latency, the cipher hooks, logging and keep-alive timing of a connection.
- That exchanges of acks come to an end: two half-full windows can answer each other.
- Ranged integers of more than 2^24 values, streams that ask for more data, big-endian hosts.
- `mp_exptmod` with its choice of algorithm and negative exponents, modular inverses, diminished-radix reduction, primality, and the other builds of LibTomMath.
- `array.h`, dictionaries, strings, the type database, functors and plugins.
- Dates and times, sockets, address lookup, threads and semaphores themselves.
- Cryptographic primitives: their results are parameters.
