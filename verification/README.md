# Verified models of the energy server and its vendored libraries

The repository is a small server that lets users collect energy from records held in memory, with
MariaDB Connector/C and zlib vendored beside it. This project models the parts of it whose
correctness is hardest to see and proves what they promise. Verify all of it with
`dafny verify dfyconfig.toml`.

| files | what they model |
|---|---|
| HashMask, Chains, ChainSplit, ChainMoves, ChainMerge, HashLookup, LinearHash | the hash table of ma_hashtbl.c, whose chains share one dense array |
| Limbs, Bigint, BigProduct, BigDivision, FivePowers, BigPowers, DivisorScale, Decimals, DigitLoop | big integers and digit generation of ma_dtoa.c |
| Framing, ReadAhead, Net, Exchange | packets of ma_net.c over the read-ahead cache of ma_pvio.c |
| Adler32 | adler32.c, against section 2.2 of RFC 1950 |
| Sha1Standard, Sha1 | ma_sha1.c, against FIPS 180-4 |
| Arena | the arena allocator of ma_alloc.c |
| ThirtyPercent, Energy | concurrent collection in main.cpp over the state of mem.hpp |
| DynCodec, DynValues, DynFormat, DynRecord, DynFind, DynBuild, DynCreate, DynMerge, DynOffsets, DynUpdate, DynSession, DynSamples | dynamic columns of mariadb_dyncol.c |
| Arith, Basics | integer facts and shared types |

Code that changes state is modelled by classes and methods with loops; each is proved against a
specification function or predicate, and lemmas prove what that specification means. How the
source's terms appear here:

- **Hash table.** The array of links is a `seq` field that every method reassigns, pointers into it
  are slot numbers, and records are values of a type with equality. The hash of a key and the key of
  a record are arbitrary fixed functions. Masks with a power of two minus one are remainders, and the
  test of one bit is the parity of a quotient. The chains are a ghost field: one list of slots for
  each home. `blength` is a 32-bit number in the source; `Insert` states that the table stays well
  formed exactly while fewer than 2^31 records are held, and that `blength` is 0 from then on.
- **Big integers.** Limbs are 32-bit words in arrays that are written in place. A number that is zero
  after a division may have no limbs at all, as in the source, and comparing such a zero with a
  one-limb zero does not give 0; `Cmp` says so, and `MultAdd` says what is lost when something is
  added to such a zero. The rows of the table of powers are proved to be the
  powers they stand for. `LeftRight` and `FixedDigits` take `S <= b < 10 S` as given; digit strings
  are sequences of digits, and the decimal point moves as the source moves `k`.
- **Packets.** The transport is an object that may deliver and accept any positive number of bytes
  per call and, unless it is reliable, may fail at any call. How often the read buffer may grow before
  memory runs out is an input. Sequence numbers are unsigned 32-bit counters of which the low
  byte is sent.
- **Checksums.** The unrolled sixteens of Adler-32 are a loop of sixteen rounds, and the eighty lines
  of SHA-1 are sixteen rounds of the five-line pattern in which the variables return to their roles.
  `MOD` is modelled in its division-free form; the default build divides, which the contracts say is
  the same.
- **Arena.** Blocks are objects on two linked lists, and regions are recorded when they are returned.
  Whether there is memory for a new block is an input of every call that may ask for one.
  Sizes wrap at 64 bits, and `NeededIsEnough` says for which requests the size computation is right.
- **Energy.** A handler is a sequence of atomic steps from the record lookup on: the unlocked check,
  the mark, the lock, the guard, the payment, the removal, the new status and the unlock. Any number
  of handlers interleave in any order. Payments are recorded in the state as history. Thirty percent
  is `3 * x / 10` in integers, which `ShareIsWholePart` shows to be what the product in double precision
  gives, and totals are 32-bit counters whose sum is below 2^32 in the loaded
  state; that no counter wraps is then proved.
- **Dynamic columns.** A record is the packed bytes of a list of columns sorted by key, and stands for
  a finite map from keys to typed bytes. The offsets that its entries state are part of the model, so
  that `Seen` is the map that lookups give even when they are wrong. Entries and names are written
  into arrays of the planned size. The order that `qsort` produces is a parameter.

Where the code differs from what its own comments or a caller may expect, the model follows the code:

- calc_var_sizes says that data up to 0x1fffffff bytes (numeric) can be handled, but refuses offset
  sizes of the maximum, so the limit is 0x1fffff bytes, and 0xfffffff for named records.
- Numeric lookups cut the key to 16 bits, so a number above 65535 finds the column of its remainder:
  `CutNumbers` gives the exact condition, and `WrongNumber` is a record where it fails.
- dynamic_column_value_len plans by the fraction of a time before data_store clears it for times of
  another kind: `ValueLen` says by how much and for which values, and `PlannedTooLong` is one. Creating
  a record is right nevertheless. An update moves every kept column behind such a value by the planned
  length, so lookups then miss it: `Update` is right exactly when no column that stays comes after such
  a value in key order, and `LosesColumn` is an update that goes wrong.
- dynamic_column_get_internal reports success and NULL when find_column finds an unreadable entry,
  because the error code still holds the result of reading the header.
- An update that repeats keys is refused only after a record without columns was overwritten by a zero
  header: `DynUpdate.Left` says which bytes a refusal leaves.
- net_realloc rounds the buffer up to whole pages and the limit is only looked at when the buffer is too
  small, so a payload above the limit may be read: `Admits` is the exact condition for a frame, and
  `LimitOverrun` an example.
- dtoa prefers ten at the end of the interval to a first digit nine that is nearer: `Chosen` says when
  the two differ. Of two equally near decimals it prints the even one, but when both are the very ends of
  the interval it keeps the digit, unless that is a nine: `RightAtTie`.
- A record is marked as modified before the guard decides, so an untouched record may be flushed as
  collected by another: `MarkedButUntouched` is such a run and `FlushedStatus` the exact condition.

## Model

| member | source | states |
|---|---|---|
| HashMask.MaskBound | deps/mariadb-connector-c-3.3/libmariadb/ma_hashtbl.c:105-109 | a home slot is always a slot of the table, whatever the hash |
| HashMask.MaskGrow | deps/mariadb-connector-c-3.3/libmariadb/ma_hashtbl.c:308-319 | adding a slot takes from one old slot exactly the hashes with the half bit set and moves no other hash |
| HashMask.MaskDouble | deps/mariadb-connector-c-3.3/libmariadb/ma_hashtbl.c:412-413 | doubling `blength` when every slot is used moves no record |
| HashMask.MaskShrink | deps/mariadb-connector-c-3.3/libmariadb/ma_hashtbl.c:445-445 | removing the last slot sends exactly its own hashes to one other slot, also when `blength` is halved |
| HashMask.SizedGrow | deps/mariadb-connector-c-3.3/libmariadb/ma_hashtbl.c:412-413 | the size law `blength / 2 <= records < blength`, `blength` a power of two, survives an insert |
| HashMask.SizedShrink | deps/mariadb-connector-c-3.3/libmariadb/ma_hashtbl.c:445-445 | the size law survives a delete |
| Chains.Apart | deps/mariadb-connector-c-3.3/libmariadb/ma_hashtbl.c:290-415 | chains of different homes share no slot |
| Chains.Retile | deps/mariadb-connector-c-3.3/libmariadb/ma_hashtbl.c:386-411 | rebuilding one chain out of its own slots and the free one keeps all slots tiled by chains |
| Chains.SplitTiled | deps/mariadb-connector-c-3.3/libmariadb/ma_hashtbl.c:306-385 | splitting one chain between its old home and the new slot keeps the tiling for the larger table |
| Chains.MergeTiled | deps/mariadb-connector-c-3.3/libmariadb/ma_hashtbl.c:463-497 | joining the chain of the vanishing home to another keeps the tiling for the smaller table |
| Chains.DropTiled | deps/mariadb-connector-c-3.3/libmariadb/ma_hashtbl.c:460-461 | when the last slot is the free one, dropping it keeps the tiling |
| ChainSplit.WalkStay | deps/mariadb-connector-c-3.3/libmariadb/ma_hashtbl.c:318-349 | one step of the split for a record that keeps its home, in all flag states, keeps the two half-built chains right |
| ChainSplit.WalkMove | deps/mariadb-connector-c-3.3/libmariadb/ma_hashtbl.c:350-371 | one step of the split for a record that moves, in all flag states, keeps the two half-built chains right |
| ChainSplit.WalkEnd | deps/mariadb-connector-c-3.3/libmariadb/ma_hashtbl.c:375-384 | closing both chains after the walk gives two proper chains and one free slot, and loses no record |
| ChainMoves.Evict | deps/mariadb-connector-c-3.3/libmariadb/ma_hashtbl.c:395-410 | a record at a slot that is not its home is moved to the free slot with its predecessor redirected: its chain stays whole |
| ChainMoves.PushFront | deps/mariadb-connector-c-3.3/libmariadb/ma_hashtbl.c:397-404 | a new record becomes the first of its family with the old first one behind it |
| ChainMoves.TakeBehind | deps/mariadb-connector-c-3.3/libmariadb/ma_hashtbl.c:451-452 | unlinking a record behind another takes exactly it out of its chain |
| ChainMoves.TakeHead | deps/mariadb-connector-c-3.3/libmariadb/ma_hashtbl.c:453-458 | taking out the first of a longer chain copies the second over it: the chain loses exactly that record |
| ChainMoves.FillHole | deps/mariadb-connector-c-3.3/libmariadb/ma_hashtbl.c:466-471 | the last record moved to its empty home forms a chain of its own |
| ChainMerge.MergeFamily | deps/mariadb-connector-c-3.3/libmariadb/ma_hashtbl.c:482-490 | the last record moved within its own family keeps the family, for the smaller table |
| ChainMerge.MergeTwo | deps/mariadb-connector-c-3.3/libmariadb/ma_hashtbl.c:491-497 | two families that fall together are joined into one proper chain |
| LinearHash.NewTable | deps/mariadb-connector-c-3.3/libmariadb/ma_hashtbl.c:47-69 | a new table is well formed and holds nothing; without memory for its array there is none |
| LinearHash.Table.MoveLink | deps/mariadb-connector-c-3.3/libmariadb/ma_hashtbl.c:265-275 | the walk along a chain ends and redirects exactly the link that points to the slot sought |
| LinearHash.Table.SplitChain | deps/mariadb-connector-c-3.3/libmariadb/ma_hashtbl.c:306-385 | the flag-driven loop splits one chain into two with one slot freed and every record kept |
| LinearHash.Table.Place | deps/mariadb-connector-c-3.3/libmariadb/ma_hashtbl.c:386-411 | the new record goes to its home slot; the held records grow by exactly it |
| LinearHash.Table.Grow | deps/mariadb-connector-c-3.3/libmariadb/ma_hashtbl.c:412-413 | the table stays well formed exactly while it has fewer than 2^31 records; exactly then the doubled 32-bit `blength` is not 0 |
| LinearHash.Table.Insert | deps/mariadb-connector-c-3.3/libmariadb/ma_hashtbl.c:290-415 | adds exactly one record to the multiset, or fails and changes nothing; keeps the table well formed exactly below 2^31 records |
| LinearHash.Table.TakeOut | deps/mariadb-connector-c-3.3/libmariadb/ma_hashtbl.c:449-458 | taking a record out of its chain leaves one free slot and every other record in its chain |
| LinearHash.Table.MoveLast | deps/mariadb-connector-c-3.3/libmariadb/ma_hashtbl.c:463-499 | the last slot's record takes the free slot, whichever of the four cases applies, and two homes become one |
| LinearHash.Table.CloseGap | deps/mariadb-connector-c-3.3/libmariadb/ma_hashtbl.c:460-500 | after the last slot is emptied the smaller table is tiled by chains again and holds the same records |
| LinearHash.Table.RemoveAt | deps/mariadb-connector-c-3.3/libmariadb/ma_hashtbl.c:445-500 | once found, exactly that record leaves the multiset and the table stays well formed |
| LinearHash.Table.Delete | deps/mariadb-connector-c-3.3/libmariadb/ma_hashtbl.c:424-504 | removes exactly the record asked for once, or reports it absent exactly when it is not held and changes nothing |
| LinearHash.Table.Search | deps/mariadb-connector-c-3.3/libmariadb/ma_hashtbl.c:205-235 | returns the first record with the key in chain order and makes it current, or none when there is none, also when the home slot holds another family |
| HashLookup.SearchStep | deps/mariadb-connector-c-3.3/libmariadb/ma_hashtbl.c:216-231 | one slot of a search is the first match, or a head that belongs to another chain and so proves that there is none, or a step along the chain of the key |
| LinearHash.Table.Next | deps/mariadb-connector-c-3.3/libmariadb/ma_hashtbl.c:240-260 | returns the next record with the key and advances, or none at the end |
| LinearHash.Table.SearchSucceedsIff | deps/mariadb-connector-c-3.3/libmariadb/ma_hashtbl.c:205-235 | a search succeeds exactly when a record with the key is held |
| LinearHash.Table.MatchesComplete | deps/mariadb-connector-c-3.3/libmariadb/ma_hashtbl.c:205-260 | the matches of a key are all records with it, each as often as held |
| LinearHash.Table.CollectAll | deps/mariadb-connector-c-3.3/libmariadb/ma_hashtbl.c:205-260 | search followed by next until nothing comes yields every equal-key record exactly as often as the table holds it |
| LinearHash.Run | deps/mariadb-connector-c-3.3/libmariadb/ma_hashtbl.c:290-504 | every run of inserts, with memory or without, and deletes from a new table during which fewer than 2^31 records are held leaves a well-formed table that counts and holds the multiset the operations describe |
| Bigints.MultAdd | deps/mariadb-connector-c-3.3/libmariadb/ma_dtoa.c:716-747 | the value is `b * m + a` exactly unless something is added to a zero without limbs; normalised for every positive factor, in place or in a larger number when the carry does not fit |
| Bigints.Cmp | deps/mariadb-connector-c-3.3/libmariadb/ma_dtoa.c:1025-1046 | orders the numbers denoted; equal numbers compare 0, except the empty zero that a division leaves against the one-limb zero |
| Bigints.Diff | deps/mariadb-connector-c-3.3/libmariadb/ma_dtoa.c:1049-1100 | absolute difference, normalised, with the sign telling which was larger |
| Bigints.LShift | deps/mariadb-connector-c-3.3/libmariadb/ma_dtoa.c:985-1022 | multiplies by `2^k` within the limbs allocated, with and without a bit shift; positive numbers stay normalised |
| BigProduct.Mult | deps/mariadb-connector-c-3.3/libmariadb/ma_dtoa.c:849-897 | the product, normalised, within the limbs allocated, for operands in either order |
| BigDivision.Estimate | deps/mariadb-connector-c-3.3/libmariadb/ma_dtoa.c:1182-1182 | the quotient of the top limbs never exceeds the true digit and misses it by at most one |
| BigDivision.QuoRem | deps/mariadb-connector-c-3.3/libmariadb/ma_dtoa.c:1169-1230 | for a divisor with 28 bits in its top limb and `b < 10 S`: returns `b / S`, leaves `b mod S` normalised in place |
| BigDivision.SubtractMultiple | deps/mariadb-connector-c-3.3/libmariadb/ma_dtoa.c:1184-1195 | the carry and borrow loop subtracts exactly `q` times the divisor from the limbs in place |
| BigPowers.TableRight | deps/mariadb-connector-c-3.3/libmariadb/ma_dtoa.c:905-937 | every row of the precomputed table is the power of five it stands for |
| BigPowers.Pow5Mult | deps/mariadb-connector-c-3.3/libmariadb/ma_dtoa.c:941-982 | multiplies by exactly `5^k` for every `k`, through the table and beyond it by repeated squaring |
| DivisorScale.Hi0Bits | deps/mariadb-connector-c-3.3/libmariadb/ma_dtoa.c:750-781 | the number of leading zero bits of a word, 32 for zero |
| DivisorScale.ScaleDivisor | deps/mariadb-connector-c-3.3/libmariadb/ma_dtoa.c:1717-1744 | the extra shift leaves exactly 28 significant bits in the divisor's top limb, which is what the division needs |
| DigitLoop.RoundOff | deps/mariadb-connector-c-3.3/libmariadb/ma_dtoa.c:1890-1898 | adds one unit in the last place, carrying through nines and moving the decimal point when all are nines |
| DigitLoop.TrimZeros | deps/mariadb-connector-c-3.3/libmariadb/ma_dtoa.c:1900-1906 | drops trailing zeros without changing the number spelled |
| DigitLoop.Turn | deps/mariadb-connector-c-3.3/libmariadb/ma_dtoa.c:1788-1852 | one turn of the shortest-digits loop: `b0 * 10^(i-1) = D * S + b` with `b < S` is kept, and when it stops the digits lie in the interval, and for `mlo <= mhi` they are the nearest, halfway the even ones, as `LeftRight` says |
| Decimals.KeepNearest | deps/mariadb-connector-c-3.3/libmariadb/ma_dtoa.c:1809-1833 | keeping the digits gives the nearest decimal of the length in the interval when the remainder is at most half or the next decimal is outside |
| Decimals.RaiseNearest | deps/mariadb-connector-c-3.3/libmariadb/ma_dtoa.c:1797-1848 | adding one does when the remainder is at least half or the digits themselves are outside |
| Decimals.OnlyTie | deps/mariadb-connector-c-3.3/libmariadb/ma_dtoa.c:1823-1831 | two decimals of a length are equally near only when they are the two candidates and the remainder is half |
| DigitLoop.TieRule | deps/mariadb-connector-c-3.3/libmariadb/ma_dtoa.c:1790-1848 | of two equally near decimals in the interval the loop gives the even one; when both are at its ends the digit is kept, unless it is a nine |
| DigitLoop.Chooses | deps/mariadb-connector-c-3.3/libmariadb/ma_dtoa.c:1790-1848 | when the loop ends, the decimal chosen is the nearest one of its length in the interval and follows the tie rule, except that ten exactly at the upper end is preferred to a first digit nine that is nearer |
| DigitLoop.LeftRight | deps/mariadb-connector-c-3.3/libmariadb/ma_dtoa.c:1788-1864 | the digits printed lie within `mlo` below and `mhi` above the value, no shorter decimal does, and for `mlo <= mhi` none of their length in the interval is nearer, apart from a nine at its upper end, and none with an even last digit is as near, apart from both being at the ends of the interval; or after `ilim` digits they are the half-even rounding and no decimal up to that length is in the interval; first and last digit are not zero |
| DigitLoop.RoundLast | deps/mariadb-connector-c-3.3/libmariadb/ma_dtoa.c:1878-1907 | rounds the last digit half to even, including the carry, and drops trailing zeros |
| DigitLoop.FixedDigits | deps/mariadb-connector-c-3.3/libmariadb/ma_dtoa.c:1865-1907 | the plain loop: `ilim` digits rounded half to even, or fewer digits that are exact; first and last digit are not zero |
| Decimals.Candidates | deps/mariadb-connector-c-3.3/libmariadb/ma_dtoa.c:1788-1852 | the only decimals of a length that can lie in the interval are the digits so far and one more |
| Decimals.NoneOfLength | deps/mariadb-connector-c-3.3/libmariadb/ma_dtoa.c:1788-1852 | when neither of them does, no decimal of that length lies in the interval |
| Decimals.RoundsHalfEven | deps/mariadb-connector-c-3.3/libmariadb/ma_dtoa.c:1886-1890 | comparing twice the remainder with the divisor decides the half-even rounding |
| Framing.RoundTrip | deps/mariadb-connector-c-3.3/libmariadb/ma_net.c:186-207 | reading undoes writing for every payload, also at exact multiples of the largest frame, whatever follows; sequence numbers continue where the writer stopped |
| Framing.FramesSelfDelimiting | deps/mariadb-connector-c-3.3/libmariadb/ma_net.c:186-207 | two framed payloads that start the same bytes are the same payload: a reader never guesses |
| Framing.ConversationRoundTrip | deps/mariadb-connector-c-3.3/libmariadb/ma_net.c:186-207 | payloads written one after another are read back one after another |
| Framing.FramesLength | deps/mariadb-connector-c-3.3/libmariadb/ma_net.c:186-207 | framing costs four bytes per frame, with one frame more than full ones |
| Framing.Int3RoundTrip | deps/mariadb-connector-c-3.3/libmariadb/ma_net.c:408-408 | the three length bytes read back |
| Framing.Int3Digit | deps/mariadb-connector-c-3.3/libmariadb/ma_net.c:201-201 | the length bytes are its digits to the base of 256, the lowest first |
| Framing.HeaderSample | deps/mariadb-connector-c-3.3/libmariadb/ma_net.c:201-202 | a last frame of 515 bytes with number 260 starts with the bytes 3, 2, 0, 4 |
| ReadAhead.Pvio.constructor | deps/mariadb-connector-c-3.3/libmariadb/ma_pvio.c:126-130 | a new connection has an empty cache |
| ReadAhead.Pvio.CacheRead | deps/mariadb-connector-c-3.3/libmariadb/ma_pvio.c:275-312 | delivers the next pending bytes in order by any of its branches; nothing lost, repeated or reordered; delivers none only for an unreliable transport, an empty request or when there are none |
| ReadAhead.Pvio.Refill | deps/mariadb-connector-c-3.3/libmariadb/ma_pvio.c:297-310 | reading ahead keeps the bytes beyond the request pending |
| ReadAhead.MovedTwice | deps/mariadb-connector-c-3.3/libmariadb/ma_pvio.c:275-313 | two reads in a row deliver what one read of both lengths would |
| Nets.NewNet | deps/mariadb-connector-c-3.3/libmariadb/ma_net.c:81-111 | buffer of 8192 bytes, packet limit the larger of that and the allowed packet; fails without memory for the buffer or without extension |
| Nets.Net.RealWrite | deps/mariadb-connector-c-3.3/libmariadb/ma_net.c:299-360 | sends all bytes however the transport cuts them, or fails, only on an unreliable transport, with a beginning of them sent |
| Nets.Net.WriteBuff | deps/mariadb-connector-c-3.3/libmariadb/ma_net.c:249-293 | bytes sent then bytes buffered always are the bytes requested so far, in all branches, and the write position stays inside the buffer; fails only on a dead connection or an unreliable transport |
| Nets.Net.Flush | deps/mariadb-connector-c-3.3/libmariadb/ma_net.c:156-173 | sends what is buffered unless commands are pipelined; requested bytes are unchanged; fails only on a dead connection or an unreliable transport |
| Nets.Net.Write | deps/mariadb-connector-c-3.3/libmariadb/ma_net.c:186-207 | requests exactly the frames of the payload; fails only on a dead connection or an unreliable transport, and then a beginning of them is sent |
| Nets.Net.WriteCommand | deps/mariadb-connector-c-3.3/libmariadb/ma_net.c:209-246 | requests exactly the frames of command byte followed by arguments, and sends them unless told not to; fails only on a dead connection or an unreliable transport |
| Nets.Net.Realloc | deps/mariadb-connector-c-3.3/libmariadb/ma_net.c:120-143 | fails exactly from the packet limit on or without memory, and then changes nothing but the error; otherwise whole pages with room for the length and two headers, and what was read is kept |
| Nets.Net.ReadFully | deps/mariadb-connector-c-3.3/libmariadb/ma_net.c:382-393 | reads exactly the bytes asked for, however they arrive |
| Nets.Net.RealRead | deps/mariadb-connector-c-3.3/libmariadb/ma_net.c:367-429 | one frame: header, then exactly as many bytes as it says, at its place in the buffer; admitted exactly when it fits the buffer or stays below the packet limit with memory to grow, and how far the buffer grows; fails only on an unreliable transport, a short stream, or a frame not admitted |
| Nets.JoinNext | deps/mariadb-connector-c-3.3/libmariadb/ma_net.c:446-451 | a full frame and what the next read brings are joined behind what came before, in order |
| Nets.JoinEnd | deps/mariadb-connector-c-3.3/libmariadb/ma_net.c:452-458 | the frame that is not full completes exactly the payload; a failure means an unreliable transport, a short stream, or a frame not admitted |
| Nets.OnlyTooLong | deps/mariadb-connector-c-3.3/libmariadb/ma_net.c:120-143 | a payload is refused only when it reaches the packet limit or memory does not last for all of its frames |
| Nets.LimitOverrun | deps/mariadb-connector-c-3.3/libmariadb/ma_net.c:120-143 | a limit of 10000 refuses a payload of 11000, but admits it after one of 9999 has made the buffer grow to 12288 |
| Nets.Net.Read | deps/mariadb-connector-c-3.3/libmariadb/ma_net.c:431-459 | exactly the payload framed in the pending bytes, at the place where the buffer is used up to, the rest left pending, the next sequence number set; over a reliable transport it fails exactly for a short stream, for a frame that is not admitted by limit and memory, or for the length that means an error |
| Exchange.Converse | deps/mariadb-connector-c-3.3/libmariadb/ma_net.c:186-459 | one connection reads exactly the payloads that another one wrote, in order, however both transports cut the bytes; it fails only when the writer was dead before, a transport is unreliable, or a payload is too long for the reader or its memory |
| Adler32.NMaxIsLargest | deps/mariadb-connector-c-3.3/external/zlib/adler32.c:12-14 | the block length is the largest whose deferred sum fits in 32 bits |
| Adler32.WorstReached | deps/mariadb-connector-c-3.3/external/zlib/adler32.c:12-14 | the bound is reached, by a block of largest bytes |
| Adler32.DeferredReduces | deps/mariadb-connector-c-3.3/external/zlib/adler32.c:98-126 | reducing only at the end of a block gives the byte-by-byte checksum of section 2.2 of RFC 1950 |
| Adler32.DeferredBound | deps/mariadb-connector-c-3.3/external/zlib/adler32.c:98-126 | no deferred sum exceeds the bound |
| Adler32.Piecewise | deps/mariadb-connector-c-3.3/external/zlib/adler32.c:63-131 | checksumming piece by piece is checksumming the concatenation |
| Adler32.Mod28 | deps/mariadb-connector-c-3.3/external/zlib/adler32.c:33-37 | the division-free reduction is the remainder for all 28-bit numbers |
| Adler32.Mod | deps/mariadb-connector-c-3.3/external/zlib/adler32.c:38-42 | ... with one more step, for all 32-bit numbers |
| Adler32.Mod63 | deps/mariadb-connector-c-3.3/external/zlib/adler32.c:43-55 | ... and for all nonnegative 63-bit numbers |
| Adler32.Halves16 | deps/mariadb-connector-c-3.3/external/zlib/adler32.c:71-83 | the second sum is the high half of a checksum |
| Adler32.Samples | deps/mariadb-connector-c-3.3/external/zlib/adler32.c:63-131 | the checksum of no bytes is 1 and that of the letters abc is 0x024d0127 |
| Adler32.Adler32Z | deps/mariadb-connector-c-3.3/external/zlib/adler32.c:63-131 | equals the byte-by-byte checksum in all length branches with every sum within 32 bits; 1 without a buffer |
| Adler32.ConcatenationJoins | deps/mariadb-connector-c-3.3/external/zlib/adler32.c:143-169 | the sums of a concatenation satisfy the combining equations |
| Adler32.JoinsUnique | deps/mariadb-connector-c-3.3/external/zlib/adler32.c:143-169 | only one reduced pair of sums satisfies them |
| Adler32.Combine | deps/mariadb-connector-c-3.3/external/zlib/adler32.c:143-169 | the combined sums satisfy the combining equations for every length; a negative length gives the invalid checksum |
| Adler32.CombineParts | deps/mariadb-connector-c-3.3/external/zlib/adler32.c:143-169 | the checksums of two parts combine to the checksum of the whole |
| Sha1.F | deps/mariadb-connector-c-3.3/libmariadb/ma_sha1.c:46-46 | the cheaper form of the choice function of section 4.1.1 of FIPS 180-4 |
| Sha1.H | deps/mariadb-connector-c-3.3/libmariadb/ma_sha1.c:48-48 | the cheaper form of the majority function |
| Sha1.LineSum | deps/mariadb-connector-c-3.3/libmariadb/ma_sha1.c:62-66 | a line adds what section 6.1.2 of FIPS 180-4 calls the temporary word |
| Sha1.NextWord | deps/mariadb-connector-c-3.3/libmariadb/ma_sha1.c:57-58 | the 16-word circular schedule holds the word that the 80-word schedule defines, for every round |
| Sha1.Line | deps/mariadb-connector-c-3.3/libmariadb/ma_sha1.c:62-81 | one macro line with rotated arguments is one round of section 6.1.2 of FIPS 180-4 |
| Sha1.Transform | deps/mariadb-connector-c-3.3/libmariadb/ma_sha1.c:182-285 | eighty lines and the final additions are the compression function |
| Sha1.Context.Init | deps/mariadb-connector-c-3.3/libmariadb/ma_sha1.c:87-97 | a context for the empty message |
| Sha1.Context.Count | deps/mariadb-connector-c-3.3/libmariadb/ma_sha1.c:113-117 | the two 32-bit counters hold the number of bits modulo 2^64, carries included |
| Sha1.Context.Update | deps/mariadb-connector-c-3.3/libmariadb/ma_sha1.c:105-139 | continues as if the bytes had been part of the message all along, for every fill of the buffer |
| Sha1.Context.Final | deps/mariadb-connector-c-3.3/libmariadb/ma_sha1.c:146-176 | the digest of the whole message as sections 5.1.1 and 6.1.2 of FIPS 180-4 define it; the context is wiped |
| Sha1.PadIs | deps/mariadb-connector-c-3.3/libmariadb/ma_sha1.c:163-165 | padding to 56 modulo 64 is the padding of section 5.1.1 of FIPS 180-4 |
| Sha1.HashPieces | deps/mariadb-connector-c-3.3/libmariadb/ma_sha1.c:87-176 | however a message is cut into updates, the digest is that of the whole message |
| Sha1.Encode | deps/mariadb-connector-c-3.3/libmariadb/ma_sha1.c:292-302 | digest octets, most significant first |
| Sha1.Decode | deps/mariadb-connector-c-3.3/libmariadb/ma_sha1.c:309-316 | block words, most significant octet first |
| Sha1Standard.KIsRoot | deps/mariadb-connector-c-3.3/libmariadb/ma_sha1.c:62-81 | the constants of the four macros are the square roots of 2, 3, 5 and 10 with thirty binary places |
| Sha1Standard.InitialOctets | deps/mariadb-connector-c-3.3/libmariadb/ma_sha1.c:92-96 | the five initial words count up and down in hexadecimal digits |
| Sha1Standard.OctetOrder | deps/mariadb-connector-c-3.3/libmariadb/ma_sha1.c:292-316 | words and octets are converted into each other, most significant octet first |
| Sha1Standard.LengthOctet | deps/mariadb-connector-c-3.3/libmariadb/ma_sha1.c:152-159 | the length is appended in eight octets, the highest first |
| Arena.NeededIsEnough | deps/mariadb-connector-c-3.3/libmariadb/ma_alloc.c:67-88 | the 64-bit size computation holds header and request exactly for requests up to 2^64 - 32 |
| Arena.Moved | deps/mariadb-connector-c-3.3/libmariadb/ma_alloc.c:105-107 | moving a block between the lists keeps every block on exactly one of them |
| Arena.MemRoot.constructor | deps/mariadb-connector-c-3.3/libmariadb/ma_alloc.c:24-44 | an arena with one preallocated block exactly when one is asked for and there is memory, else an empty one; the block size less header and overhead, and the counters |
| Arena.MemRoot.Retire | deps/mariadb-connector-c-3.3/libmariadb/ma_alloc.c:105-107 | a block goes from the free list to the used list; nothing in it changes |
| Arena.MemRoot.GiveUpFirst | deps/mariadb-connector-c-3.3/libmariadb/ma_alloc.c:71-80 | the first block is given up exactly when it is too small, was so sixteen times, and has fewer than 4096 bytes left; it stays on exactly one list |
| Arena.MemRoot.Find | deps/mariadb-connector-c-3.3/libmariadb/ma_alloc.c:81-82 | the first block on the free list with enough room |
| Arena.MemRoot.AddBlock | deps/mariadb-connector-c-3.3/libmariadb/ma_alloc.c:85-101 | with memory a new block holds header and request and is at least as long as the number of blocks asks for, and joins the free list; without memory nothing changes |
| Arena.MemRoot.Carve | deps/mariadb-connector-c-3.3/libmariadb/ma_alloc.c:102-109 | the region cut off lies behind the header, aligned, in one block, and overlaps no other region |
| Arena.MemRoot.Alloc | deps/mariadb-connector-c-3.3/libmariadb/ma_alloc.c:46-112 | every region returned since the last free lies inside one live block, is aligned, and overlaps no other; it is cut from the first free block with room, or from a new block exactly when none has; nothing is returned exactly when none has and there is no memory |
| Arena.FirstRequest | deps/mariadb-connector-c-3.3/libmariadb/ma_alloc.c:24-112 | eight bytes from a new arena of block size 8192 are those behind the header of a block of 8168 bytes, exactly when there is memory |
| Arena.MemRoot.FreeList | deps/mariadb-connector-c-3.3/libmariadb/ma_alloc.c:125-136 | every block of a list except the kept one is freed, none twice |
| Arena.MemRoot.FreeRoot | deps/mariadb-connector-c-3.3/libmariadb/ma_alloc.c:116-144 | every live block is freed exactly once, apart from a kept first block, which is empty again |
| Energy.HolderSteps | main.cpp:218-235 | a step of the handler that holds the mutex keeps the record consistent; what the total gains the record loses |
| Energy.OtherSteps | main.cpp:214-217 | a step of any other handler only marks the record or takes a free mutex |
| Energy.StepKeeps | main.cpp:214-235 | every step of every handler keeps the invariant, including the constant sum |
| Energy.StepCredits | main.cpp:225-232 | every step keeps each user's total equal to what was paid to that user |
| Energy.Reachable | main.cpp:214-235 | both hold in every state of every interleaving of any number of handlers |
| Energy.Conservation | main.cpp:214-235 | user totals plus uncollected energy never change, except while a payment is half done |
| Energy.Payments | main.cpp:218-233 | another user is paid at most once and first, 30 percent; the owner at most once and last, all the rest; fully collected means nothing left; the modified mark covers every change |
| Energy.MutualExclusion | main.cpp:217-235 | no two handlers are in the critical section of one record |
| Energy.NoDeadlock | main.cpp:217-235 | while a request is unfinished some handler can move |
| Energy.OneMoves | main.cpp:214-235 | a step that changes anything takes exactly one handler nearer to its end |
| Energy.StepsBounded | main.cpp:214-235 | each handler gets on in at most eight steps, in every interleaving, and no other step changes anything |
| Energy.AllFinish | main.cpp:214-235 | a state in which no handler can change anything is exactly one in which every request is finished |
| Energy.StepServes | main.cpp:218-235 | every step keeps that handlers pay as the user they are, and leave the critical section only with what that user may get |
| Energy.FinishedIsServed | main.cpp:214-235 | in every state of every run, after a finished request of the owner the record is fully collected, and after one of another user somebody was paid or at most 3 are left |
| Energy.ServedForEver | main.cpp:214-235 | no later step of any handler undoes that |
| Energy.AllServed | main.cpp:214-235 | when no handler can change anything, a record that its owner asked for has paid out everything, 30 percent of it before to at most one other user; one of more than 3 that anybody asked for has been paid from |
| Energy.PaidOnlyOnRequest | main.cpp:214-235 | nobody is paid from a record without a request for it |
| ThirtyPercent.ThreeTenths | main.cpp:229-229 | the constant for 0.3 is the number of double precision nearest to it |
| ThirtyPercent.ShareIsWholePart | main.cpp:229-229 | the whole part of the rounded product with 0.3 in double precision is thirty percent rounded down, for every 32-bit energy |
| Energy.Flush | main.cpp:130-136 | writes exactly the rows of modified records |
| Energy.FlushReachable | main.cpp:130-136 | a flush in any reachable state leaves stored energies equal to memory |
| Energy.FlushedStatus | main.cpp:131-133 | the status written tells who was paid exactly when somebody was |
| Energy.MarkedButUntouched | main.cpp:215-223 | a run in which an untouched record is flushed as collected by another |
| DynCodec.UintRoundTrip | deps/mariadb-connector-c-3.3/libmariadb/mariadb_dyncol.c:830-865 | storing and reading an unsigned integer is the identity |
| DynCodec.UintBytes | deps/mariadb-connector-c-3.3/libmariadb/mariadb_dyncol.c:811-818 | the planned length is the number of bytes stored |
| DynCodec.UintStore | deps/mariadb-connector-c-3.3/libmariadb/mariadb_dyncol.c:830-839 | appends the minimal little-endian bytes, none for zero |
| DynCodec.UintRead | deps/mariadb-connector-c-3.3/libmariadb/mariadb_dyncol.c:852-864 | reads the number the bytes denote |
| DynCodec.UintDigit | deps/mariadb-connector-c-3.3/libmariadb/mariadb_dyncol.c:830-839 | byte k is digit k to the base of 256 |
| DynCodec.ZigZagInverse | deps/mariadb-connector-c-3.3/libmariadb/mariadb_dyncol.c:880-927 | the zig-zag coding is undone by its reverse, both ways, so it is a bijection; `ZigZagIs` says which |
| DynCodec.ZigZagIs | deps/mariadb-connector-c-3.3/libmariadb/mariadb_dyncol.c:880-927 | nonnegative numbers are coded as their doubles and negative ones as one less than their doubled sizes, so codes grow with the size |
| DynCodec.SignedLength | deps/mariadb-connector-c-3.3/libmariadb/mariadb_dyncol.c:873-901 | a signed number takes at most n bytes exactly when it lies between -2^(8n-1) and 2^(8n-1) |
| DynCodec.VarUintRoundTrip | deps/mariadb-connector-c-3.3/libmariadb/mariadb_dyncol.c:750-800 | storing and reading a 7-bit group number is the identity, whatever follows it |
| DynCodec.VarUintBytes | deps/mariadb-connector-c-3.3/libmariadb/mariadb_dyncol.c:724-734 | the planned length is the number of bytes stored |
| DynCodec.VarUintGet | deps/mariadb-connector-c-3.3/libmariadb/mariadb_dyncol.c:778-800 | the number and length of the groups; length 0 when they do not end |
| DynCodec.VarUintDigit | deps/mariadb-connector-c-3.3/libmariadb/mariadb_dyncol.c:750-765 | group k is digit k to the base of 128, with the high bit in all groups but the last |
| DynCodec.VarUintLength | deps/mariadb-connector-c-3.3/libmariadb/mariadb_dyncol.c:724-734 | at most n groups exactly for numbers below 128^n |
| DynValues.DateRoundTrip | deps/mariadb-connector-c-3.3/libmariadb/mariadb_dyncol.c:1466-1555 | a date is read back from its three bytes |
| DynValues.TimeRoundTrip | deps/mariadb-connector-c-3.3/libmariadb/mariadb_dyncol.c:1322-1455 | a time is read back from its six or three bytes |
| DynValues.DateBits | deps/mariadb-connector-c-3.3/libmariadb/mariadb_dyncol.c:1481-1489 | day, month and year lie at bits 0, 5 and 9 of a stored date |
| DynValues.TimeBits | deps/mariadb-connector-c-3.3/libmariadb/mariadb_dyncol.c:1347-1372 | where microseconds, seconds, minutes, hours and sign lie in a stored time, in the long and the short form |
| DynValues.ValueLen | deps/mariadb-connector-c-3.3/libmariadb/mariadb_dyncol.c:941-1013 | the planned length is the length stored, and three bytes more exactly for times of another kind with a fraction |
| DynValues.PlannedTooLong | deps/mariadb-connector-c-3.3/libmariadb/mariadb_dyncol.c:991-996 | a date with a fraction in a date-time column: nine bytes are planned and six stored |
| DynValues.DataStore | deps/mariadb-connector-c-3.3/libmariadb/mariadb_dyncol.c:1567-1603 | appends the bytes of the value |
| DynValues.GetValue | deps/mariadb-connector-c-3.3/libmariadb/mariadb_dyncol.c:2262-2306 | the value the bytes denote for their type, with the format and character set errors |
| DynValues.KeptIffMatching | deps/mariadb-connector-c-3.3/libmariadb/mariadb_dyncol.c:1322-1555 | storing keeps exactly the values whose time kind matches the column and that have no other parts |
| DynValues.ValueRoundTrip | deps/mariadb-connector-c-3.3/libmariadb/mariadb_dyncol.c:1567-1603 | reading what was stored gives back what storing keeps, for every type and both formats |
| DynFormat.CmpOrder | deps/mariadb-connector-c-3.3/libmariadb/mariadb_dyncol.c:232-254 | the key comparison is a total order in which only equal keys compare equal |
| DynFormat.CmpMeans | deps/mariadb-connector-c-3.3/libmariadb/mariadb_dyncol.c:232-254 | numbers by size; names by length first and then by the first byte that differs |
| DynFormat.OffsetFits | deps/mariadb-connector-c-3.3/libmariadb/mariadb_dyncol.c:480-505 | the chosen offset size is the smallest that holds every offset of the data |
| DynFormat.OffsetBits | deps/mariadb-connector-c-3.3/libmariadb/mariadb_dyncol.c:330-360 | with the type below it, the largest offset and the reserved one above fill the bytes of the field exactly |
| DynFormat.TypeOffsetRoundTrip | deps/mariadb-connector-c-3.3/libmariadb/mariadb_dyncol.c:330-410 | type and offset are read back together; the reserved offsets are refused |
| DynRecord.PackedLayout | deps/mariadb-connector-c-3.3/libmariadb/mariadb_dyncol.c:672-687 | a record is taken apart into the entries, names and data it was made of |
| DynRecord.PlainValid | deps/mariadb-connector-c-3.3/libmariadb/mariadb_dyncol.c:1787-1793 | every offset size from the smallest that fits the data up to the limit gives a valid record |
| DynFind.EntryRead | deps/mariadb-connector-c-3.3/libmariadb/mariadb_dyncol.c:517-586 | an entry says number or name offset, type and data offset of its column |
| DynFind.NameRead | deps/mariadb-connector-c-3.3/libmariadb/mariadb_dyncol.c:2038-2057 | name and comparison of an entry are those of its column |
| DynFind.FindNum | deps/mariadb-connector-c-3.3/libmariadb/mariadb_dyncol.c:2016-2024 | finds the key modulo 2^16, or reports it absent |
| DynFind.FindNamed | deps/mariadb-connector-c-3.3/libmariadb/mariadb_dyncol.c:2068-2094 | the binary search over byte positions finds the name or reports it absent |
| DynFind.MiddleEntry | deps/mariadb-connector-c-3.3/libmariadb/mariadb_dyncol.c:2079-2081 | halving byte positions halves entry numbers |
| DynFind.FindColumn | deps/mariadb-connector-c-3.3/libmariadb/mariadb_dyncol.c:2128-2178 | exactly what the entry of the key states, bad lengths and offsets included; missing exactly when there is no such entry |
| DynFind.Get | deps/mariadb-connector-c-3.3/libmariadb/mariadb_dyncol.c:2319-2345 | the value of the key in the map that lookups see; NULL without error when there is no entry or the entry states nothing readable |
| DynFind.SeenStraight | deps/mariadb-connector-c-3.3/libmariadb/mariadb_dyncol.c:2128-2178 | when every entry states the real offset, lookups see exactly the columns |
| DynFind.CutNumbers | deps/mariadb-connector-c-3.3/libmariadb/mariadb_dyncol.c:2016-2024 | looking up a number is right exactly when it fits in 16 bits or its remainder is no column |
| DynFind.WrongNumber | deps/mariadb-connector-c-3.3/libmariadb/mariadb_dyncol.c:2016-2024 | a record with column 1 only: looking up 65537 finds it |
| DynBuild.Builder.PutEntry | deps/mariadb-connector-c-3.3/libmariadb/mariadb_dyncol.c:422-468 | the next planned entry and name are written at their places and fit the space reserved for them |
| DynBuild.Builder.Finish | deps/mariadb-connector-c-3.3/libmariadb/mariadb_dyncol.c:293-317 | what was written is the packed record of the planned columns |
| DynCreate.CalcVarSizes | deps/mariadb-connector-c-3.3/libmariadb/mariadb_dyncol.c:1764-1799 | the planned sizes summed in argument order, for all values; too much data is refused |
| DynCreate.TotalPermuted | deps/mariadb-connector-c-3.3/libmariadb/mariadb_dyncol.c:1764-1799 | the sums do not depend on the order of the keys |
| DynCreate.CheckKeys | deps/mariadb-connector-c-3.3/libmariadb/mariadb_dyncol.c:1705-1718 | comparing neighbours refuses exactly lists with a long or a repeated key |
| DynCreate.PlannedEnough | deps/mariadb-connector-c-3.3/libmariadb/mariadb_dyncol.c:1764-1799 | the data planned is never less than the data stored |
| DynCreate.Create | deps/mariadb-connector-c-3.3/libmariadb/mariadb_dyncol.c:1639-1799 | the record of the non-NULL values sorted by key, with offsets of the size that the plan needs, and exactly when and why it is refused: too much data before the bytes are touched, keys after the header is cleared |
| DynCreate.CreatedValues | deps/mariadb-connector-c-3.3/libmariadb/mariadb_dyncol.c:1639-1799 | in a created record every key has what storing keeps of its value, NULL for NULL, and every other key NULL |
| DynCreate.CreateAndGet | deps/mariadb-connector-c-3.3/libmariadb/mariadb_dyncol.c:1639-2345 | creating a record succeeds exactly within the data limit and for distinct keys that are not too long, and then looking up any key returns the stored value, or NULL when it was absent or NULL, in both formats |
| DynSamples.CreateMinusOne | deps/mariadb-connector-c-3.3/libmariadb/mariadb_dyncol.c:1639-1799 | creating the numeric record of column 1 with the signed value -1 gives the bytes 00 01 00 01 00 00 01 |
| DynSamples.TwoNames | deps/mariadb-connector-c-3.3/libmariadb/mariadb_dyncol.c:1639-1799 | the bytes of a named record with two columns, an unsigned number and a text |
| DynSamples.TypeNumbers | deps/mariadb-connector-c-3.3/include/mariadb_dyncol.h:93-107 | the type numbers of all kinds of values |
| DynMerge.OutSorted | deps/mariadb-connector-c-3.3/libmariadb/mariadb_dyncol.c:2726-2878 | merging changes into sorted columns gives sorted columns |
| DynMerge.MergedOverrides | deps/mariadb-connector-c-3.3/libmariadb/mariadb_dyncol.c:2726-2878 | merging is overriding the finite map: new values replace or add, NULL deletes, all other columns keep their bytes |
| DynMerge.OutSizes | deps/mariadb-connector-c-3.3/libmariadb/mariadb_dyncol.c:3434-3540 | the planned changes of counts, data and name sizes are those of the merged columns |
| DynUpdate.FindPlace | deps/mariadb-connector-c-3.3/libmariadb/mariadb_dyncol.c:2588-2661 | the place of a key among the entries, and whether it is there |
| DynUpdate.PlanOne | deps/mariadb-connector-c-3.3/libmariadb/mariadb_dyncol.c:3438-3530 | action, place and planned size changes of one key, for all values |
| DynUpdate.MakePlan | deps/mariadb-connector-c-3.3/libmariadb/mariadb_dyncol.c:3422-3531 | the plan of all keys in order; repeated keys are refused |
| DynUpdate.Moved | deps/mariadb-connector-c-3.3/libmariadb/mariadb_dyncol.c:2832-2832 | data of a kept column has moved by the changes planned before it |
| DynUpdate.CopyOld | deps/mariadb-connector-c-3.3/libmariadb/mariadb_dyncol.c:2789-2857 | kept columns get offsets moved as planned, right or wrong, and their bytes are copied unchanged |
| DynOffsets.HarmlessExact | deps/mariadb-connector-c-3.3/libmariadb/mariadb_dyncol.c:2832-2832 | when no column that stays comes after a value planned too long, every moved offset is right |
| DynOffsets.HarmShows | deps/mariadb-connector-c-3.3/libmariadb/mariadb_dyncol.c:2832-2832 | otherwise some column that stays gets a wrong offset |
| DynOffsets.WrongLength | deps/mariadb-connector-c-3.3/libmariadb/mariadb_dyncol.c:1973-1993 | the last wrong offset gives its column a wrong length |
| DynOffsets.UpdatedOverrides | deps/mariadb-connector-c-3.3/libmariadb/mariadb_dyncol.c:2726-2878 | lookups of the updated record see the old map overridden by the changes if and only if no column that stays comes after a value planned too long |
| DynOffsets.LosesColumn | deps/mariadb-connector-c-3.3/libmariadb/mariadb_dyncol.c:3489-3518 | an update that loses a column it does not touch: b holds an unsigned 5, and a date with a fraction is added as the date-time column a |
| DynUpdate.UpdateCopy | deps/mariadb-connector-c-3.3/libmariadb/mariadb_dyncol.c:2726-2878 | the new record has the merged columns, their bytes, and offsets moved as planned |
| DynUpdate.Update | deps/mariadb-connector-c-3.3/libmariadb/mariadb_dyncol.c:3330-3625 | updating by plan and copy, for all values: exactly which updates are refused and with what answer; what lookups see is the old map overridden by the changes if and only if no column that stays comes after a value planned too long; the result is sorted again; a refusal leaves the record unchanged, except that repeated keys leave a zero header where there were no columns |
| DynSession.OneAnswer | deps/mariadb-connector-c-3.3/libmariadb/mariadb_dyncol.c:1639-3625 | a run has one answer, which is success exactly when every call in turn is neither refused for its keys nor too large for the columns before it |
| DynSession.Session | deps/mariadb-connector-c-3.3/libmariadb/mariadb_dyncol.c:1639-3625 | create, any number of harmless updates and a lookup: the run stops at the first call that is refused; otherwise the key gives the value it got last, or NULL |

## Left out

- ma_hashtbl_update, ma_hashtbl_free, callbacks for freed records, and the hash functions themselves.
- dtoa outside the digit loops and the scaling of the divisor: the logarithm estimate, the quick paths for small numbers, special values, the modes that ask for no digit, and the layout of ma_fcvt and ma_gcvt.
- Other rounding modes of dtoa (they are compiled out), the free lists of big integers and the fallback to malloc, and the 32-bit widths of limb counts and shift amounts.
- The precomputed powers of five are copied into fresh numbers where the source points into its table.
- Bigints.Diff: a zero without limbs does not meet another zero, where the source reads outside the numbers.
- Bigints.LShift: asks for at least one limb, as its callers have; with none the source may write behind the number.
- DigitLoop.LeftRight: takes the scaled numbers as given; how the value and its neighbours are scaled by powers of two and five before the loop is not part of the model.
- The compressed protocol, timeouts, TLS, plugins, callbacks and asynchronous reads of the connection.
- Sha1.Context.Update: inputs up to 2^32 - 64 bytes, since the block index is a 32-bit number.
- Adler32.Adler32Z: start values whose halves are below 65521, as every checksum's are.
- Adler32.Combine: the same for both checksums.
- Arena.MemRoot.constructor: sizes of the first block that do not wrap at 64 bits together with its header.
- Arena.MemRoot.Alloc: requests up to 2^64 - 32 bytes, where the size computation is right; the variant for memory checkers and the error handler are not modelled.
- Sockets, epoll, HTTP parsing, SQL, sleeps and request counters of main.cpp, and unsynchronised access to single fields, which is taken as atomic.
- Energy.FlushReachable: the flush runs while no handler takes a step; what handlers change during a flush is not covered.
- Dynamic columns: the in-place update, conversion of numeric records to named ones, keys of the other kind, the consistency check, listing, decimals, JSON, character set conversion, and memory running out.
- DynCodec.VarUintGet: does not model numbers of more than nine groups, where the source shifts bits out of a 64-bit word or past it; no stored number has so many.
- DynCodec.UintRead: at most eight bytes, as stored integers have; the source shifts more of them past the word.
- DynValues.GetValue: the same for integer columns.
- DynFind.FindColumn: keys of the record's own kind only; the source also converts numbers to names and back.
- DynFind.Get: asks that the entry read lies inside the record, or that all entries do; the source does not check this for damaged records.
- DynCreate.Create: at most 65535 columns and name bytes, and no nested record in the numeric format, as the source asserts or assumes.
- DynUpdate.PlanOne: the record before has right offsets and the key its format, as for the whole update.
- DynUpdate.MakePlan: the same.
- DynUpdate.CopyOld: the same.
- DynUpdate.UpdateCopy: the same.
- DynUpdate.Update: the record before is empty or one whose offsets are right, of the same format; error returns for damaged records are in the code but cannot be reached.
- Everything else in the repository: configuration files, character set tables, error messages, the statement and query layers, plugins, and the rest of zlib.
