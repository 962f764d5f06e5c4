# Sketch preamble codec, sparse coupon list and 6-bit HLL registers

A Dafny model of three bit-level pieces of the DataSketches Java library,
with proofs of the properties their code relies on.

- **Theta preamble codec** (`theta_preamble.dfy`, module `ThetaPreamble`).
  The `extract*` and `insert*` functions read and write the fields of the
  first two 64-bit preamble words of a Theta sketch. The words are modelled
  as `bv64` and the Java `int` arguments as `bv32`. An `int` argument is
  sign-extended to `long` before it is masked, as in Java. Also modelled:
  the two memory-size formulas `getReqMemBytesFull` and `getMemBytes`, in
  Java 32-bit `int` arithmetic (shift distance modulo 32, wrap-around).
- **Direct coupon list** (`direct_coupon_list.dfy`, module
  `DirectCouponList`). The LIST mode of a memory-backed HLL sketch. The
  memory image is a record of header fields plus the coupon array, with
  coupons as the unsigned view of a Java `int`. Modelled:
  - `newInstance`;
  - `couponUpdate`: linear scan, duplicate rejection, count and empty-flag
    maintenance, the read-only and invalid-state errors;
  - `getCouponCount`;
  - both promotions. The new hash set and the new HLL array are sinks that
    record the header written for them and the coupons replayed into them.
- **6-bit HLL register array** (`hll6_array.dfy`, module `Hll6Array`).
  Registers are packed six bits each into a `seq<bv8>`. Each is read and
  written through a little-endian 16-bit window, as `Memory.getShort` and
  `putShort` do. Modelled:
  - `get6Bit` and `put6Bit`;
  - the monotone slot updates and the `numAtCurMin` zero count;
  - coupon decoding and `couponUpdate`;
  - `mergeTo`, with the target sketch as the coupons it receives, or as a
    second array that replays them;
  - the register iterator.
- `common.dfy` (module `Common`) holds powers of two and Java `int`
  arithmetic: `Wrap32`, `ShlInt`, `AddInt`.

Main results:
- every insert changes exactly its own decoded field;
- the long-0 and long-1 codecs are mutually inverse, and inserts into any
  two distinct fields commute;
- the list invariant survives every update, the invalid-state error cannot
  happen under it, and the promotion target is chosen as the code says;
- register get-after-put and frame;
- the register updates keep `numAtCurMin` equal to the number of zero
  registers;
- `mergeTo` emits exactly the non-zero registers, and replaying them into a
  sketch of the same size takes the register-wise maximum.

## Model

| member | source | states |
|---|---|---|
| ThetaPreamble.InsertPreLongs | src/main/java/com/yahoo/sketches/theta/PreambleUtil.java:308-311 | extractPreLongs of the result is the argument's low six bits; every bit outside the 0x3F mask is unchanged |
| ThetaPreamble.InsertResizeFactor | src/main/java/com/yahoo/sketches/theta/PreambleUtil.java:313-317 | extractResizeFactor of the result is the argument's low two bits; every bit outside bits 6-7 is unchanged |
| ThetaPreamble.InsertSerVer | src/main/java/com/yahoo/sketches/theta/PreambleUtil.java:319-323 | extractSerVer of the result is the argument's low byte; every bit outside byte 1 is unchanged |
| ThetaPreamble.InsertFamilyId | src/main/java/com/yahoo/sketches/theta/PreambleUtil.java:325-329 | extractFamilyID of the result is the argument's low byte; every bit outside byte 2 is unchanged |
| ThetaPreamble.InsertLgNomLongs | src/main/java/com/yahoo/sketches/theta/PreambleUtil.java:331-335 | extractLgNomLongs of the result is the argument's low byte; every bit outside byte 3 is unchanged |
| ThetaPreamble.InsertLgArrLongs | src/main/java/com/yahoo/sketches/theta/PreambleUtil.java:337-341 | extractLgArrLongs of the result is the argument's low byte; every bit outside byte 4 is unchanged |
| ThetaPreamble.InsertFlags | src/main/java/com/yahoo/sketches/theta/PreambleUtil.java:343-347 | extractFlags of the result is the argument's low byte; every bit outside byte 5 is unchanged |
| ThetaPreamble.InsertSeedHash | src/main/java/com/yahoo/sketches/theta/PreambleUtil.java:349-353 | extractSeedHash of the result is the argument's low 16 bits; every bit outside bytes 6-7 is unchanged |
| ThetaPreamble.InsertCurCount | src/main/java/com/yahoo/sketches/theta/PreambleUtil.java:355-358 | extractCurCount of the result is the argument; the high 32 bits of long 1 are unchanged |
| ThetaPreamble.InsertPBits | src/main/java/com/yahoo/sketches/theta/PreambleUtil.java:360-364 | the raw p bits read back are the argument; the low 32 bits of long 1 are unchanged |
| ThetaPreamble.ExtractPreLongs | src/main/java/com/yahoo/sketches/theta/PreambleUtil.java:245-248 | preLongs is at most 63 and is exactly bits 0-5 of the word |
| ThetaPreamble.ExtractResizeFactor | src/main/java/com/yahoo/sketches/theta/PreambleUtil.java:250-254 | the resize factor is at most 3 and is exactly bits 6-7 of the word, moved down to bit 0 |
| ThetaPreamble.ExtractSerVer | src/main/java/com/yahoo/sketches/theta/PreambleUtil.java:256-260 | serVer is at most 255 and is exactly byte 1 of the word, moved down to bit 0 |
| ThetaPreamble.ExtractFamilyId | src/main/java/com/yahoo/sketches/theta/PreambleUtil.java:262-266 | the family id is at most 255 and is exactly byte 2 of the word, moved down to bit 0 |
| ThetaPreamble.ExtractLgNomLongs | src/main/java/com/yahoo/sketches/theta/PreambleUtil.java:268-272 | lgNomLongs is at most 255 and is exactly byte 3 of the word, moved down to bit 0 |
| ThetaPreamble.ExtractLgArrLongs | src/main/java/com/yahoo/sketches/theta/PreambleUtil.java:274-278 | lgArrLongs is at most 255 and is exactly byte 4 of the word, moved down to bit 0 |
| ThetaPreamble.ExtractFlags | src/main/java/com/yahoo/sketches/theta/PreambleUtil.java:280-284 | the flags are at most 255 and are exactly byte 5 of the word, moved down to bit 0 |
| ThetaPreamble.ExtractFlagsV1 | src/main/java/com/yahoo/sketches/theta/PreambleUtil.java:286-290 | the version-1 flags are at most 255 and are exactly byte 6 of the word, moved down to bit 0 |
| ThetaPreamble.ExtractSeedHash | src/main/java/com/yahoo/sketches/theta/PreambleUtil.java:292-296 | the seed hash is always in [0, 65535] and is bytes 6-7 of the word |
| ThetaPreamble.ExtractCurCount | src/main/java/com/yahoo/sketches/theta/PreambleUtil.java:298-301 | the count is the low 32 bits of long 1, bit pattern kept |
| ThetaPreamble.ExtractPBits | src/main/java/com/yahoo/sketches/theta/PreambleUtil.java:303-306 | the raw p bits are the high 32 bits of long 1, moved down to bit 0 |
| ThetaPreamble.Decode0 | src/main/java/com/yahoo/sketches/theta/PreambleUtil.java:245-296 | every field read from long 0 fits its width: preLongs in 6 bits, resize factor in 2, the byte fields in 8, the seed hash in 16 |
| ThetaPreamble.InsertPreLongsDecode | src/main/java/com/yahoo/sketches/theta/PreambleUtil.java:308-311 | inserting preLongs changes the decoded preLongs to its low six bits and leaves the other seven fields of long 0, resize factor included, as they were |
| ThetaPreamble.InsertResizeFactorDecode | src/main/java/com/yahoo/sketches/theta/PreambleUtil.java:313-317 | inserting the resize factor changes only that decoded field, to its low two bits; preLongs in the same byte is kept |
| ThetaPreamble.InsertSerVerDecode | src/main/java/com/yahoo/sketches/theta/PreambleUtil.java:319-323 | inserting serVer changes only that decoded field, to its low byte |
| ThetaPreamble.InsertFamilyIdDecode | src/main/java/com/yahoo/sketches/theta/PreambleUtil.java:325-329 | inserting the family id changes only that decoded field, to its low byte |
| ThetaPreamble.InsertLgNomLongsDecode | src/main/java/com/yahoo/sketches/theta/PreambleUtil.java:331-335 | inserting lgNomLongs changes only that decoded field, to its low byte |
| ThetaPreamble.InsertLgArrLongsDecode | src/main/java/com/yahoo/sketches/theta/PreambleUtil.java:337-341 | inserting lgArrLongs changes only that decoded field, to its low byte |
| ThetaPreamble.InsertFlagsDecode | src/main/java/com/yahoo/sketches/theta/PreambleUtil.java:343-347 | inserting the flags changes only that decoded field, to its low byte |
| ThetaPreamble.InsertSeedHashDecode | src/main/java/com/yahoo/sketches/theta/PreambleUtil.java:349-353 | inserting the seed hash changes only that decoded field, to its low 16 bits |
| ThetaPreamble.InsertCurCountDecode | src/main/java/com/yahoo/sketches/theta/PreambleUtil.java:355-358 | inserting the count changes the decoded count and keeps the decoded p bits |
| ThetaPreamble.InsertPBitsDecode | src/main/java/com/yahoo/sketches/theta/PreambleUtil.java:360-364 | inserting p changes the decoded p bits and keeps the decoded count |
| ThetaPreamble.Insert0Decode | src/main/java/com/yahoo/sketches/theta/PreambleUtil.java:308-353 | for any field of long 0, insert-then-decode sets that field to the truncated value and returns every other field's old value |
| ThetaPreamble.InsertsCommute | src/main/java/com/yahoo/sketches/theta/PreambleUtil.java:308-353 | inserts into any two distinct fields of long 0 commute |
| ThetaPreamble.CurCountPBitsCommute | src/main/java/com/yahoo/sketches/theta/PreambleUtil.java:355-364 | inserting the count and inserting p into long 1 commute |
| ThetaPreamble.DecodeInjective0 | src/main/java/com/yahoo/sketches/theta/PreambleUtil.java:245-296 | two longs with the same eight decoded fields are equal: the fields of long 0 cover all 64 bits |
| ThetaPreamble.DecodeInjective1 | src/main/java/com/yahoo/sketches/theta/PreambleUtil.java:298-306 | two longs with the same count and p bits are equal |
| ThetaPreamble.Encode0Decodes | src/main/java/com/yahoo/sketches/theta/PreambleUtil.java:245-353 | writing the eight fields of an in-range header into a zero word and reading them back gives the header |
| ThetaPreamble.Long0RoundTrip | src/main/java/com/yahoo/sketches/theta/PreambleUtil.java:245-353 | re-encoding the decoded fields of long 0 gives the word back; decoding an encoded in-range header gives the header back |
| ThetaPreamble.Long1RoundTrip | src/main/java/com/yahoo/sketches/theta/PreambleUtil.java:298-364 | the same round trip in both directions for long 1 |
| ThetaPreamble.FlagsV1InSeedHash | src/main/java/com/yahoo/sketches/theta/PreambleUtil.java:286-296 | the serialization-version-1 flags byte is the low byte of the seed hash, so the two fields overlap |
| ThetaPreamble.ReqMemBytesFull | src/main/java/com/yahoo/sketches/theta/PreambleUtil.java:93-95 | for lgNom below 32 and no Java int overflow, the bytes needed for a full sketch are 16·2^lgNom + 8·preLongs |
| ThetaPreamble.MemBytes | src/main/java/com/yahoo/sketches/theta/PreambleUtil.java:97-99 | for lgArr below 32 and no Java int overflow, the bytes of a sketch image are 8·2^lgArr + 8·preLongs |
| ThetaPreamble.ReqMemIsMemOfDoubleTable | src/main/java/com/yahoo/sketches/theta/PreambleUtil.java:93-99 | getReqMemBytesFull(lgNom, pre) equals getMemBytes(lgNom + 1, pre) in Java int arithmetic, overflow included, for lgNom ≤ 30 |
| DirectCouponList.NewInstance | src/main/java/com/yahoo/sketches/hll/DirectCouponList.java:80-94 | the header is LIST mode, LIST preamble ints, the HLL serial version and family id, lgArr = LG_INIT_LIST_SIZE, flags = EMPTY only, count 0, with the given lgConfigK and target type; the image is writable and its array has 2^lgArr cells |
| DirectCouponList.NewInstanceInv | src/main/java/com/yahoo/sketches/hll/DirectCouponList.java:80-94 | a new instance satisfies the list invariant exactly when its coupon region is all EMPTY |
| DirectCouponList.CouponCountIsDistinctCoupons | src/main/java/com/yahoo/sketches/hll/DirectCouponList.java:141-143 | under the list invariant the count getCouponCount returns is both the number of distinct coupons held and the number of non-EMPTY cells |
| DirectCouponList.Scan | src/main/java/com/yahoo/sketches/hll/DirectCouponList.java:111-129 | the scan stops at the first cell that is EMPTY or equal to the coupon, preferring EMPTY, and falls through exactly when no cell is either |
| DirectCouponList.StoreAt | src/main/java/com/yahoo/sketches/hll/DirectCouponList.java:114-117 | storing writes the coupon into that one cell and leaves every other cell; into an EMPTY cell it adds exactly that coupon to the live set; the count goes up by one as a byte, 255 wrapping to 0; the empty flag is cleared and every other flag and every other header field is kept |
| DirectCouponList.CouponUpdate | src/main/java/com/yahoo/sketches/hll/DirectCouponList.java:108-131 | a read-only image fails with no-write-access and only then; the invalid-state error happens exactly when no cell is EMPTY or equal to the coupon; otherwise the sketch holds the coupon afterwards |
| DirectCouponList.OccupancyIff | src/main/java/com/yahoo/sketches/hll/DirectCouponList.java:111-129 | "exactly the first n cells are occupied" holds if and only if the occupied cells form a prefix and n is their number |
| DirectCouponList.DuplicateIsNoOp | src/main/java/com/yahoo/sketches/hll/DirectCouponList.java:126-127 | a coupon already held leaves the image (array, count and flags) unchanged |
| DirectCouponList.NewCouponIsAppended | src/main/java/com/yahoo/sketches/hll/DirectCouponList.java:113-125 | a new coupon goes into the first EMPTY cell (cell count), the count goes up by one, the empty flag is cleared, no other cell changes, and the list stays a list unless the array became full |
| DirectCouponList.UpdatePreservesInv | src/main/java/com/yahoo/sketches/hll/DirectCouponList.java:108-131 | an update that leaves the sketch in LIST mode keeps the invariant: occupied cells form a prefix, are pairwise distinct and number the count; the list is never full; the empty flag is set exactly when the count is zero |
| DirectCouponList.InvalidStateUnreachable | src/main/java/com/yahoo/sketches/hll/DirectCouponList.java:130 | under the list invariant the invalid-state exception is never thrown |
| DirectCouponList.PromotionChoice | src/main/java/com/yahoo/sketches/hll/DirectCouponList.java:118-123 | an update promotes exactly when it stores a new coupon in the last free cell; the target is an HLL array when lgConfigK < 8 and a SET otherwise |
| DirectCouponList.PromotionReplaysAll | src/main/java/com/yahoo/sketches/hll/DirectCouponList.java:108-131 | the promotion triggered by an update replays the old coupons in cell order followed by the new one |
| DirectCouponList.UpdateIdempotent | src/main/java/com/yahoo/sketches/hll/DirectCouponList.java:108-131 | repeating an update that kept the list a list changes nothing |
| DirectCouponList.PromoteListToSet | src/main/java/com/yahoo/sketches/hll/DirectCouponList.java:189-226 | the SET header has HASH_SET preamble ints, lgArr = LG_INIT_SET_SIZE, flags = out-of-order only, curMin 0 and SET mode; serVer, family, lgConfigK and target type are kept; exactly the non-EMPTY coupons are replayed |
| DirectCouponList.PromoteListOrSetToHll | src/main/java/com/yahoo/sketches/hll/DirectCouponList.java:228-277 | the HLL header has HLL preamble ints, lgArr 0, no flags, curMin 0 and HLL mode; numAtCurMin and KxQ0 are 2^lgConfigK and KxQ1 is cleared; exactly the non-EMPTY coupons are replayed |
| DirectCouponList.ReplayLoop | src/main/java/com/yahoo/sketches/hll/DirectCouponList.java:219-224 | the loop form of Live, which both promotions replay: it feeds the target the non-EMPTY coupons of the buffer, in cell order |
| Hll6Array.ShiftAt | src/main/java/org/apache/datasketches/hll/Hll6Array.java:136-137 | the in-window shift of a register is 0, 2, 4 or 6, so its six bits lie inside the 16-bit window |
| Hll6Array.ShiftIsBitInByte | src/main/java/org/apache/datasketches/hll/Hll6Array.java:136-137 | the in-window shift is the register start bit modulo 8, i.e. `startBit & 7` |
| Hll6Array.PutWindow | src/main/java/org/apache/datasketches/hll/Hll6Array.java:139-141 | after masking out and or-ing in, the window's six bits at the shift read back as the value inserted, and every window bit outside those six is unchanged |
| Hll6Array.Get6Bit | src/main/java/org/apache/datasketches/hll/Hll6Array.java:146-151 | a register read is in [0, 63] |
| Hll6Array.Put6Bit | src/main/java/org/apache/datasketches/hll/Hll6Array.java:134-143 | get-after-put: the register reads back the low six bits of newValue (newValue mod 64); the array length is kept and only the two window bytes can change |
| Hll6Array.Put6BitFrame | src/main/java/org/apache/datasketches/hll/Hll6Array.java:134-143 | writing one register leaves every other register's read unchanged, including registers sharing a window byte |
| Hll6Array.RegistersAfterPut | src/main/java/org/apache/datasketches/hll/Hll6Array.java:134-151 | on the decoded register sequence a put is a single-position update to the value modulo 64 |
| Hll6Array.SlotValue | src/main/java/org/apache/datasketches/hll/Hll6Array.java:84-86 | a slot value is in [0, 63] |
| Hll6Array.UpdateSlotNoKxQ | src/main/java/org/apache/datasketches/hll/Hll6Array.java:111-117 | nothing is written unless the new value is larger; for values below 64 the register ends at the maximum of old and new |
| Hll6Array.UpdateSlotNoKxQRegisters | src/main/java/org/apache/datasketches/hll/Hll6Array.java:111-117 | for values below 64 the addressed register ends at the maximum of old and new and every other register is unchanged |
| Hll6Array.UpdateSlotWithKxQ | src/main/java/org/apache/datasketches/hll/Hll6Array.java:120-131 | as above, and numAtCurMin goes down by one exactly when a zero register receives a positive value, and otherwise stays |
| Hll6Array.UpdateSlotRegisters | src/main/java/org/apache/datasketches/hll/Hll6Array.java:120-131 | a slot update changes the decoded registers in its own position only, to the maximum of old and new |
| Hll6Array.UpdateSlotKeepsInv | src/main/java/org/apache/datasketches/hll/Hll6Array.java:126-129 | a slot update keeps numAtCurMin equal to the number of zero registers, so it stays ≥ 0 |
| Hll6Array.NewHll6 | src/main/java/org/apache/datasketches/hll/Hll6Array.java:42-46 | a zeroed array with numAtCurMin = 2^lgConfigK reads zero in every register and satisfies the zero-count invariant |
| Hll6Array.ReplayKeepsInv | src/main/java/org/apache/datasketches/hll/Hll6Array.java:120-131 | after any sequence of coupon updates numAtCurMin is still the number of zero registers, and never negative |
| Hll6Array.NewHll6Replay | src/main/java/org/apache/datasketches/hll/Hll6Array.java:42-46 | an array that starts at 2^lgConfigK over all-zero registers counts its zero registers correctly after any sequence of coupon updates |
| Hll6Array.CouponValue | src/main/java/org/apache/datasketches/hll/Hll6Array.java:71 | `coupon >>> 26` is in [0, 63] |
| Hll6Array.CouponSlot | src/main/java/org/apache/datasketches/hll/Hll6Array.java:72-73 | the masked slot is below 2^lgConfigK |
| Hll6Array.Coupon | src/main/java/org/apache/datasketches/hll/Hll6Array.java:101 | the coupon mergeTo builds decodes to the value it was built from |
| Hll6Array.CouponRoundTrip | src/main/java/org/apache/datasketches/hll/Hll6Array.java:70-76 | decoding the coupon built from a slot below 2^lgConfigK and a 6-bit value gives back both, for every supported lgConfigK |
| Hll6Array.CouponUpdate | src/main/java/org/apache/datasketches/hll/Hll6Array.java:70-76 | the coupon's register ends at the maximum of its old value and the coupon's value |
| Hll6Array.CouponUpdateRegisters | src/main/java/org/apache/datasketches/hll/Hll6Array.java:70-76 | a coupon update changes the decoded registers only at the coupon's slot |
| Hll6Array.CouponUpdateFrame | src/main/java/org/apache/datasketches/hll/Hll6Array.java:70-76 | every register other than the coupon's slot is unchanged |
| Hll6Array.CouponUpdateKeepsInv | src/main/java/org/apache/datasketches/hll/Hll6Array.java:70-76 | a coupon update keeps numAtCurMin equal to the number of zero registers |
| Hll6Array.Emitted | src/main/java/org/apache/datasketches/hll/Hll6Array.java:94-103 | the number of coupons emitted plus the number of zero registers is the number of registers |
| Hll6Array.ReadRegister | src/main/java/org/apache/datasketches/hll/Hll6Array.java:97-99 | the window read at bitOffset = 6·slotNo gives that slot's register |
| Hll6Array.MergeTo | src/main/java/org/apache/datasketches/hll/Hll6Array.java:94-103 | the loop emits, in slot order, one coupon (value << 26) \| slotNo per non-zero register |
| Hll6Array.EmittedSound | src/main/java/org/apache/datasketches/hll/Hll6Array.java:94-103 | every emitted coupon decodes to a slot in range and that slot's non-zero value |
| Hll6Array.EmittedComplete | src/main/java/org/apache/datasketches/hll/Hll6Array.java:94-103 | every non-zero register is emitted as the coupon of its slot and value |
| Hll6Array.MergeIsMax | src/main/java/org/apache/datasketches/hll/Hll6Array.java:94-103 | replaying the emitted coupons into a target of the same lgConfigK leaves each target register at the maximum of its own and the source's value |
| Hll6Array.Value | src/main/java/org/apache/datasketches/hll/Hll6Array.java:164-169 | value() advances by six bits and returns the register at the new offset |
| Hll6Array.IterateValues | src/main/java/org/apache/datasketches/hll/Hll6Array.java:155-170 | the k-th value() call from a new iterator returns get6Bit of slot k, for every slot |

## Left out

- Float handling. `extractP`/`insertP` are modelled on the float's raw 32 bits, without `intBitsToFloat`/`floatToRawIntBits`. The HIP and KxQ update (`hipAndKxQIncrementalUpdate`), `getEstimate` and `putHipAccum` are floating point and not modelled.
- `toString` and `memoryToString` of the Theta preamble: string formatting, family lookup and byte-order reporting.
- `Memory`/`WritableMemory` addressing (`memObj`, `memAdd`, `getCumulativeOffset`, `copyTo`, `clear`): the header becomes a record and the arrays become sequences. Clearing after a promotion shows up as the zeroed counters of the HLL sink.
- The promotion targets `DirectCouponHashSet` and `DirectHll4/6/8Array` are not part of this model. They are sinks that record the header written for them and the coupons replayed into them, in order. The 6-bit array's own `couponUpdate` is modelled in `Hll6Array`.
- `HllUtil.checkPreamble`, `BaseHllSketch.getMaxUpdatableSerializationBytes`, `hll6ArrBytes`, `CouponList.heapifyList` and `HllArray.extractCommonHll` are not part of this model. `NewHll6` takes the array length as a parameter and requires only that every register's window fits in it.
- The HLL format constants (`EMPTY`, `LG_INIT_LIST_SIZE`, `LG_INIT_SET_SIZE`, the preamble-int counts, `SER_VER`, `FAMILY_ID`, the flag masks) live in the hll `HllUtil` and `PreambleUtil` files, which are not part of this model. Their values are taken from the library's serialization format.
- `copy`, `copyAs`, `heapify`, `getCouponsToMemoryInts`, `getIterator` of the list, `isOffHeap`, `isMemory`, `getNibble`/`putNibble`, `putOutOfOrderFlag` and the other one-line accessors: trivial, or delegating to code outside the model.
- Java `assert` statements (`newValue > 0`, `getNumAtCurMin() >= 0`) are not executed. Zero and negative values go down the same branches as in Java with assertions off.
- Coupons are the unsigned 32-bit view of a Java `int`. `>>>` and `&` on that view agree with Java's bit patterns, and the `(value << 26) | slot` built by `mergeTo` is the same bit pattern read unsigned.
- Hll6Array.UpdateSlotNoKxQ: the final register value is stated for `newValue < 64`, the range a coupon can carry. A larger value is stored modulo 64, which `Put6Bit` states.
- Hll6Array.UpdateSlotKeepsInv: stated for `newValue < 64`, for the same reason.
- Hll6Array.UpdateSlotNoKxQRegisters: stated for `newValue < 64`, for the same reason.
- Hll6Array.Low6: Java's `newValue & 0x3F` on a 32-bit two's-complement `int` is modelled as `newValue % 64` with a non-negative remainder. The two agree on every Java `int`, but that identity is not proved here against the 32-bit bit pattern; `Put6Bit` states read-back in terms of `newValue % 64`.
- Hll6Array.MergeIsMax: stated for a target array with the same lgConfigK as the source. A target of a different size lies in code outside this model.
- Hll6Array.Put6Bit: states read-back of the written register, the frame on bytes, and (in `Put6BitFrame`) the frame on other registers. It does not state that writing back a register's current value leaves the bytes identical.
- Hll6Array.Wf: requires lgConfigK within the supported [4, 21], which the library checks when it creates a sketch.
- ThetaPreamble.ReqMemBytesFull: the closed form is stated for shift distances below 32 and results that do not overflow a Java `int`. Beyond that, `ReqMemIsMemOfDoubleTable` still relates the two formulas with wrap-around.
- ThetaPreamble.MemBytes: the same bound applies, with its own formula, so lgArr = 27 with a small preamble is covered. A Java `int` shift distance of 32 or more is masked to five bits; that case has no closed form here.
