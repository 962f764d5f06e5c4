/** The 6-bit HLL register array.

    Register `slot` occupies bits 6*slot .. 6*slot+5 of a packed byte array,
    counting from bit 0 of byte 0. It is read and written through the
    little-endian 16-bit window at byte (6*slot) >> 3, shifted right by
    (6*slot) & 7, which is 0, 2, 4 or 6, so the six bits always lie inside the
    window. Registers only grow; `numAtCurMin` counts the registers that are
    still zero. A coupon carries a 6-bit value in its top six bits and the
    slot in its low bits. */
module Hll6Array {
  import opened Common

  const KEY_BITS_26: nat := 26
  const KEY_MASK_26: nat := 0x3FF_FFFF
  const VAL_MASK_6: bv16 := 0x3F

  /** A heap array: lgConfigK, the packed registers and the number of
      registers that are zero. */
  datatype Hll6 = Hll6(lgConfigK: nat, bytes: seq<bv8>, numAtCurMin: int)

  // ---------------------------------------------------------------------
  // The packed byte array

  /** `getShort(i)`: bytes i and i+1, least significant first. */
  function Window(b: seq<bv8>, i: nat): (w: bv16)
    requires i + 1 < |b|
  {
    b[i] as bv16 | (b[i + 1] as bv16 << 8)
  }

  /** `putShort(i, w)`: writes the two bytes of `w` back, least significant
      first, and no other byte. */
  function WriteWindow(b: seq<bv8>, i: nat, w: bv16): (r: seq<bv8>)
    requires i + 1 < |b|
    ensures |r| == |b| && Window(r, i) == w
    ensures forall k :: 0 <= k < |b| && k != i && k != i + 1 ==> r[k] == b[k]
  {
    var lo := (w & 0xFF) as bv8;
    var hi := (w >> 8) as bv8;
    assert lo as bv16 | (hi as bv16 << 8) == w;
    b[i := lo][i + 1 := hi]
  }

  /** The window a register starting at `startBit` is read through. */
  function ByteIdx(offsetBytes: nat, startBit: nat): nat
  {
    offsetBytes + startBit / 8
  }

  /** `startBit & 7` for a register's start bit, which is a multiple of 6
      when it comes from a slot number. */
  function ShiftAt(startBit: nat): (sh: bv16)
    requires startBit % 2 == 0
    ensures sh == 0 || sh == 2 || sh == 4 || sh == 6
  {
    var s := startBit % 8;
    if s == 0 then 0 else if s == 2 then 2 else if s == 4 then 4 else 6
  }

  /** The shift is the position of the field's first bit within its byte. */
  lemma ShiftIsBitInByte(startBit: nat)
    requires startBit % 2 == 0
    ensures ShiftAt(startBit) as int == startBit % 8
  {
  }

  /** The register's window lies inside the array. */
  predicate Fits(b: seq<bv8>, offsetBytes: nat, slot: nat)
  {
    ByteIdx(offsetBytes, 6 * slot) + 1 < |b|
  }

  /** `(w >>> shift) & VAL_MASK_6` for the four shifts a register can
      have. */
  function Six(w: bv16, sh: bv16): (f: bv16)
    requires sh == 0 || sh == 2 || sh == 4 || sh == 6
    ensures f <= 0x3F
  {
    if sh == 0 then w & VAL_MASK_6 else if sh == 2 then (w >> 2) & VAL_MASK_6
    else if sh == 4 then (w >> 4) & VAL_MASK_6 else (w >> 6) & VAL_MASK_6
  }

  /** The same field as a Java `int`. */
  function Field(w: bv16, sh: bv16): (v: int)
    requires sh == 0 || sh == 2 || sh == 4 || sh == 6
    ensures 0 <= v < 64
  {
    Six(w, sh) as int
  }

  /** `m` written out in `i` binary digits, most significant first. */
  function Binary(m: nat, i: nat): (x: bv8)
    requires m < 64 && i <= 6 && m < Pow2(i)
    ensures x as int == m
  {
    if i == 0 then 0
    else
      var y := Binary(m / 2, i - 1);
      if m % 2 == 1 then y + y + 1 else y + y
  }

  /** `newValue & 0x3F` of a Java `int`: its low six binary digits, which
      Dafny's `%` (never negative) gives for negative values too. */
  function Low6(newValue: int): (x: bv16)
    ensures x <= 0x3F && x as int == newValue % 64
  {
    assert Pow2(6) == 64;
    Binary(newValue % 64, 6) as bv16
  }

  /** The window with the six bits at `sh` replaced by `x`. */
  function PutWindow(w: bv16, sh: bv16, x: bv16): (r: bv16)
    requires sh == 0 || sh == 2 || sh == 4 || sh == 6
    requires x <= 0x3F
    ensures Six(r, sh) == x
    ensures r & !(VAL_MASK_6 << sh) == w & !(VAL_MASK_6 << sh)
  {
    (w & !(VAL_MASK_6 << sh)) | (x << sh)
  }

  /** `get6Bit`. */
  function Get6Bit(b: seq<bv8>, offsetBytes: nat, slot: nat): (v: int)
    requires Fits(b, offsetBytes, slot)
    ensures 0 <= v < 64
  {
    var startBit := 6 * slot;
    Field(Window(b, ByteIdx(offsetBytes, startBit)), ShiftAt(startBit))
  }

  /** `put6Bit`: afterwards the register reads back the low six bits of
      `newValue`, and only the two bytes of its window may have changed. */
  function Put6Bit(b: seq<bv8>, offsetBytes: nat, slot: nat, newValue: int): (r: seq<bv8>)
    requires Fits(b, offsetBytes, slot)
    ensures |r| == |b|
    ensures Get6Bit(r, offsetBytes, slot) == newValue % 64
    ensures forall k :: (0 <= k < |b| && k != ByteIdx(offsetBytes, 6 * slot) &&
                         k != ByteIdx(offsetBytes, 6 * slot) + 1) ==> r[k] == b[k]
  {
    var startBit := 6 * slot;
    var byteIdx := ByteIdx(offsetBytes, startBit);
    var x := Low6(newValue);
    var insert := PutWindow(Window(b, byteIdx), ShiftAt(startBit), x);
    var r := WriteWindow(b, byteIdx, insert);
    assert Field(Window(r, byteIdx), ShiftAt(startBit)) == x as int;
    r
  }

  lemma SameWindow(b: seq<bv8>, r: seq<bv8>, j: nat)
    requires j + 1 < |b| == |r| && r[j] == b[j] && r[j + 1] == b[j + 1]
    ensures Window(r, j) == Window(b, j)
  {
  }

  /** Two different registers read through the same window. */
  lemma SameByteFrame(b: seq<bv8>, offsetBytes: nat, s: nat, t: nat, v: int)
    requires Fits(b, offsetBytes, s) && Fits(b, offsetBytes, t) && s != t
    requires ByteIdx(offsetBytes, 6 * t) == ByteIdx(offsetBytes, 6 * s)
    ensures Get6Bit(Put6Bit(b, offsetBytes, s, v), offsetBytes, t) == Get6Bit(b, offsetBytes, t)
  {
  }

  /** A register whose window starts one byte after the written one's. */
  lemma NextByteFrame(b: seq<bv8>, offsetBytes: nat, s: nat, t: nat, v: int)
    requires Fits(b, offsetBytes, s) && Fits(b, offsetBytes, t) && s != t
    requires ByteIdx(offsetBytes, 6 * t) == ByteIdx(offsetBytes, 6 * s) + 1
    ensures Get6Bit(Put6Bit(b, offsetBytes, s, v), offsetBytes, t) == Get6Bit(b, offsetBytes, t)
  {
  }

  /** A register whose window starts one byte before the written one's. */
  lemma PrevByteFrame(b: seq<bv8>, offsetBytes: nat, s: nat, t: nat, v: int)
    requires Fits(b, offsetBytes, s) && Fits(b, offsetBytes, t) && s != t
    requires ByteIdx(offsetBytes, 6 * t) + 1 == ByteIdx(offsetBytes, 6 * s)
    ensures Get6Bit(Put6Bit(b, offsetBytes, s, v), offsetBytes, t) == Get6Bit(b, offsetBytes, t)
  {
  }

  /** Writing one register leaves every other register as it was. */
  lemma Put6BitFrame(b: seq<bv8>, offsetBytes: nat, s: nat, t: nat, v: int)
    requires Fits(b, offsetBytes, s) && Fits(b, offsetBytes, t) && s != t
    ensures Get6Bit(Put6Bit(b, offsetBytes, s, v), offsetBytes, t) == Get6Bit(b, offsetBytes, t)
  {
    var i, j := ByteIdx(offsetBytes, 6 * s), ByteIdx(offsetBytes, 6 * t);
    if j + 1 < i || i + 1 < j {
      SameWindow(b, Put6Bit(b, offsetBytes, s, v), j);
    } else if j == i {
      SameByteFrame(b, offsetBytes, s, t, v);
    } else if j == i + 1 {
      NextByteFrame(b, offsetBytes, s, t, v);
    } else {
      PrevByteFrame(b, offsetBytes, s, t, v);
    }
  }

  // ---------------------------------------------------------------------
  // The register array

  /** The number of registers, `1 << lgConfigK`. */
  function Slots(h: Hll6): (n: nat)
    ensures n >= 1
  {
    Pow2(h.lgConfigK)
  }

  /** The configured size is supported and every register's window lies
      inside the byte array (so the array is at least `hll6ArrBytes`). */
  predicate Wf(h: Hll6)
  {
    LgKOk(h.lgConfigK) && Fits(h.bytes, 0, Slots(h) - 1)
  }

  /** If the last of `m` registers fits, all of them do. */
  lemma FitsBelow(b: seq<bv8>, m: nat)
    requires m == 0 || Fits(b, 0, m - 1)
    ensures forall s :: 0 <= s < m ==> Fits(b, 0, s)
  {
  }

  /** `getSlotValue`. */
  function SlotValue(h: Hll6, slot: nat): (v: int)
    requires Wf(h) && slot < Slots(h)
    ensures 0 <= v < 64
  {
    FitsBelow(h.bytes, Slots(h));
    Get6Bit(h.bytes, 0, slot)
  }

  function Max(a: int, b: int): int
  {
    if a < b then b else a
  }

  /** Writing a register of a well-formed array: the array stays
      well-formed and the register reads back the low six bits written. */
  lemma WriteSlot(h: Hll6, slot: nat, v: int)
    requires Wf(h) && slot < Slots(h)
    ensures Fits(h.bytes, 0, slot)
    ensures Wf(h.(bytes := Put6Bit(h.bytes, 0, slot, v)))
    ensures SlotValue(h.(bytes := Put6Bit(h.bytes, 0, slot, v)), slot) == v % 64
  {
    FitsBelow(h.bytes, Slots(h));
  }

  /** `updateSlotNoKxQ`: writes the register only when the new value is
      larger, so a value in range leaves the register at the maximum of the
      two; a value that is not larger writes nothing. */
  function UpdateSlotNoKxQ(h: Hll6, slot: nat, newValue: int): (r: Hll6)
    requires Wf(h) && slot < Slots(h)
    ensures Wf(r) && r.lgConfigK == h.lgConfigK && r.numAtCurMin == h.numAtCurMin
    ensures newValue <= SlotValue(h, slot) ==> r == h
    ensures newValue < 64 ==> SlotValue(r, slot) == Max(SlotValue(h, slot), newValue)
  {
    var oldValue := SlotValue(h, slot);
    if newValue > oldValue then
      WriteSlot(h, slot, newValue);
      h.(bytes := Put6Bit(h.bytes, 0, slot, newValue))
    else h
  }

  /** `updateSlotWithKxQ` without the HIP and KxQ floating-point update: as
      above, and `numAtCurMin` goes down by one exactly when a zero register
      is written. */
  function UpdateSlotWithKxQ(h: Hll6, slot: nat, newValue: int): (r: Hll6)
    requires Wf(h) && slot < Slots(h)
    ensures Wf(r) && r.lgConfigK == h.lgConfigK
    ensures newValue <= SlotValue(h, slot) ==> r == h
    ensures newValue < 64 ==> SlotValue(r, slot) == Max(SlotValue(h, slot), newValue)
    ensures r.numAtCurMin == h.numAtCurMin - 1 <==> newValue > 0 && SlotValue(h, slot) == 0
    ensures r.numAtCurMin == h.numAtCurMin || r.numAtCurMin == h.numAtCurMin - 1
  {
    var oldValue := SlotValue(h, slot);
    if newValue > oldValue then
      // the register write is the one `updateSlotNoKxQ` makes
      var h' := UpdateSlotNoKxQ(h, slot, newValue);
      if oldValue == 0 then h'.(numAtCurMin := h.numAtCurMin - 1) else h'
    else h
  }

  // ---------------------------------------------------------------------
  // Coupons

  /** `coupon >>> KEY_BITS_26`, on the unsigned view of the coupon. */
  function CouponValue(coupon: U32): (v: nat)
    ensures v < 64
  {
    coupon / 0x400_0000
  }

  /** `coupon & ((1 << lgConfigK) - 1)`, on the unsigned view. */
  function CouponSlot(lgConfigK: nat, coupon: U32): (s: nat)
    ensures s < Pow2(lgConfigK)
  {
    coupon % Pow2(lgConfigK)
  }

  /** `(value << KEY_BITS_26) | (slotNo & KEY_MASK_26)`: the top six bits
      hold the value and the low 26 bits the slot; the Java `int` shift that
      reaches the sign bit gives the same bit pattern. */
  function Coupon(slotNo: nat, value: nat): (c: U32)
    requires value < 64
    ensures CouponValue(c) == value
  {
    value * 0x400_0000 + slotNo % 0x400_0000
  }

  /** 2^26 splits into 2^lgConfigK times the rest. */
  lemma KeySpace(lgConfigK: nat)
    requires LgKOk(lgConfigK)
    ensures Pow2(lgConfigK) * Pow2(26 - lgConfigK) == 0x400_0000
  {
    Pow2Add(lgConfigK, 26 - lgConfigK);
    Pow2Values();
  }

  /** A multiple of 2^26 plus a slot below n, taken modulo a divisor n of
      2^26, leaves the slot. */
  lemma SlotBelowDivisor(n: nat, m: nat, value: nat, slotNo: nat)
    requires n * m == 0x400_0000 && slotNo < n
    ensures (value * 0x400_0000 + slotNo) % n == slotNo
  {
    assert value * 0x400_0000 == (value * m) * n by {
      assert value * (n * m) == (value * m) * n;
    }
    DivModUnique(value * 0x400_0000 + slotNo, n, value * m, slotNo);
  }

  /** Decoding a coupon built from a slot and a 6-bit value gives them
      back, for every supported lgConfigK. */
  lemma CouponRoundTrip(lgConfigK: nat, slotNo: nat, value: nat)
    requires LgKOk(lgConfigK) && slotNo < Pow2(lgConfigK) && value < 64
    ensures CouponSlot(lgConfigK, Coupon(slotNo, value)) == slotNo
    ensures CouponValue(Coupon(slotNo, value)) == value
  {
    Pow2Monotone(lgConfigK, 26);
    Pow2Values();
    assert Coupon(slotNo, value) == value * 0x400_0000 + slotNo;
    KeySpace(lgConfigK);
    SlotBelowDivisor(Pow2(lgConfigK), Pow2(26 - lgConfigK), value, slotNo);
  }

  /** `couponUpdate`: decode the coupon and raise its register. */
  function CouponUpdate(h: Hll6, coupon: U32): (r: Hll6)
    requires Wf(h)
    ensures Wf(r) && r.lgConfigK == h.lgConfigK
    ensures var slot := CouponSlot(h.lgConfigK, coupon);
      SlotValue(r, slot) == Max(SlotValue(h, slot), CouponValue(coupon))
  {
    var newValue := CouponValue(coupon);
    var slotNo := CouponSlot(h.lgConfigK, coupon);
    UpdateSlotWithKxQ(h, slotNo, newValue)
  }

  // ---------------------------------------------------------------------
  // The registers as a sequence of values

  /** The register values in slot order: what the packed array encodes. */
  function Registers(h: Hll6): (regs: seq<int>)
    requires Wf(h)
    ensures |regs| == Slots(h)
    ensures forall s :: 0 <= s < |regs| ==> regs[s] == SlotValue(h, s)
  {
    seq(Slots(h), s requires 0 <= s < Slots(h) => SlotValue(h, s))
  }

  /** Every register holds a 6-bit value. */
  predicate SixBit(regs: seq<int>)
  {
    forall i :: 0 <= i < |regs| ==> 0 <= regs[i] < 64
  }

  /** Writing a register through `put6Bit` changes the decoded registers in
      exactly that position, to the low six bits of the value written. */
  lemma RegistersAfterPut(h: Hll6, slot: nat, v: int)
    requires Wf(h) && slot < Slots(h)
    ensures Wf(h.(bytes := Put6Bit(h.bytes, 0, slot, v)))
    ensures Registers(h.(bytes := Put6Bit(h.bytes, 0, slot, v))) == Registers(h)[slot := v % 64]
  {
    FitsBelow(h.bytes, Slots(h));
    var h' := h.(bytes := Put6Bit(h.bytes, 0, slot, v));
    forall s | 0 <= s < Slots(h)
      ensures Registers(h')[s] == Registers(h)[slot := v % 64][s]
    {
      if s != slot {
        Put6BitFrame(h.bytes, 0, slot, s, v);
      }
    }
  }

  /** The number of zero registers. */
  function ZeroCount(regs: seq<int>): (z: nat)
    ensures z <= |regs|
  {
    if |regs| == 0 then 0
    else ZeroCount(regs[..|regs| - 1]) + (if regs[|regs| - 1] == 0 then 1 else 0)
  }

  /** Changing one register changes the zero count by what that register's
      own change says. */
  lemma {:induction false} ZeroCountUpdate(regs: seq<int>, i: nat, x: int)
    requires i < |regs|
    ensures ZeroCount(regs[i := x]) + (if regs[i] == 0 then 1 else 0)
      == ZeroCount(regs) + (if x == 0 then 1 else 0)
  {
    var n := |regs|;
    var r := regs[i := x];
    if i == n - 1 {
      assert r[..n - 1] == regs[..n - 1];
    } else {
      ZeroCountUpdate(regs[..n - 1], i, x);
      assert r[..n - 1] == regs[..n - 1][i := x];
    }
  }

  /** All registers zero: all of them count. */
  lemma {:induction false} ZeroCountAllZero(regs: seq<int>)
    requires forall i :: 0 <= i < |regs| ==> regs[i] == 0
    ensures ZeroCount(regs) == |regs|
  {
    if |regs| > 0 {
      ZeroCountAllZero(regs[..|regs| - 1]);
    }
  }

  /** The array's counter agrees with its registers. */
  predicate Inv(h: Hll6)
  {
    Wf(h) && h.numAtCurMin == ZeroCount(Registers(h))
  }

  /** A zeroed array of any sufficient length with numAtCurMin = 2^lgConfigK,
      as a new array or a fresh HLL promotion leaves it. */
  function NewHll6(lgConfigK: nat, len: nat): (h: Hll6)
    requires LgKOk(lgConfigK) && Fits(seq(len, _ => 0), 0, Pow2(lgConfigK) - 1)
    ensures Inv(h) && h.lgConfigK == lgConfigK
    ensures forall s :: 0 <= s < Slots(h) ==> SlotValue(h, s) == 0
  {
    var h := Hll6(lgConfigK, seq(len, _ => 0), Pow2(lgConfigK));
    ZeroRegisters(h);
    h
  }

  lemma ZeroRegisters(h: Hll6)
    requires Wf(h) && forall i :: 0 <= i < |h.bytes| ==> h.bytes[i] == 0
    ensures forall s :: 0 <= s < Slots(h) ==> SlotValue(h, s) == 0
    ensures ZeroCount(Registers(h)) == Slots(h)
  {
    FitsBelow(h.bytes, Slots(h));
    forall s | 0 <= s < Slots(h)
      ensures SlotValue(h, s) == 0
    {
      assert Window(h.bytes, ByteIdx(0, 6 * s)) == 0;
    }
    ZeroCountAllZero(Registers(h));
  }

  /** A register update changes the decoded registers in one place only:
      that register becomes the larger of its old value and the new one. */
  lemma UpdateSlotRegisters(h: Hll6, slot: nat, newValue: int)
    requires Wf(h) && slot < Slots(h) && newValue < 64
    ensures Registers(UpdateSlotWithKxQ(h, slot, newValue))
      == Registers(h)[slot := Max(SlotValue(h, slot), newValue)]
  {
    var r := UpdateSlotWithKxQ(h, slot, newValue);
    var n := UpdateSlotNoKxQ(h, slot, newValue);
    UpdateSlotNoKxQRegisters(h, slot, newValue);
    assert Registers(r) == Registers(n) by {
      forall s | 0 <= s < Slots(h)
        ensures Registers(r)[s] == Registers(n)[s]
      {
        FitsBelow(h.bytes, Slots(h));
      }
    }
  }

  /** The same for `updateSlotNoKxQ`: only the addressed register changes,
      and it ends at the maximum of its old value and the new one. */
  lemma UpdateSlotNoKxQRegisters(h: Hll6, slot: nat, newValue: int)
    requires Wf(h) && slot < Slots(h) && newValue < 64
    ensures Registers(UpdateSlotNoKxQ(h, slot, newValue))
      == Registers(h)[slot := Max(SlotValue(h, slot), newValue)]
  {
    var regs := Registers(h);
    if newValue > SlotValue(h, slot) {
      RegistersAfterPut(h, slot, newValue);
    } else {
      assert regs[slot := Max(SlotValue(h, slot), newValue)] == regs;
    }
  }

  /** A register update keeps numAtCurMin equal to the number of zero
      registers, so it never goes negative. */
  lemma UpdateSlotKeepsInv(h: Hll6, slot: nat, newValue: int)
    requires Inv(h) && slot < Slots(h) && newValue < 64
    ensures Inv(UpdateSlotWithKxQ(h, slot, newValue))
    ensures UpdateSlotWithKxQ(h, slot, newValue).numAtCurMin >= 0
  {
    UpdateSlotRegisters(h, slot, newValue);
    if newValue > SlotValue(h, slot) {
      ZeroCountUpdate(Registers(h), slot, newValue);
    }
  }

  /** A coupon update raises the coupon's register to the coupon's value
      unless it is already higher, and changes no other register. */
  lemma CouponUpdateRegisters(h: Hll6, coupon: U32)
    requires Wf(h)
    ensures var slot := CouponSlot(h.lgConfigK, coupon);
      Registers(CouponUpdate(h, coupon))
        == Registers(h)[slot := Max(SlotValue(h, slot), CouponValue(coupon))]
  {
    UpdateSlotRegisters(h, CouponSlot(h.lgConfigK, coupon), CouponValue(coupon));
  }

  /** A coupon update keeps numAtCurMin equal to the number of zero
      registers. */
  lemma CouponUpdateKeepsInv(h: Hll6, coupon: U32)
    requires Inv(h)
    ensures Inv(CouponUpdate(h, coupon))
  {
    UpdateSlotKeepsInv(h, CouponSlot(h.lgConfigK, coupon), CouponValue(coupon));
  }

  /** A coupon update raises one register and no other. */
  lemma CouponUpdateFrame(h: Hll6, coupon: U32, t: nat)
    requires Wf(h) && t < Slots(h) && t != CouponSlot(h.lgConfigK, coupon)
    ensures SlotValue(CouponUpdate(h, coupon), t) == SlotValue(h, t)
  {
    var slot := CouponSlot(h.lgConfigK, coupon);
    if CouponValue(coupon) > SlotValue(h, slot) {
      FitsBelow(h.bytes, Slots(h));
      Put6BitFrame(h.bytes, 0, slot, t, CouponValue(coupon));
    }
  }

  // ---------------------------------------------------------------------
  // mergeTo and the iterator

  /** The coupons `mergeTo` hands to the target: one per non-zero register,
      in slot order. */
  function Emitted(regs: seq<int>): (cs: seq<U32>)
    requires SixBit(regs)
    ensures |cs| + ZeroCount(regs) == |regs|
  {
    if |regs| == 0 then []
    else
      var n := |regs| - 1;
      Emitted(regs[..n]) + (if regs[n] == 0 then [] else [Coupon(n, regs[n])])
  }

  lemma EmittedStep(regs: seq<int>, m: nat)
    requires SixBit(regs) && m < |regs|
    ensures Emitted(regs[..m + 1])
      == Emitted(regs[..m]) + (if regs[m] == 0 then [] else [Coupon(m, regs[m])])
  {
    assert regs[..m + 1][..m] == regs[..m];
  }

  /** The start of `mergeTo`'s loop body: read the register at `bitOffset`
      through its window. */
  method ReadRegister(h: Hll6, ghost slotNo: nat, bitOffset: int) returns (value: int)
    requires Wf(h) && slotNo < Slots(h) && bitOffset == 6 * slotNo
    ensures value == Registers(h)[slotNo]
  {
    FitsBelow(h.bytes, Slots(h));
    var tmp := Window(h.bytes, bitOffset / 8);
    var shift := ShiftAt(bitOffset);
    value := Field(tmp, shift);
  }

  /** `mergeTo`, with the target sketch as the sequence of coupons it
      receives. */
  method MergeTo(h: Hll6) returns (emitted: seq<U32>)
    requires Wf(h)
    ensures emitted == Emitted(Registers(h))
  {
    var slots := ShlInt(1, h.lgConfigK);
    assert slots == Slots(h) by { Pow2Fits(h.lgConfigK); }
    ghost var regs := Registers(h);
    emitted := [];
    var slotNo: int := 0;
    var bitOffset: int := 0;
    while slotNo < slots
      invariant 0 <= slotNo <= slots
      invariant bitOffset == 6 * slotNo
      invariant emitted == Emitted(regs[..slotNo])
    {
      var value := ReadRegister(h, slotNo, bitOffset);
      EmittedStep(regs, slotNo);
      if value != 0 {
        emitted := emitted + [Coupon(slotNo, value)];
      }
      slotNo := slotNo + 1;
      bitOffset := bitOffset + 6;
    }
    assert regs[..slotNo] == regs;
  }

  /** Every coupon `mergeTo` emits decodes to a register and that
      register's non-zero value. */
  lemma {:induction false} EmittedSound(lgConfigK: nat, regs: seq<int>)
    requires LgKOk(lgConfigK) && |regs| <= Pow2(lgConfigK) && SixBit(regs)
    ensures forall c :: c in Emitted(regs) ==>
      var s := CouponSlot(lgConfigK, c);
      s < |regs| && CouponValue(c) == regs[s] != 0
  {
    if |regs| > 0 {
      var n := |regs| - 1;
      var prev := Emitted(regs[..n]);
      EmittedSound(lgConfigK, regs[..n]);
      if regs[n] != 0 {
        CouponRoundTrip(lgConfigK, n, regs[n]);
      }
      forall c | c in Emitted(regs)
        ensures var s := CouponSlot(lgConfigK, c);
          s < |regs| && CouponValue(c) == regs[s] != 0
      {
        if c in prev {
          var s := CouponSlot(lgConfigK, c);
          assert regs[..n][s] == regs[s];
        }
      }
    }
  }

  /** Every non-zero register is emitted, as the coupon of its slot and
      value. */
  lemma {:induction false} EmittedComplete(regs: seq<int>)
    requires SixBit(regs)
    ensures forall s :: 0 <= s < |regs| && regs[s] != 0 ==> Coupon(s, regs[s]) in Emitted(regs)
  {
    if |regs| > 0 {
      var n := |regs| - 1;
      EmittedComplete(regs[..n]);
      forall s | 0 <= s < |regs| && regs[s] != 0
        ensures Coupon(s, regs[s]) in Emitted(regs)
      {
        if s < n {
          assert regs[..n][s] == regs[s];
        }
      }
    }
  }

  /** The target of `mergeTo` after receiving `cs`, first coupon first. */
  function Replay(t: Hll6, cs: seq<U32>): (r: Hll6)
    requires Wf(t)
    ensures Wf(r) && r.lgConfigK == t.lgConfigK
  {
    if |cs| == 0 then t else CouponUpdate(Replay(t, cs[..|cs| - 1]), cs[|cs| - 1])
  }

  /** However many coupons an array receives, `numAtCurMin` stays the number
      of its zero registers, so it never goes negative. */
  lemma {:induction false} ReplayKeepsInv(t: Hll6, cs: seq<U32>)
    requires Inv(t)
    ensures Inv(Replay(t, cs)) && Replay(t, cs).numAtCurMin >= 0
  {
    if |cs| > 0 {
      var n := |cs| - 1;
      ReplayKeepsInv(t, cs[..n]);
      CouponUpdateKeepsInv(Replay(t, cs[..n]), cs[n]);
    }
  }

  /** A new array counts its zero registers correctly after any sequence of
      coupon updates. */
  lemma NewHll6Replay(lgConfigK: nat, len: nat, cs: seq<U32>)
    requires LgKOk(lgConfigK) && Fits(seq(len, _ => 0), 0, Pow2(lgConfigK) - 1)
    ensures var r := Replay(NewHll6(lgConfigK, len), cs);
      r.numAtCurMin == ZeroCount(Registers(r)) && r.numAtCurMin <= Pow2(lgConfigK)
  {
    ReplayKeepsInv(NewHll6(lgConfigK, len), cs);
  }

  /** The registers of `t` after the first `m` registers of `regs` were
      merged in: the larger value in each of those slots. */
  function MaxPrefix(a: seq<int>, regs: seq<int>, m: nat): (r: seq<int>)
    requires |a| == |regs| && m <= |regs|
    ensures |r| == |a|
  {
    seq(|a|, s requires 0 <= s < |a| => if s < m then Max(a[s], regs[s]) else a[s])
  }

  lemma MaxPrefixStep(a: seq<int>, regs: seq<int>, n: nat)
    requires |a| == |regs| && n < |regs|
    ensures MaxPrefix(a, regs, n + 1) == MaxPrefix(a, regs, n)[n := Max(a[n], regs[n])]
    ensures regs[n] == 0 && a[n] >= 0 ==> MaxPrefix(a, regs, n + 1) == MaxPrefix(a, regs, n)
  {
  }

  /** The same replay on the register values alone. */
  function ReplayRegs(lgConfigK: nat, a: seq<int>, cs: seq<U32>): (r: seq<int>)
    requires |a| == Pow2(lgConfigK)
    ensures |r| == |a|
  {
    if |cs| == 0 then a
    else
      var r := ReplayRegs(lgConfigK, a, cs[..|cs| - 1]);
      var c := cs[|cs| - 1];
      var slot := CouponSlot(lgConfigK, c);
      r[slot := Max(r[slot], CouponValue(c))]
  }

  /** Replaying coupons into an array does to its registers what the
      register-level replay says. */
  lemma {:induction false} ReplayRegisters(t: Hll6, cs: seq<U32>)
    requires Wf(t)
    ensures Registers(Replay(t, cs)) == ReplayRegs(t.lgConfigK, Registers(t), cs)
  {
    if |cs| > 0 {
      var n := |cs| - 1;
      ReplayRegisters(t, cs[..n]);
      CouponUpdateRegisters(Replay(t, cs[..n]), cs[n]);
    }
  }

  /** Replaying the coupons emitted for the first `m` registers of `regs`
      leaves each of those registers at the larger of the two values, and
      the others as they were. */
  lemma {:induction false} ReplayEmittedPrefix(lgConfigK: nat, a: seq<int>, regs: seq<int>, m: nat)
    requires LgKOk(lgConfigK) && |a| == |regs| == Pow2(lgConfigK) && SixBit(regs)
    requires forall s :: 0 <= s < |a| ==> a[s] >= 0
    requires m <= |regs|
    ensures ReplayRegs(lgConfigK, a, Emitted(regs[..m])) == MaxPrefix(a, regs, m)
  {
    if m == 0 {
      assert MaxPrefix(a, regs, 0) == a;
    } else {
      var n := m - 1;
      var prev := Emitted(regs[..n]);
      ReplayEmittedPrefix(lgConfigK, a, regs, n);
      EmittedStep(regs, n);
      MaxPrefixStep(a, regs, n);
      var r := MaxPrefix(a, regs, n);
      if regs[n] != 0 {
        var c := Coupon(n, regs[n]);
        assert Emitted(regs[..m]) == prev + [c];
        CouponRoundTrip(lgConfigK, n, regs[n]);
        ReplayRegsStep(lgConfigK, a, prev, c);
        assert ReplayRegs(lgConfigK, a, prev + [c]) == r[n := Max(r[n], regs[n])];
      } else {
        assert Emitted(regs[..m]) == prev;
      }
    }
  }

  lemma ReplayRegsStep(lgConfigK: nat, a: seq<int>, prev: seq<U32>, c: U32)
    requires |a| == Pow2(lgConfigK)
    ensures var r := ReplayRegs(lgConfigK, a, prev);
      var slot := CouponSlot(lgConfigK, c);
      ReplayRegs(lgConfigK, a, prev + [c]) == r[slot := Max(r[slot], CouponValue(c))]
  {
    assert (prev + [c])[..|prev|] == prev;
  }

  /** `mergeTo` computes the union: after the target receives every coupon
      emitted for a sketch of the same lgConfigK, each target register holds
      the larger of its own value and the source's. */
  lemma MergeIsMax(src: Hll6, t: Hll6)
    requires Wf(src) && Wf(t) && t.lgConfigK == src.lgConfigK
    ensures forall s :: 0 <= s < Slots(t) ==>
      SlotValue(Replay(t, Emitted(Registers(src))), s) == Max(SlotValue(t, s), SlotValue(src, s))
  {
    var regs := Registers(src);
    ReplayRegisters(t, Emitted(regs));
    ReplayEmittedPrefix(t.lgConfigK, Registers(t), regs, |regs|);
    assert regs[..|regs|] == regs;
    var r := Replay(t, Emitted(regs));
    forall s | 0 <= s < Slots(t)
      ensures SlotValue(r, s) == Max(SlotValue(t, s), SlotValue(src, s))
    {
      assert Registers(r)[s] == MaxPrefix(Registers(t), regs, |regs|)[s];
    }
  }

  /** `HeapHll6Iterator`: the bit offset of the register last read. */
  datatype Iterator = Iterator(bitOffset: int)

  /** A new iterator, positioned before register 0. */
  function NewIterator(): (it: Iterator)
    ensures it.bitOffset + 6 == 0
  {
    Iterator(-6)
  }

  /** `value()`: advance to the next register and read it. */
  method Value(h: Hll6, it: Iterator) returns (next: Iterator, value: int)
    requires Wf(h) && 0 <= it.bitOffset + 6 && (it.bitOffset + 6) % 6 == 0
    requires (it.bitOffset + 6) / 6 < Slots(h)
    ensures next.bitOffset == it.bitOffset + 6
    ensures value == SlotValue(h, next.bitOffset / 6)
  {
    var bitOffset := it.bitOffset + 6;
    ghost var slot := bitOffset / 6;
    assert bitOffset == 6 * slot && bitOffset % 2 == 0;
    FitsBelow(h.bytes, Slots(h));
    assert Fits(h.bytes, 0, slot);
    var tmp := Window(h.bytes, bitOffset / 8);
    var shift := ShiftAt(bitOffset);
    next, value := Iterator(bitOffset), Field(tmp, shift);
    assert value == Get6Bit(h.bytes, 0, slot);
  }

  /** Calling `value()` once per register from a new iterator reads every
      register in slot order. */
  method IterateValues(h: Hll6) returns (values: seq<int>)
    requires Wf(h)
    ensures |values| == Slots(h)
    ensures forall k :: 0 <= k < |values| ==> values[k] == SlotValue(h, k)
  {
    var it := NewIterator();
    values := [];
    while |values| < Slots(h)
      invariant |values| <= Slots(h)
      invariant it.bitOffset == 6 * |values| - 6
      invariant forall k :: 0 <= k < |values| ==> values[k] == SlotValue(h, k)
    {
      var value;
      it, value := Value(h, it);
      values := values + [value];
    }
  }
}
