/** The sparse LIST mode of a direct (memory-backed) HLL sketch.

    The memory image is a header followed by an array of 2^lgArr coupon
    ints, where the value EMPTY (0) marks a free cell. A coupon update scans
    the array in slot order: it stops at a duplicate (nothing changes) or at
    the first free cell (the coupon is stored there, the count goes up and the
    empty flag is cleared). When the array is then full the sketch is
    promoted: to an HLL array when lgConfigK < 8, otherwise to a hash SET.
    Promotion buffers the whole array, rewrites the header for the new mode and
    replays every non-EMPTY coupon, in slot order, into the new target. The
    targets (DirectCouponHashSet, DirectHll4/6/8Array) are modelled as sinks
    that receive that replayed sequence. */
module DirectCouponList {
  import opened Common

  // Constants of the HLL serialization format.
  const EMPTY: U32 := 0
  const LG_INIT_LIST_SIZE: nat := 3
  const LG_INIT_SET_SIZE: nat := 5
  const LIST_PREINTS: nat := 2
  const HASH_SET_PREINTS: nat := 3
  const HLL_PREINTS: nat := 10
  const SER_VER: nat := 1
  const FAMILY_ID: nat := 7
  const EMPTY_FLAG_MASK: bv8 := 4
  const OUT_OF_ORDER_FLAG_MASK: bv8 := 16

  datatype CurMode = LIST | SET | HLL
  datatype TgtHllType = HLL_4 | HLL_6 | HLL_8

  /** The header fields of the memory image that this code reads or writes.
      `listCount` is byte 6, which holds the coupon count in LIST mode and
      curMin in SET and HLL mode; it is a byte, so writes keep it below 256. */
  datatype Header = Header(
    preInts: nat, serVer: nat, familyId: nat, lgConfigK: nat, lgArr: nat,
    flags: bv8, listCount: nat, curMode: CurMode, tgtHllType: TgtHllType)

  /** A LIST (or SET) memory image: its header, the coupon array at the
      mode's array offset, and whether the memory is writable. */
  datatype CouponImage = CouponImage(hdr: Header, coupons: seq<U32>, writable: bool)

  /** What a SET promotion leaves: the rewritten header and the coupons
      replayed into the new hash set, in replay order. */
  datatype SetSink = SetSink(hdr: Header, replay: seq<U32>)

  /** What an HLL promotion leaves: the rewritten header, the three HLL
      preamble counters that are set before the replay, and the replay. */
  datatype HllSink = HllSink(hdr: Header, numAtCurMin: nat, kxq0: nat, kxq1: nat, replay: seq<U32>)

  /** Where the sketch is after an update that did not fail. */
  datatype Outcome = Stay(list: CouponImage) | ToSet(hashSet: SetSink) | ToHll(hll: HllSink)

  datatype UpdateError = NoWriteAccess | InvalidState

  datatype UpdateResult = Done(out: Outcome) | Fail(err: UpdateError)

  /** The image is large enough for the array its header announces, and the
      count fits its header byte. */
  predicate Wf(l: CouponImage)
  {
    && LgKOk(l.hdr.lgConfigK)
    && l.hdr.lgArr <= 30
    && |l.coupons| == Pow2(l.hdr.lgArr)
    && l.hdr.listCount < 256
  }

  /** The non-EMPTY coupons of an array, in slot order. */
  function Live(c: seq<U32>): (r: seq<U32>)
    ensures |r| <= |c|
    ensures forall x :: x in r <==> x in c && x != EMPTY
  {
    if |c| == 0 then []
    else
      var rest := Live(c[..|c| - 1]);
      assert c == c[..|c| - 1] + [c[|c| - 1]];
      if c[|c| - 1] != EMPTY then rest + [c[|c| - 1]] else rest
  }

  /** The distinct coupons an array holds. */
  function LiveSet(c: seq<U32>): (r: set<U32>)
    ensures forall x :: x in r <==> x in c && x != EMPTY
  {
    set x | x in c && x != EMPTY
  }

  /** Where the scan of `couponUpdate` stops, starting at slot `i`. */
  datatype ScanStop = EmptyAt(k: nat) | DupAt(k: nat) | NoStop

  /** The `for` loop of `couponUpdate`: the first slot from `i` on that is
      EMPTY or equal to the coupon; an EMPTY slot wins when both hold. */
  function Scan(c: seq<U32>, coupon: U32, i: nat): (r: ScanStop)
    requires i <= |c|
    ensures r.EmptyAt? ==> i <= r.k < |c| && c[r.k] == EMPTY
    ensures r.DupAt? ==> i <= r.k < |c| && c[r.k] == coupon && c[r.k] != EMPTY
    ensures !r.NoStop? ==> forall j :: i <= j < r.k ==> c[j] != EMPTY && c[j] != coupon
    ensures r.NoStop? <==> forall j :: i <= j < |c| ==> c[j] != EMPTY && c[j] != coupon
    decreases |c| - i
  {
    if i == |c| then NoStop
    else if c[i] == EMPTY then EmptyAt(i)
    else if c[i] == coupon then DupAt(i)
    else Scan(c, coupon, i + 1)
  }

  /** `newInstance`: writes the LIST header into memory whose coupon region
      holds `region`; the region itself is not cleared. */
  function NewInstance(lgConfigK: nat, tgtHllType: TgtHllType, region: seq<U32>): (l: CouponImage)
    requires LgKOk(lgConfigK)
    requires |region| == Pow2(LG_INIT_LIST_SIZE)
    ensures Wf(l) && l.writable && l.coupons == region
    ensures l.hdr.curMode == LIST && l.hdr.lgArr == LG_INIT_LIST_SIZE && l.hdr.listCount == 0
    ensures l.hdr.flags == EMPTY_FLAG_MASK && l.hdr.preInts == LIST_PREINTS
    ensures l.hdr.serVer == SER_VER && l.hdr.familyId == FAMILY_ID
    ensures l.hdr.lgConfigK == lgConfigK && l.hdr.tgtHllType == tgtHllType
  {
    var hdr := Header(LIST_PREINTS, SER_VER, FAMILY_ID, lgConfigK, LG_INIT_LIST_SIZE,
                      EMPTY_FLAG_MASK, 0, LIST, tgtHllType);
    CouponImage(hdr, region, true)
  }

  /** `getCouponCount`: the count byte of the header. */
  function GetCouponCount(l: CouponImage): nat
  {
    l.hdr.listCount
  }

  /** `promoteListToSet`: the header rewritten for SET mode (the serialization
      version, family, lgConfigK and target type are kept) and the array's
      non-EMPTY coupons replayed in slot order. */
  function PromoteListToSet(l: CouponImage): (s: SetSink)
    requires Wf(l)
    ensures s.hdr.preInts == HASH_SET_PREINTS && s.hdr.lgArr == LG_INIT_SET_SIZE
    ensures s.hdr.flags == OUT_OF_ORDER_FLAG_MASK && s.hdr.listCount == 0 && s.hdr.curMode == SET
    ensures s.hdr.serVer == l.hdr.serVer && s.hdr.familyId == l.hdr.familyId
    ensures s.hdr.lgConfigK == l.hdr.lgConfigK && s.hdr.tgtHllType == l.hdr.tgtHllType
    ensures forall x :: x in s.replay <==> x in l.coupons && x != EMPTY
  {
    var hdr := l.hdr.(preInts := HASH_SET_PREINTS, lgArr := LG_INIT_SET_SIZE,
                      flags := OUT_OF_ORDER_FLAG_MASK, listCount := 0, curMode := SET);
    SetSink(hdr, Live(l.coupons))
  }

  /** `promoteListOrSetToHll`: the header rewritten for HLL mode with every
      flag cleared, numAtCurMin and KxQ0 set to 2^lgConfigK (every register
      is zero), KxQ1 cleared, and the non-EMPTY coupons replayed in slot
      order. The HIP accumulator is left out. */
  function PromoteListOrSetToHll(l: CouponImage): (h: HllSink)
    requires Wf(l)
    ensures h.hdr.preInts == HLL_PREINTS && h.hdr.lgArr == 0 && h.hdr.flags == 0
    ensures h.hdr.listCount == 0 && h.hdr.curMode == HLL
    ensures h.hdr.serVer == l.hdr.serVer && h.hdr.familyId == l.hdr.familyId
    ensures h.hdr.lgConfigK == l.hdr.lgConfigK && h.hdr.tgtHllType == l.hdr.tgtHllType
    ensures h.numAtCurMin == h.kxq0 == Pow2(l.hdr.lgConfigK) && h.kxq1 == 0
    ensures forall x :: x in h.replay <==> x in l.coupons && x != EMPTY
  {
    var hdr := l.hdr.(preInts := HLL_PREINTS, lgArr := 0, flags := 0, listCount := 0, curMode := HLL);
    var k := ShlInt(1, l.hdr.lgConfigK);
    assert k == Pow2(l.hdr.lgConfigK) by { Pow2Fits(l.hdr.lgConfigK); }
    HllSink(hdr, k, k, 0, Live(l.coupons))
  }

  /** The image after storing `coupon` in free slot `i`: the count byte goes
      up by one (as a byte) and the empty flag is cleared. */
  function StoreAt(l: CouponImage, i: nat, coupon: U32): (l': CouponImage)
    requires i < |l.coupons|
    ensures |l'.coupons| == |l.coupons| && l'.coupons[i] == coupon
    ensures forall k :: 0 <= k < |l.coupons| && k != i ==> l'.coupons[k] == l.coupons[k]
    ensures l.coupons[i] == EMPTY && coupon != EMPTY ==>
      LiveSet(l'.coupons) == LiveSet(l.coupons) + {coupon}
    ensures l.hdr.listCount < 255 ==> l'.hdr.listCount == l.hdr.listCount + 1
    ensures l.hdr.listCount == 255 ==> l'.hdr.listCount == 0
    ensures l'.hdr.flags & EMPTY_FLAG_MASK == 0
    ensures l'.hdr.flags | EMPTY_FLAG_MASK == l.hdr.flags | EMPTY_FLAG_MASK
    ensures l'.hdr == l.hdr.(listCount := l'.hdr.listCount, flags := l'.hdr.flags)
    ensures l'.writable == l.writable && (Wf(l) ==> Wf(l'))
  {
    var hdr := l.hdr.(listCount := (l.hdr.listCount + 1) % 256,
                      flags := l.hdr.flags & !EMPTY_FLAG_MASK);
    l.(hdr := hdr, coupons := l.coupons[i := coupon])
  }

  /** Does the sketch hold the coupon after the update? */
  predicate Holds(o: Outcome, coupon: U32)
  {
    match o
    case Stay(list) => coupon in list.coupons
    case ToSet(s) => coupon in s.replay
    case ToHll(h) => coupon in h.replay
  }

  /** `couponUpdate`. A read-only image fails before anything changes; a
      scan that meets neither a free slot nor the coupon is the invalid
      state; otherwise the sketch holds the coupon afterwards. */
  function CouponUpdate(l: CouponImage, coupon: U32): (r: UpdateResult)
    requires Wf(l)
    ensures !l.writable <==> r == Fail(NoWriteAccess)
    ensures r == Fail(InvalidState) <==>
      l.writable && forall j :: 0 <= j < |l.coupons| ==> l.coupons[j] != EMPTY && l.coupons[j] != coupon
    ensures r.Done? && coupon != EMPTY ==> Holds(r.out, coupon)
  {
    if !l.writable then Fail(NoWriteAccess)
    else
      var len := ShlInt(1, l.hdr.lgArr);
      assert len == |l.coupons| by { Pow2Fits(l.hdr.lgArr); }
      match Scan(l.coupons, coupon, 0)
      case NoStop => Fail(InvalidState)
      case DupAt(_) => Done(Stay(l))
      case EmptyAt(i) =>
        var l' := StoreAt(l, i, coupon);
        assert l'.coupons[i] == coupon;
        var couponCount := l.hdr.listCount + 1;
        if couponCount >= len then
          if l.hdr.lgConfigK < 8 then Done(ToHll(PromoteListOrSetToHll(l')))
          else Done(ToSet(PromoteListToSet(l')))
        else Done(Stay(l'))
  }

  /** The LIST invariant that `couponUpdate` keeps: the array has the
      initial list size; exactly the first `listCount` slots are occupied,
      so the occupied slots form a prefix whose length is the count; the
      occupied slots hold distinct coupons; the list is never full at rest;
      and the empty flag is set exactly when the count is zero. */
  predicate Inv(l: CouponImage)
  {
    var c := l.coupons;
    && Wf(l)
    && l.hdr.curMode == LIST
    && l.hdr.lgArr == LG_INIT_LIST_SIZE
    && l.hdr.listCount < |c|
    && (forall i :: 0 <= i < |c| ==> (c[i] != EMPTY <==> i < l.hdr.listCount))
    && Distinct(c)
    && (l.hdr.flags & EMPTY_FLAG_MASK != 0 <==> l.hdr.listCount == 0)
  }

  /** The occupied slots hold pairwise distinct coupons. */
  predicate Distinct(c: seq<U32>)
  {
    forall i, j :: 0 <= i < j < |c| && c[i] != EMPTY ==> c[i] != c[j]
  }

  /** The occupied slots form a prefix. */
  predicate Prefix(c: seq<U32>)
  {
    forall i, j :: 0 <= i < j < |c| && c[i] == EMPTY ==> c[j] == EMPTY
  }

  /** When exactly the first `n` slots are occupied, those are the live
      coupons. */
  lemma {:induction false} OccupiedPrefixIsLive(c: seq<U32>, n: nat)
    requires n <= |c|
    requires forall i :: 0 <= i < |c| ==> (c[i] != EMPTY <==> i < n)
    ensures Live(c) == c[..n]
    decreases |c|
  {
    if |c| > 0 {
      var c' := c[..|c| - 1];
      if n == |c| {
        OccupiedPrefixIsLive(c', n - 1);
        assert c'[..n - 1] == c[..n - 1];
        assert c[..n] == c[..n - 1] + [c[n - 1]];
      } else {
        OccupiedPrefixIsLive(c', n);
        assert c'[..n] == c[..n];
      }
    }
  }

  /** The elements of a sequence. */
  function Elems(s: seq<U32>): (r: set<U32>)
    ensures forall x :: x in r <==> x in s
  {
    set x | x in s
  }

  /** A sequence without repeated elements has as many distinct elements as
      it has elements. */
  lemma {:induction false} DistinctCard(s: seq<U32>)
    requires forall i, j :: 0 <= i < j < |s| ==> s[i] != s[j]
    ensures |Elems(s)| == |s|
  {
    if |s| > 0 {
      var s' := s[..|s| - 1];
      var last := s[|s| - 1];
      DistinctCard(s');
      assert last !in s' by {
        forall k | 0 <= k < |s'| ensures s'[k] != last {
          assert s'[k] == s[k];
        }
      }
      assert Elems(s) == Elems(s') + {last} by {
        assert s == s' + [last];
        forall x ensures x in Elems(s) <==> x in Elems(s') + {last} {
          assert x in s <==> x in s' || x == last;
        }
      }
    }
  }

  /** Under the list invariant the count byte is the number of distinct
      coupons held, and the number of occupied cells. */
  lemma CouponCountIsDistinctCoupons(l: CouponImage)
    requires Inv(l)
    ensures GetCouponCount(l) == |LiveSet(l.coupons)| == |Live(l.coupons)|
  {
    OccupiedPrefixIsLive(l.coupons, l.hdr.listCount);
    DistinctCard(l.coupons[..l.hdr.listCount]);
    assert LiveSet(l.coupons) == Elems(l.coupons[..l.hdr.listCount]);
  }

  /** The three invariants in their usual reading, and back: exactly the
      first `n` slots are occupied if and only if the occupied slots form a
      prefix and `n` is the number of occupied slots. */
  lemma {:induction false} OccupancyIff(c: seq<U32>, n: nat)
    requires n <= |c|
    ensures (forall i :: 0 <= i < |c| ==> (c[i] != EMPTY <==> i < n))
        <==> (Prefix(c) && n == |Live(c)|)
  {
    if forall i :: 0 <= i < |c| ==> (c[i] != EMPTY <==> i < n) {
      OccupiedPrefixIsLive(c, n);
    }
    if Prefix(c) && n == |Live(c)| {
      var m := FirstEmpty(c, 0);
      assert forall i :: 0 <= i < |c| ==> (c[i] != EMPTY <==> i < m) by {
        forall i | 0 <= i < |c| ensures c[i] != EMPTY <==> i < m {
          if i >= m && m < |c| {
            assert c[m] == EMPTY;
          }
        }
      }
      OccupiedPrefixIsLive(c, m);
    }
  }

  /** The first EMPTY slot at or after `i`, or the length. */
  function FirstEmpty(c: seq<U32>, i: nat): (m: nat)
    requires i <= |c|
    ensures i <= m <= |c|
    ensures forall j :: i <= j < m ==> c[j] != EMPTY
    ensures m < |c| ==> c[m] == EMPTY
    decreases |c| - i
  {
    if i == |c| || c[i] == EMPTY then i else FirstEmpty(c, i + 1)
  }

  /** A fresh image satisfies the LIST invariant exactly when its coupon
      region is all EMPTY. */
  lemma NewInstanceInv(lgConfigK: nat, tgtHllType: TgtHllType, region: seq<U32>)
    requires LgKOk(lgConfigK)
    requires |region| == Pow2(LG_INIT_LIST_SIZE)
    ensures Inv(NewInstance(lgConfigK, tgtHllType, region))
        <==> forall i :: 0 <= i < |region| ==> region[i] == EMPTY
  {
  }

  /** Under the invariant the scan never falls through: there is always a
      free slot, so the invalid-state error cannot happen. */
  lemma InvalidStateUnreachable(l: CouponImage, coupon: U32)
    requires Inv(l)
    ensures CouponUpdate(l, coupon) != Fail(InvalidState)
  {
    assert l.coupons[l.hdr.listCount] == EMPTY;
  }

  /** A coupon already in the list leaves the image exactly as it was. */
  lemma DuplicateIsNoOp(l: CouponImage, coupon: U32)
    requires Inv(l) && l.writable
    requires coupon in l.coupons && coupon != EMPTY
    ensures CouponUpdate(l, coupon) == Done(Stay(l))
  {
    assert l.coupons[l.hdr.listCount] == EMPTY;
  }

  /** A new coupon is written into the first free slot, which is slot
      `listCount`; the count goes up by one, the empty flag is cleared and no
      other slot changes. The list stays a list until that fills the array. */
  lemma NewCouponIsAppended(l: CouponImage, coupon: U32)
    requires Inv(l) && l.writable
    requires coupon !in l.coupons
    ensures var n := l.hdr.listCount;
      var l' := StoreAt(l, n, coupon);
      && l'.coupons == l.coupons[n := coupon]
      && l'.hdr.listCount == n + 1
      && l'.hdr.flags == l.hdr.flags & !EMPTY_FLAG_MASK
      && (n + 1 < |l.coupons| ==> CouponUpdate(l, coupon) == Done(Stay(l')))
      && (n + 1 == |l.coupons| && l.hdr.lgConfigK < 8 ==>
            CouponUpdate(l, coupon) == Done(ToHll(PromoteListOrSetToHll(l'))))
      && (n + 1 == |l.coupons| && l.hdr.lgConfigK >= 8 ==>
            CouponUpdate(l, coupon) == Done(ToSet(PromoteListToSet(l'))))
  {
    var n := l.hdr.listCount;
    assert l.coupons[n] == EMPTY;
  }

  /** The list invariant is preserved by every update of a real coupon that
      keeps the sketch in LIST mode. */
  lemma {:induction false} UpdatePreservesInv(l: CouponImage, coupon: U32)
    requires Inv(l) && coupon != EMPTY
    ensures CouponUpdate(l, coupon).Done? && CouponUpdate(l, coupon).out.Stay? ==>
      Inv(CouponUpdate(l, coupon).out.list)
  {
    if l.writable && coupon !in l.coupons {
      NewCouponIsAppended(l, coupon);
      var n := l.hdr.listCount;
      var l' := StoreAt(l, n, coupon);
      var c, c' := l.coupons, l'.coupons;
      assert forall i :: 0 <= i < |c'| ==> (c'[i] != EMPTY <==> i < n + 1);
      assert Distinct(c') by {
        forall i, j | 0 <= i < j < |c'| && c'[i] != EMPTY ensures c'[i] != c'[j] {
          if j == n {
            assert c'[i] == c[i];
          } else if i == n {
            assert c'[j] == c[j];
          }
        }
      }
    } else if l.writable {
      DuplicateIsNoOp(l, coupon);
    }
  }

  /** The promotion choice: an update promotes exactly when it stores a new
      coupon in the last free slot, and the target is an HLL array when
      lgConfigK < 8 and a SET otherwise. */
  lemma PromotionChoice(l: CouponImage, coupon: U32)
    requires Inv(l) && l.writable && coupon != EMPTY
    ensures var r := CouponUpdate(l, coupon);
      && r.Done?
      && (!r.out.Stay? <==> coupon !in l.coupons && l.hdr.listCount + 1 == |l.coupons|)
      && (r.out.ToHll? <==> !r.out.Stay? && l.hdr.lgConfigK < 8)
      && (r.out.ToSet? <==> !r.out.Stay? && l.hdr.lgConfigK >= 8)
  {
    InvalidStateUnreachable(l, coupon);
    if coupon in l.coupons {
      DuplicateIsNoOp(l, coupon);
    } else {
      NewCouponIsAppended(l, coupon);
    }
  }

  /** A promotion replays the whole, now full, array: the old live coupons
      in slot order followed by the new one. */
  lemma {:induction false} PromotionReplaysAll(l: CouponImage, coupon: U32)
    requires Inv(l) && l.writable && coupon != EMPTY
    requires coupon !in l.coupons && l.hdr.listCount + 1 == |l.coupons|
    ensures var r := CouponUpdate(l, coupon);
      var all := Live(l.coupons) + [coupon];
      && (r.out.ToSet? ==> r.out.hashSet.replay == all)
      && (r.out.ToHll? ==> r.out.hll.replay == all)
  {
    var n := l.hdr.listCount;
    NewCouponIsAppended(l, coupon);
    var c' := l.coupons[n := coupon];
    OccupiedPrefixIsLive(l.coupons, n);
    OccupiedPrefixIsLive(c', n + 1);
    assert c'[..n + 1] == l.coupons[..n] + [coupon];
  }

  /** Updating twice with the same coupon is the same as updating once,
      while the sketch stays a list. */
  lemma UpdateIdempotent(l: CouponImage, coupon: U32)
    requires Inv(l) && coupon != EMPTY
    requires CouponUpdate(l, coupon).Done? && CouponUpdate(l, coupon).out.Stay?
    ensures var l' := CouponUpdate(l, coupon).out.list;
      CouponUpdate(l', coupon) == Done(Stay(l'))
  {
    var l' := CouponUpdate(l, coupon).out.list;
    UpdatePreservesInv(l, coupon);
    assert coupon in l'.coupons;
    DuplicateIsNoOp(l', coupon);
  }

  /** The replay loop of both promotions: every non-EMPTY coupon of the
      buffered array is fed to the target, in slot order. */
  method ReplayLoop(couponArr: seq<U32>) returns (fed: seq<U32>)
    ensures fed == Live(couponArr)
  {
    fed := [];
    var i := 0;
    while i < |couponArr|
      invariant 0 <= i <= |couponArr|
      invariant fed == Live(couponArr[..i])
    {
      var coupon := couponArr[i];
      assert couponArr[..i + 1][..i] == couponArr[..i];
      if coupon != EMPTY {
        fed := fed + [coupon];
      }
      i := i + 1;
    }
    assert couponArr[..i] == couponArr;
  }
}
