/** The field codec for the first two 64-bit preamble words of a Theta sketch.

    Long 0 (bytes 0-7, least significant byte first):
      byte 0 bits 0-5 preamble longs, bits 6-7 resize factor,
      byte 1 serialization version, byte 2 family id, byte 3 lgNomLongs,
      byte 4 lgArrLongs, byte 5 flags, bytes 6-7 seed hash
      (serialization version 1 kept its flags in byte 6).
    Long 1 (bytes 8-15): bits 0-31 retained-entries count, bits 32-63 the
      raw bits of the float p.

    Every extract is a shift-and-mask of a `long`; every insert masks a Java
    `int` argument (sign-extended to `long` first, as Java does), shifts it into
    place and keeps every other bit of the word. */
module ThetaPreamble {
  import opened Common

  // Shift distances are literals: a byte-aligned field at byte b of long 0
  // sits at bit `b << 3`, and the comment at each use names the library's
  // constant for b.

  /** Java's widening of an `int` argument to a `long`. */
  function SignExtend(v: bv32): (r: bv64)
    ensures r & 0xFFFF_FFFF == v as bv64
  {
    var high: bv64 := if v & 0x8000_0000 == 0 then 0 else 0xFFFF_FFFF_0000_0000;
    high | v as bv64
  }

  /** `extractPreLongs`: the preamble longs (byte 0, bits 0-5). */
  function ExtractPreLongs(long0: bv64): (r: bv32)
    ensures r <= 0x3F
    ensures r as bv64 == (long0 & 0x3F)
  {
    var mask: bv64 := 0x3F;
    (long0 & mask) as bv32
  }

  /** `insertPreLongs`: `long0` with the preamble longs (byte 0, bits 0-5) replaced by the low bits of `preLongs`. */
  function InsertPreLongs(preLongs: bv32, long0: bv64): (r: bv64)
    ensures ExtractPreLongs(r) == preLongs & 0x3F
    ensures r & !0x3F == long0 & !0x3F
  {
    var mask: bv64 := 0x3F;
    (SignExtend(preLongs) & mask) | (!mask & long0)
  }

  /** `extractResizeFactor`: the resize factor (byte 0, bits 6-7). */
  function ExtractResizeFactor(long0: bv64): (r: bv32)
    ensures r <= 0x3
    ensures r as bv64 == (long0 & 0xC0) >> 6
  {
    var shift: bv64 := 6;
    var mask: bv64 := 0x3;
    ((long0 >> shift) & mask) as bv32
  }

  /** `insertResizeFactor`: `long0` with the resize factor (byte 0, bits 6-7) replaced by the low bits of `rf`. */
  function InsertResizeFactor(rf: bv32, long0: bv64): (r: bv64)
    ensures ExtractResizeFactor(r) == rf & 0x3
    ensures r & !0xC0 == long0 & !0xC0
  {
    var shift: bv64 := 6;
    var mask: bv64 := 0x3;
    ((SignExtend(rf) & mask) << shift) | (!(mask << shift) & long0)
  }

  /** `extractSerVer`: the serialization version (byte 1). */
  function ExtractSerVer(long0: bv64): (r: bv32)
    ensures r <= 0xFF
    ensures r as bv64 == (long0 & 0xFF00) >> 8
  {
    var shift: bv64 := 8; // SER_VER_BYTE << 3
    var mask: bv64 := 0xFF;
    ((long0 >> shift) & mask) as bv32
  }

  /** `insertSerVer`: `long0` with the serialization version (byte 1) replaced by the low bits of `serVer`. */
  function InsertSerVer(serVer: bv32, long0: bv64): (r: bv64)
    ensures ExtractSerVer(r) == serVer & 0xFF
    ensures r & !0xFF00 == long0 & !0xFF00
  {
    var shift: bv64 := 8; // SER_VER_BYTE << 3
    var mask: bv64 := 0xFF;
    ((SignExtend(serVer) & mask) << shift) | (!(mask << shift) & long0)
  }

  /** `extractFamilyID`: the family id (byte 2). */
  function ExtractFamilyId(long0: bv64): (r: bv32)
    ensures r <= 0xFF
    ensures r as bv64 == (long0 & 0xFF_0000) >> 16
  {
    var shift: bv64 := 16; // FAMILY_BYTE << 3
    var mask: bv64 := 0xFF;
    ((long0 >> shift) & mask) as bv32
  }

  /** `insertFamilyID`: `long0` with the family id (byte 2) replaced by the low bits of `familyId`. */
  function InsertFamilyId(familyId: bv32, long0: bv64): (r: bv64)
    ensures ExtractFamilyId(r) == familyId & 0xFF
    ensures r & !0xFF_0000 == long0 & !0xFF_0000
  {
    var shift: bv64 := 16; // FAMILY_BYTE << 3
    var mask: bv64 := 0xFF;
    ((SignExtend(familyId) & mask) << shift) | (!(mask << shift) & long0)
  }

  /** `extractLgNomLongs`: the lgNomLongs (byte 3). */
  function ExtractLgNomLongs(long0: bv64): (r: bv32)
    ensures r <= 0xFF
    ensures r as bv64 == (long0 & 0xFF00_0000) >> 24
  {
    var shift: bv64 := 24; // LG_NOM_LONGS_BYTE << 3
    var mask: bv64 := 0xFF;
    ((long0 >> shift) & mask) as bv32
  }

  /** `insertLgNomLongs`: `long0` with the lgNomLongs (byte 3) replaced by the low bits of `lgNomLongs`. */
  function InsertLgNomLongs(lgNomLongs: bv32, long0: bv64): (r: bv64)
    ensures ExtractLgNomLongs(r) == lgNomLongs & 0xFF
    ensures r & !0xFF00_0000 == long0 & !0xFF00_0000
  {
    var shift: bv64 := 24; // LG_NOM_LONGS_BYTE << 3
    var mask: bv64 := 0xFF;
    ((SignExtend(lgNomLongs) & mask) << shift) | (!(mask << shift) & long0)
  }

  /** `extractLgArrLongs`: the lgArrLongs (byte 4). */
  function ExtractLgArrLongs(long0: bv64): (r: bv32)
    ensures r <= 0xFF
    ensures r as bv64 == (long0 & 0xFF_0000_0000) >> 32
  {
    var shift: bv64 := 32; // LG_ARR_LONGS_BYTE << 3
    var mask: bv64 := 0xFF;
    ((long0 >> shift) & mask) as bv32
  }

  /** `insertLgArrLongs`: `long0` with the lgArrLongs (byte 4) replaced by the low bits of `lgArrLongs`. */
  function InsertLgArrLongs(lgArrLongs: bv32, long0: bv64): (r: bv64)
    ensures ExtractLgArrLongs(r) == lgArrLongs & 0xFF
    ensures r & !0xFF_0000_0000 == long0 & !0xFF_0000_0000
  {
    var shift: bv64 := 32; // LG_ARR_LONGS_BYTE << 3
    var mask: bv64 := 0xFF;
    ((SignExtend(lgArrLongs) & mask) << shift) | (!(mask << shift) & long0)
  }

  /** `extractFlags`: the flags (byte 5). */
  function ExtractFlags(long0: bv64): (r: bv32)
    ensures r <= 0xFF
    ensures r as bv64 == (long0 & 0xFF00_0000_0000) >> 40
  {
    var shift: bv64 := 40; // FLAGS_BYTE << 3
    var mask: bv64 := 0xFF;
    ((long0 >> shift) & mask) as bv32
  }

  /** `insertFlags`: `long0` with the flags (byte 5) replaced by the low bits of `flags`. */
  function InsertFlags(flags: bv32, long0: bv64): (r: bv64)
    ensures ExtractFlags(r) == flags & 0xFF
    ensures r & !0xFF00_0000_0000 == long0 & !0xFF00_0000_0000
  {
    var shift: bv64 := 40; // FLAGS_BYTE << 3
    var mask: bv64 := 0xFF;
    ((SignExtend(flags) & mask) << shift) | (!(mask << shift) & long0)
  }

  /** `extractFlagsV1`: the version-1 flags (byte 6). */
  function ExtractFlagsV1(long0: bv64): (r: bv32)
    ensures r <= 0xFF
    ensures r as bv64 == (long0 & 0xFF_0000_0000_0000) >> 48
  {
    var shift: bv64 := 48; // FLAGS_BYTE_V1 << 3
    var mask: bv64 := 0xFF;
    ((long0 >> shift) & mask) as bv32
  }

  /** `extractSeedHash`: the seed hash (bytes 6-7). */
  function ExtractSeedHash(long0: bv64): (r: bv32)
    ensures r <= 0xFFFF
    ensures r as bv64 == (long0 & 0xFFFF_0000_0000_0000) >> 48
  {
    var shift: bv64 := 48; // SEED_HASH_SHORT << 3
    var mask: bv64 := 0xFFFF;
    ((long0 >> shift) & mask) as bv32
  }

  /** `insertSeedHash`: `long0` with the seed hash (bytes 6-7) replaced by the low bits of `seedHash`. */
  function InsertSeedHash(seedHash: bv32, long0: bv64): (r: bv64)
    ensures ExtractSeedHash(r) == seedHash & 0xFFFF
    ensures r & !0xFFFF_0000_0000_0000 == long0 & !0xFFFF_0000_0000_0000
  {
    var shift: bv64 := 48; // SEED_HASH_SHORT << 3
    var mask: bv64 := 0xFFFF;
    ((SignExtend(seedHash) & mask) << shift) | (!(mask << shift) & long0)
  }

  /** `extractCurCount`: the retained-entries count (bytes 8-11). */
  function ExtractCurCount(long1: bv64): (r: bv32)
    ensures r as bv64 == long1 & 0xFFFF_FFFF
  {
    var mask: bv64 := 0xFFFF_FFFF;
    (long1 & mask) as bv32
  }

  /** `insertCurCount`: `long1` with the retained-entries count (bytes 8-11) replaced by the low bits of `curCount`. */
  function InsertCurCount(curCount: bv32, long1: bv64): (r: bv64)
    ensures ExtractCurCount(r) == curCount
    ensures r & !0xFFFF_FFFF == long1 & !0xFFFF_FFFF
  {
    var mask: bv64 := 0xFFFF_FFFF;
    (SignExtend(curCount) & mask) | (!mask & long1)
  }

  /** `extractP`, without the float conversion: the raw bits of the float p (bytes 12-15). */
  function ExtractPBits(long1: bv64): (r: bv32)
    ensures r as bv64 == (long1 & 0xFFFF_FFFF_0000_0000) >> 32
  {
    var shift: bv64 := 32;
    (long1 >> shift) as bv32
  }

  /** `insertP`, given the float's raw bits: `long1` with the raw bits of the float p (bytes 12-15) replaced by the low bits of `pBits`. */
  function InsertPBits(pBits: bv32, long1: bv64): (r: bv64)
    ensures ExtractPBits(r) == pBits
    ensures r & !0xFFFF_FFFF_0000_0000 == long1 & !0xFFFF_FFFF_0000_0000
  {
    var shift: bv64 := 32;
    var mask: bv64 := 0xFFFF_FFFF;
    ((SignExtend(pBits) & mask) << shift) | (!(mask << shift) & long1)
  }

  /** The eight fields of preamble long 0, each as its extract returns it. */
  datatype Long0 = Long0(
    preLongs: bv32, resizeFactor: bv32, serVer: bv32, familyId: bv32,
    lgNomLongs: bv32, lgArrLongs: bv32, flags: bv32, seedHash: bv32)

  /** The two fields of preamble long 1. */
  datatype Long1 = Long1(curCount: bv32, pBits: bv32)

  /** Reads every field of long 0. */
  function Decode0(long0: bv64): (h: Long0)
    ensures InRange0(h)
  {
    Long0(ExtractPreLongs(long0), ExtractResizeFactor(long0), ExtractSerVer(long0),
          ExtractFamilyId(long0), ExtractLgNomLongs(long0), ExtractLgArrLongs(long0),
          ExtractFlags(long0), ExtractSeedHash(long0))
  }

  /** Reads both fields of long 1. */
  function Decode1(long1: bv64): (h: Long1)
  {
    Long1(ExtractCurCount(long1), ExtractPBits(long1))
  }

  /** Every field of a decoded long 0 fits its width. */
  predicate InRange0(h: Long0)
  {
    && h.preLongs <= 0x3F && h.resizeFactor <= 0x3 && h.serVer <= 0xFF
    && h.familyId <= 0xFF && h.lgNomLongs <= 0xFF && h.lgArrLongs <= 0xFF
    && h.flags <= 0xFF && h.seedHash <= 0xFFFF
  }

  /** Writes every field of long 0, in address order, into a zero word. */
  function Encode0(h: Long0): (w: bv64)
  {
    var w := InsertPreLongs(h.preLongs, 0);
    var w := InsertResizeFactor(h.resizeFactor, w);
    var w := InsertSerVer(h.serVer, w);
    var w := InsertFamilyId(h.familyId, w);
    var w := InsertLgNomLongs(h.lgNomLongs, w);
    var w := InsertLgArrLongs(h.lgArrLongs, w);
    var w := InsertFlags(h.flags, w);
    InsertSeedHash(h.seedHash, w)
  }

  /** Writes both fields of long 1 into a zero word. */
  function Encode1(h: Long1): (w: bv64)
  {
    InsertPBits(h.pBits, InsertCurCount(h.curCount, 0))
  }

  /** Each insert into long 0 changes exactly its own field of the decoded
      header, to the value truncated to the field's width. */
  lemma InsertPreLongsDecode(preLongs: bv32, long0: bv64)
    ensures Decode0(InsertPreLongs(preLongs, long0)) == Decode0(long0).(preLongs := preLongs & 0x3F)
  {
  }

  lemma InsertResizeFactorDecode(rf: bv32, long0: bv64)
    ensures Decode0(InsertResizeFactor(rf, long0)) == Decode0(long0).(resizeFactor := rf & 0x3)
  {
  }

  lemma InsertSerVerDecode(serVer: bv32, long0: bv64)
    ensures Decode0(InsertSerVer(serVer, long0)) == Decode0(long0).(serVer := serVer & 0xFF)
  {
  }

  lemma InsertFamilyIdDecode(familyId: bv32, long0: bv64)
    ensures Decode0(InsertFamilyId(familyId, long0)) == Decode0(long0).(familyId := familyId & 0xFF)
  {
  }

  lemma InsertLgNomLongsDecode(lgNomLongs: bv32, long0: bv64)
    ensures Decode0(InsertLgNomLongs(lgNomLongs, long0)) == Decode0(long0).(lgNomLongs := lgNomLongs & 0xFF)
  {
  }

  lemma InsertLgArrLongsDecode(lgArrLongs: bv32, long0: bv64)
    ensures Decode0(InsertLgArrLongs(lgArrLongs, long0)) == Decode0(long0).(lgArrLongs := lgArrLongs & 0xFF)
  {
  }

  lemma InsertFlagsDecode(flags: bv32, long0: bv64)
    ensures Decode0(InsertFlags(flags, long0)) == Decode0(long0).(flags := flags & 0xFF)
  {
  }

  lemma InsertSeedHashDecode(seedHash: bv32, long0: bv64)
    ensures Decode0(InsertSeedHash(seedHash, long0)) == Decode0(long0).(seedHash := seedHash & 0xFFFF)
  {
  }

  lemma InsertCurCountDecode(curCount: bv32, long1: bv64)
    ensures Decode1(InsertCurCount(curCount, long1)) == Decode1(long1).(curCount := curCount)
  {
  }

  lemma InsertPBitsDecode(pBits: bv32, long1: bv64)
    ensures Decode1(InsertPBits(pBits, long1)) == Decode1(long1).(pBits := pBits)
  {
    var r := InsertPBits(pBits, long1);
    assert r & 0xFFFF_FFFF == long1 & 0xFFFF_FFFF;
    assert ExtractCurCount(r) == ExtractCurCount(long1);
  }

  /** Two words of long 0 with the same fields are the same word: the eight
      fields cover all 64 bits. */
  lemma DecodeInjective0(w1: bv64, w2: bv64)
    requires Decode0(w1) == Decode0(w2)
    ensures w1 == w2
  {
    FieldsDetermine0(w1, w2);
  }

  /** The eight extracts together read every bit of long 0. */
  lemma FieldsDetermine0(w1: bv64, w2: bv64)
    requires ExtractPreLongs(w1) == ExtractPreLongs(w2)
    requires ExtractResizeFactor(w1) == ExtractResizeFactor(w2)
    requires ExtractSerVer(w1) == ExtractSerVer(w2)
    requires ExtractFamilyId(w1) == ExtractFamilyId(w2)
    requires ExtractLgNomLongs(w1) == ExtractLgNomLongs(w2)
    requires ExtractLgArrLongs(w1) == ExtractLgArrLongs(w2)
    requires ExtractFlags(w1) == ExtractFlags(w2)
    requires ExtractSeedHash(w1) == ExtractSeedHash(w2)
    ensures w1 == w2
  {
    SamePreLongs(w1, w2);
    SameResizeFactor(w1, w2);
    SameSerVer(w1, w2);
    SameFamilyId(w1, w2);
    SameLgNomLongs(w1, w2);
    SameLgArrLongs(w1, w2);
    SameFlags(w1, w2);
    SameSeedHash(w1, w2);
    MasksCover(w1, w2);
  }

  // Equal field values come from equal bits under the field's mask.
  lemma SamePreLongs(w1: bv64, w2: bv64)
    requires ExtractPreLongs(w1) == ExtractPreLongs(w2)
    ensures w1 & 0x3F == w2 & 0x3F
  {
  }

  lemma SameResizeFactor(w1: bv64, w2: bv64)
    requires ExtractResizeFactor(w1) == ExtractResizeFactor(w2)
    ensures (w1 & 0xC0) >> 6 == (w2 & 0xC0) >> 6
  {
  }

  lemma SameSerVer(w1: bv64, w2: bv64)
    requires ExtractSerVer(w1) == ExtractSerVer(w2)
    ensures (w1 & 0xFF00) >> 8 == (w2 & 0xFF00) >> 8
  {
  }

  lemma SameFamilyId(w1: bv64, w2: bv64)
    requires ExtractFamilyId(w1) == ExtractFamilyId(w2)
    ensures (w1 & 0xFF_0000) >> 16 == (w2 & 0xFF_0000) >> 16
  {
  }

  lemma SameLgNomLongs(w1: bv64, w2: bv64)
    requires ExtractLgNomLongs(w1) == ExtractLgNomLongs(w2)
    ensures (w1 & 0xFF00_0000) >> 24 == (w2 & 0xFF00_0000) >> 24
  {
  }

  lemma SameLgArrLongs(w1: bv64, w2: bv64)
    requires ExtractLgArrLongs(w1) == ExtractLgArrLongs(w2)
    ensures (w1 & 0xFF_0000_0000) >> 32 == (w2 & 0xFF_0000_0000) >> 32
  {
  }

  lemma SameFlags(w1: bv64, w2: bv64)
    requires ExtractFlags(w1) == ExtractFlags(w2)
    ensures (w1 & 0xFF00_0000_0000) >> 40 == (w2 & 0xFF00_0000_0000) >> 40
  {
  }

  lemma SameSeedHash(w1: bv64, w2: bv64)
    requires ExtractSeedHash(w1) == ExtractSeedHash(w2)
    ensures (w1 & 0xFFFF_0000_0000_0000) >> 48 == (w2 & 0xFFFF_0000_0000_0000) >> 48
  {
  }

  /** The eight field masks of long 0 partition its 64 bits. */
  lemma MasksCover(w1: bv64, w2: bv64)
    requires w1 & 0x3F == w2 & 0x3F
    requires (w1 & 0xC0) >> 6 == (w2 & 0xC0) >> 6
    requires (w1 & 0xFF00) >> 8 == (w2 & 0xFF00) >> 8
    requires (w1 & 0xFF_0000) >> 16 == (w2 & 0xFF_0000) >> 16
    requires (w1 & 0xFF00_0000) >> 24 == (w2 & 0xFF00_0000) >> 24
    requires (w1 & 0xFF_0000_0000) >> 32 == (w2 & 0xFF_0000_0000) >> 32
    requires (w1 & 0xFF00_0000_0000) >> 40 == (w2 & 0xFF00_0000_0000) >> 40
    requires (w1 & 0xFFFF_0000_0000_0000) >> 48 == (w2 & 0xFFFF_0000_0000_0000) >> 48
    ensures w1 == w2
  {
  }

  /** The same for long 1. */
  lemma DecodeInjective1(w1: bv64, w2: bv64)
    requires Decode1(w1) == Decode1(w2)
    ensures w1 == w2
  {
  }

  /** Decoding what was encoded gives back every in-range header. */
  lemma {:induction false} Encode0Decodes(h: Long0)
    requires InRange0(h)
    ensures Decode0(Encode0(h)) == h
  {
    var w0 := InsertPreLongs(h.preLongs, 0);
    InsertPreLongsDecode(h.preLongs, 0);
    var w1 := InsertResizeFactor(h.resizeFactor, w0);
    InsertResizeFactorDecode(h.resizeFactor, w0);
    var w2 := InsertSerVer(h.serVer, w1);
    InsertSerVerDecode(h.serVer, w1);
    var w3 := InsertFamilyId(h.familyId, w2);
    InsertFamilyIdDecode(h.familyId, w2);
    var w4 := InsertLgNomLongs(h.lgNomLongs, w3);
    InsertLgNomLongsDecode(h.lgNomLongs, w3);
    var w5 := InsertLgArrLongs(h.lgArrLongs, w4);
    InsertLgArrLongsDecode(h.lgArrLongs, w4);
    var w6 := InsertFlags(h.flags, w5);
    InsertFlagsDecode(h.flags, w5);
    InsertSeedHashDecode(h.seedHash, w6);
  }

  /** The fields of long 0 tile the whole word: encoding what was decoded
      gives the word back, and decoding what was encoded gives back every
      in-range header. */
  lemma {:induction false} Long0RoundTrip(long0: bv64, h: Long0)
    ensures Encode0(Decode0(long0)) == long0
    ensures InRange0(h) ==> Decode0(Encode0(h)) == h
  {
    Encode0Decodes(Decode0(long0));
    DecodeInjective0(Encode0(Decode0(long0)), long0);
    if InRange0(h) {
      Encode0Decodes(h);
    }
  }

  /** The same for long 1, where both fields are full 32-bit halves. */
  lemma {:induction false} Long1RoundTrip(long1: bv64, h: Long1)
    ensures Encode1(Decode1(long1)) == long1
    ensures Decode1(Encode1(h)) == h
  {
    InsertCurCountDecode(h.curCount, 0);
    InsertPBitsDecode(h.pBits, InsertCurCount(h.curCount, 0));
    var d := Decode1(long1);
    InsertCurCountDecode(d.curCount, 0);
    InsertPBitsDecode(d.pBits, InsertCurCount(d.curCount, 0));
    DecodeInjective1(Encode1(d), long1);
  }

  /** The eight fields of long 0, by name. */
  datatype Field0 = PreLongs | ResizeFactor | SerVer | FamilyId | LgNomLongs | LgArrLongs | Flags | SeedHash

  /** A decoded header with field `f` set to `v` truncated to the field's
      width. */
  function Set0(h: Long0, f: Field0, v: bv32): (h': Long0)
  {
    match f
    case PreLongs => h.(preLongs := v & 0x3F)
    case ResizeFactor => h.(resizeFactor := v & 0x3)
    case SerVer => h.(serVer := v & 0xFF)
    case FamilyId => h.(familyId := v & 0xFF)
    case LgNomLongs => h.(lgNomLongs := v & 0xFF)
    case LgArrLongs => h.(lgArrLongs := v & 0xFF)
    case Flags => h.(flags := v & 0xFF)
    case SeedHash => h.(seedHash := v & 0xFFFF)
  }

  /** The `insertX` of field `f`. */
  function Insert0(f: Field0, v: bv32, long0: bv64): (r: bv64)
  {
    match f
    case PreLongs => InsertPreLongs(v, long0)
    case ResizeFactor => InsertResizeFactor(v, long0)
    case SerVer => InsertSerVer(v, long0)
    case FamilyId => InsertFamilyId(v, long0)
    case LgNomLongs => InsertLgNomLongs(v, long0)
    case LgArrLongs => InsertLgArrLongs(v, long0)
    case Flags => InsertFlags(v, long0)
    case SeedHash => InsertSeedHash(v, long0)
  }

  /** Every insert into long 0 changes its own field of the decoded word, to
      the value truncated to the field's width, and no other field. */
  lemma Insert0Decode(f: Field0, v: bv32, long0: bv64)
    ensures Decode0(Insert0(f, v, long0)) == Set0(Decode0(long0), f, v)
  {
    match f
    case PreLongs => InsertPreLongsDecode(v, long0);
    case ResizeFactor => InsertResizeFactorDecode(v, long0);
    case SerVer => InsertSerVerDecode(v, long0);
    case FamilyId => InsertFamilyIdDecode(v, long0);
    case LgNomLongs => InsertLgNomLongsDecode(v, long0);
    case LgArrLongs => InsertLgArrLongsDecode(v, long0);
    case Flags => InsertFlagsDecode(v, long0);
    case SeedHash => InsertSeedHashDecode(v, long0);
  }

  /** Setting two different fields of a record commutes. */
  lemma Set0Commute(h: Long0, f: Field0, g: Field0, u: bv32, v: bv32)
    requires f != g
    ensures Set0(Set0(h, g, v), f, u) == Set0(Set0(h, f, u), g, v)
  {
  }

  /** Inserts into any two distinct fields of long 0 commute, because the
      decoded updates do and the decoding is injective. */
  lemma {:induction false} InsertsCommute(f: Field0, g: Field0, u: bv32, v: bv32, long0: bv64)
    requires f != g
    ensures Insert0(f, u, Insert0(g, v, long0)) == Insert0(g, v, Insert0(f, u, long0))
  {
    var a := Insert0(f, u, Insert0(g, v, long0));
    var b := Insert0(g, v, Insert0(f, u, long0));
    Insert0Decode(g, v, long0);
    Insert0Decode(f, u, Insert0(g, v, long0));
    Insert0Decode(f, u, long0);
    Insert0Decode(g, v, Insert0(f, u, long0));
    Set0Commute(Decode0(long0), f, g, u, v);
    DecodeInjective0(a, b);
  }

  /** Long 1: the count and p occupy the two halves, so their inserts
      commute. */
  lemma {:induction false} CurCountPBitsCommute(curCount: bv32, pBits: bv32, long1: bv64)
    ensures InsertCurCount(curCount, InsertPBits(pBits, long1))
         == InsertPBits(pBits, InsertCurCount(curCount, long1))
  {
    InsertPBitsDecode(pBits, long1);
    InsertCurCountDecode(curCount, InsertPBits(pBits, long1));
    InsertCurCountDecode(curCount, long1);
    InsertPBitsDecode(pBits, InsertCurCount(curCount, long1));
    DecodeInjective1(InsertCurCount(curCount, InsertPBits(pBits, long1)),
                     InsertPBits(pBits, InsertCurCount(curCount, long1)));
  }

  /** The version-1 flags byte is the low byte of the seed hash. */
  lemma FlagsV1InSeedHash(long0: bv64)
    ensures ExtractFlagsV1(long0) == ExtractSeedHash(long0) & 0xFF
  {
  }

  /** `getReqMemBytesFull`: bytes for the preamble plus a hash table of
      2^(lgNomLongs+1) longs, in Java `int` arithmetic. When the shift
      distance is below 32 and the sum fits a Java `int`, that is 16 bytes
      per nominal entry plus 8 bytes per preamble long. */
  function ReqMemBytesFull(lgNomLongs: I32, preambleLongs: I32): (bytes: I32)
    ensures 0 <= lgNomLongs < 32 && 0 <= preambleLongs
            && 16 * Pow2(lgNomLongs) + 8 * preambleLongs < 0x8000_0000
            ==> bytes == 16 * Pow2(lgNomLongs) + 8 * preambleLongs
  {
    assert Pow2(3) == 8;
    AddInt(ShlInt(16, lgNomLongs), ShlInt(preambleLongs, 3))
  }

  /** `getMemBytes`: bytes for the preamble plus a hash table of
      2^lgArrLongs longs, in Java `int` arithmetic. When the shift distance
      is below 32 and the sum fits a Java `int`, that is 8 bytes per array
      slot plus 8 bytes per preamble long. */
  function MemBytes(lgArrLongs: I32, preambleLongs: I32): (bytes: I32)
    ensures 0 <= lgArrLongs < 32 && 0 <= preambleLongs
            && 8 * Pow2(lgArrLongs) + 8 * preambleLongs < 0x8000_0000
            ==> bytes == 8 * Pow2(lgArrLongs) + 8 * preambleLongs
  {
    assert Pow2(3) == 8;
    AddInt(ShlInt(8, lgArrLongs), ShlInt(preambleLongs, 3))
  }

  /** A full-size table of nominal size 2^lgNomLongs has 2^(lgNomLongs+1)
      longs: the two formulas agree, overflow included, whenever Java does not
      reduce the shift distance. */
  lemma {:induction false} ReqMemIsMemOfDoubleTable(lgNomLongs: I32, preambleLongs: I32)
    requires 0 <= lgNomLongs <= 30
    ensures ReqMemBytesFull(lgNomLongs, preambleLongs) == MemBytes(lgNomLongs + 1, preambleLongs)
  {
    assert lgNomLongs % 32 == lgNomLongs && (lgNomLongs + 1) % 32 == lgNomLongs + 1;
    assert Pow2(lgNomLongs + 1) == 2 * Pow2(lgNomLongs);
    assert 16 * Pow2(lgNomLongs) == 8 * Pow2(lgNomLongs + 1);
    assert ShlInt(16, lgNomLongs) == Wrap32(16 * Pow2(lgNomLongs));
    assert ShlInt(8, lgNomLongs + 1) == Wrap32(8 * Pow2(lgNomLongs + 1));
  }
}
