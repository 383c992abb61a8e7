/** CRC-32 of the UEFI table headers (gnu-efi/lib/crc.c).

    The library computes the checksum with a 256-entry table.  Here the table is
    checked against the bit-by-bit definition of section 8 of RFC 1952, the
    table-driven loop is proved to compute that definition, and the error
    detection that the set/check pair is for is proved for every table. */
module Crc {

  // ---------------------------------------------------------------- reference

  const POLY: bv32 := 0xEDB88320

  function Xor(a: bv32, b: bv32): bv32 {
    a ^ b
  }

  /** One bit of the reflected polynomial division. */
  function BitStep(x: bv32): bv32 {
    if x & 1 == 1 then (x >> 1) ^ POLY else x >> 1
  }

  function ByteStep(x: bv32): bv32 {
    BitStep(BitStep(BitStep(BitStep(BitStep(BitStep(BitStep(BitStep(x))))))))
  }

  function Invert(c: bv32): bv32 {
    c ^ 0xFFFFFFFF
  }

  /** The register after one more byte, least significant bit first. */
  function Mix(c: bv32, b: bv8): bv32 {
    ByteStep(Xor(c, b as bv32))
  }

  /** The register after the bytes of `s`. */
  function Feed(c: bv32, s: seq<bv8>): bv32
    decreases |s|
  {
    if s == [] then c else Feed(Mix(c, s[0]), s[1..])
  }

  function Crc32(s: seq<bv8>): bv32 {
    Invert(Feed(0xFFFFFFFF, s))
  }

  // ---------------------------------------------------------------- the table

  /** CRCTable, sixteen entries to a row. */
  const CRC_TABLE: seq<seq<bv32>> := [
    [0x00000000, 0x77073096, 0xEE0E612C, 0x990951BA, 0x076DC419, 0x706AF48F, 0xE963A535, 0x9E6495A3,
     0x0EDB8832, 0x79DCB8A4, 0xE0D5E91E, 0x97D2D988, 0x09B64C2B, 0x7EB17CBD, 0xE7B82D07, 0x90BF1D91],
    [0x1DB71064, 0x6AB020F2, 0xF3B97148, 0x84BE41DE, 0x1ADAD47D, 0x6DDDE4EB, 0xF4D4B551, 0x83D385C7,
     0x136C9856, 0x646BA8C0, 0xFD62F97A, 0x8A65C9EC, 0x14015C4F, 0x63066CD9, 0xFA0F3D63, 0x8D080DF5],
    [0x3B6E20C8, 0x4C69105E, 0xD56041E4, 0xA2677172, 0x3C03E4D1, 0x4B04D447, 0xD20D85FD, 0xA50AB56B,
     0x35B5A8FA, 0x42B2986C, 0xDBBBC9D6, 0xACBCF940, 0x32D86CE3, 0x45DF5C75, 0xDCD60DCF, 0xABD13D59],
    [0x26D930AC, 0x51DE003A, 0xC8D75180, 0xBFD06116, 0x21B4F4B5, 0x56B3C423, 0xCFBA9599, 0xB8BDA50F,
     0x2802B89E, 0x5F058808, 0xC60CD9B2, 0xB10BE924, 0x2F6F7C87, 0x58684C11, 0xC1611DAB, 0xB6662D3D],
    [0x76DC4190, 0x01DB7106, 0x98D220BC, 0xEFD5102A, 0x71B18589, 0x06B6B51F, 0x9FBFE4A5, 0xE8B8D433,
     0x7807C9A2, 0x0F00F934, 0x9609A88E, 0xE10E9818, 0x7F6A0DBB, 0x086D3D2D, 0x91646C97, 0xE6635C01],
    [0x6B6B51F4, 0x1C6C6162, 0x856530D8, 0xF262004E, 0x6C0695ED, 0x1B01A57B, 0x8208F4C1, 0xF50FC457,
     0x65B0D9C6, 0x12B7E950, 0x8BBEB8EA, 0xFCB9887C, 0x62DD1DDF, 0x15DA2D49, 0x8CD37CF3, 0xFBD44C65],
    [0x4DB26158, 0x3AB551CE, 0xA3BC0074, 0xD4BB30E2, 0x4ADFA541, 0x3DD895D7, 0xA4D1C46D, 0xD3D6F4FB,
     0x4369E96A, 0x346ED9FC, 0xAD678846, 0xDA60B8D0, 0x44042D73, 0x33031DE5, 0xAA0A4C5F, 0xDD0D7CC9],
    [0x5005713C, 0x270241AA, 0xBE0B1010, 0xC90C2086, 0x5768B525, 0x206F85B3, 0xB966D409, 0xCE61E49F,
     0x5EDEF90E, 0x29D9C998, 0xB0D09822, 0xC7D7A8B4, 0x59B33D17, 0x2EB40D81, 0xB7BD5C3B, 0xC0BA6CAD],
    [0xEDB88320, 0x9ABFB3B6, 0x03B6E20C, 0x74B1D29A, 0xEAD54739, 0x9DD277AF, 0x04DB2615, 0x73DC1683,
     0xE3630B12, 0x94643B84, 0x0D6D6A3E, 0x7A6A5AA8, 0xE40ECF0B, 0x9309FF9D, 0x0A00AE27, 0x7D079EB1],
    [0xF00F9344, 0x8708A3D2, 0x1E01F268, 0x6906C2FE, 0xF762575D, 0x806567CB, 0x196C3671, 0x6E6B06E7,
     0xFED41B76, 0x89D32BE0, 0x10DA7A5A, 0x67DD4ACC, 0xF9B9DF6F, 0x8EBEEFF9, 0x17B7BE43, 0x60B08ED5],
    [0xD6D6A3E8, 0xA1D1937E, 0x38D8C2C4, 0x4FDFF252, 0xD1BB67F1, 0xA6BC5767, 0x3FB506DD, 0x48B2364B,
     0xD80D2BDA, 0xAF0A1B4C, 0x36034AF6, 0x41047A60, 0xDF60EFC3, 0xA867DF55, 0x316E8EEF, 0x4669BE79],
    [0xCB61B38C, 0xBC66831A, 0x256FD2A0, 0x5268E236, 0xCC0C7795, 0xBB0B4703, 0x220216B9, 0x5505262F,
     0xC5BA3BBE, 0xB2BD0B28, 0x2BB45A92, 0x5CB36A04, 0xC2D7FFA7, 0xB5D0CF31, 0x2CD99E8B, 0x5BDEAE1D],
    [0x9B64C2B0, 0xEC63F226, 0x756AA39C, 0x026D930A, 0x9C0906A9, 0xEB0E363F, 0x72076785, 0x05005713,
     0x95BF4A82, 0xE2B87A14, 0x7BB12BAE, 0x0CB61B38, 0x92D28E9B, 0xE5D5BE0D, 0x7CDCEFB7, 0x0BDBDF21],
    [0x86D3D2D4, 0xF1D4E242, 0x68DDB3F8, 0x1FDA836E, 0x81BE16CD, 0xF6B9265B, 0x6FB077E1, 0x18B74777,
     0x88085AE6, 0xFF0F6A70, 0x66063BCA, 0x11010B5C, 0x8F659EFF, 0xF862AE69, 0x616BFFD3, 0x166CCF45],
    [0xA00AE278, 0xD70DD2EE, 0x4E048354, 0x3903B3C2, 0xA7672661, 0xD06016F7, 0x4969474D, 0x3E6E77DB,
     0xAED16A4A, 0xD9D65ADC, 0x40DF0B66, 0x37D83BF0, 0xA9BCAE53, 0xDEBB9EC5, 0x47B2CF7F, 0x30B5FFE9],
    [0xBDBDF21C, 0xCABAC28A, 0x53B39330, 0x24B4A3A6, 0xBAD03605, 0xCDD70693, 0x54DE5729, 0x23D967BF,
     0xB3667A2E, 0xC4614AB8, 0x5D681B02, 0x2A6F2B94, 0xB40BBE37, 0xC30C8EA1, 0x5A05DF1B, 0x2D02EF8D]
  ]

  predicate Shaped(rows: seq<seq<bv32>>) {
    |rows| == 16 && forall r :: 0 <= r < 16 ==> |rows[r]| == 16
  }

  lemma TableShape()
    ensures Shaped(CRC_TABLE)
  {}

  /** CRCTable[i] */
  function Entry(i: bv8): bv32 {
    TableShape();
    CRC_TABLE[(i >> 4) as int][(i & 0xF) as int]
  }

  /** The row that the bit-by-bit definition gives for indices first .. first+15. */
  function ExpectedRow(first: bv32): (row: seq<bv32>)
    ensures |row| == 16
  {
    [ByteStep(first ^ 0), ByteStep(first ^ 1), ByteStep(first ^ 2), ByteStep(first ^ 3),
     ByteStep(first ^ 4), ByteStep(first ^ 5), ByteStep(first ^ 6), ByteStep(first ^ 7),
     ByteStep(first ^ 8), ByteStep(first ^ 9), ByteStep(first ^ 10), ByteStep(first ^ 11),
     ByteStep(first ^ 12), ByteStep(first ^ 13), ByteStep(first ^ 14), ByteStep(first ^ 15)]
  }

  lemma SameRow(row: seq<bv32>, other: seq<bv32>)
    requires |row| == |other| == 16
    requires row[0] == other[0] && row[1] == other[1] && row[2] == other[2] && row[3] == other[3]
    requires row[4] == other[4] && row[5] == other[5] && row[6] == other[6] && row[7] == other[7]
    requires row[8] == other[8] && row[9] == other[9] && row[10] == other[10] && row[11] == other[11]
    requires row[12] == other[12] && row[13] == other[13] && row[14] == other[14] && row[15] == other[15]
    ensures row == other
  {}

  lemma Row0()
    ensures CRC_TABLE[0] == ExpectedRow(0x00)
  {
    SameRow(CRC_TABLE[0], ExpectedRow(0x00));
  }

  lemma Row1()
    ensures CRC_TABLE[1] == ExpectedRow(0x10)
  {
    SameRow(CRC_TABLE[1], ExpectedRow(0x10));
  }

  lemma Row2()
    ensures CRC_TABLE[2] == ExpectedRow(0x20)
  {
    SameRow(CRC_TABLE[2], ExpectedRow(0x20));
  }

  lemma Row3()
    ensures CRC_TABLE[3] == ExpectedRow(0x30)
  {
    SameRow(CRC_TABLE[3], ExpectedRow(0x30));
  }

  lemma Row4()
    ensures CRC_TABLE[4] == ExpectedRow(0x40)
  {
    SameRow(CRC_TABLE[4], ExpectedRow(0x40));
  }

  lemma Row5()
    ensures CRC_TABLE[5] == ExpectedRow(0x50)
  {
    SameRow(CRC_TABLE[5], ExpectedRow(0x50));
  }

  lemma Row6()
    ensures CRC_TABLE[6] == ExpectedRow(0x60)
  {
    SameRow(CRC_TABLE[6], ExpectedRow(0x60));
  }

  lemma Row7()
    ensures CRC_TABLE[7] == ExpectedRow(0x70)
  {
    SameRow(CRC_TABLE[7], ExpectedRow(0x70));
  }

  lemma Row8()
    ensures CRC_TABLE[8] == ExpectedRow(0x80)
  {
    SameRow(CRC_TABLE[8], ExpectedRow(0x80));
  }

  lemma Row9()
    ensures CRC_TABLE[9] == ExpectedRow(0x90)
  {
    SameRow(CRC_TABLE[9], ExpectedRow(0x90));
  }

  lemma RowA()
    ensures CRC_TABLE[10] == ExpectedRow(0xA0)
  {
    SameRow(CRC_TABLE[10], ExpectedRow(0xA0));
  }

  lemma RowB()
    ensures CRC_TABLE[11] == ExpectedRow(0xB0)
  {
    SameRow(CRC_TABLE[11], ExpectedRow(0xB0));
  }

  lemma RowC()
    ensures CRC_TABLE[12] == ExpectedRow(0xC0)
  {
    SameRow(CRC_TABLE[12], ExpectedRow(0xC0));
  }

  lemma RowD()
    ensures CRC_TABLE[13] == ExpectedRow(0xD0)
  {
    SameRow(CRC_TABLE[13], ExpectedRow(0xD0));
  }

  lemma RowE()
    ensures CRC_TABLE[14] == ExpectedRow(0xE0)
  {
    SameRow(CRC_TABLE[14], ExpectedRow(0xE0));
  }

  lemma RowF()
    ensures CRC_TABLE[15] == ExpectedRow(0xF0)
  {
    SameRow(CRC_TABLE[15], ExpectedRow(0xF0));
  }

  lemma ExpectedEntry(first: bv32, k: bv8)
    requires k < 16
    ensures ExpectedRow(first)[k as int] == ByteStep(first ^ (k as bv32))
  {
    hide ByteStep;
    if k < 8 {
      if k < 4 { if k < 2 { assert k == 0 || k == 1; } else { assert k == 2 || k == 3; } }
      else { if k < 6 { assert k == 4 || k == 5; } else { assert k == 6 || k == 7; } }
    } else {
      if k < 12 { if k < 10 { assert k == 8 || k == 9; } else { assert k == 10 || k == 11; } }
      else { if k < 14 { assert k == 12 || k == 13; } else { assert k == 14 || k == 15; } }
    }
  }

  /** Row number `hi` is the row of the definition. */
  lemma Rows(hi: bv8)
    requires hi < 16
    ensures Shaped(CRC_TABLE) && CRC_TABLE[hi as int] == ExpectedRow((hi as bv32) << 4)
  {
    hide ExpectedRow;
    TableShape();
    if hi < 8 {
      if hi < 4 {
        if hi < 2 { if hi == 0 { Row0(); } else { assert hi == 1; Row1(); } }
        else { if hi == 2 { Row2(); } else { assert hi == 3; Row3(); } }
      } else {
        if hi < 6 { if hi == 4 { Row4(); } else { assert hi == 5; Row5(); } }
        else { if hi == 6 { Row6(); } else { assert hi == 7; Row7(); } }
      }
    } else {
      if hi < 12 {
        if hi < 10 { if hi == 8 { Row8(); } else { assert hi == 9; Row9(); } }
        else { if hi == 10 { RowA(); } else { assert hi == 11; RowB(); } }
      } else {
        if hi < 14 { if hi == 12 { RowC(); } else { assert hi == 13; RowD(); } }
        else { if hi == 14 { RowE(); } else { assert hi == 15; RowF(); } }
      }
    }
  }

  lemma Nibbles(i: bv8)
    ensures (((i >> 4) as bv32) << 4) ^ ((i & 0xF) as bv32) == i as bv32
    ensures i >> 4 < 16 && i & 0xF < 16
  {}

  /** Every one of the 256 table entries is eight steps of the bit-by-bit definition. */
  lemma TableIsBitwise(i: bv8)
    ensures Entry(i) == ByteStep(i as bv32)
  {
    hide ByteStep, ExpectedRow;
    Nibbles(i);
    Rows(i >> 4);
    ExpectedEntry(((i >> 4) as bv32) << 4, i & 0xF);
  }

  // ------------------------------------------------- algebra of the byte step

  predicate Odd(x: bv32) {
    x & 1 == 1
  }

  function Half(x: bv32): bv32 {
    x >> 1
  }

  lemma BitStepForm(x: bv32)
    ensures BitStep(x) == if Odd(x) then Xor(Half(x), POLY) else Half(x)
  {}

  lemma HalfXor(a: bv32, b: bv32)
    ensures Half(Xor(a, b)) == Xor(Half(a), Half(b))
    ensures Odd(Xor(a, b)) <==> Odd(a) != Odd(b)
  {}

  lemma XorSymmetric(a: bv32, b: bv32)
    ensures Xor(a, b) == Xor(b, a)
  {}

  lemma XorAssociates(a: bv32, b: bv32, c: bv32)
    ensures Xor(a, Xor(b, c)) == Xor(Xor(a, b), c)
  {}

  lemma XorSelf(a: bv32, b: bv32)
    ensures Xor(a, Xor(b, b)) == a
  {}

  lemma BitLinear(a: bv32, b: bv32)
    ensures BitStep(Xor(a, b)) == Xor(BitStep(a), BitStep(b))
  {
    hide Xor, Half, Odd, BitStep;
    var x, y := Half(a), Half(b);
    BitStepForm(a); BitStepForm(b); BitStepForm(Xor(a, b));
    HalfXor(a, b);
    XorAssociates(x, y, POLY);
    XorAssociates(x, POLY, y);
    XorSymmetric(y, POLY);
    XorAssociates(x, POLY, Xor(y, POLY));
    XorSymmetric(POLY, Xor(y, POLY));
    XorAssociates(y, POLY, POLY);
    XorSelf(y, POLY);
  }

  /** The byte step is linear over exclusive or. */
  lemma ByteLinear(a: bv32, b: bv32)
    ensures ByteStep(Xor(a, b)) == Xor(ByteStep(a), ByteStep(b))
  {
    hide BitStep, Xor;
    var a1, b1 := BitStep(a), BitStep(b);
    var a2, b2 := BitStep(a1), BitStep(b1);
    var a3, b3 := BitStep(a2), BitStep(b2);
    var a4, b4 := BitStep(a3), BitStep(b3);
    var a5, b5 := BitStep(a4), BitStep(b4);
    var a6, b6 := BitStep(a5), BitStep(b5);
    var a7, b7 := BitStep(a6), BitStep(b6);
    BitLinear(a, b); BitLinear(a1, b1); BitLinear(a2, b2); BitLinear(a3, b3);
    BitLinear(a4, b4); BitLinear(a5, b5); BitLinear(a6, b6); BitLinear(a7, b7);
  }

  lemma BitInjective(a: bv32, b: bv32)
    requires BitStep(a) == BitStep(b)
    ensures a == b
  {}

  /** The byte step loses nothing. */
  lemma ByteInjective(a: bv32, b: bv32)
    requires ByteStep(a) == ByteStep(b)
    ensures a == b
  {
    hide BitStep;
    var a1, b1 := BitStep(a), BitStep(b);
    var a2, b2 := BitStep(a1), BitStep(b1);
    var a3, b3 := BitStep(a2), BitStep(b2);
    var a4, b4 := BitStep(a3), BitStep(b3);
    var a5, b5 := BitStep(a4), BitStep(b4);
    var a6, b6 := BitStep(a5), BitStep(b5);
    var a7, b7 := BitStep(a6), BitStep(b6);
    BitInjective(a7, b7); BitInjective(a6, b6); BitInjective(a5, b5); BitInjective(a4, b4);
    BitInjective(a3, b3); BitInjective(a2, b2); BitInjective(a1, b1); BitInjective(a, b);
  }

  lemma XorCancels(c: bv32, d: bv32, w: bv32)
    requires Xor(c, w) == Xor(d, w)
    ensures c == d
  {}

  lemma ClearBits(x: bv32)
    requires x & 0xFF == 0
    ensures x & 1 != 1 && (x >> 1) & 1 != 1 && (x >> 2) & 1 != 1 && (x >> 3) & 1 != 1
    ensures (x >> 4) & 1 != 1 && (x >> 5) & 1 != 1 && (x >> 6) & 1 != 1 && (x >> 7) & 1 != 1
  {}

  lemma HalfOnce(x: bv32)
    ensures Half(x) == x >> 1 && Half(x >> 1) == x >> 2 && Half(x >> 2) == x >> 3 && Half(x >> 3) == x >> 4
    ensures Half(x >> 4) == x >> 5 && Half(x >> 5) == x >> 6 && Half(x >> 6) == x >> 7 && Half(x >> 7) == x >> 8
  {}

  lemma EvenHalves(x: bv32)
    requires x & 0xFF == 0
    ensures !Odd(x) && !Odd(x >> 1) && !Odd(x >> 2) && !Odd(x >> 3)
    ensures !Odd(x >> 4) && !Odd(x >> 5) && !Odd(x >> 6) && !Odd(x >> 7)
  {
    ClearBits(x);
  }

  /** Bits above the low byte only move down. */
  lemma HighBytesShift(x: bv32)
    requires x & 0xFF == 0
    ensures ByteStep(x) == x >> 8
  {
    hide Half, Odd, Xor, BitStep;
    EvenHalves(x);
    HalfOnce(x);
    BitStepForm(x); BitStepForm(x >> 1); BitStepForm(x >> 2); BitStepForm(x >> 3);
    BitStepForm(x >> 4); BitStepForm(x >> 5); BitStepForm(x >> 6); BitStepForm(x >> 7);
  }

  function HighBytes(c: bv32): bv32 {
    c & 0xFFFFFF00
  }

  /** The table index the library computes: (UINT8) Crc ^ *pt. */
  function Index(c: bv32, b: bv8): bv8 {
    ((c & 0xFF) as bv8) ^ b
  }

  lemma SplitLowByte(c: bv32, b: bv8)
    ensures Xor(c, b as bv32) == Xor(HighBytes(c), Index(c, b) as bv32)
    ensures HighBytes(c) & 0xFF == 0
    ensures HighBytes(c) >> 8 == c >> 8
  {}

  /** The library's update is the byte step of the definition. */
  lemma TableStep(c: bv32, b: bv8)
    ensures Xor(c >> 8, Entry(Index(c, b))) == Mix(c, b)
  {
    hide ByteStep, Xor, Entry, HighBytes, Index;
    SplitLowByte(c, b);
    TableIsBitwise(Index(c, b));
    ByteLinear(HighBytes(c), Index(c, b) as bv32);
    HighBytesShift(HighBytes(c));
  }

  /** A register held in the source's 64-bit accumulator. */
  function Wide(c: bv32): bv64 {
    c as bv64
  }

  function WideIndex(acc: bv64, b: bv8): bv8 {
    ((acc & 0xFF) as bv8) ^ b
  }

  function WideUpdate(acc: bv64, entry: bv32): bv64 {
    (acc >> 8) ^ (entry as bv64)
  }

  function Narrow(acc: bv64): bv32
    requires acc <= 0xFFFFFFFF
  {
    acc as bv32
  }

  function WideInvert(acc: bv64): bv64 {
    acc ^ 0xFFFFFFFF
  }

  lemma WideFits(c: bv32)
    ensures Wide(c) <= 0xFFFFFFFF && Narrow(Wide(c)) == c
  {}

  lemma WideIndexMeaning(c: bv32, b: bv8)
    ensures WideIndex(Wide(c), b) == Index(c, b)
  {}

  lemma WideUpdateMeaning(c: bv32, e: bv32)
    ensures WideUpdate(Wide(c), e) == Wide(Xor(c >> 8, e))
  {}

  lemma WideInverts(c: bv32)
    ensures WideInvert(Wide(c)) == Wide(Invert(c))
  {
    hide Wide, Invert, WideInvert;
    WideIsCast(c);
    WideIsCast(Invert(c));
    InvertIsXor(c);
    InvertCast(c, Invert(c));
  }

  lemma WideIsCast(c: bv32)
    ensures Wide(c) == c as bv64
  {}

  lemma InvertIsXor(c: bv32)
    ensures Invert(c) == c ^ 0xFFFFFFFF
  {}

  lemma InvertCast(c: bv32, d: bv32)
    requires d == c ^ 0xFFFFFFFF
    ensures WideInvert(c as bv64) == d as bv64
  {}

  /** CalculateCrc.  The accumulator is 64 bits wide in the source; it stays below 2^32,
      which is what makes the final cast lossless. */
  method CalculateCrc(pt: array<bv8>, size: nat) returns (crc: bv32)
    requires size <= pt.Length
    ensures crc == Crc32(pt[..size])
  {
    hide Entry, Mix, Xor, Index, Invert, Wide, WideIndex, WideUpdate, WideInvert, Narrow;
    ghost var c: bv32 := 0xFFFFFFFF;
    var acc: bv64 := 0xFFFFFFFF;
    InitialWide();
    var i := 0;
    while i < size
      invariant 0 <= i <= size
      invariant acc == Wide(c) && acc <= 0xFFFFFFFF
      invariant Feed(c, pt[i..size]) == Feed(0xFFFFFFFF, pt[..size])
    {
      WideIndexMeaning(c, pt[i]);
      WideUpdateMeaning(c, Entry(Index(c, pt[i])));
      TableStep(c, pt[i]);
      assert pt[i..size][1..] == pt[i + 1..size];
      acc := WideUpdate(acc, Entry(WideIndex(acc, pt[i])));
      c := Mix(c, pt[i]);
      WideFits(c);
      i := i + 1;
    }
    WideInverts(c);
    WideFits(Invert(c));
    acc := WideInvert(acc);
    crc := Narrow(acc);
  }

  lemma InitialWide()
    ensures Wide(0xFFFFFFFF) == 0xFFFFFFFF
  {}

  // -------------------------------------------------- detection of corruption

  lemma {:induction false} FeedAppend(c: bv32, x: seq<bv8>, y: seq<bv8>)
    ensures Feed(c, x + y) == Feed(Feed(c, x), y)
    decreases |x|
  {
    hide Mix;
    if x == [] {
      assert x + y == y;
    } else {
      assert (x + y)[1..] == x[1..] + y;
      FeedAppend(Mix(c, x[0]), x[1..], y);
    }
  }

  lemma MixInjective(c: bv32, d: bv32, b: bv8)
    requires Mix(c, b) == Mix(d, b)
    ensures c == d
  {
    hide ByteStep, Xor;
    ByteInjective(Xor(c, b as bv32), Xor(d, b as bv32));
    XorCancels(c, d, b as bv32);
  }

  /** Distinct register states stay distinct whatever bytes follow. */
  lemma {:induction false} FeedInjectiveInState(c: bv32, d: bv32, s: seq<bv8>)
    requires Feed(c, s) == Feed(d, s)
    ensures c == d
    decreases |s|
  {
    hide Mix;
    if s != [] {
      FeedInjectiveInState(Mix(c, s[0]), Mix(d, s[0]), s[1..]);
      MixInjective(c, d, s[0]);
    }
  }

  /** A byte put below a word of at most three bytes. */
  function Join(b: bv8, r: bv32): bv32 {
    (b as bv32) ^ (r << 8)
  }

  /** Up to four bytes as one little-endian word. */
  function Word(w: seq<bv8>): bv32 {
    if w == [] then 0 else Join(w[0], Word(w[1..]))
  }

  lemma JoinBounds(b: bv8, r: bv32)
    ensures r <= 0xFFFF ==> Join(b, r) <= 0xFFFFFF
    ensures r <= 0xFF ==> Join(b, r) <= 0xFFFF
    ensures r == 0 ==> Join(b, r) <= 0xFF
  {}

  lemma JoinInjective(b: bv8, r: bv32, b': bv8, r': bv32)
    requires r <= 0xFFFFFF && r' <= 0xFFFFFF
    requires Join(b, r) == Join(b', r')
    ensures b == b' && r == r'
  {}

  lemma {:induction false} WordBound(w: seq<bv8>)
    requires |w| <= 3
    ensures Word(w) <= if |w| == 0 then 0 else if |w| == 1 then 0xFF else if |w| == 2 then 0xFFFF else 0xFFFFFF
  {
    hide Join;
    if w != [] {
      WordBound(w[1..]);
      JoinBounds(w[0], Word(w[1..]));
    }
  }

  lemma {:induction false} WordInjective(v: seq<bv8>, w: seq<bv8>)
    requires |v| == |w| <= 4
    requires Word(v) == Word(w)
    ensures v == w
  {
    hide Join;
    if v != [] {
      WordBound(v[1..]);
      WordBound(w[1..]);
      JoinInjective(v[0], Word(v[1..]), w[0], Word(w[1..]));
      WordInjective(v[1..], w[1..]);
      assert v == [v[0]] + v[1..] && w == [w[0]] + w[1..];
    }
  }

  function Steps(n: nat, x: bv32): bv32 {
    if n == 0 then x else Steps(n - 1, ByteStep(x))
  }

  lemma {:induction false} StepsInjective(n: nat, x: bv32, y: bv32)
    requires Steps(n, x) == Steps(n, y)
    ensures x == y
    decreases n
  {
    hide ByteStep;
    if n > 0 {
      StepsInjective(n - 1, ByteStep(x), ByteStep(y));
      ByteInjective(x, y);
    }
  }

  lemma JoinShifts(b: bv8, r: bv32)
    requires r <= 0xFFFFFF
    ensures Join(b, r) == Xor(b as bv32, r << 8)
    ensures (r << 8) & 0xFF == 0 && (r << 8) >> 8 == r
  {}

  /** The bytes still to come can be mixed in one byte early. */
  lemma MixAhead(c: bv32, b: bv8, r: bv32)
    requires r <= 0xFFFFFF
    ensures Xor(Mix(c, b), r) == ByteStep(Xor(c, Join(b, r)))
  {
    hide ByteStep, Xor, Join;
    JoinShifts(b, r);
    XorAssociates(c, b as bv32, r << 8);
    ByteLinear(Xor(c, b as bv32), r << 8);
    HighBytesShift(r << 8);
  }

  /** Feeding at most four bytes is feeding their word at once. */
  lemma {:induction false} FeedWord(c: bv32, w: seq<bv8>)
    requires |w| <= 4
    ensures Feed(c, w) == Steps(|w|, Xor(c, Word(w)))
    decreases |w|
  {
    if w == [] {
    } else {
      hide ByteStep, Xor, Join, Mix;
      WordBound(w[1..]);
      FeedWord(Mix(c, w[0]), w[1..]);
      MixAhead(c, w[0], Word(w[1..]));
    }
  }

  lemma InvertInjective(c: bv32, d: bv32)
    requires Invert(c) == Invert(d)
    ensures c == d
  {}

  /** No change confined to four consecutive bytes goes unnoticed. */
  lemma BurstChangesCrc(pre: seq<bv8>, v: seq<bv8>, w: seq<bv8>, post: seq<bv8>)
    requires |v| == |w| <= 4 && v != w
    ensures Crc32(pre + v + post) != Crc32(pre + w + post)
  {
    hide Xor, Feed, Word, Invert;
    var init: bv32 := 0xFFFFFFFF;
    var c := Feed(init, pre);
    FeedAppend(init, pre + v, post);
    FeedAppend(init, pre + w, post);
    FeedAppend(init, pre, v);
    FeedAppend(init, pre, w);
    if Crc32(pre + v + post) == Crc32(pre + w + post) {
      InvertInjective(Feed(init, pre + v + post), Feed(init, pre + w + post));
      FeedInjectiveInState(Feed(c, v), Feed(c, w), post);
      FeedWord(c, v);
      FeedWord(c, w);
      StepsInjective(|v|, Xor(c, Word(v)), Xor(c, Word(w)));
      XorSymmetric(c, Word(v));
      XorSymmetric(c, Word(w));
      XorCancels(Word(v), Word(w), c);
      WordInjective(v, w);
    }
  }

  // ------------------------------------------------------ headers: set, check

  /** EFI_TABLE_HEADER: Signature 0..8, Revision 8..12, HeaderSize 12..16, CRC32 16..20, Reserved 20..24. */
  const HEADER_LENGTH: nat := 24
  const CRC_OFFSET: nat := 16

  function FieldBytes(v: bv32): (f: seq<bv8>)
    ensures |f| == 4
  {
    [(v & 0xFF) as bv8, ((v >> 8) & 0xFF) as bv8, ((v >> 16) & 0xFF) as bv8, ((v >> 24) & 0xFF) as bv8]
  }

  function FieldValue(b0: bv8, b1: bv8, b2: bv8, b3: bv8): bv32 {
    (b0 as bv32) | ((b1 as bv32) << 8) | ((b2 as bv32) << 16) | ((b3 as bv32) << 24)
  }

  /** Hdr->CRC32 */
  function Stored(t: seq<bv8>): bv32
    requires |t| >= HEADER_LENGTH
  {
    FieldValue(t[16], t[17], t[18], t[19])
  }

  /** The table with its CRC32 field set to `v`. */
  function WithField(t: seq<bv8>, v: bv32): (r: seq<bv8>)
    requires |t| >= HEADER_LENGTH
    ensures |r| == |t|
  {
    t[..16] + FieldBytes(v) + t[20..]
  }

  lemma FieldRoundTrip(v: bv32)
    ensures FieldValue((v & 0xFF) as bv8, ((v >> 8) & 0xFF) as bv8, ((v >> 16) & 0xFF) as bv8,
                       ((v >> 24) & 0xFF) as bv8) == v
  {}

  lemma FieldInjective(a0: bv8, a1: bv8, a2: bv8, a3: bv8, b0: bv8, b1: bv8, b2: bv8, b3: bv8)
    requires FieldValue(a0, a1, a2, a3) == FieldValue(b0, b1, b2, b3)
    ensures a0 == b0 && a1 == b1 && a2 == b2 && a3 == b3
  {
    ByteOfField(a0, a1, a2, a3);
    ByteOfField(b0, b1, b2, b3);
  }

  lemma ByteOfField(b0: bv8, b1: bv8, b2: bv8, b3: bv8)
    ensures FieldBytes(FieldValue(b0, b1, b2, b3)) == [b0, b1, b2, b3]
  {
    var v := (b0 as bv32) | ((b1 as bv32) << 8) | ((b2 as bv32) << 16) | ((b3 as bv32) << 24);
    ExtractBytes(b0, b1, b2, b3, v);
  }

  lemma ExtractBytes(b0: bv8, b1: bv8, b2: bv8, b3: bv8, v: bv32)
    requires v == (b0 as bv32) | ((b1 as bv32) << 8) | ((b2 as bv32) << 16) | ((b3 as bv32) << 24)
    ensures (v & 0xFF) as bv8 == b0 && ((v >> 8) & 0xFF) as bv8 == b1
    ensures ((v >> 16) & 0xFF) as bv8 == b2 && ((v >> 24) & 0xFF) as bv8 == b3
  {}

  /** The checksum of the first `size` bytes with the CRC32 field taken as zero. */
  function Checksum(t: seq<bv8>, size: nat): bv32
    requires |t| >= HEADER_LENGTH && size <= |t|
  {
    Crc32(WithField(t, 0)[..size])
  }

  predicate Checks(t: seq<bv8>, size: nat)
    requires |t| >= HEADER_LENGTH && size <= |t|
  {
    Stored(t) == Checksum(t, size)
  }

  /** Hdr->CRC32 = v */
  method StoreField(hdr: array<bv8>, v: bv32)
    requires hdr.Length >= HEADER_LENGTH
    modifies hdr
    ensures hdr[..] == WithField(old(hdr[..]), v)
  {
    hdr[16], hdr[17], hdr[18], hdr[19] :=
      (v & 0xFF) as bv8, ((v >> 8) & 0xFF) as bv8, ((v >> 16) & 0xFF) as bv8, ((v >> 24) & 0xFF) as bv8;
  }

  lemma WithFieldTwice(t: seq<bv8>, u: bv32, v: bv32)
    requires |t| >= HEADER_LENGTH
    ensures WithField(WithField(t, u), v) == WithField(t, v)
    ensures Stored(WithField(t, v)) == v
    ensures WithField(t, Stored(t)) == t
  {
    FieldOverwrites(t, u, v);
    FieldReadBack(t, v);
    FieldKept(t);
  }

  lemma FieldOverwrites(t: seq<bv8>, u: bv32, v: bv32)
    requires |t| >= HEADER_LENGTH
    ensures WithField(WithField(t, u), v) == WithField(t, v)
  {
    hide FieldBytes;
    var w := WithField(t, u);
    forall i | 0 <= i < |t| ensures WithField(w, v)[i] == WithField(t, v)[i] {
      FieldPlaces(w, v, i);
      FieldPlaces(t, v, i);
      FieldPlaces(t, u, i);
    }
  }

  lemma FieldPlaces(t: seq<bv8>, v: bv32, i: nat)
    requires |t| >= HEADER_LENGTH && i < |t|
    ensures WithField(t, v)[i] == if 16 <= i < 20 then FieldBytes(v)[i - 16] else t[i]
  {}

  lemma FieldReadBack(t: seq<bv8>, v: bv32)
    requires |t| >= HEADER_LENGTH
    ensures Stored(WithField(t, v)) == v
  {
    FieldRoundTrip(v);
    FieldPlaces(t, v, 16);
    FieldPlaces(t, v, 17);
    FieldPlaces(t, v, 18);
    FieldPlaces(t, v, 19);
    hide FieldValue;
  }

  lemma FieldKept(t: seq<bv8>)
    requires |t| >= HEADER_LENGTH
    ensures WithField(t, Stored(t)) == t
  {
    hide FieldValue, FieldBytes;
    ByteOfField(t[16], t[17], t[18], t[19]);
    forall i | 0 <= i < |t| ensures WithField(t, Stored(t))[i] == t[i] {
      FieldPlaces(t, Stored(t), i);
    }
  }

  /** SetCrcAltSize: leaves a table that checks. */
  method SetCrcAltSize(size: nat, hdr: array<bv8>)
    requires hdr.Length >= HEADER_LENGTH && size <= hdr.Length
    modifies hdr
    ensures hdr[..] == WithField(old(hdr[..]), Checksum(old(hdr[..]), size))
    ensures Checks(hdr[..], size)
  {
    StoreField(hdr, 0);
    var crc := CalculateCrc(hdr, size);
    assert hdr[..][..size] == hdr[..size];
    WithFieldTwice(old(hdr[..]), 0, crc);
    StoreField(hdr, crc);
    WithFieldTwice(old(hdr[..]), crc, 0);
  }

  /** CheckCrcAltSize: a table of size zero or over a non-zero maximum fails, otherwise the
      stored value is compared; the table is byte-identical afterwards. */
  method CheckCrcAltSize(maxSize: nat, size: nat, hdr: array<bv8>) returns (ok: bool)
    requires hdr.Length >= HEADER_LENGTH && size <= hdr.Length
    modifies hdr
    ensures hdr[..] == old(hdr[..])
    ensures ok <==> size != 0 && (maxSize == 0 || size <= maxSize) && Checks(old(hdr[..]), size)
  {
    if size == 0 {
      return false;
    }
    if maxSize != 0 && size > maxSize {
      return false;
    }
    var original := FieldValue(hdr[16], hdr[17], hdr[18], hdr[19]);
    StoreField(hdr, 0);
    var crc := CalculateCrc(hdr, size);
    assert hdr[..][..size] == hdr[..size];
    StoreField(hdr, original);
    WithFieldTwice(old(hdr[..]), 0, original);
    return original == crc;
  }

  /** `t` is `s` with nothing changed outside positions lo .. hi. */
  ghost predicate DiffersOnlyWithin(s: seq<bv8>, t: seq<bv8>, lo: nat, hi: nat) {
    |s| == |t| && forall i :: 0 <= i < |s| && !(lo <= i < hi) ==> s[i] == t[i]
  }

  /** After a successful set, any change to at most four consecutive checked bytes that do not
      touch the CRC32 field makes the check fail. */
  lemma BurstDetected(s: seq<bv8>, t: seq<bv8>, size: nat, lo: nat, hi: nat)
    requires |s| >= HEADER_LENGTH && size <= |s|
    requires Checks(s, size)
    requires lo <= hi <= size && hi - lo <= 4 && (hi <= CRC_OFFSET || CRC_OFFSET + 4 <= lo)
    requires DiffersOnlyWithin(s, t, lo, hi) && s != t
    ensures !Checks(t, size)
  {
    hide Crc32, FieldValue, FieldBytes;
    var a, b := WithField(s, 0)[..size], WithField(t, 0)[..size];
    StoredOutside(s, t, lo, hi);
    WindowDiffers(s, t, lo, hi);
    Window(s, size, lo, hi);
    Window(t, size, lo, hi);
    SameOutside(s, t, size, lo, hi);
    hide DiffersOnlyWithin, Stored, WithField;
    BurstChangesCrc(a[..lo], s[lo..hi], t[lo..hi], a[hi..]);
  }

  lemma StoredOutside(s: seq<bv8>, t: seq<bv8>, lo: nat, hi: nat)
    requires |s| >= HEADER_LENGTH && DiffersOnlyWithin(s, t, lo, hi) && (hi <= CRC_OFFSET || CRC_OFFSET + 4 <= lo)
    ensures Stored(s) == Stored(t)
  {
    hide FieldValue;
    assert s[16] == t[16] && s[17] == t[17] && s[18] == t[18] && s[19] == t[19];
  }

  lemma WindowDiffers(s: seq<bv8>, t: seq<bv8>, lo: nat, hi: nat)
    requires DiffersOnlyWithin(s, t, lo, hi) && lo <= hi <= |s| && s != t
    ensures s[lo..hi] != t[lo..hi]
  {
    var i :| 0 <= i < |s| && s[i] != t[i];
    assert s[lo..hi][i - lo] != t[lo..hi][i - lo];
  }

  lemma Window(s: seq<bv8>, size: nat, lo: nat, hi: nat)
    requires |s| >= HEADER_LENGTH && lo <= hi <= size <= |s|
    requires hi <= CRC_OFFSET || CRC_OFFSET + 4 <= lo
    ensures var a := WithField(s, 0)[..size]; a == a[..lo] + s[lo..hi] + a[hi..]
  {
    hide FieldBytes;
    var a := WithField(s, 0)[..size];
    forall i | 0 <= i < size ensures a[i] == (a[..lo] + s[lo..hi] + a[hi..])[i] {
      FieldPlaces(s, 0, i);
    }
  }

  lemma SameOutside(s: seq<bv8>, t: seq<bv8>, size: nat, lo: nat, hi: nat)
    requires |s| >= HEADER_LENGTH && lo <= hi <= size <= |s|
    requires DiffersOnlyWithin(s, t, lo, hi)
    ensures WithField(s, 0)[..size][..lo] == WithField(t, 0)[..size][..lo]
    ensures WithField(s, 0)[..size][hi..] == WithField(t, 0)[..size][hi..]
  {
    hide FieldBytes;
    var a, b := WithField(s, 0), WithField(t, 0);
    forall i | 0 <= i < size && !(lo <= i < hi) ensures a[..size][i] == b[..size][i] {
      FieldPlaces(s, 0, i);
      FieldPlaces(t, 0, i);
    }
    hide WithField;
  }

  /** Any change confined to the CRC32 field makes the check fail. */
  lemma FieldChangeDetected(s: seq<bv8>, t: seq<bv8>, size: nat)
    requires |s| >= HEADER_LENGTH && size <= |s|
    requires Checks(s, size)
    requires DiffersOnlyWithin(s, t, CRC_OFFSET, CRC_OFFSET + 4) && s != t
    ensures !Checks(t, size)
  {
    hide FieldValue, FieldBytes, Crc32;
    forall i | 0 <= i < |s| ensures WithField(s, 0)[i] == WithField(t, 0)[i] {
      FieldPlaces(s, 0, i);
      FieldPlaces(t, 0, i);
    }
    assert WithField(s, 0) == WithField(t, 0);
    StoredTells(s, t);
  }

  lemma StoredTells(s: seq<bv8>, t: seq<bv8>)
    requires |s| >= HEADER_LENGTH && DiffersOnlyWithin(s, t, CRC_OFFSET, CRC_OFFSET + 4)
    ensures Stored(s) == Stored(t) ==> s == t
  {
    hide FieldValue;
    if Stored(s) == Stored(t) {
      FieldInjective(s[16], s[17], s[18], s[19], t[16], t[17], t[18], t[19]);
    }
  }

  /** Changing any single byte inside the checked size, CRC32 field included, is detected. */
  lemma SingleByteDetected(s: seq<bv8>, size: nat, i: nat, b: bv8)
    requires |s| >= HEADER_LENGTH && size <= |s|
    requires Checks(s, size)
    requires i < size && b != s[i]
    ensures !Checks(s[i := b], size)
  {
    var t := s[i := b];
    assert t[i] != s[i];
    if CRC_OFFSET <= i < CRC_OFFSET + 4 {
      FieldChangeDetected(s, t, size);
    } else {
      BurstDetected(s, t, size, i, i + 1);
    }
  }

  // ------------------------------------------- exactly which changes go unnoticed

  /** Byte by byte, where two sequences differ. */
  function Difference(x: seq<bv8>, y: seq<bv8>): seq<bv8>
    requires |x| == |y|
  {
    if x == [] then [] else [Xor8(x[0], y[0])] + Difference(x[1..], y[1..])
  }

  function Xor8(x: bv8, y: bv8): bv8 {
    x ^ y
  }

  lemma Widened(x: bv8, y: bv8)
    ensures Xor8(x, y) as bv32 == Xor(x as bv32, y as bv32)
  {}

  lemma XorExchange(a: bv32, b: bv32, c: bv32, d: bv32)
    ensures Xor(Xor(a, b), Xor(c, d)) == Xor(Xor(a, c), Xor(b, d))
  {
    hide Xor;
    XorAssociates(a, b, Xor(c, d));
    XorAssociates(b, c, d);
    XorSymmetric(b, c);
    XorAssociates(c, b, d);
    XorAssociates(a, c, Xor(b, d));
  }

  lemma MixLinear(c: bv32, d: bv32, x: bv8, y: bv8)
    ensures Mix(Xor(c, d), Xor8(x, y)) == Xor(Mix(c, x), Mix(d, y))
  {
    Widened(x, y);
    XorExchange(c, d, x as bv32, y as bv32);
    hide ByteStep, Xor, Xor8;
    ByteLinear(Xor(c, x as bv32), Xor(d, y as bv32));
  }

  /** The register is linear in state and bytes together. */
  lemma {:induction false} FeedLinear(c: bv32, d: bv32, x: seq<bv8>, y: seq<bv8>)
    requires |x| == |y|
    ensures Feed(Xor(c, d), Difference(x, y)) == Xor(Feed(c, x), Feed(d, y))
    decreases |x|
  {
    hide Mix, Xor, Xor8;
    if x != [] {
      MixLinear(c, d, x[0], y[0]);
      FeedLinear(Mix(c, x[0]), Mix(d, y[0]), x[1..], y[1..]);
      FeedFirst(Xor(c, d), Xor8(x[0], y[0]), Difference(x[1..], y[1..]));
    }
  }

  lemma FeedFirst(c: bv32, b: bv8, s: seq<bv8>)
    ensures Feed(c, [b] + s) == Feed(Mix(c, b), s)
  {
    hide Mix;
    assert ([b] + s)[1..] == s;
  }

  lemma InvertCancels(c: bv32, d: bv32)
    ensures Xor(Invert(c), Invert(d)) == Xor(c, d)
    ensures Xor(c, c) == 0
    ensures c == d <==> Xor(c, d) == 0
  {}

  /** How far two checksums differ depends on the difference of the bytes alone. */
  lemma CrcDifference(x: seq<bv8>, y: seq<bv8>)
    requires |x| == |y|
    ensures Xor(Crc32(x), Crc32(y)) == Feed(0, Difference(x, y))
  {
    var init: bv32 := 0xFFFFFFFF;
    InvertCancels(Feed(init, x), Feed(init, y));
    InvertCancels(init, init);
    hide Feed, Xor, Invert;
    FeedLinear(init, init, x, y);
  }

  lemma SameXor(a: bv32, b: bv32, c: bv32, d: bv32)
    requires a == c
    ensures b == d <==> Xor(a, b) == Xor(c, d)
  {}

  /** A changed table passes if and only if the change of its CRC32 field is the register that the change of its
      other checked bytes leaves when it starts from zero. */
  lemma ChangePasses(s: seq<bv8>, t: seq<bv8>, size: nat)
    requires |t| == |s| >= HEADER_LENGTH && size <= |s| && Checks(s, size)
    ensures Checks(t, size) <==>
            Xor(Stored(s), Stored(t)) == Feed(0, Difference(WithField(s, 0)[..size], WithField(t, 0)[..size]))
  {
    hide Feed, Xor, Invert, Stored, WithField, Difference, Crc32;
    CrcDifference(WithField(s, 0)[..size], WithField(t, 0)[..size]);
    SameXor(Stored(s), Stored(t), Checksum(s, size), Checksum(t, size));
  }

  function Zeros(n: nat): seq<bv8> {
    if n == 0 then [] else [0] + Zeros(n - 1)
  }

  lemma Xor8Self(b: bv8)
    ensures Xor8(b, b) == 0
  {}

  lemma {:induction false} DifferenceSelf(x: seq<bv8>)
    ensures Difference(x, x) == Zeros(|x|)
  {
    hide Xor8;
    if x != [] {
      Xor8Self(x[0]);
      DifferenceSelf(x[1..]);
    }
  }

  lemma {:induction false} DifferenceAppend(a: seq<bv8>, b: seq<bv8>, c: seq<bv8>, d: seq<bv8>)
    requires |a| == |b| && |c| == |d|
    ensures Difference(a + c, b + d) == Difference(a, b) + Difference(c, d)
  {
    hide Xor8;
    if a == [] {
      assert a + c == c && b + d == d;
    } else {
      assert (a + c)[1..] == a[1..] + c && (b + d)[1..] == b[1..] + d;
      DifferenceAppend(a[1..], b[1..], c, d);
    }
  }

  lemma DifferenceFirst(u: bv8, v: bv8, x: seq<bv8>, y: seq<bv8>)
    requires |x| == |y|
    ensures Difference([u] + x, [v] + y) == [Xor8(u, v)] + Difference(x, y)
  {
    hide Xor8;
    assert ([u] + x)[1..] == x && ([v] + y)[1..] == y;
  }

  /** One changed byte. */
  lemma DifferenceOne(p: seq<bv8>, u: bv8, v: bv8, q: seq<bv8>)
    ensures Difference(p + ([u] + q), p + ([v] + q)) == Zeros(|p|) + ([Xor8(u, v)] + Zeros(|q|))
  {
    hide Difference, Zeros, Xor8;
    DifferenceAppend(p, p, [u] + q, [v] + q);
    DifferenceSelf(p);
    DifferenceFirst(u, v, q, q);
    DifferenceSelf(q);
  }

  lemma {:induction false} FeedZerosFromZero(n: nat)
    ensures Feed(0, Zeros(n)) == 0
  {
    if n > 0 {
      assert Mix(0, 0) == 0;
      hide Mix;
      FeedFirst(0, 0, Zeros(n - 1));
      FeedZerosFromZero(n - 1);
    }
  }

  lemma NextStates()
    ensures Mix(0, 0x19) == 0x646BA8C0 && Mix(0x646BA8C0, 0) == 0x9B00A918 && Mix(0x9B00A918, 0) == 0x13F798FF
    ensures Mix(0x13F798FF, 0) == 0x2D111815 && Mix(0x2D111815, 0) == 0x6DF0F5F3 && Mix(0x6DF0F5F3, 0) == 0x24D95353
    ensures Mix(0x24D95353, 0) == 0xF246D91D && Mix(0xF246D91D, 0) == 0x63F42A00 && Mix(0x63F42A00, 0) == 0x0063F42A
  {}

  lemma FeedZero(c: bv32, d: bv32, n: nat)
    requires n > 0 && Mix(c, 0) == d
    ensures Feed(c, Zeros(n)) == Feed(d, Zeros(n - 1))
  {
    hide Mix, Feed;
    FeedFirst(c, 0, Zeros(n - 1));
  }

  lemma FeedNothing(c: bv32)
    ensures Feed(c, Zeros(0)) == c
  {}

  lemma FeedStraddle()
    ensures Feed(0, Zeros(15) + ([0x19] + Zeros(8))) == 0x0063F42A
  {
    hide Mix, Feed, Zeros;
    NextStates();
    FeedAppend(0, Zeros(15), [0x19] + Zeros(8));
    FeedZerosFromZero(15);
    FeedFirst(0, 0x19, Zeros(8));
    FeedZero(0x646BA8C0, 0x9B00A918, 8);
    FeedZero(0x9B00A918, 0x13F798FF, 7);
    FeedZero(0x13F798FF, 0x2D111815, 6);
    FeedZero(0x2D111815, 0x6DF0F5F3, 5);
    FeedZero(0x6DF0F5F3, 0x24D95353, 4);
    FeedZero(0x24D95353, 0xF246D91D, 3);
    FeedZero(0xF246D91D, 0x63F42A00, 2);
    FeedZero(0x63F42A00, 0x0063F42A, 1);
    FeedNothing(0x0063F42A);
  }

  /** A change of four adjacent bytes, the last before the CRC32 field and the first three of it. */
  function Straddled(s: seq<bv8>): seq<bv8>
    requires |s| >= HEADER_LENGTH
  {
    s[15 := s[15] ^ 0x19][16 := s[16] ^ 0x2A][17 := s[17] ^ 0xF4][18 := s[18] ^ 0x63]
  }

  lemma FieldChange(b0: bv8, b1: bv8, b2: bv8, b3: bv8)
    ensures Xor(FieldValue(b0, b1, b2, b3), FieldValue(b0 ^ 0x2A, b1 ^ 0xF4, b2 ^ 0x63, b3)) == 0x0063F42A
  {}

  /** It goes unnoticed in every header of 24 bytes: across the edge of the field, four bytes are too many. */
  lemma StraddlingBurstPasses(s: seq<bv8>)
    requires |s| >= HEADER_LENGTH && Checks(s, 24)
    ensures DiffersOnlyWithin(s, Straddled(s), 15, 19) && Straddled(s) != s && Checks(Straddled(s), 24)
  {
    hide Checks, Feed, Xor, Xor8, FieldValue, FieldBytes, Difference, Zeros, Straddled, WithField;
    var t := Straddled(s);
    StraddledPlaces(s);
    FieldChange(s[16], s[17], s[18], s[19]);
    var p, q := s[..15], WithField(s, 0)[16..24];
    StraddledParts(s, p, q);
    DifferenceOne(p, s[15], t[15], q);
    FeedStraddle();
    ChangePasses(s, t, 24);
  }

  lemma StraddledPlaces(s: seq<bv8>)
    requires |s| >= HEADER_LENGTH
    ensures var t := Straddled(s);
            && |t| == |s| && DiffersOnlyWithin(s, t, 15, 19) && t[15] != s[15] && Xor8(s[15], t[15]) == 0x19
            && t[16] == s[16] ^ 0x2A && t[17] == s[17] ^ 0xF4 && t[18] == s[18] ^ 0x63 && t[19] == s[19]
  {
    ChangedByte(s[15]);
  }

  lemma StraddledParts(s: seq<bv8>, p: seq<bv8>, q: seq<bv8>)
    requires |s| >= HEADER_LENGTH && p == s[..15] && q == WithField(s, 0)[16..24]
    ensures WithField(s, 0)[..24] == p + ([s[15]] + q)
    ensures |Straddled(s)| == |s| && WithField(Straddled(s), 0)[..24] == p + ([Straddled(s)[15]] + q)
  {
    hide FieldBytes, Straddled, Xor8;
    StraddledPlaces(s);
    var t := Straddled(s);
    var a, b := WithField(s, 0), WithField(t, 0);
    forall i | 0 <= i < 24
      ensures a[..24][i] == (p + ([s[15]] + q))[i] && b[..24][i] == (p + ([t[15]] + q))[i]
    {
      FieldPlaces(s, 0, i);
      FieldPlaces(t, 0, i);
    }
    hide WithField;
  }

  lemma ChangedByte(b: bv8)
    ensures Xor8(b, b ^ 0x19) == 0x19 && b ^ 0x19 != b
  {}

  // ------------------------------------------------------- where the register starts

  lemma FieldWord(v: bv32)
    ensures Word(FieldBytes(v)) == v
  {
    var f := FieldBytes(v);
    assert f[1..] == [f[1], f[2], f[3]] && f[1..][1..] == [f[2], f[3]] && f[1..][1..][1..] == [f[3]];
    assert [f[3]][1..] == [];
    hide FieldBytes;
    assert Word([f[3]]) == Join(f[3], 0);
    assert Word([f[2], f[3]]) == Join(f[2], Join(f[3], 0));
    assert Word([f[1], f[2], f[3]]) == Join(f[1], Join(f[2], Join(f[3], 0)));
    hide Word;
    JoinedField(v);
  }

  lemma JoinedField(v: bv32)
    ensures var f := FieldBytes(v); Join(f[0], Join(f[1], Join(f[2], Join(f[3], 0)))) == v
  {}

  lemma LastSteps()
    ensures ByteStep(0xFFFFFFFF) == 0x2DFD1072 && ByteStep(0x2DFD1072) == 0xBE26ED00
    ensures ByteStep(0xBE26ED00) == 0x00BE26ED && ByteStep(0x00BE26ED) == 0xDEBB20E3
  {}

  lemma XorInverted(c: bv32)
    ensures Xor(c, Invert(c)) == 0xFFFFFFFF
  {}

  /** Whatever the bytes, followed by their own checksum they leave the register at one and the same value. */
  lemma Residue(s: seq<bv8>)
    ensures Feed(0xFFFFFFFF, s + FieldBytes(Crc32(s))) == 0xDEBB20E3
  {
    hide Xor, Feed, Word, Invert, FieldBytes, ByteStep;
    var c := Feed(0xFFFFFFFF, s);
    FeedAppend(0xFFFFFFFF, s, FieldBytes(Crc32(s)));
    FeedWord(c, FieldBytes(Crc32(s)));
    FieldWord(Crc32(s));
    XorInverted(c);
    LastSteps();
    assert Steps(2, 0xBE26ED00) == 0xDEBB20E3;
  }

  /** A zero byte in front always changes the checksum, because the register does not start at zero. */
  lemma LeadingZeroDetected(s: seq<bv8>)
    ensures Crc32([0] + s) != Crc32(s)
  {
    assert Mix(0xFFFFFFFF, 0) != 0xFFFFFFFF;
    hide Mix, Feed, Invert;
    FeedFirst(0xFFFFFFFF, 0, s);
    if Crc32([0] + s) == Crc32(s) {
      InvertInjective(Feed(0xFFFFFFFF, [0] + s), Feed(0xFFFFFFFF, s));
      FeedInjectiveInState(Mix(0xFFFFFFFF, 0), 0xFFFFFFFF, s);
    }
  }

  lemma DigitStates()
    ensures Mix(0xFFFFFFFF, 0x31) == 0x7C231048
    ensures Mix(0x7C231048, 0x32) == 0xB0ACBB32
    ensures Mix(0xB0ACBB32, 0x33) == 0x77B79C2D
    ensures Mix(0x77B79C2D, 0x34) == 0x641C1F5C
    ensures Mix(0x641C1F5C, 0x35) == 0x340AC5E3
    ensures Mix(0x340AC5E3, 0x36) == 0xF68D2C9E
    ensures Mix(0xF68D2C9E, 0x37) == 0xAFFC9660
    ensures Mix(0xAFFC9660, 0x38) == 0x651F2550
    ensures Mix(0x651F2550, 0x39) == 0x340BC6D9
  {}

  /** The customary check value: the checksum of the digits 1 to 9, in ASCII. */
  lemma CheckValue()
    ensures Crc32([0x31, 0x32, 0x33, 0x34, 0x35, 0x36, 0x37, 0x38, 0x39]) == 0xCBF43926
    ensures Crc32([]) == 0
  {
    var s: seq<bv8> := [0x31, 0x32, 0x33, 0x34, 0x35, 0x36, 0x37, 0x38, 0x39];
    hide Mix, Feed;
    DigitStates();
    FeedFrom(0xFFFFFFFF, 0x7C231048, s, 0);
    FeedFrom(0x7C231048, 0xB0ACBB32, s, 1);
    FeedFrom(0xB0ACBB32, 0x77B79C2D, s, 2);
    FeedFrom(0x77B79C2D, 0x641C1F5C, s, 3);
    FeedFrom(0x641C1F5C, 0x340AC5E3, s, 4);
    FeedFrom(0x340AC5E3, 0xF68D2C9E, s, 5);
    FeedFrom(0xF68D2C9E, 0xAFFC9660, s, 6);
    FeedFrom(0xAFFC9660, 0x651F2550, s, 7);
    FeedFrom(0x651F2550, 0x340BC6D9, s, 8);
    assert s[0..] == s && s[9..] == [];
    FeedNone(0x340BC6D9);
    FeedNone(0xFFFFFFFF);
  }

  lemma FeedFrom(c: bv32, d: bv32, s: seq<bv8>, i: nat)
    requires i < |s| && Mix(c, s[i]) == d
    ensures Feed(c, s[i..]) == Feed(d, s[i + 1..])
  {
    hide Mix, Feed;
    FeedFirst(c, s[i], s[i + 1..]);
    assert [s[i]] + s[i + 1..] == s[i..];
  }

  lemma FeedNone(c: bv32)
    ensures Feed(c, []) == c
  {}
}
