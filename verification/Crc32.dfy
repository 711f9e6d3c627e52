/** The checksum of the boot environment (u-boot/tools/crc32lib.c): the CRC-32 of section 8 of
  * RFC 1952, computed with a table and an unrolled loop. */
module Crc32 {

  const POLY: bv32 := 0xedb88320

  function Xor(a: bv32, b: bv32): bv32 {
    a ^ b
  }

  // ---------- The definition, one bit at a time ----------

  /** Multiplies the register by x modulo the polynomial, the lowest power being the most
    * significant bit. */
  function BitStep(c: bv32): bv32 {
    if Odd(c) then Xor(POLY, Half(c)) else Half(c)
  }

  predicate Odd(c: bv32) {
    c & 1 == 1
  }

  function Half(c: bv32): bv32 {
    c >> 1
  }

  /** Takes in the n lowest bits of b, the lowest first. */
  function FeedBits(c: bv32, b: bv8, n: nat): bv32
    decreases n
  {
    if n == 0 then c
    else FeedBits(BitStep(Xor(c, LowBit(b))), b >> 1, n - 1)
  }

  function LowBit(b: bv8): bv32 {
    (b & 1) as bv32
  }

  /** The register after a string of bytes. */
  function Register(c: bv32, bytes: seq<bv8>): bv32
    decreases |bytes|
  {
    if bytes == [] then c else Register(FeedBits(c, bytes[0], 8), bytes[1..])
  }

  /** The checksum of bytes that follow others of the given checksum. */
  function Checksum(crc: bv32, bytes: seq<bv8>): bv32 {
    Xor(Register(Xor(crc, 0xffffffff), bytes), 0xffffffff)
  }

  // ---------- Eight bits at a time ----------

  /** The register after n bit steps. */
  function Steps(c: bv32, n: nat): bv32
    decreases n
  {
    if n == 0 then c else Steps(BitStep(c), n - 1)
  }

  function Step8(c: bv32): bv32 {
    Steps(c, 8)
  }

  function High(c: bv32): bv32 {
    c >> 8
  }

  function Low(c: bv32): bv32 {
    c & 0xff
  }

  lemma XorCommutes(x: bv32, y: bv32)
    ensures Xor(x, y) == Xor(y, x)
  {
  }

  lemma XorAssociates(x: bv32, y: bv32, z: bv32)
    ensures Xor(Xor(x, y), z) == Xor(x, Xor(y, z))
  {
  }

  lemma XorUndoes(x: bv32, y: bv32)
    ensures Xor(Xor(x, y), y) == x
  {
  }

  lemma XorMoves(x: bv32, y: bv32, z: bv32)
    ensures Xor(x, y) == Xor(y, x)
    ensures Xor(Xor(x, y), z) == Xor(x, Xor(y, z))
    ensures Xor(Xor(x, y), y) == x
  {
    hide Xor;
    XorCommutes(x, y);
    XorAssociates(x, y, z);
    XorUndoes(x, y);
  }

  lemma OddXor(a: bv32, b: bv32)
    ensures Odd(Xor(a, b)) == (Odd(a) != Odd(b))
  {
  }

  lemma HalfXor(a: bv32, b: bv32)
    ensures Half(Xor(a, b)) == Xor(Half(a), Half(b))
  {
  }

  lemma BitStepIsLinear(a: bv32, b: bv32)
    ensures BitStep(Xor(a, b)) == Xor(BitStep(a), BitStep(b))
  {
    hide Xor, Odd, Half;
    OddXor(a, b);
    HalfXor(a, b);
    var x, y := Half(a), Half(b);
    XorMoves(POLY, x, y);
    XorMoves(x, POLY, y);
    XorMoves(x, POLY, Xor(POLY, y));
    XorMoves(y, POLY, 0);
    XorCommutes(POLY, Xor(POLY, y));
  }

  lemma {:induction false} StepsAreLinear(a: bv32, b: bv32, n: nat)
    ensures Steps(Xor(a, b), n) == Xor(Steps(a, n), Steps(b, n))
    decreases n
  {
    hide BitStep, Xor;
    if n > 0 {
      BitStepIsLinear(a, b);
      StepsAreLinear(BitStep(a), BitStep(b), n - 1);
    }
  }

  /** No two registers step to the same one. */
  lemma BitStepIsInjective(a: bv32, b: bv32)
    requires BitStep(a) == BitStep(b)
    ensures a == b
  {
  }

  lemma {:induction false} StepsAreInjective(a: bv32, b: bv32, n: nat)
    requires Steps(a, n) == Steps(b, n)
    ensures a == b
    decreases n
  {
    if n > 0 {
      hide BitStep;
      StepsAreInjective(BitStep(a), BitStep(b), n - 1);
      BitStepIsInjective(a, b);
    }
  }

  /** Bits that do not reach the bottom are only shifted. */
  lemma Step8Shifts(w: bv32)
    requires w < 0x1000000
    ensures Step8(w << 8) == w
  {
  }

  lemma SplitWord(c: bv32)
    ensures c == Xor(High(c) << 8, Low(c)) && High(c) < 0x1000000
  {
  }

  /** A table step: the low byte selects what is added to the rest, which is shifted. */
  lemma Step8ByTable(c: bv32)
    ensures Step8(c) == Xor(Step8(Low(c)), High(c))
  {
    hide Steps, Xor, High, Low;
    SplitWord(c);
    Step8Shifts(High(c));
    StepsAreLinear(High(c) << 8, Low(c), 8);
    XorMoves(High(c), Step8(Low(c)), 0);
  }

  /** Whether a byte has ones in its lowest n bits only. */
  predicate Fits(b: bv8, n: nat)
    decreases n
  {
    if n == 0 then b == 0 else Fits(b >> 1, n - 1)
  }

  function Rest(b: bv8): bv32 {
    (b >> 1) as bv32
  }

  lemma SplitByte(b: bv8)
    ensures (b as bv32) == Xor(LowBit(b), Rest(b) << 1)
    ensures BitStep(Rest(b) << 1) == Rest(b)
  {
  }

  lemma TakeBit(c: bv32, b: bv8)
    ensures Xor(BitStep(Xor(c, LowBit(b))), Rest(b)) == BitStep(Xor(c, b as bv32))
  {
    hide BitStep, Xor, LowBit, Rest;
    SplitByte(b);
    BitStepIsLinear(Xor(c, LowBit(b)), Rest(b) << 1);
    XorMoves(c, LowBit(b), Rest(b) << 1);
  }

  /** The bits of a byte can be taken in all at once before the steps. */
  lemma {:induction false} FeedBitsIsSteps(c: bv32, b: bv8, n: nat)
    requires Fits(b, n)
    ensures FeedBits(c, b, n) == Steps(Xor(c, b as bv32), n)
    decreases n
  {
    if n > 0 {
      hide BitStep, Xor, LowBit;
      FeedBitsIsSteps(BitStep(Xor(c, LowBit(b))), b >> 1, n - 1);
      TakeBit(c, b);
    }
  }

  lemma FeedByte(c: bv32, b: bv8)
    ensures FeedBits(c, b, 8) == Step8(Xor(c, b as bv32))
  {
    hide BitStep, Xor, LowBit, Steps, FeedBits;
    assert Fits(b, 8);
    FeedBitsIsSteps(c, b, 8);
  }

  // ---------- The table ----------

  // The built-in table, in rows of sixteen.
  const ROW_0: seq<bv32> := [
    0x00000000, 0x77073096, 0xee0e612c, 0x990951ba, 0x076dc419, 0x706af48f, 0xe963a535, 0x9e6495a3,
    0x0edb8832, 0x79dcb8a4, 0xe0d5e91e, 0x97d2d988, 0x09b64c2b, 0x7eb17cbd, 0xe7b82d07, 0x90bf1d91]
  const ROW_1: seq<bv32> := [
    0x1db71064, 0x6ab020f2, 0xf3b97148, 0x84be41de, 0x1adad47d, 0x6ddde4eb, 0xf4d4b551, 0x83d385c7,
    0x136c9856, 0x646ba8c0, 0xfd62f97a, 0x8a65c9ec, 0x14015c4f, 0x63066cd9, 0xfa0f3d63, 0x8d080df5]
  const ROW_2: seq<bv32> := [
    0x3b6e20c8, 0x4c69105e, 0xd56041e4, 0xa2677172, 0x3c03e4d1, 0x4b04d447, 0xd20d85fd, 0xa50ab56b,
    0x35b5a8fa, 0x42b2986c, 0xdbbbc9d6, 0xacbcf940, 0x32d86ce3, 0x45df5c75, 0xdcd60dcf, 0xabd13d59]
  const ROW_3: seq<bv32> := [
    0x26d930ac, 0x51de003a, 0xc8d75180, 0xbfd06116, 0x21b4f4b5, 0x56b3c423, 0xcfba9599, 0xb8bda50f,
    0x2802b89e, 0x5f058808, 0xc60cd9b2, 0xb10be924, 0x2f6f7c87, 0x58684c11, 0xc1611dab, 0xb6662d3d]
  const ROW_4: seq<bv32> := [
    0x76dc4190, 0x01db7106, 0x98d220bc, 0xefd5102a, 0x71b18589, 0x06b6b51f, 0x9fbfe4a5, 0xe8b8d433,
    0x7807c9a2, 0x0f00f934, 0x9609a88e, 0xe10e9818, 0x7f6a0dbb, 0x086d3d2d, 0x91646c97, 0xe6635c01]
  const ROW_5: seq<bv32> := [
    0x6b6b51f4, 0x1c6c6162, 0x856530d8, 0xf262004e, 0x6c0695ed, 0x1b01a57b, 0x8208f4c1, 0xf50fc457,
    0x65b0d9c6, 0x12b7e950, 0x8bbeb8ea, 0xfcb9887c, 0x62dd1ddf, 0x15da2d49, 0x8cd37cf3, 0xfbd44c65]
  const ROW_6: seq<bv32> := [
    0x4db26158, 0x3ab551ce, 0xa3bc0074, 0xd4bb30e2, 0x4adfa541, 0x3dd895d7, 0xa4d1c46d, 0xd3d6f4fb,
    0x4369e96a, 0x346ed9fc, 0xad678846, 0xda60b8d0, 0x44042d73, 0x33031de5, 0xaa0a4c5f, 0xdd0d7cc9]
  const ROW_7: seq<bv32> := [
    0x5005713c, 0x270241aa, 0xbe0b1010, 0xc90c2086, 0x5768b525, 0x206f85b3, 0xb966d409, 0xce61e49f,
    0x5edef90e, 0x29d9c998, 0xb0d09822, 0xc7d7a8b4, 0x59b33d17, 0x2eb40d81, 0xb7bd5c3b, 0xc0ba6cad]
  const ROW_8: seq<bv32> := [
    0xedb88320, 0x9abfb3b6, 0x03b6e20c, 0x74b1d29a, 0xead54739, 0x9dd277af, 0x04db2615, 0x73dc1683,
    0xe3630b12, 0x94643b84, 0x0d6d6a3e, 0x7a6a5aa8, 0xe40ecf0b, 0x9309ff9d, 0x0a00ae27, 0x7d079eb1]
  const ROW_9: seq<bv32> := [
    0xf00f9344, 0x8708a3d2, 0x1e01f268, 0x6906c2fe, 0xf762575d, 0x806567cb, 0x196c3671, 0x6e6b06e7,
    0xfed41b76, 0x89d32be0, 0x10da7a5a, 0x67dd4acc, 0xf9b9df6f, 0x8ebeeff9, 0x17b7be43, 0x60b08ed5]
  const ROW_10: seq<bv32> := [
    0xd6d6a3e8, 0xa1d1937e, 0x38d8c2c4, 0x4fdff252, 0xd1bb67f1, 0xa6bc5767, 0x3fb506dd, 0x48b2364b,
    0xd80d2bda, 0xaf0a1b4c, 0x36034af6, 0x41047a60, 0xdf60efc3, 0xa867df55, 0x316e8eef, 0x4669be79]
  const ROW_11: seq<bv32> := [
    0xcb61b38c, 0xbc66831a, 0x256fd2a0, 0x5268e236, 0xcc0c7795, 0xbb0b4703, 0x220216b9, 0x5505262f,
    0xc5ba3bbe, 0xb2bd0b28, 0x2bb45a92, 0x5cb36a04, 0xc2d7ffa7, 0xb5d0cf31, 0x2cd99e8b, 0x5bdeae1d]
  const ROW_12: seq<bv32> := [
    0x9b64c2b0, 0xec63f226, 0x756aa39c, 0x026d930a, 0x9c0906a9, 0xeb0e363f, 0x72076785, 0x05005713,
    0x95bf4a82, 0xe2b87a14, 0x7bb12bae, 0x0cb61b38, 0x92d28e9b, 0xe5d5be0d, 0x7cdcefb7, 0x0bdbdf21]
  const ROW_13: seq<bv32> := [
    0x86d3d2d4, 0xf1d4e242, 0x68ddb3f8, 0x1fda836e, 0x81be16cd, 0xf6b9265b, 0x6fb077e1, 0x18b74777,
    0x88085ae6, 0xff0f6a70, 0x66063bca, 0x11010b5c, 0x8f659eff, 0xf862ae69, 0x616bffd3, 0x166ccf45]
  const ROW_14: seq<bv32> := [
    0xa00ae278, 0xd70dd2ee, 0x4e048354, 0x3903b3c2, 0xa7672661, 0xd06016f7, 0x4969474d, 0x3e6e77db,
    0xaed16a4a, 0xd9d65adc, 0x40df0b66, 0x37d83bf0, 0xa9bcae53, 0xdebb9ec5, 0x47b2cf7f, 0x30b5ffe9]
  const ROW_15: seq<bv32> := [
    0xbdbdf21c, 0xcabac28a, 0x53b39330, 0x24b4a3a6, 0xbad03605, 0xcdd70693, 0x54de5729, 0x23d967bf,
    0xb3667a2e, 0xc4614ab8, 0x5d681b02, 0x2a6f2b94, 0xb40bbe37, 0xc30c8ea1, 0x5a05df1b, 0x2d02ef8d]

  function Row(k: bv4): (row: seq<bv32>)
    ensures |row| == 16
  {
    match k
    case 0 => ROW_0 case 1 => ROW_1 case 2 => ROW_2 case 3 => ROW_3
    case 4 => ROW_4 case 5 => ROW_5 case 6 => ROW_6 case 7 => ROW_7
    case 8 => ROW_8 case 9 => ROW_9 case 10 => ROW_10 case 11 => ROW_11
    case 12 => ROW_12 case 13 => ROW_13 case 14 => ROW_14 case 15 => ROW_15
  }

  function CrcTable(x: bv8): bv32 {
    Row((x >> 4) as bv4)[(x & 0xf) as nat]
  }

  /** A row is its first entry plus the first row. */
  predicate Follows(row: seq<bv32>, first: seq<bv32>)
  {
    && |row| == |first| == 16
    && row[1] == Xor(row[0], first[1]) && row[2] == Xor(row[0], first[2]) && row[3] == Xor(row[0], first[3])
    && row[4] == Xor(row[0], first[4]) && row[5] == Xor(row[0], first[5]) && row[6] == Xor(row[0], first[6])
    && row[7] == Xor(row[0], first[7]) && row[8] == Xor(row[0], first[8]) && row[9] == Xor(row[0], first[9])
    && row[10] == Xor(row[0], first[10]) && row[11] == Xor(row[0], first[11]) && row[12] == Xor(row[0], first[12])
    && row[13] == Xor(row[0], first[13]) && row[14] == Xor(row[0], first[14]) && row[15] == Xor(row[0], first[15])
  }

  lemma Rows1To5()
    ensures Follows(ROW_1, ROW_0) && Follows(ROW_2, ROW_0) && Follows(ROW_3, ROW_0)
            && Follows(ROW_4, ROW_0) && Follows(ROW_5, ROW_0)
  {
  }

  lemma Rows6To10()
    ensures Follows(ROW_6, ROW_0) && Follows(ROW_7, ROW_0) && Follows(ROW_8, ROW_0)
            && Follows(ROW_9, ROW_0) && Follows(ROW_10, ROW_0)
  {
  }

  lemma Rows11To15()
    ensures Follows(ROW_11, ROW_0) && Follows(ROW_12, ROW_0) && Follows(ROW_13, ROW_0)
            && Follows(ROW_14, ROW_0) && Follows(ROW_15, ROW_0)
  {
  }

  lemma RowsFollow(k: bv4)
    requires k != 0
    ensures Follows(Row(k), Row(0))
  {
    hide Follows;
    Rows1To5();
    Rows6To10();
    Rows11To15();
    match k
    case 1 => case 2 => case 3 => case 4 => case 5 =>
    case 6 => case 7 => case 8 => case 9 => case 10 =>
    case 11 => case 12 => case 13 => case 14 => case 15 =>
  }

  lemma FirstRow(j: bv4)
    ensures Row(0)[j as nat] == Step8(j as bv32)
  {
    assert Row(0) == ROW_0;
    if j < 8 {
      FirstHalf(j);
    } else {
      SecondHalf(j);
    }
  }

  lemma FirstHalf(j: bv4)
    requires j < 8
    ensures ROW_0[j as nat] == Step8(j as bv32)
  {
    match j
    case 0 => case 1 => case 2 => case 3 => case 4 => case 5 => case 6 => case 7 =>
  }

  lemma SecondHalf(j: bv4)
    requires 8 <= j
    ensures ROW_0[j as nat] == Step8(j as bv32)
  {
    match j
    case 8 => case 9 => case 10 => case 11 => case 12 => case 13 => case 14 => case 15 =>
  }

  lemma FirstColumn(k: bv4)
    ensures Row(k)[0] == Step8((k as bv32) << 4)
  {
  }

  /** The built-in table holds the eight steps of every byte. */
  lemma TableIsRight(x: bv8)
    ensures CrcTable(x) == Step8(x as bv32)
  {
    hide Row, Steps, Xor, Follows;
    var k, j := (x >> 4) as bv4, (x & 0xf) as bv4;
    FirstRow(j);
    FirstColumn(k);
    SplitNibbles(x);
    StepsAreLinear((k as bv32) << 4, j as bv32, 8);
    EntryOfRow(k, j);
  }

  lemma SplitNibbles(x: bv8)
    ensures x as bv32 == Xor((((x >> 4) as bv4) as bv32) << 4, ((x & 0xf) as bv4) as bv32)
    ensures (x & 0xf) as nat == ((x & 0xf) as bv4) as nat
  {
  }

  lemma EntryOfRow(k: bv4, j: bv4)
    ensures Row(k)[j as nat] == Xor(Row(k)[0], Row(0)[j as nat])
  {
    hide Row, Xor;
    if k == 0 || j == 0 {
      FirstRowStartsAtZero(k, j);
    } else {
      RowsFollow(k);
      match j
      case 1 => case 2 => case 3 => case 4 => case 5 => case 6 => case 7 => case 8 =>
      case 9 => case 10 => case 11 => case 12 => case 13 => case 14 => case 15 =>
    }
  }

  lemma FirstRowStartsAtZero(k: bv4, j: bv4)
    ensures Row(0)[0] == 0
    ensures Xor(Row(k)[0], 0) == Row(k)[0] && Xor(0, Row(0)[j as nat]) == Row(0)[j as nat]
  {
    hide Row;
    FirstRow(0);
  }

  /** The powers of x in the polynomial, except x^32. */
  const EXPONENTS: seq<nat> := [0, 1, 2, 4, 5, 7, 8, 10, 11, 12, 16, 22, 23, 26]

  function Term(e: nat): bv32
    requires e < 32
  {
    1 << (31 - e)
  }

  function Pattern(n: nat): bv32
    requires n <= |EXPONENTS|
  {
    if n == 0 then 0 else Pattern(n - 1) | Term(EXPONENTS[n - 1])
  }

  lemma Terms()
    ensures Term(0) == 0x80000000
    ensures Term(1) == 0x40000000
    ensures Term(2) == 0x20000000
    ensures Term(4) == 0x8000000
    ensures Term(5) == 0x4000000
    ensures Term(7) == 0x1000000
    ensures Term(8) == 0x800000
    ensures Term(10) == 0x200000
    ensures Term(11) == 0x100000
    ensures Term(12) == 0x80000
    ensures Term(16) == 0x8000
    ensures Term(22) == 0x200
    ensures Term(23) == 0x100
    ensures Term(26) == 0x20
  {
  }

  lemma PatternIsPoly()
    ensures Pattern(14) == POLY
  {
    hide Term;
    Terms();
    assert Pattern(4) == 0xe8000000;
    assert Pattern(8) == 0xeda00000;
    assert Pattern(11) == 0xedb88000;
  }

  /** The bit pattern of the polynomial. */
  method MakePoly() returns (poly: bv32)
    ensures poly == POLY
  {
    hide Term;
    poly := 0;
    for n := 0 to |EXPONENTS|
      invariant poly == Pattern(n)
    {
      poly := poly | Term(EXPONENTS[n]);
    }
    PatternIsPoly();
  }

  /** One entry of the table. */
  method MakeEntry(poly: bv32, x: bv8) returns (c: bv32)
    requires poly == POLY
    ensures c == CrcTable(x)
  {
    hide Odd, Half, Xor, CrcTable;
    c := x as bv32;
    for k := 0 to 8
      invariant Steps(c, 8 - k) == Step8(x as bv32)
    {
      c := if Odd(c) then Xor(poly, Half(c)) else Half(c);
    }
    TableIsRight(x);
  }

  lemma SameIndex(x: bv8, y: bv8)
    ensures x as nat == y as nat ==> x == y
  {
  }

  /** The code that makes the table makes the built-in one. */
  method MakeCrcTable(table: array<bv32>)
    requires table.Length == 256
    modifies table
    ensures forall x: bv8 :: table[x as nat] == CrcTable(x)
  {
    hide CrcTable;
    var poly := MakePoly();
    for n := 0 to 256
      invariant forall x: bv8 :: x as nat < n ==> table[x as nat] == CrcTable(x)
    {
      table[n] := MakeEntry(poly, n as bv8);
      forall x: bv8 | x as nat < n + 1
        ensures table[x as nat] == CrcTable(x)
      {
        if x as nat == n {
          SameIndex(x, n as bv8);
        }
      }
    }
  }

  // ---------- The checksum ----------

  function Do1(crc: bv32, b: bv8): bv32 {
    Xor(CrcTable(Low(Xor(crc, b as bv32)) as bv8), High(crc))
  }

  lemma Do1IsFeed(crc: bv32, b: bv8)
    ensures Do1(crc, b) == FeedBits(crc, b, 8)
  {
    hide CrcTable, Step8, Steps, Xor, FeedBits;
    var c := Xor(crc, b as bv32);
    FeedByte(crc, b);
    Step8ByTable(c);
    TableIsRight(Low(c) as bv8);
    HighUnchanged(crc, b);
  }

  lemma HighUnchanged(crc: bv32, b: bv8)
    ensures High(Xor(crc, b as bv32)) == High(crc)
    ensures (Low(crc) as bv8) as bv32 == Low(crc)
  {
  }

  function Do2(crc: bv32, buf: seq<bv8>): bv32
    requires |buf| == 2
  {
    Do1(Do1(crc, buf[0]), buf[1])
  }

  function Do4(crc: bv32, buf: seq<bv8>): bv32
    requires |buf| == 4
  {
    Do2(Do2(crc, buf[..2]), buf[2..])
  }

  function Do8(crc: bv32, buf: seq<bv8>): bv32
    requires |buf| == 8
  {
    Do4(Do4(crc, buf[..4]), buf[4..])
  }

  /** Taking in one string after another. */
  lemma {:induction false} RegisterOfAppend(c: bv32, a: seq<bv8>, b: seq<bv8>)
    ensures Register(c, a + b) == Register(Register(c, a), b)
    decreases |a|
  {
    hide FeedBits;
    if a == [] {
      assert a + b == b;
    } else {
      RegisterOfAppend(FeedBits(c, a[0], 8), a[1..], b);
      assert (a + b)[1..] == a[1..] + b;
    }
  }

  lemma Do2IsRegister(crc: bv32, buf: seq<bv8>)
    requires |buf| == 2
    ensures Do2(crc, buf) == Register(crc, buf)
  {
    hide Do1, Register;
    Do1IsRegister(crc, buf[0]);
    Do1IsRegister(Do1(crc, buf[0]), buf[1]);
    RegisterOfAppend(crc, [buf[0]], [buf[1]]);
    assert [buf[0]] + [buf[1]] == buf;
  }

  lemma Do4IsRegister(crc: bv32, buf: seq<bv8>)
    requires |buf| == 4
    ensures Do4(crc, buf) == Register(crc, buf)
  {
    hide Do2, Register;
    Do2IsRegister(crc, buf[..2]);
    Do2IsRegister(Do2(crc, buf[..2]), buf[2..]);
    RegisterOfAppend(crc, buf[..2], buf[2..]);
    assert buf[..2] + buf[2..] == buf;
  }

  lemma Do8IsRegister(crc: bv32, buf: seq<bv8>)
    requires |buf| == 8
    ensures Do8(crc, buf) == Register(crc, buf)
  {
    hide Do4, Register;
    Do4IsRegister(crc, buf[..4]);
    Do4IsRegister(Do4(crc, buf[..4]), buf[4..]);
    RegisterOfAppend(crc, buf[..4], buf[4..]);
    assert buf[..4] + buf[4..] == buf;
  }

  /** The unrolled table loop computes the checksum defined bit by bit. */
  method Crc32(start: bv32, buf: seq<bv8>) returns (crc: bv32)
    ensures crc == Checksum(start, buf)
  {
    hide Xor, Do1, Do8, Register;
    crc := Xor(start, 0xffffffff);
    ghost var first := crc;
    var p: nat, len: nat := 0, |buf|;
    EmptyString(crc);
    while len >= 8
      invariant p + len == |buf|
      invariant crc == Register(first, buf[..p])
    {
      Do8IsRegister(crc, buf[p..p + 8]);
      RegisterOfAppend(first, buf[..p], buf[p..p + 8]);
      assert buf[..p + 8] == buf[..p] + buf[p..p + 8];
      crc := Do8(crc, buf[p..p + 8]);
      p, len := p + 8, len - 8;
    }
    while len > 0
      invariant p + len == |buf|
      invariant crc == Register(first, buf[..p])
    {
      Do1IsRegister(crc, buf[p]);
      RegisterOfAppend(first, buf[..p], [buf[p]]);
      assert buf[..p + 1] == buf[..p] + [buf[p]];
      crc := Do1(crc, buf[p]);
      p, len := p + 1, len - 1;
    }
    assert buf[..p] == buf;
    crc := Xor(crc, 0xffffffff);
  }

  lemma EmptyString(c: bv32)
    ensures Register(c, []) == c
  {
  }

  lemma Do1IsRegister(crc: bv32, b: bv8)
    ensures Do1(crc, b) == Register(crc, [b])
  {
    hide Do1, FeedBits;
    Do1IsFeed(crc, b);
  }

  // ---------- Properties of the checksum ----------

  lemma NextByte(bytes: seq<bv8>, i: nat, c: bv32, b: bv8, next: bv32)
    requires i < |bytes| && bytes[i] == b && Do1(c, b) == next
    ensures Register(c, bytes[i..]) == Register(next, bytes[i + 1..])
  {
    hide FeedBits, Do1;
    Do1IsFeed(c, b);
    assert bytes[i..][1..] == bytes[i + 1..];
  }

  const DIGITS: seq<bv8> := [0x31, 0x32, 0x33, 0x34, 0x35, 0x36, 0x37, 0x38, 0x39]

  lemma FirstDigits()
    ensures Register(0xffffffff, DIGITS[0..]) == Register(0x77b79c2d, DIGITS[3..])
  {
    hide Register;
    NextByte(DIGITS, 0, 0xffffffff, 0x31, 0x7c231048);
    NextByte(DIGITS, 1, 0x7c231048, 0x32, 0xb0acbb32);
    NextByte(DIGITS, 2, 0xb0acbb32, 0x33, 0x77b79c2d);
  }

  lemma MiddleDigits()
    ensures Register(0x77b79c2d, DIGITS[3..]) == Register(0xf68d2c9e, DIGITS[6..])
  {
    hide Register;
    NextByte(DIGITS, 3, 0x77b79c2d, 0x34, 0x641c1f5c);
    NextByte(DIGITS, 4, 0x641c1f5c, 0x35, 0x340ac5e3);
    NextByte(DIGITS, 5, 0x340ac5e3, 0x36, 0xf68d2c9e);
  }

  lemma LastDigits()
    ensures Register(0xf68d2c9e, DIGITS[6..]) == Register(0x340bc6d9, DIGITS[9..])
  {
    hide Register;
    NextByte(DIGITS, 6, 0xf68d2c9e, 0x37, 0xaffc9660);
    NextByte(DIGITS, 7, 0xaffc9660, 0x38, 0x651f2550);
    NextByte(DIGITS, 8, 0x651f2550, 0x39, 0x340bc6d9);
  }

  /** The checksum of the digits from 1 to 9 is the check value of the standard CRC-32. */
  lemma CheckValue()
    ensures Checksum(0, [0x31, 0x32, 0x33, 0x34, 0x35, 0x36, 0x37, 0x38, 0x39]) == 0xcbf43926
  {
    hide Register;
    assert DIGITS[0..] == DIGITS && DIGITS[9..] == [];
    FirstDigits();
    MiddleDigits();
    LastDigits();
    EmptyString(0x340bc6d9);
  }

  /** A checksum can be continued. */
  lemma ChecksumOfAppend(crc: bv32, a: seq<bv8>, b: seq<bv8>)
    ensures Checksum(crc, a + b) == Checksum(Checksum(crc, a), b)
  {
    hide Xor, Register;
    var ones: bv32 := 0xffffffff;
    RegisterOfAppend(Xor(crc, ones), a, b);
    XorMoves(Register(Xor(crc, ones), a), ones, 0);
  }

  /** Up to four bytes as a word, the first byte lowest. */
  function Word(x: seq<bv8>): bv32
    requires |x| <= 4
    decreases |x|
  {
    if x == [] then 0 else Xor(x[0] as bv32, Up(Word(x[1..])))
  }

  function Up(w: bv32): bv32 {
    w << 8
  }

  /** Whether a word has ones in its lowest n bytes only. */
  predicate Within(w: bv32, n: nat)
    requires n <= 4
  {
    n == 4 || (n == 3 && w < 0x1000000) || (n == 2 && w < 0x10000) || (n == 1 && w < 0x100) || (n == 0 && w == 0)
  }

  lemma WordGrows(b: bv8, w: bv32, n: nat)
    requires n < 4 && Within(w, n)
    ensures Within(Xor(b as bv32, Up(w)), n + 1)
    ensures w < 0x1000000
  {
  }

  lemma {:induction false} WordFits(x: seq<bv8>)
    requires |x| <= 4
    ensures Within(Word(x), |x|)
    decreases |x|
  {
    hide Xor, Up;
    if x != [] {
      WordFits(x[1..]);
      WordGrows(x[0], Word(x[1..]), |x| - 1);
    } else {
      hide Word;
    }
  }

  lemma WordSplits(b: bv8, c: bv8, v: bv32, w: bv32)
    requires v < 0x1000000 && w < 0x1000000
    requires Xor(b as bv32, Up(v)) == Xor(c as bv32, Up(w))
    ensures b == c && v == w
  {
  }

  lemma WordUnfolds(x: seq<bv8>)
    requires 0 < |x| <= 4
    ensures Word(x) == Xor(x[0] as bv32, Up(Word(x[1..]))) && Word(x[1..]) < 0x1000000
  {
    hide Xor, Up;
    WordFits(x[1..]);
    WordGrows(x[0], Word(x[1..]), |x| - 1);
  }

  lemma SameWords(x: seq<bv8>, y: seq<bv8>)
    requires 0 < |x| == |y| <= 4 && Word(x) == Word(y)
    ensures x[0] == y[0] && Word(x[1..]) == Word(y[1..])
  {
    hide Xor, Up, Word;
    WordUnfolds(x);
    WordUnfolds(y);
    WordSplits(x[0], y[0], Word(x[1..]), Word(y[1..]));
  }

  lemma {:induction false} WordIsInjective(x: seq<bv8>, y: seq<bv8>)
    requires |x| == |y| <= 4 && Word(x) == Word(y)
    ensures x == y
    decreases |x|
  {
    if x != [] {
      hide Word;
      SameWords(x, y);
      WordIsInjective(x[1..], y[1..]);
      assert x == [x[0]] + x[1..] && y == [y[0]] + y[1..];
    }
  }

  /** The register after n bytes' worth of steps. */
  function Steps8(c: bv32, n: nat): bv32
    decreases n
  {
    if n == 0 then c else Steps8(Step8(c), n - 1)
  }

  lemma {:induction false} Steps8AreInjective(a: bv32, b: bv32, n: nat)
    requires Steps8(a, n) == Steps8(b, n)
    ensures a == b
    decreases n
  {
    if n > 0 {
      hide Steps;
      Steps8AreInjective(Step8(a), Step8(b), n - 1);
      StepsAreInjective(a, b, 8);
    }
  }

  lemma Push(c: bv32, b: bv8, w: bv32)
    requires w < 0x1000000
    ensures Xor(Step8(Xor(c, b as bv32)), w) == Step8(Xor(c, Xor(b as bv32, Up(w))))
  {
    hide Steps, Xor;
    Step8Shifts(w);
    StepsAreLinear(Xor(c, b as bv32), Up(w), 8);
    XorMoves(c, b as bv32, Up(w));
  }

  /** Up to four bytes can be taken in whole. */
  lemma {:induction false} RegisterOfWord(c: bv32, x: seq<bv8>)
    requires |x| <= 4
    ensures Register(c, x) == Steps8(Xor(c, Word(x)), |x|)
    decreases |x|
  {
    hide Xor, Up, Step8, FeedBits;
    if x == [] {
      XorZero(c);
    } else {
      FeedByte(c, x[0]);
      RegisterOfWord(FeedBits(c, x[0], 8), x[1..]);
      WordUnfolds(x);
      Push(c, x[0], Word(x[1..]));
    }
  }

  lemma XorZero(c: bv32)
    ensures Xor(c, 0) == c
  {
  }

  lemma XorCancels(c: bv32, v: bv32, w: bv32)
    requires Xor(c, v) == Xor(c, w)
    ensures v == w
  {
  }

  /** The same bytes take different registers to different ones. */
  lemma {:induction false} RegisterIsInjective(c: bv32, d: bv32, bytes: seq<bv8>)
    requires Register(c, bytes) == Register(d, bytes)
    ensures c == d
    decreases |bytes|
  {
    if bytes != [] {
      hide FeedBits, Step8, Xor;
      var b := bytes[0];
      RegisterIsInjective(FeedBits(c, b, 8), FeedBits(d, b, 8), bytes[1..]);
      FeedByte(c, b);
      FeedByte(d, b);
      Step8IsInjective(Xor(c, b as bv32), Xor(d, b as bv32));
      XorMoves(c, b as bv32, 0);
      XorMoves(d, b as bv32, 0);
    }
  }

  lemma Step8IsInjective(a: bv32, b: bv32)
    requires Step8(a) == Step8(b)
    ensures a == b
  {
    StepsAreInjective(a, b, 8);
  }

  /** A change within four bytes in a row always changes the checksum. */
  lemma BurstsAreDetected(crc: bv32, before: seq<bv8>, x: seq<bv8>, y: seq<bv8>, after: seq<bv8>)
    requires |x| == |y| <= 4 && x != y
    ensures Checksum(crc, before + x + after) != Checksum(crc, before + y + after)
  {
    if Checksum(crc, before + x + after) == Checksum(crc, before + y + after) {
      hide Register, Xor, Word, Steps8;
      var ones: bv32 := 0xffffffff;
      var c := Xor(crc, ones);
      XorMoves(Register(c, before + x + after), ones, 0);
      XorMoves(Register(c, before + y + after), ones, 0);
      RegisterOfAppend(c, before + x, after);
      RegisterOfAppend(c, before + y, after);
      RegisterIsInjective(Register(c, before + x), Register(c, before + y), after);
      RegisterOfAppend(c, before, x);
      RegisterOfAppend(c, before, y);
      var d := Register(c, before);
      RegisterOfWord(d, x);
      RegisterOfWord(d, y);
      Steps8AreInjective(Xor(d, Word(x)), Xor(d, Word(y)), |x|);
      XorCancels(d, Word(x), Word(y));
      WordIsInjective(x, y);
    }
  }
}
