/**
  CRC-32 with the reflected polynomial 0xEDB88320 (section 3.2.9 of IEEE Std 802.3-2018), as
  include/bitcask/hw_crc32.hpp computes it: a table-driven byte loop and a dispatcher that cuts the
  input into head, body and tail for two wide kernels. The byte step is proved to be eight steps of a
  one-bit shift register, and the register's algebra gives the error-detection theorem.
 */
module Crc32 {

  // ---------------------------------------------------------------------------------------
  // The shift register
  // ---------------------------------------------------------------------------------------

  /** One step of the register. */
  function Shift(x: bv32): bv32 {
    if x & 1 == 1 then (x >> 1) ^ 0xEDB88320 else x >> 1
  }

  function ShiftN(x: bv32, n: nat): bv32
    decreases n, x
  {
    if n == 0 then x else ShiftN(Shift(x), n - 1)
  }

  function FourShifts(x: bv32): bv32 {
    Shift(Shift(Shift(Shift(x))))
  }

  function EightShifts(x: bv32): bv32 {
    FourShifts(FourShifts(x))
  }

  lemma ShiftInjective(x: bv32, y: bv32)
    requires Shift(x) == Shift(y)
    ensures x == y
  {
  }

  lemma OddOdd(x: bv32, y: bv32)
    requires x & 1 == 1 && y & 1 == 1
    ensures Shift(x ^ y) == Shift(x) ^ Shift(y)
  {
  }

  lemma OddEven(x: bv32, y: bv32)
    requires x & 1 == 1 && y & 1 == 0
    ensures Shift(x ^ y) == Shift(x) ^ Shift(y)
  {
  }

  lemma EvenEven(x: bv32, y: bv32)
    requires x & 1 == 0 && y & 1 == 0
    ensures Shift(x ^ y) == Shift(x) ^ Shift(y)
  {
  }

  /** The register is linear over GF(2). */
  lemma ShiftLinear(x: bv32, y: bv32)
    ensures Shift(x ^ y) == Shift(x) ^ Shift(y)
  {
    if x & 1 == 1 {
      if y & 1 == 1 { OddOdd(x, y); } else { OddEven(x, y); }
    } else {
      if y & 1 == 1 { OddEven(y, x); } else { EvenEven(x, y); }
    }
  }

  lemma ShiftNPlus4(x: bv32, n: nat)
    ensures ShiftN(x, n + 4) == ShiftN(FourShifts(x), n)
  {
    assert ShiftN(x, n + 4) == ShiftN(Shift(Shift(x)), n + 2);
  }

  lemma EightShiftsIsShiftN(x: bv32)
    ensures ShiftN(x, 8) == EightShifts(x)
  {
    ShiftNPlus4(x, 4);
    ShiftNPlus4(FourShifts(x), 0);
  }

  // ---------------------------------------------------------------------------------------
  // The table
  // ---------------------------------------------------------------------------------------

  /** kCrc32Table, sixteen entries a row. */
  function Table(i: bv8): bv32 {
    match i >> 4
    case 0x0 =>
      (match i & 0xF
       case 0x0 => 0x00000000 case 0x1 => 0x77073096 case 0x2 => 0xEE0E612C case 0x3 => 0x990951BA
       case 0x4 => 0x076DC419 case 0x5 => 0x706AF48F case 0x6 => 0xE963A535 case 0x7 => 0x9E6495A3
       case 0x8 => 0x0EDB8832 case 0x9 => 0x79DCB8A4 case 0xA => 0xE0D5E91E case 0xB => 0x97D2D988
       case 0xC => 0x09B64C2B case 0xD => 0x7EB17CBD case 0xE => 0xE7B82D07 case _ => 0x90BF1D91)
    case 0x1 =>
      (match i & 0xF
       case 0x0 => 0x1DB71064 case 0x1 => 0x6AB020F2 case 0x2 => 0xF3B97148 case 0x3 => 0x84BE41DE
       case 0x4 => 0x1ADAD47D case 0x5 => 0x6DDDE4EB case 0x6 => 0xF4D4B551 case 0x7 => 0x83D385C7
       case 0x8 => 0x136C9856 case 0x9 => 0x646BA8C0 case 0xA => 0xFD62F97A case 0xB => 0x8A65C9EC
       case 0xC => 0x14015C4F case 0xD => 0x63066CD9 case 0xE => 0xFA0F3D63 case _ => 0x8D080DF5)
    case 0x2 =>
      (match i & 0xF
       case 0x0 => 0x3B6E20C8 case 0x1 => 0x4C69105E case 0x2 => 0xD56041E4 case 0x3 => 0xA2677172
       case 0x4 => 0x3C03E4D1 case 0x5 => 0x4B04D447 case 0x6 => 0xD20D85FD case 0x7 => 0xA50AB56B
       case 0x8 => 0x35B5A8FA case 0x9 => 0x42B2986C case 0xA => 0xDBBBC9D6 case 0xB => 0xACBCF940
       case 0xC => 0x32D86CE3 case 0xD => 0x45DF5C75 case 0xE => 0xDCD60DCF case _ => 0xABD13D59)
    case 0x3 =>
      (match i & 0xF
       case 0x0 => 0x26D930AC case 0x1 => 0x51DE003A case 0x2 => 0xC8D75180 case 0x3 => 0xBFD06116
       case 0x4 => 0x21B4F4B5 case 0x5 => 0x56B3C423 case 0x6 => 0xCFBA9599 case 0x7 => 0xB8BDA50F
       case 0x8 => 0x2802B89E case 0x9 => 0x5F058808 case 0xA => 0xC60CD9B2 case 0xB => 0xB10BE924
       case 0xC => 0x2F6F7C87 case 0xD => 0x58684C11 case 0xE => 0xC1611DAB case _ => 0xB6662D3D)
    case 0x4 =>
      (match i & 0xF
       case 0x0 => 0x76DC4190 case 0x1 => 0x01DB7106 case 0x2 => 0x98D220BC case 0x3 => 0xEFD5102A
       case 0x4 => 0x71B18589 case 0x5 => 0x06B6B51F case 0x6 => 0x9FBFE4A5 case 0x7 => 0xE8B8D433
       case 0x8 => 0x7807C9A2 case 0x9 => 0x0F00F934 case 0xA => 0x9609A88E case 0xB => 0xE10E9818
       case 0xC => 0x7F6A0DBB case 0xD => 0x086D3D2D case 0xE => 0x91646C97 case _ => 0xE6635C01)
    case 0x5 =>
      (match i & 0xF
       case 0x0 => 0x6B6B51F4 case 0x1 => 0x1C6C6162 case 0x2 => 0x856530D8 case 0x3 => 0xF262004E
       case 0x4 => 0x6C0695ED case 0x5 => 0x1B01A57B case 0x6 => 0x8208F4C1 case 0x7 => 0xF50FC457
       case 0x8 => 0x65B0D9C6 case 0x9 => 0x12B7E950 case 0xA => 0x8BBEB8EA case 0xB => 0xFCB9887C
       case 0xC => 0x62DD1DDF case 0xD => 0x15DA2D49 case 0xE => 0x8CD37CF3 case _ => 0xFBD44C65)
    case 0x6 =>
      (match i & 0xF
       case 0x0 => 0x4DB26158 case 0x1 => 0x3AB551CE case 0x2 => 0xA3BC0074 case 0x3 => 0xD4BB30E2
       case 0x4 => 0x4ADFA541 case 0x5 => 0x3DD895D7 case 0x6 => 0xA4D1C46D case 0x7 => 0xD3D6F4FB
       case 0x8 => 0x4369E96A case 0x9 => 0x346ED9FC case 0xA => 0xAD678846 case 0xB => 0xDA60B8D0
       case 0xC => 0x44042D73 case 0xD => 0x33031DE5 case 0xE => 0xAA0A4C5F case _ => 0xDD0D7CC9)
    case 0x7 =>
      (match i & 0xF
       case 0x0 => 0x5005713C case 0x1 => 0x270241AA case 0x2 => 0xBE0B1010 case 0x3 => 0xC90C2086
       case 0x4 => 0x5768B525 case 0x5 => 0x206F85B3 case 0x6 => 0xB966D409 case 0x7 => 0xCE61E49F
       case 0x8 => 0x5EDEF90E case 0x9 => 0x29D9C998 case 0xA => 0xB0D09822 case 0xB => 0xC7D7A8B4
       case 0xC => 0x59B33D17 case 0xD => 0x2EB40D81 case 0xE => 0xB7BD5C3B case _ => 0xC0BA6CAD)
    case 0x8 =>
      (match i & 0xF
       case 0x0 => 0xEDB88320 case 0x1 => 0x9ABFB3B6 case 0x2 => 0x03B6E20C case 0x3 => 0x74B1D29A
       case 0x4 => 0xEAD54739 case 0x5 => 0x9DD277AF case 0x6 => 0x04DB2615 case 0x7 => 0x73DC1683
       case 0x8 => 0xE3630B12 case 0x9 => 0x94643B84 case 0xA => 0x0D6D6A3E case 0xB => 0x7A6A5AA8
       case 0xC => 0xE40ECF0B case 0xD => 0x9309FF9D case 0xE => 0x0A00AE27 case _ => 0x7D079EB1)
    case 0x9 =>
      (match i & 0xF
       case 0x0 => 0xF00F9344 case 0x1 => 0x8708A3D2 case 0x2 => 0x1E01F268 case 0x3 => 0x6906C2FE
       case 0x4 => 0xF762575D case 0x5 => 0x806567CB case 0x6 => 0x196C3671 case 0x7 => 0x6E6B06E7
       case 0x8 => 0xFED41B76 case 0x9 => 0x89D32BE0 case 0xA => 0x10DA7A5A case 0xB => 0x67DD4ACC
       case 0xC => 0xF9B9DF6F case 0xD => 0x8EBEEFF9 case 0xE => 0x17B7BE43 case _ => 0x60B08ED5)
    case 0xA =>
      (match i & 0xF
       case 0x0 => 0xD6D6A3E8 case 0x1 => 0xA1D1937E case 0x2 => 0x38D8C2C4 case 0x3 => 0x4FDFF252
       case 0x4 => 0xD1BB67F1 case 0x5 => 0xA6BC5767 case 0x6 => 0x3FB506DD case 0x7 => 0x48B2364B
       case 0x8 => 0xD80D2BDA case 0x9 => 0xAF0A1B4C case 0xA => 0x36034AF6 case 0xB => 0x41047A60
       case 0xC => 0xDF60EFC3 case 0xD => 0xA867DF55 case 0xE => 0x316E8EEF case _ => 0x4669BE79)
    case 0xB =>
      (match i & 0xF
       case 0x0 => 0xCB61B38C case 0x1 => 0xBC66831A case 0x2 => 0x256FD2A0 case 0x3 => 0x5268E236
       case 0x4 => 0xCC0C7795 case 0x5 => 0xBB0B4703 case 0x6 => 0x220216B9 case 0x7 => 0x5505262F
       case 0x8 => 0xC5BA3BBE case 0x9 => 0xB2BD0B28 case 0xA => 0x2BB45A92 case 0xB => 0x5CB36A04
       case 0xC => 0xC2D7FFA7 case 0xD => 0xB5D0CF31 case 0xE => 0x2CD99E8B case _ => 0x5BDEAE1D)
    case 0xC =>
      (match i & 0xF
       case 0x0 => 0x9B64C2B0 case 0x1 => 0xEC63F226 case 0x2 => 0x756AA39C case 0x3 => 0x026D930A
       case 0x4 => 0x9C0906A9 case 0x5 => 0xEB0E363F case 0x6 => 0x72076785 case 0x7 => 0x05005713
       case 0x8 => 0x95BF4A82 case 0x9 => 0xE2B87A14 case 0xA => 0x7BB12BAE case 0xB => 0x0CB61B38
       case 0xC => 0x92D28E9B case 0xD => 0xE5D5BE0D case 0xE => 0x7CDCEFB7 case _ => 0x0BDBDF21)
    case 0xD =>
      (match i & 0xF
       case 0x0 => 0x86D3D2D4 case 0x1 => 0xF1D4E242 case 0x2 => 0x68DDB3F8 case 0x3 => 0x1FDA836E
       case 0x4 => 0x81BE16CD case 0x5 => 0xF6B9265B case 0x6 => 0x6FB077E1 case 0x7 => 0x18B74777
       case 0x8 => 0x88085AE6 case 0x9 => 0xFF0F6A70 case 0xA => 0x66063BCA case 0xB => 0x11010B5C
       case 0xC => 0x8F659EFF case 0xD => 0xF862AE69 case 0xE => 0x616BFFD3 case _ => 0x166CCF45)
    case 0xE =>
      (match i & 0xF
       case 0x0 => 0xA00AE278 case 0x1 => 0xD70DD2EE case 0x2 => 0x4E048354 case 0x3 => 0x3903B3C2
       case 0x4 => 0xA7672661 case 0x5 => 0xD06016F7 case 0x6 => 0x4969474D case 0x7 => 0x3E6E77DB
       case 0x8 => 0xAED16A4A case 0x9 => 0xD9D65ADC case 0xA => 0x40DF0B66 case 0xB => 0x37D83BF0
       case 0xC => 0xA9BCAE53 case 0xD => 0xDEBB9EC5 case 0xE => 0x47B2CF7F case _ => 0x30B5FFE9)
    case _ =>
      (match i & 0xF
       case 0x0 => 0xBDBDF21C case 0x1 => 0xCABAC28A case 0x2 => 0x53B39330 case 0x3 => 0x24B4A3A6
       case 0x4 => 0xBAD03605 case 0x5 => 0xCDD70693 case 0x6 => 0x54DE5729 case 0x7 => 0x23D967BF
       case 0x8 => 0xB3667A2E case 0x9 => 0xC4614AB8 case 0xA => 0x5D681B02 case 0xB => 0x2A6F2B94
       case 0xC => 0xB40BBE37 case 0xD => 0xC30C8EA1 case 0xE => 0x5A05DF1B case _ => 0x2D02EF8D)
  }

  lemma TableQuarter0(i: bv8)
    requires i >> 6 == 0
    ensures Table(i) == EightShifts(i as bv32)
  {
  }

  lemma TableQuarter1(i: bv8)
    requires i >> 6 == 1
    ensures Table(i) == EightShifts(i as bv32)
  {
  }

  lemma TableQuarter2(i: bv8)
    requires i >> 6 == 2
    ensures Table(i) == EightShifts(i as bv32)
  {
  }

  lemma TableQuarter3(i: bv8)
    requires i >> 6 == 3
    ensures Table(i) == EightShifts(i as bv32)
  {
  }

  /** Every entry is its index put through eight steps. */
  lemma TableIsEightShifts(i: bv8)
    ensures Table(i) == EightShifts(i as bv32)
  {
    if i >> 6 == 0 {
      TableQuarter0(i);
    } else if i >> 6 == 1 {
      TableQuarter1(i);
    } else if i >> 6 == 2 {
      TableQuarter2(i);
    } else {
      TableQuarter3(i);
    }
  }

  // ---------------------------------------------------------------------------------------
  // Bit by bit
  // ---------------------------------------------------------------------------------------

  function BitStep(c: bv32, bit: bool): bv32 {
    Shift(if bit then c ^ 1 else c)
  }

  /** The register after a string of bits. */
  function RunBits(c: bv32, bits: seq<bool>): bv32
    decreases bits, 1
  {
    if bits == [] then c else RunTail(c, bits)
  }

  function RunTail(c: bv32, bits: seq<bool>): bv32
    requires bits != []
    decreases bits, 0
  {
    RunBits(BitStep(c, bits[0]), bits[1..])
  }

  /** The lowest n bits of a word, lowest first. */
  function LowBits(w: bv32, n: nat): (bits: seq<bool>)
    ensures |bits| == n
    decreases n, w
  {
    if n == 0 then [] else [w & 1 == 1] + LowBits(w >> 1, n - 1)
  }

  function ShiftedRight(w: bv32, n: nat): bv32
    decreases n, w
  {
    if n == 0 then w else ShiftedRight(w >> 1, n - 1)
  }

  lemma AbsorbZero(c: bv32, w: bv32)
    requires w & 1 == 0
    ensures Shift(c ^ w) == Shift(c) ^ (w >> 1)
  {
    ShiftLinear(c, w);
  }

  /** The lowest bit can be moved from one side to the other. */
  lemma MoveLowest(c: bv32, w: bv32) returns (x: bv32, y: bv32)
    requires w & 1 == 1
    ensures c ^ w == x ^ y && y & 1 == 0 && y >> 1 == w >> 1 && Shift(x) == Shift(c ^ 1)
  {
    x, y := c ^ 1, w ^ 1;
  }

  lemma AbsorbOne(c: bv32, w: bv32)
    requires w & 1 == 1
    ensures Shift(c ^ w) == Shift(c ^ 1) ^ (w >> 1)
  {
    var x, y := MoveLowest(c, w);
    AbsorbZero(x, y);
  }

  lemma AbsorbLowest(c: bv32, w: bv32)
    ensures Shift(c ^ w) == BitStep(c, w & 1 == 1) ^ (w >> 1)
  {
    if w & 1 == 1 {
      AbsorbOne(c, w);
    } else {
      AbsorbZero(c, w);
    }
  }

  lemma RunLowBits(c: bv32, w: bv32, n: nat)
    requires n > 0
    ensures RunBits(c, LowBits(w, n)) == RunBits(BitStep(c, w & 1 == 1), LowBits(w >> 1, n - 1))
  {
    assert LowBits(w, n)[1..] == LowBits(w >> 1, n - 1);
  }

  /** Adding a word to the register and stepping n times feeds in its lowest n bits one by one; the
      bits not yet reached stay added on top. */
  lemma {:induction false} AbsorbWord(c: bv32, w: bv32, x: bv32, n: nat)
    requires x == c ^ w
    ensures ShiftN(x, n) == RunBits(c, LowBits(w, n)) ^ ShiftedRight(w, n)
    decreases n
  {
    if n > 0 {
      AbsorbLowest(c, w);
      RunLowBits(c, w, n);
      AbsorbWord(BitStep(c, w & 1 == 1), w >> 1, Shift(x), n - 1);
    }
  }

  lemma ShiftedRightPlus4(w: bv32, n: nat)
    ensures ShiftedRight(w, n + 4) == ShiftedRight(w >> 4, n)
  {
    assert ShiftedRight(w, n + 4) == ShiftedRight((w >> 1) >> 1, n + 2);
    assert (w >> 1) >> 1 == w >> 2;
    assert ((w >> 2) >> 1) >> 1 == w >> 4;
  }

  lemma ShiftedRight8(w: bv32, n: nat)
    requires n == 8
    ensures ShiftedRight(w, n) == w >> 8
  {
    ShiftedRightPlus4(w, 4);
    ShiftedRightPlus4(w >> 4, 0);
  }

  predicate LowAgree(v: bv32, w: bv32, n: nat)
    decreases n
  {
    n == 0 || (v & 1 == w & 1 && LowAgree(v >> 1, w >> 1, n - 1))
  }

  lemma {:induction false} SameLowBits(v: bv32, w: bv32, n: nat)
    requires LowAgree(v, w, n)
    ensures LowBits(v, n) == LowBits(w, n)
    decreases n
  {
    if n > 0 {
      SameLowBits(v >> 1, w >> 1, n - 1);
    }
  }

  lemma LowByteAgrees(x: bv32)
    ensures LowAgree(x & 0xFF, x, 8)
  {
  }

  /** The part of the register above the lowest byte just moves down eight places. */
  lemma EightShiftsLowPart(x: bv32, low: bv32, n: nat)
    requires low == x & 0xFF && n == 8
    ensures ShiftN(x, n) == ShiftN(low, n) ^ (x >> 8)
  {
    AbsorbWord(0, x, x, n);
    AbsorbWord(0, low, low, n);
    LowByteAgrees(x);
    SameLowBits(low, x, n);
    ShiftedRight8(x, n);
    ShiftedRight8(low, n);
  }

  lemma TableStep(c: bv32, b: bv32, x: bv32, low: bv32, n: nat)
    requires x == c ^ b && b <= 0xFF && low == x & 0xFF && n == 8
    ensures ShiftN(low, n) ^ (c >> 8) == RunBits(c, LowBits(b, n))
  {
    EightShiftsLowPart(x, low, n);
    AbsorbWord(c, b, x, n);
    ShiftedRight8(b, n);
    HighPart(c, b, x);
  }

  lemma HighPart(c: bv32, b: bv32, x: bv32)
    requires x == c ^ b && b <= 0xFF
    ensures x >> 8 == c >> 8 && b >> 8 == 0
  {
  }

  // The ghost parameters n are always 8. Written as the literal, the verifier would unfold every one of the eight steps
  // wherever such a term occurs; as a variable it does so only where a lemma asks for it.

  /** kCrc32Table[i] */
  method LookUp(i: bv8, ghost low: bv32, ghost n: nat) returns (r: bv32)
    requires low == i as bv32 && n == 8
    ensures r == ShiftN(low, n)
  {
    r := Table(i);
    TableIsEightShifts(i);
    EightShiftsIsShiftN(low);
  }

  /** (c ^ b) & 0xFF */
  method TableIndex(c: bv32, b: bv8) returns (i: bv8)
    ensures i as bv32 == (c ^ (b as bv32)) & 0xFF
  {
    i := ((c ^ (b as bv32)) & 0xFF) as bv8;
  }

  lemma ByteIsSmall(b: bv8, w: bv32)
    requires w == b as bv32
    ensures w <= 0xFF
  {
  }

  method StepWith(c: bv32, i: bv8, ghost x: bv32, ghost low: bv32, ghost w: bv32, ghost n: nat) returns (r: bv32)
    requires low == i as bv32 && low == x & 0xFF && x == c ^ w && w <= 0xFF && n == 8
    ensures r == RunBits(c, LowBits(w, n))
  {
    var entry := LookUp(i, low, n);
    r := entry ^ (c >> 8);
    TableStep(c, w, x, low, n);
  }

  /** One byte of input: `kCrc32Table[(c ^ b) & 0xFF] ^ (c >> 8)`. */
  method UpdateByte(c: bv32, b: bv8, ghost w: bv32, ghost n: nat) returns (r: bv32)
    requires w == b as bv32 && n == 8
    ensures r == RunBits(c, LowBits(w, n))
  {
    var i := TableIndex(c, b);
    ByteIsSmall(b, w);
    r := StepWith(c, i, c ^ w, i as bv32, w, n);
  }
}
