/**
 The table checksum of lib/crc.c: CalculateCrc with its 256-entry table, and setting
 and checking the CRC32 field of an EFI_TABLE_HEADER (section 4.2 of UEFI 2.3), which is
 bytes 16 to 19 of the table, least significant first. The reference is the CRC-32
 shift register, fed one message bit at a time.
 */
module Crc {

  const POLYNOMIAL: bv32 := 0xEDB88320

  // ----- the reference: a reflected shift register fed bit by bit -----

  function Shift(c: bv32): bv32 {
    if c & 1 == 1 then (c >> 1) ^ POLYNOMIAL else c >> 1
  }

  /** The next message bit meets the register's lowest. */
  function FeedBit(c: bv32, bit: bool): bv32 {
    Shift(if bit then c ^ 1 else c)
  }

  function FeedBits(c: bv32, bits: seq<bool>): bv32 {
    if bits == [] then c else FeedBit(FeedBits(c, bits[..|bits| - 1]), bits[|bits| - 1])
  }

  /** A byte's bits, least significant first. */
  function BitsOf(b: bv8): (bits: seq<bool>) {
    [b & 0x01 != 0, b & 0x02 != 0, b & 0x04 != 0, b & 0x08 != 0,
     b & 0x10 != 0, b & 0x20 != 0, b & 0x40 != 0, b & 0x80 != 0]
  }

  function MessageBits(message: seq<bv8>): seq<bool> {
    if message == [] then [] else MessageBits(message[..|message| - 1]) + BitsOf(message[|message| - 1])
  }

  function BitSerialCrc(message: seq<bv8>): bv32 {
    FeedBits(0xFFFF_FFFF, MessageBits(message)) ^ 0xFFFF_FFFF
  }

  // ----- eight bits at once -----

  function Shift8(c: bv32): bv32 {
    Shift(Shift(Shift(Shift(Shift(Shift(Shift(Shift(c))))))))
  }

  function Row0(j: bv8): (r: bv32)
    requires j < 16
    ensures r == Shift8((0x00 | j) as bv32)
  {
    match j
    case 0 => 0x00000000 case 1 => 0x77073096 case 2 => 0xEE0E612C case 3 => 0x990951BA
    case 4 => 0x076DC419 case 5 => 0x706AF48F case 6 => 0xE963A535 case 7 => 0x9E6495A3
    case 8 => 0x0EDB8832 case 9 => 0x79DCB8A4 case 10 => 0xE0D5E91E case 11 => 0x97D2D988
    case 12 => 0x09B64C2B case 13 => 0x7EB17CBD case 14 => 0xE7B82D07 case _ => 0x90BF1D91
  }

  function Row1(j: bv8): (r: bv32)
    requires j < 16
    ensures r == Shift8((0x10 | j) as bv32)
  {
    match j
    case 0 => 0x1DB71064 case 1 => 0x6AB020F2 case 2 => 0xF3B97148 case 3 => 0x84BE41DE
    case 4 => 0x1ADAD47D case 5 => 0x6DDDE4EB case 6 => 0xF4D4B551 case 7 => 0x83D385C7
    case 8 => 0x136C9856 case 9 => 0x646BA8C0 case 10 => 0xFD62F97A case 11 => 0x8A65C9EC
    case 12 => 0x14015C4F case 13 => 0x63066CD9 case 14 => 0xFA0F3D63 case _ => 0x8D080DF5
  }

  function Row2(j: bv8): (r: bv32)
    requires j < 16
    ensures r == Shift8((0x20 | j) as bv32)
  {
    match j
    case 0 => 0x3B6E20C8 case 1 => 0x4C69105E case 2 => 0xD56041E4 case 3 => 0xA2677172
    case 4 => 0x3C03E4D1 case 5 => 0x4B04D447 case 6 => 0xD20D85FD case 7 => 0xA50AB56B
    case 8 => 0x35B5A8FA case 9 => 0x42B2986C case 10 => 0xDBBBC9D6 case 11 => 0xACBCF940
    case 12 => 0x32D86CE3 case 13 => 0x45DF5C75 case 14 => 0xDCD60DCF case _ => 0xABD13D59
  }

  function Row3(j: bv8): (r: bv32)
    requires j < 16
    ensures r == Shift8((0x30 | j) as bv32)
  {
    match j
    case 0 => 0x26D930AC case 1 => 0x51DE003A case 2 => 0xC8D75180 case 3 => 0xBFD06116
    case 4 => 0x21B4F4B5 case 5 => 0x56B3C423 case 6 => 0xCFBA9599 case 7 => 0xB8BDA50F
    case 8 => 0x2802B89E case 9 => 0x5F058808 case 10 => 0xC60CD9B2 case 11 => 0xB10BE924
    case 12 => 0x2F6F7C87 case 13 => 0x58684C11 case 14 => 0xC1611DAB case _ => 0xB6662D3D
  }

  function Row4(j: bv8): (r: bv32)
    requires j < 16
    ensures r == Shift8((0x40 | j) as bv32)
  {
    match j
    case 0 => 0x76DC4190 case 1 => 0x01DB7106 case 2 => 0x98D220BC case 3 => 0xEFD5102A
    case 4 => 0x71B18589 case 5 => 0x06B6B51F case 6 => 0x9FBFE4A5 case 7 => 0xE8B8D433
    case 8 => 0x7807C9A2 case 9 => 0x0F00F934 case 10 => 0x9609A88E case 11 => 0xE10E9818
    case 12 => 0x7F6A0DBB case 13 => 0x086D3D2D case 14 => 0x91646C97 case _ => 0xE6635C01
  }

  function Row5(j: bv8): (r: bv32)
    requires j < 16
    ensures r == Shift8((0x50 | j) as bv32)
  {
    match j
    case 0 => 0x6B6B51F4 case 1 => 0x1C6C6162 case 2 => 0x856530D8 case 3 => 0xF262004E
    case 4 => 0x6C0695ED case 5 => 0x1B01A57B case 6 => 0x8208F4C1 case 7 => 0xF50FC457
    case 8 => 0x65B0D9C6 case 9 => 0x12B7E950 case 10 => 0x8BBEB8EA case 11 => 0xFCB9887C
    case 12 => 0x62DD1DDF case 13 => 0x15DA2D49 case 14 => 0x8CD37CF3 case _ => 0xFBD44C65
  }

  function Row6(j: bv8): (r: bv32)
    requires j < 16
    ensures r == Shift8((0x60 | j) as bv32)
  {
    match j
    case 0 => 0x4DB26158 case 1 => 0x3AB551CE case 2 => 0xA3BC0074 case 3 => 0xD4BB30E2
    case 4 => 0x4ADFA541 case 5 => 0x3DD895D7 case 6 => 0xA4D1C46D case 7 => 0xD3D6F4FB
    case 8 => 0x4369E96A case 9 => 0x346ED9FC case 10 => 0xAD678846 case 11 => 0xDA60B8D0
    case 12 => 0x44042D73 case 13 => 0x33031DE5 case 14 => 0xAA0A4C5F case _ => 0xDD0D7CC9
  }

  function Row7(j: bv8): (r: bv32)
    requires j < 16
    ensures r == Shift8((0x70 | j) as bv32)
  {
    match j
    case 0 => 0x5005713C case 1 => 0x270241AA case 2 => 0xBE0B1010 case 3 => 0xC90C2086
    case 4 => 0x5768B525 case 5 => 0x206F85B3 case 6 => 0xB966D409 case 7 => 0xCE61E49F
    case 8 => 0x5EDEF90E case 9 => 0x29D9C998 case 10 => 0xB0D09822 case 11 => 0xC7D7A8B4
    case 12 => 0x59B33D17 case 13 => 0x2EB40D81 case 14 => 0xB7BD5C3B case _ => 0xC0BA6CAD
  }

  function Row8(j: bv8): (r: bv32)
    requires j < 16
    ensures r == Shift8((0x80 | j) as bv32)
  {
    match j
    case 0 => 0xEDB88320 case 1 => 0x9ABFB3B6 case 2 => 0x03B6E20C case 3 => 0x74B1D29A
    case 4 => 0xEAD54739 case 5 => 0x9DD277AF case 6 => 0x04DB2615 case 7 => 0x73DC1683
    case 8 => 0xE3630B12 case 9 => 0x94643B84 case 10 => 0x0D6D6A3E case 11 => 0x7A6A5AA8
    case 12 => 0xE40ECF0B case 13 => 0x9309FF9D case 14 => 0x0A00AE27 case _ => 0x7D079EB1
  }

  function Row9(j: bv8): (r: bv32)
    requires j < 16
    ensures r == Shift8((0x90 | j) as bv32)
  {
    match j
    case 0 => 0xF00F9344 case 1 => 0x8708A3D2 case 2 => 0x1E01F268 case 3 => 0x6906C2FE
    case 4 => 0xF762575D case 5 => 0x806567CB case 6 => 0x196C3671 case 7 => 0x6E6B06E7
    case 8 => 0xFED41B76 case 9 => 0x89D32BE0 case 10 => 0x10DA7A5A case 11 => 0x67DD4ACC
    case 12 => 0xF9B9DF6F case 13 => 0x8EBEEFF9 case 14 => 0x17B7BE43 case _ => 0x60B08ED5
  }

  function RowA(j: bv8): (r: bv32)
    requires j < 16
    ensures r == Shift8((0xA0 | j) as bv32)
  {
    match j
    case 0 => 0xD6D6A3E8 case 1 => 0xA1D1937E case 2 => 0x38D8C2C4 case 3 => 0x4FDFF252
    case 4 => 0xD1BB67F1 case 5 => 0xA6BC5767 case 6 => 0x3FB506DD case 7 => 0x48B2364B
    case 8 => 0xD80D2BDA case 9 => 0xAF0A1B4C case 10 => 0x36034AF6 case 11 => 0x41047A60
    case 12 => 0xDF60EFC3 case 13 => 0xA867DF55 case 14 => 0x316E8EEF case _ => 0x4669BE79
  }

  function RowB(j: bv8): (r: bv32)
    requires j < 16
    ensures r == Shift8((0xB0 | j) as bv32)
  {
    match j
    case 0 => 0xCB61B38C case 1 => 0xBC66831A case 2 => 0x256FD2A0 case 3 => 0x5268E236
    case 4 => 0xCC0C7795 case 5 => 0xBB0B4703 case 6 => 0x220216B9 case 7 => 0x5505262F
    case 8 => 0xC5BA3BBE case 9 => 0xB2BD0B28 case 10 => 0x2BB45A92 case 11 => 0x5CB36A04
    case 12 => 0xC2D7FFA7 case 13 => 0xB5D0CF31 case 14 => 0x2CD99E8B case _ => 0x5BDEAE1D
  }

  function RowC(j: bv8): (r: bv32)
    requires j < 16
    ensures r == Shift8((0xC0 | j) as bv32)
  {
    match j
    case 0 => 0x9B64C2B0 case 1 => 0xEC63F226 case 2 => 0x756AA39C case 3 => 0x026D930A
    case 4 => 0x9C0906A9 case 5 => 0xEB0E363F case 6 => 0x72076785 case 7 => 0x05005713
    case 8 => 0x95BF4A82 case 9 => 0xE2B87A14 case 10 => 0x7BB12BAE case 11 => 0x0CB61B38
    case 12 => 0x92D28E9B case 13 => 0xE5D5BE0D case 14 => 0x7CDCEFB7 case _ => 0x0BDBDF21
  }

  function RowD(j: bv8): (r: bv32)
    requires j < 16
    ensures r == Shift8((0xD0 | j) as bv32)
  {
    match j
    case 0 => 0x86D3D2D4 case 1 => 0xF1D4E242 case 2 => 0x68DDB3F8 case 3 => 0x1FDA836E
    case 4 => 0x81BE16CD case 5 => 0xF6B9265B case 6 => 0x6FB077E1 case 7 => 0x18B74777
    case 8 => 0x88085AE6 case 9 => 0xFF0F6A70 case 10 => 0x66063BCA case 11 => 0x11010B5C
    case 12 => 0x8F659EFF case 13 => 0xF862AE69 case 14 => 0x616BFFD3 case _ => 0x166CCF45
  }

  function RowE(j: bv8): (r: bv32)
    requires j < 16
    ensures r == Shift8((0xE0 | j) as bv32)
  {
    match j
    case 0 => 0xA00AE278 case 1 => 0xD70DD2EE case 2 => 0x4E048354 case 3 => 0x3903B3C2
    case 4 => 0xA7672661 case 5 => 0xD06016F7 case 6 => 0x4969474D case 7 => 0x3E6E77DB
    case 8 => 0xAED16A4A case 9 => 0xD9D65ADC case 10 => 0x40DF0B66 case 11 => 0x37D83BF0
    case 12 => 0xA9BCAE53 case 13 => 0xDEBB9EC5 case 14 => 0x47B2CF7F case _ => 0x30B5FFE9
  }

  function RowF(j: bv8): (r: bv32)
    requires j < 16
    ensures r == Shift8((0xF0 | j) as bv32)
  {
    match j
    case 0 => 0xBDBDF21C case 1 => 0xCABAC28A case 2 => 0x53B39330 case 3 => 0x24B4A3A6
    case 4 => 0xBAD03605 case 5 => 0xCDD70693 case 6 => 0x54DE5729 case 7 => 0x23D967BF
    case 8 => 0xB3667A2E case 9 => 0xC4614AB8 case 10 => 0x5D681B02 case 11 => 0x2A6F2B94
    case 12 => 0xB40BBE37 case 13 => 0xC30C8EA1 case 14 => 0x5A05DF1B case _ => 0x2D02EF8D
  }

  /** CRCTable: entry i is the register i after eight shifts. */
  function CrcTable(i: bv8): (r: bv32)
    ensures r == Shift8(i as bv32)
  {
    match i >> 4
    case 0 => Row0(i & 15) case 1 => Row1(i & 15) case 2 => Row2(i & 15) case 3 => Row3(i & 15)
    case 4 => Row4(i & 15) case 5 => Row5(i & 15) case 6 => Row6(i & 15) case 7 => Row7(i & 15)
    case 8 => Row8(i & 15) case 9 => Row9(i & 15) case 10 => RowA(i & 15) case 11 => RowB(i & 15)
    case 12 => RowC(i & 15) case 13 => RowD(i & 15) case 14 => RowE(i & 15) case _ => RowF(i & 15)
  }

  /** Exclusive or, under a name of its own. */
  function Xor(x: bv32, y: bv32): bv32 {
    x ^ y
  }

  /** The register after one message byte, and after a message. */
  function FeedByte(c: bv32, b: bv8): bv32 {
    Shift8(Xor(c, b as bv32))
  }

  function Feed(c: bv32, message: seq<bv8>): bv32 {
    if message == [] then c else FeedByte(Feed(c, message[..|message| - 1]), message[|message| - 1])
  }

  lemma {:induction false} XorParts(x: bv32, y: bv32)
    ensures (x ^ y) >> 1 == (x >> 1) ^ (y >> 1)
    ensures (x ^ y) & 1 == (x & 1) ^ (y & 1)
    ensures x & 1 == 0 || x & 1 == 1
  {
  }

  lemma {:induction false} XorMoves(x: bv32, y: bv32, z: bv32)
    ensures (x ^ z) ^ y == (x ^ y) ^ z
    ensures x ^ (y ^ z) == (x ^ y) ^ z
    ensures (x ^ z) ^ (y ^ z) == x ^ y
  {
  }

  lemma {:induction false} ShiftSplits(x: bv32, y: bv32)
    ensures Shift(x ^ y) == Shift(x) ^ Shift(y)
  {
    XorParts(x, y);
    XorParts(y, x);
    XorMoves(x >> 1, y >> 1, POLYNOMIAL);
  }

  lemma {:induction false} ShiftIsLinear(x: bv32, y: bv32)
    ensures Shift(Xor(x, y)) == Xor(Shift(x), Shift(y))
  {
    ShiftSplits(x, y);
  }

  function Shifts(c: bv32, n: nat): bv32 {
    if n == 0 then c else Shift(Shifts(c, n - 1))
  }

  lemma {:induction false} ShiftsAreLinear(x: bv32, y: bv32, n: nat)
    ensures Shifts(Xor(x, y), n) == Xor(Shifts(x, n), Shifts(y, n))
  {
    if n > 0 {
      ShiftsAreLinear(x, y, n - 1);
      ShiftIsLinear(Shifts(x, n - 1), Shifts(y, n - 1));
    }
  }

  lemma {:induction false} ShiftIsInjective(x: bv32, y: bv32)
    requires Shift(x) == Shift(y)
    ensures x == y
  {
  }

  lemma {:induction false} ShiftsAreInjective(x: bv32, y: bv32, n: nat)
    requires Shifts(x, n) == Shifts(y, n)
    ensures x == y
  {
    if n > 0 {
      ShiftIsInjective(Shifts(x, n - 1), Shifts(y, n - 1));
      ShiftsAreInjective(x, y, n - 1);
    }
  }

  lemma {:induction false} EightShifts(c: bv32)
    ensures Shift8(c) == Shifts(c, 8)
  {
    assert Shifts(c, 1) == Shift(c);
    assert Shifts(c, 2) == Shift(Shifts(c, 1));
    assert Shifts(c, 3) == Shift(Shifts(c, 2));
    assert Shifts(c, 4) == Shift(Shifts(c, 3));
    assert Shifts(c, 5) == Shift(Shifts(c, 4));
    assert Shifts(c, 6) == Shift(Shifts(c, 5));
    assert Shifts(c, 7) == Shift(Shifts(c, 6));
  }

  // ----- a byte is eight message bits -----

  /** 2^n. */
  function One(n: nat): bv32
    requires n < 8
  {
    match n
    case 0 => 0x01 case 1 => 0x02 case 2 => 0x04 case 3 => 0x08
    case 4 => 0x10 case 5 => 0x20 case 6 => 0x40 case _ => 0x80
  }

  lemma {:induction false} ShiftsFromFront(c: bv32, n: nat)
    ensures Shifts(c, n + 1) == Shifts(Shift(c), n)
  {
    if n > 0 { ShiftsFromFront(c, n - 1); }
  }

  lemma {:induction false} OneMovesDown(n: nat)
    requires n < 8
    ensures Shifts(One(n), n) == 1
  {
    if n > 0 {
      OneMovesDown(n - 1);
      ShiftsFromFront(One(n), n - 1);
      assert Shift(One(n)) == One(n - 1);
    }
  }

  lemma {:induction false} XorWithZero(x: bv32)
    ensures Xor(x, 0) == x
  {
  }

  lemma {:induction false} XorAssociates(x: bv32, y: bv32, z: bv32)
    ensures Xor(Xor(x, y), z) == Xor(x, Xor(y, z))
  {
  }

  lemma {:induction false} FeedingABit(x: bv32, bit: bool)
    ensures FeedBit(x, bit) == Shift(if bit then Xor(x, 1) else x)
  {
  }

  /** Feeding a bit after n shifts is feeding 2^n before them. */
  lemma {:induction false} BitEnters(c: bv32, n: nat, bit: bool)
    requires n < 8
    ensures FeedBit(Shifts(c, n), bit) == Shifts(Xor(c, if bit then One(n) else 0), n + 1)
  {
    hide One, Shift, Xor, FeedBit;
    FeedingABit(Shifts(c, n), bit);
    if bit {
      ShiftsAreLinear(c, One(n), n);
      OneMovesDown(n);
    } else {
      XorWithZero(c);
    }
  }

  /** The first n bits as a number. */
  function Number(bits: seq<bool>, n: nat): bv32
    requires n <= |bits| && n <= 8
  {
    if n == 0 then 0 else Xor(Number(bits, n - 1), if bits[n - 1] then One(n - 1) else 0)
  }

  lemma {:induction false} BitsEnter(c: bv32, bits: seq<bool>, n: nat)
    requires n <= |bits| && n <= 8
    ensures FeedBits(c, bits[..n]) == Shifts(Xor(c, Number(bits, n)), n)
  {
    if n == 0 {
      XorWithZero(c);
    } else {
      BitsEnter(c, bits, n - 1);
      assert bits[..n][..n - 1] == bits[..n - 1];
      BitEnters(Xor(c, Number(bits, n - 1)), n - 1, bits[n - 1]);
      XorAssociates(c, Number(bits, n - 1), if bits[n - 1] then One(n - 1) else 0);
    }
  }

  lemma {:induction false} NumberOfBits(b: bv8)
    ensures Number(BitsOf(b), 8) == b as bv32
  {
    var s := BitsOf(b);
    assert Number(s, 1) == (b & 0x01) as bv32;
    assert Number(s, 2) == (b & 0x03) as bv32;
    assert Number(s, 3) == (b & 0x07) as bv32;
    assert Number(s, 4) == (b & 0x0F) as bv32;
    assert Number(s, 5) == (b & 0x1F) as bv32;
    assert Number(s, 6) == (b & 0x3F) as bv32;
    assert Number(s, 7) == (b & 0x7F) as bv32;
  }

  lemma {:induction false} ByteIsEightBits(c: bv32, b: bv8)
    ensures FeedBits(c, BitsOf(b)) == FeedByte(c, b)
  {
    assert BitsOf(b)[..8] == BitsOf(b);
    BitsEnter(c, BitsOf(b), 8);
    NumberOfBits(b);
    EightShifts(Xor(c, b as bv32));
  }

  lemma {:induction false} FeedBitsSplits(c: bv32, x: seq<bool>, y: seq<bool>)
    ensures FeedBits(c, x + y) == FeedBits(FeedBits(c, x), y)
  {
    if y == [] {
      assert x + y == x;
    } else {
      assert (x + y)[..|x + y| - 1] == x + y[..|y| - 1];
      FeedBitsSplits(c, x, y[..|y| - 1]);
    }
  }

  lemma {:induction false} FeedIsBitSerial(c: bv32, message: seq<bv8>)
    ensures Feed(c, message) == FeedBits(c, MessageBits(message))
  {
    if message != [] {
      var front, last := message[..|message| - 1], message[|message| - 1];
      FeedIsBitSerial(c, front);
      FeedBitsSplits(c, MessageBits(front), BitsOf(last));
      ByteIsEightBits(Feed(c, front), last);
    }
  }

  // ----- CalculateCrc -----

  lemma {:induction false} LowByteOut(c: bv32, b: bv8, i: bv8)
    requires i == ((c & 0xFF) as bv8) ^ b
    ensures Xor(c, b as bv32) == Xor((c >> 8) << 8, i as bv32)
    ensures (c >> 8) & 0xFF00_0000 == 0
  {
  }

  /** A number below 2^24 that was moved up a byte moves down again unchanged. */
  lemma {:induction false} ByteMovesDown(y: bv32)
    requires y & 0xFF00_0000 == 0
    ensures Shift8(y << 8) == y
  {
  }

  lemma {:induction false} TableStep(c: bv32, b: bv8, i: bv8, t: bv32)
    requires i == ((c & 0xFF) as bv8) ^ b && t == Shift8(i as bv32)
    ensures FeedByte(c, b) == Xor(c >> 8, t)
  {
    LowByteOut(c, b, i);
    EightShifts(Xor(c, b as bv32));
    ShiftsAreLinear((c >> 8) << 8, i as bv32, 8);
    ByteMovesDown(c >> 8);
    EightShifts((c >> 8) << 8);
    EightShifts(i as bv32);
  }

  lemma {:induction false} TableIndex(c: bv32, w: bv64, b: bv8)
    requires w == c as bv64
    ensures ((w & 0xFF) as bv8) ^ b == ((c & 0xFF) as bv8) ^ b
  {
  }

  lemma {:induction false} WideXor(c: bv32, w: bv64, t: bv32)
    requires w == c as bv64
    ensures (w >> 8) ^ (t as bv64) == Xor(c >> 8, t) as bv64
  {
  }

  /** A turn on an accumulator below 2^32 feeds the byte and stays below 2^32. */
  lemma {:induction false} TurnFeedsByte(c: bv32, w: bv64, b: bv8, t: bv32)
    requires w == c as bv64 && t == CrcTable(((w & 0xFF) as bv8) ^ b)
    ensures (w >> 8) ^ (t as bv64) == FeedByte(c, b) as bv64
  {
    hide CrcTable;
    TableIndex(c, w, b);
    TableStep(c, b, ((w & 0xFF) as bv8) ^ b, t);
    WideXor(c, w, t);
  }

  /** One turn of the loop; the 64-bit accumulator stays below 2^32. */
  method Turn(ghost c: bv32, wide: bv64, b: bv8) returns (next: bv64)
    requires wide == c as bv64
    ensures next == FeedByte(c, b) as bv64
  {
    hide CrcTable, FeedByte;
    var t := CrcTable(((wide & 0xFF) as bv8) ^ b);
    next := (wide >> 8) ^ (t as bv64);
    TurnFeedsByte(c, wide, b, t);
  }

  function Finish(ghost c: bv32, wide: bv64): (crc: bv32)
    requires wide == c as bv64
    ensures crc == c ^ 0xFFFF_FFFF
  {
    ((wide ^ 0xFFFF_FFFF) & 0xFFFF_FFFF) as bv32
  }

  method CalculateCrc(pt: array<bv8>, size: nat) returns (crc: bv32)
    requires size <= pt.Length
    ensures crc == BitSerialCrc(pt[..size])
  {
    var wide: bv64 := 0xFFFF_FFFF;
    ghost var c: bv32 := 0xFFFF_FFFF;
    var at, left := 0, size;
    while left != 0
      invariant at + left == size
      invariant wide == c as bv64 && c == Feed(0xFFFF_FFFF, pt[..at])
      decreases left
    {
      assert pt[..at + 1][..at] == pt[..at];
      wide := Turn(c, wide, pt[at]);
      c := FeedByte(c, pt[at]);
      at, left := at + 1, left - 1;
    }
    assert pt[..at] == pt[..size];
    crc := Finish(c, wide);
    FeedIsBitSerial(0xFFFF_FFFF, pt[..size]);
  }

  // ----- what a change does to the register -----

  function Join(low: bv8, high: bv32): bv32 {
    Xor(high << 8, low as bv32)
  }

  /** Up to four bytes, least significant first. */
  function Word(bytes: seq<bv8>): bv32
    requires |bytes| <= 4
  {
    if bytes == [] then 0 else Join(bytes[0], Word(bytes[1..]))
  }

  function WordLimit(n: nat): bv32 {
    match n
    case 0 => 0 case 1 => 0xFF case 2 => 0xFFFF case 3 => 0xFF_FFFF case _ => 0xFFFF_FFFF
  }

  lemma {:induction false} JoinIsInjective(a: bv8, b: bv8, x: bv32, y: bv32)
    requires x <= 0xFF_FFFF && y <= 0xFF_FFFF && Join(a, x) == Join(b, y)
    ensures a == b && x == y
  {
  }

  lemma {:induction false} JoinGrows(a: bv8, x: bv32)
    ensures x <= 0 ==> Join(a, x) <= 0xFF
    ensures x <= 0xFF ==> Join(a, x) <= 0xFFFF
    ensures x <= 0xFFFF ==> Join(a, x) <= 0xFF_FFFF
  {
  }

  lemma {:induction false} WordIsBelowLimit(bytes: seq<bv8>)
    requires |bytes| <= 4
    ensures Word(bytes) <= WordLimit(|bytes|)
  {
    hide Join;
    if bytes != [] {
      WordIsBelowLimit(bytes[1..]);
      JoinGrows(bytes[0], Word(bytes[1..]));
    }
  }

  lemma {:induction false} WordIsInjective(x: seq<bv8>, y: seq<bv8>)
    requires |x| == |y| <= 4 && Word(x) == Word(y)
    ensures x == y
  {
    hide Join;
    if x != [] {
      WordIsBelowLimit(x[1..]);
      WordIsBelowLimit(y[1..]);
      JoinIsInjective(x[0], y[0], Word(x[1..]), Word(y[1..]));
      WordIsInjective(x[1..], y[1..]);
      assert x == [x[0]] + x[1..] && y == [y[0]] + y[1..];
    }
  }

  lemma {:induction false} FeedSplits(c: bv32, x: seq<bv8>, y: seq<bv8>)
    ensures Feed(c, x + y) == Feed(Feed(c, x), y)
  {
    if y == [] {
      assert x + y == x;
    } else {
      assert (x + y)[..|x + y| - 1] == x + y[..|y| - 1];
      FeedSplits(c, x, y[..|y| - 1]);
    }
  }

  lemma {:induction false} ShiftsAdd(c: bv32, m: nat, n: nat)
    ensures Shifts(Shifts(c, m), n) == Shifts(c, m + n)
  {
    if n > 0 { ShiftsAdd(c, m, n - 1); }
  }

  lemma {:induction false} XorCommutes(x: bv32, y: bv32)
    ensures Xor(x, y) == Xor(y, x)
  {
  }

  lemma {:induction false} JoinIsXor(c: bv32, low: bv8, high: bv32)
    ensures Xor(Xor(c, low as bv32), high << 8) == Xor(c, Join(low, high))
  {
    hide Xor;
    XorAssociates(c, low as bv32, high << 8);
    XorCommutes(low as bv32, high << 8);
  }

  lemma {:induction false} BelowLimitHasNoTopByte(y: bv32)
    requires y <= 0xFF_FFFF
    ensures y & 0xFF00_0000 == 0
  {
  }

  lemma {:induction false} ByteComesFirst(c: bv32, low: bv8, high: bv32)
    requires high & 0xFF00_0000 == 0
    ensures Xor(FeedByte(c, low), high) == Shifts(Xor(c, Join(low, high)), 8)
  {
    EightShifts(Xor(c, low as bv32));
    ByteMovesDown(high);
    EightShifts(high << 8);
    ShiftsAreLinear(Xor(c, low as bv32), high << 8, 8);
    JoinIsXor(c, low, high);
  }

  /** Feeding up to four bytes is adding them as one word, then shifting them out. */
  lemma {:induction false} BytesEnterAsWord(c: bv32, bytes: seq<bv8>)
    requires |bytes| <= 4
    ensures Feed(c, bytes) == Shifts(Xor(c, Word(bytes)), 8 * |bytes|)
    decreases |bytes|
  {
    if bytes == [] {
      XorWithZero(c);
    } else {
      hide Xor, Join, FeedByte, Shifts;
      var low, rest := bytes[0], bytes[1..];
      assert bytes == [low] + rest;
      FeedSplits(c, [low], rest);
      assert Feed(c, [low]) == FeedByte(c, low);
      BytesEnterAsWord(FeedByte(c, low), rest);
      WordIsBelowLimit(rest);
      BelowLimitHasNoTopByte(Word(rest));
      ByteComesFirst(c, low, Word(rest));
      ShiftsAdd(Xor(c, Join(low, Word(rest))), 8, 8 * |rest|);
    }
  }

  lemma {:induction false} XorCancels(c: bv32, x: bv32, y: bv32)
    requires Xor(c, x) == Xor(c, y)
    ensures x == y
  {
  }

  lemma {:induction false} WindowsAreDistinguished(c: bv32, x: seq<bv8>, y: seq<bv8>)
    requires |x| == |y| <= 4 && x != y
    ensures Feed(c, x) != Feed(c, y)
  {
    BytesEnterAsWord(c, x);
    BytesEnterAsWord(c, y);
    if Feed(c, x) == Feed(c, y) {
      ShiftsAreInjective(Xor(c, Word(x)), Xor(c, Word(y)), 8 * |x|);
      XorCancels(c, Word(x), Word(y));
      WordIsInjective(x, y);
    }
  }

  lemma {:induction false} XorRight(c: bv32, d: bv32, x: bv32)
    requires Xor(c, x) == Xor(d, x)
    ensures c == d
  {
  }

  lemma {:induction false} ByteCannotMerge(c: bv32, d: bv32, b: bv8)
    requires FeedByte(c, b) == FeedByte(d, b)
    ensures c == d
  {
    EightShifts(Xor(c, b as bv32));
    EightShifts(Xor(d, b as bv32));
    ShiftsAreInjective(Xor(c, b as bv32), Xor(d, b as bv32), 8);
    XorRight(c, d, b as bv32);
  }

  /** Different registers stay different under the same bytes. */
  lemma {:induction false} RegistersStayApart(c: bv32, d: bv32, message: seq<bv8>)
    requires c != d
    ensures Feed(c, message) != Feed(d, message)
  {
    if message != [] {
      var front, last := message[..|message| - 1], message[|message| - 1];
      RegistersStayApart(c, d, front);
      if FeedByte(Feed(c, front), last) == FeedByte(Feed(d, front), last) {
        ByteCannotMerge(Feed(c, front), Feed(d, front), last);
      }
    }
  }

  /** Messages of one length, equal but for a window of at most four bytes, have
      different checksums. */
  lemma {:induction false} BurstChangesCrc(before: seq<bv8>, x: seq<bv8>, y: seq<bv8>, after: seq<bv8>)
    requires |x| == |y| <= 4 && x != y
    ensures BitSerialCrc(before + x + after) != BitSerialCrc(before + y + after)
  {
    var c := Feed(0xFFFF_FFFF, before);
    FeedSplits(0xFFFF_FFFF, before, x);
    FeedSplits(0xFFFF_FFFF, before, y);
    FeedSplits(0xFFFF_FFFF, before + x, after);
    FeedSplits(0xFFFF_FFFF, before + y, after);
    WindowsAreDistinguished(c, x, y);
    RegistersStayApart(Feed(c, x), Feed(c, y), after);
    FeedIsBitSerial(0xFFFF_FFFF, before + x + after);
    FeedIsBitSerial(0xFFFF_FFFF, before + y + after);
    if BitSerialCrc(before + x + after) == BitSerialCrc(before + y + after) {
      XorRight(Feed(Feed(c, x), after), Feed(Feed(c, y), after), 0xFFFF_FFFF);
    }
  }

  // ----- the header field -----

  const CRC_FIELD := 16
  const HEADER_SIZE_FIELD := 12
  const AFTER_CRC := 20

  function Bytes(w: bv32): (bytes: seq<bv8>)
    ensures |bytes| == 4
  {
    [(w & 0xFF) as bv8, ((w >> 8) & 0xFF) as bv8, ((w >> 16) & 0xFF) as bv8, ((w >> 24) & 0xFF) as bv8]
  }

  lemma {:induction false} JoinBytes(w: bv32)
    ensures Join((w & 0xFF) as bv8, Join(((w >> 8) & 0xFF) as bv8,
                 Join(((w >> 16) & 0xFF) as bv8, Join(((w >> 24) & 0xFF) as bv8, 0)))) == w
  {
  }

  lemma {:induction false} WordOfBytes(w: bv32)
    ensures Word(Bytes(w)) == w
  {
    var s := Bytes(w);
    assert s[1..][1..] == s[2..] && s[2..][1..] == s[3..] && s[3..][1..] == [];
    assert Word(s[3..]) == Join(s[3], 0);
    assert Word(s[2..]) == Join(s[2], Word(s[3..]));
    assert Word(s[1..]) == Join(s[1], Word(s[2..]));
    JoinBytes(w);
  }

  function StoredCrc(table: seq<bv8>): bv32
    requires |table| >= AFTER_CRC
  {
    Word(table[CRC_FIELD..AFTER_CRC])
  }

  function WithCrc(table: seq<bv8>, w: bv32): (r: seq<bv8>)
    requires |table| >= AFTER_CRC
    ensures |r| == |table|
  {
    table[..CRC_FIELD] + Bytes(w) + table[AFTER_CRC..]
  }

  /** What the stored field should be: the checksum with the field taken as zero. */
  function ExpectedCrc(table: seq<bv8>, size: nat): bv32
    requires |table| >= AFTER_CRC && size <= |table|
  {
    BitSerialCrc(WithCrc(table, 0)[..size])
  }

  predicate InLimits(maxSize: nat, size: nat) {
    size != 0 && (maxSize == 0 || size <= maxSize)
  }

  /** A table that CheckCrcAltSize passes. */
  predicate Passes(table: seq<bv8>, maxSize: nat, size: nat)
    requires |table| >= AFTER_CRC && size <= |table|
  {
    InLimits(maxSize, size) && StoredCrc(table) == ExpectedCrc(table, size)
  }

  method StoreCrc(hdr: array<bv8>, w: bv32)
    requires hdr.Length >= AFTER_CRC
    modifies hdr
    ensures hdr[..] == WithCrc(old(hdr[..]), w)
  {
    var bytes := Bytes(w);
    hdr[CRC_FIELD], hdr[CRC_FIELD + 1], hdr[CRC_FIELD + 2], hdr[CRC_FIELD + 3] := bytes[0], bytes[1], bytes[2], bytes[3];
    assert hdr[..] == WithCrc(old(hdr[..]), w);
  }

  method SetCrcAltSize(size: nat, hdr: array<bv8>)
    requires hdr.Length >= AFTER_CRC && size <= hdr.Length
    modifies hdr
    ensures hdr[..] == WithCrc(old(hdr[..]), ExpectedCrc(old(hdr[..]), size))
  {
    StoreCrc(hdr, 0);
    var crc := CalculateCrc(hdr, size);
    assert hdr[..][..size] == hdr[..size];
    StoreCrc(hdr, crc);
  }

  /** SetCrc and CheckCrc take the size from the header. */
  function HeaderSize(table: seq<bv8>): nat
    requires |table| >= AFTER_CRC
  {
    Word(table[HEADER_SIZE_FIELD..CRC_FIELD]) as nat
  }

  method SetCrc(hdr: array<bv8>)
    requires hdr.Length >= AFTER_CRC && HeaderSize(hdr[..]) <= hdr.Length
    modifies hdr
    ensures hdr[..] == WithCrc(old(hdr[..]), ExpectedCrc(old(hdr[..]), HeaderSize(old(hdr[..]))))
  {
    SetCrcAltSize(HeaderSize(hdr[..]), hdr);
  }

  lemma {:induction false} RestoringIsIdentity(table: seq<bv8>, w: bv32)
    requires |table| >= AFTER_CRC
    ensures WithCrc(WithCrc(table, w), StoredCrc(table)) == table
    ensures StoredCrc(WithCrc(table, w)) == w
    ensures WithCrc(WithCrc(table, w), 0) == WithCrc(table, 0)
  {
    var field, t := table[CRC_FIELD..AFTER_CRC], WithCrc(table, w);
    WordOfBytes(StoredCrc(table));
    WordIsInjective(Bytes(StoredCrc(table)), field);
    WordOfBytes(w);
    assert t[CRC_FIELD..AFTER_CRC] == Bytes(w);
    assert t[..CRC_FIELD] == table[..CRC_FIELD] && t[AFTER_CRC..] == table[AFTER_CRC..];
    assert table == table[..CRC_FIELD] + field + table[AFTER_CRC..];
  }

  method CheckCrcAltSize(maxSize: nat, size: nat, hdr: array<bv8>) returns (f: bool)
    requires hdr.Length >= AFTER_CRC && (InLimits(maxSize, size) ==> size <= hdr.Length)
    modifies hdr
    ensures hdr[..] == old(hdr[..])
    ensures f == (InLimits(maxSize, size) && Passes(hdr[..], maxSize, size))
  {
    if size == 0 {
      return false;
    }
    if maxSize != 0 && size > maxSize {
      return false;
    }
    var original := Word(hdr[CRC_FIELD..AFTER_CRC]);
    StoreCrc(hdr, 0);
    var crc := CalculateCrc(hdr, size);
    assert hdr[..][..size] == hdr[..size];
    StoreCrc(hdr, original);
    RestoringIsIdentity(old(hdr[..]), 0);
    return original == crc;
  }

  method CheckCrc(maxSize: nat, hdr: array<bv8>) returns (f: bool)
    requires hdr.Length >= AFTER_CRC && (InLimits(maxSize, HeaderSize(hdr[..])) ==> HeaderSize(hdr[..]) <= hdr.Length)
    modifies hdr
    ensures hdr[..] == old(hdr[..])
    ensures f == (InLimits(maxSize, HeaderSize(hdr[..])) && Passes(hdr[..], maxSize, HeaderSize(hdr[..])))
  {
    f := CheckCrcAltSize(maxSize, HeaderSize(hdr[..]), hdr);
  }

  /** What SetCrcAltSize leaves behind passes the check of the same size; checking it
      changes nothing (CheckCrcAltSize's first promise). */
  lemma {:induction false} SetThenCheckPasses(table: seq<bv8>, maxSize: nat, size: nat)
    requires |table| >= AFTER_CRC && size <= |table| && InLimits(maxSize, size)
    ensures Passes(WithCrc(table, ExpectedCrc(table, size)), maxSize, size)
  {
    RestoringIsIdentity(table, ExpectedCrc(table, size));
  }

  // ----- the CRC-32 of the standard, and its field -----

  lemma {:induction false} FeedOne(c: bv32, message: seq<bv8>, b: bv8)
    ensures Feed(c, message + [b]) == FeedByte(Feed(c, message), b)
  {
    assert (message + [b])[..|message|] == message;
  }

  /** The check value by which a CRC-32 is told from its relatives. */
  lemma {:induction false} CheckValue()
    ensures BitSerialCrc([0x31, 0x32, 0x33, 0x34, 0x35, 0x36, 0x37, 0x38, 0x39]) == 0xCBF4_3926
  {
    var m: seq<bv8> := [0x31, 0x32, 0x33, 0x34, 0x35, 0x36, 0x37, 0x38, 0x39];
    assert FeedByte(0xFFFFFFFF, 0x31) == 0x7C231048;
    assert FeedByte(0x7C231048, 0x32) == 0xB0ACBB32;
    assert FeedByte(0xB0ACBB32, 0x33) == 0x77B79C2D;
    assert FeedByte(0x77B79C2D, 0x34) == 0x641C1F5C;
    assert FeedByte(0x641C1F5C, 0x35) == 0x340AC5E3;
    assert FeedByte(0x340AC5E3, 0x36) == 0xF68D2C9E;
    assert FeedByte(0xF68D2C9E, 0x37) == 0xAFFC9660;
    assert FeedByte(0xAFFC9660, 0x38) == 0x651F2550;
    assert FeedByte(0x651F2550, 0x39) == 0x340BC6D9;
    hide FeedByte;
    assert Feed(0xFFFF_FFFF, m[..0]) == 0xFFFF_FFFF;
    assert m[..1] == m[..0] + [0x31];
    FeedOne(0xFFFF_FFFF, m[..0], 0x31);
    assert m[..2] == m[..1] + [0x32];
    FeedOne(0xFFFF_FFFF, m[..1], 0x32);
    assert m[..3] == m[..2] + [0x33];
    FeedOne(0xFFFF_FFFF, m[..2], 0x33);
    assert m[..4] == m[..3] + [0x34];
    FeedOne(0xFFFF_FFFF, m[..3], 0x34);
    assert m[..5] == m[..4] + [0x35];
    FeedOne(0xFFFF_FFFF, m[..4], 0x35);
    assert m[..6] == m[..5] + [0x36];
    FeedOne(0xFFFF_FFFF, m[..5], 0x36);
    assert m[..7] == m[..6] + [0x37];
    FeedOne(0xFFFF_FFFF, m[..6], 0x37);
    assert m[..8] == m[..7] + [0x38];
    FeedOne(0xFFFF_FFFF, m[..7], 0x38);
    assert m[..9] == m[..8] + [0x39];
    FeedOne(0xFFFF_FFFF, m[..8], 0x39);
    assert m[..9] == m;
    FeedIsBitSerial(0xFFFF_FFFF, m);
  }

  lemma {:induction false} ZeroStays(zeros: seq<bv8>)
    requires forall i :: 0 <= i < |zeros| ==> zeros[i] == 0
    ensures Feed(0, zeros) == 0
  {
    if zeros != [] {
      ZeroStays(zeros[..|zeros| - 1]);
      assert FeedByte(0, 0) == 0;
    }
  }

  lemma {:induction false} ShiftsOfZero(n: nat)
    ensures Shifts(0, n) == 0
  {
    if n > 0 { ShiftsOfZero(n - 1); }
  }

  /** Four bytes of ones clear the register, which starts with ones; zeros keep it clear. */
  lemma {:induction false} OnesThenZeros(zeros: seq<bv8>)
    requires forall i :: 0 <= i < |zeros| ==> zeros[i] == 0
    ensures BitSerialCrc([0xFF, 0xFF, 0xFF, 0xFF] + zeros) == 0xFFFF_FFFF
  {
    var ones := Bytes(0xFFFF_FFFF);
    WordOfBytes(0xFFFF_FFFF);
    BytesEnterAsWord(0xFFFF_FFFF, ones);
    assert Shifts(Xor(0xFFFF_FFFF, 0xFFFF_FFFF), 32) == 0 by {
      ShiftsOfZero(32);
    }
    FeedSplits(0xFFFF_FFFF, ones, zeros);
    ZeroStays(zeros);
    FeedIsBitSerial(0xFFFF_FFFF, ones + zeros);
  }

  lemma {:induction false} ShiftsOfOnes()
    ensures Shifts(0xFFFF_FFFF, 32) == 0xDEBB_20E3
  {
    assert Shift8(0xFFFFFFFF) == 0x2DFD1072;
    assert Shift8(0x2DFD1072) == 0xBE26ED00;
    assert Shift8(0xBE26ED00) == 0x00BE26ED;
    assert Shift8(0x00BE26ED) == 0xDEBB20E3;
    hide Shift8;
    EightShifts(0xFFFFFFFF);
    EightShifts(0x2DFD1072);
    EightShifts(0xBE26ED00);
    EightShifts(0x00BE26ED);
    ShiftsAdd(0xFFFF_FFFF, 8, 8);
    ShiftsAdd(0xFFFF_FFFF, 16, 8);
    ShiftsAdd(0xFFFF_FFFF, 24, 8);
  }

  lemma {:induction false} OnesRemain(c: bv32)
    ensures Xor(c, c ^ 0xFFFF_FFFF) == 0xFFFF_FFFF
  {
  }

  function LittleEndian(a: bv8, b: bv8, c: bv8, d: bv8): bv32 {
    ((d as bv32) << 24) | ((c as bv32) << 16) | ((b as bv32) << 8) | (a as bv32)
  }

  lemma {:induction false} JoinedBytes(a: bv8, b: bv8, c: bv8, d: bv8)
    ensures Join(a, Join(b, Join(c, Join(d, 0)))) == LittleEndian(a, b, c, d)
  {
  }

  lemma {:induction false} FourBytes(s: seq<bv8>)
    requires |s| == 4
    ensures Word(s) == LittleEndian(s[0], s[1], s[2], s[3])
  {
    hide Join, LittleEndian;
    assert s[1..][1..] == s[2..] && s[2..][1..] == s[3..] && s[3..][1..] == [];
    assert Word(s[3..]) == Join(s[3], 0);
    assert Word(s[2..]) == Join(s[2], Word(s[3..]));
    assert Word(s[1..]) == Join(s[1], Word(s[2..]));
    JoinedBytes(s[0], s[1], s[2], s[3]);
  }

  /** A message with its own checksum behind it, least significant byte first, has the
      residue of CRC-32 for its checksum, whatever the message. */
  lemma {:induction false} ChecksumBehindGivesResidue(m: seq<bv8>, behind: seq<bv8>)
    requires |behind| == 4 && LittleEndian(behind[0], behind[1], behind[2], behind[3]) == BitSerialCrc(m)
    ensures BitSerialCrc(m + behind) == 0x2144_DF1C
  {
    var c := Feed(0xFFFF_FFFF, m);
    FourBytes(behind);
    FeedIsBitSerial(0xFFFF_FFFF, m);
    FeedIsBitSerial(0xFFFF_FFFF, m + behind);
    FeedSplits(0xFFFF_FFFF, m, behind);
    BytesEnterAsWord(c, behind);
    OnesRemain(c);
    ShiftsOfOnes();
  }

  /** The fields of a table header (section 4.2 of UEFI 2.3): the size is bytes 12 to 15,
      the checksum bytes 16 to 19, least significant byte first. */
  lemma {:induction false} HeaderFields(t: seq<bv8>, w: bv32)
    requires |t| >= 20
    ensures HeaderSize(t) == LittleEndian(t[12], t[13], t[14], t[15]) as nat
    ensures StoredCrc(t) == LittleEndian(t[16], t[17], t[18], t[19])
    ensures forall i :: 0 <= i < |t| && !(16 <= i < 20) ==> WithCrc(t, w)[i] == t[i]
    ensures LittleEndian(WithCrc(t, w)[16], WithCrc(t, w)[17], WithCrc(t, w)[18], WithCrc(t, w)[19]) == w
  {
    FourBytes(t[12..16]);
    FourBytes(t[16..20]);
    FourBytes(Bytes(w));
    WordOfBytes(w);
  }

  /** What the check answers, with the checksum of the table as it is but for zeros in
      bytes 16 to 19: a size of 0 fails, and a limit of 0 is none. */
  lemma {:induction false} PassesMeans(t: seq<bv8>, maxSize: nat, size: nat, cleared: seq<bv8>)
    requires |t| >= 20 && size <= |t| && |cleared| == |t|
    requires forall i :: 0 <= i < |t| ==> cleared[i] == if 16 <= i < 20 then 0 else t[i]
    ensures Passes(t, maxSize, size)
       <==> && size != 0 && (maxSize == 0 || size <= maxSize)
            && LittleEndian(t[16], t[17], t[18], t[19]) == BitSerialCrc(cleared[..size])
    ensures ExpectedCrc(t, size) == BitSerialCrc(cleared[..size])
  {
    FourBytes(t[16..20]);
    assert Bytes(0) == [0, 0, 0, 0];
    assert WithCrc(t, 0) == cleared;
  }

  // ----- detection -----

  /** The strings differ, and only inside the window. */
  ghost predicate DifferIn(s: seq<bv8>, t: seq<bv8>, lo: nat, hi: nat) {
    && |s| == |t| && lo <= hi <= |s| && s != t
    && forall i :: 0 <= i < |s| && !(lo <= i < hi) ==> s[i] == t[i]
  }

  lemma {:induction false} ChangedFieldIsDetected(s: seq<bv8>, t: seq<bv8>, maxSize: nat, size: nat)
    requires |s| == |t| >= AFTER_CRC && size <= |s| && Passes(s, maxSize, size)
    requires s != t && s[..CRC_FIELD] == t[..CRC_FIELD] && s[AFTER_CRC..] == t[AFTER_CRC..]
    ensures !Passes(t, maxSize, size)
  {
    assert s == s[..CRC_FIELD] + s[CRC_FIELD..AFTER_CRC] + s[AFTER_CRC..];
    assert t == t[..CRC_FIELD] + t[CRC_FIELD..AFTER_CRC] + t[AFTER_CRC..];
    if StoredCrc(s) == StoredCrc(t) {
      WordIsInjective(s[CRC_FIELD..AFTER_CRC], t[CRC_FIELD..AFTER_CRC]);
    }
  }

  lemma {:induction false} ChangedMessage(m: seq<bv8>, n: seq<bv8>, lo: nat, hi: nat)
    requires DifferIn(m, n, lo, hi) && hi - lo <= 4
    ensures BitSerialCrc(m) != BitSerialCrc(n)
  {
    assert m == m[..lo] + m[lo..hi] + m[hi..];
    assert n == n[..lo] + n[lo..hi] + n[hi..];
    assert m[..lo] == n[..lo] && m[hi..] == n[hi..];
    BurstChangesCrc(m[..lo], m[lo..hi], n[lo..hi], m[hi..]);
  }

  lemma {:induction false} ClearedTablesDiffer(s: seq<bv8>, t: seq<bv8>, size: nat, lo: nat, hi: nat)
    requires |s| >= AFTER_CRC && hi <= size <= |s| && DifferIn(s, t, lo, hi)
    requires hi <= CRC_FIELD || AFTER_CRC <= lo
    ensures DifferIn(WithCrc(s, 0)[..size], WithCrc(t, 0)[..size], lo, hi)
  {
    var m, n := WithCrc(s, 0)[..size], WithCrc(t, 0)[..size];
    assert forall i :: 0 <= i < size && !(CRC_FIELD <= i < AFTER_CRC) ==> m[i] == s[i] && n[i] == t[i];
    assert forall i :: 0 <= i < size && CRC_FIELD <= i < AFTER_CRC ==> m[i] == Bytes(0)[i - CRC_FIELD] == n[i];
    var j :| 0 <= j < |s| && s[j] != t[j];
    assert m[j] != n[j];
  }

  /** Any change to at most four neighbouring bytes makes a passing table fail, when
      they lie wholly in the CRC field or wholly in the rest of the covered bytes. */
  lemma {:induction false} BurstIsDetected(s: seq<bv8>, t: seq<bv8>, maxSize: nat, size: nat, lo: nat, hi: nat)
    requires |t| == |s| >= AFTER_CRC && size <= |s| && Passes(s, maxSize, size)
    requires DifferIn(s, t, lo, hi) && hi - lo <= 4
    requires (CRC_FIELD <= lo && hi <= AFTER_CRC) || (hi <= size && (hi <= CRC_FIELD || AFTER_CRC <= lo))
    ensures !Passes(t, maxSize, size)
  {
    if CRC_FIELD <= lo && hi <= AFTER_CRC {
      ChangedFieldIsDetected(s, t, maxSize, size);
    } else {
      assert s[CRC_FIELD..AFTER_CRC] == t[CRC_FIELD..AFTER_CRC];
      ClearedTablesDiffer(s, t, size, lo, hi);
      ChangedMessage(WithCrc(s, 0)[..size], WithCrc(t, 0)[..size], lo, hi);
    }
  }

  /** In particular a change to any one covered byte is found. */
  lemma {:induction false} AnyChangedByteIsDetected(s: seq<bv8>, maxSize: nat, size: nat, i: nat, b: bv8)
    requires |s| >= AFTER_CRC && size <= |s| && Passes(s, maxSize, size)
    requires i < size && b != s[i]
    ensures !Passes(s[i := b], maxSize, size)
  {
    var t := s[i := b];
    assert t[i] != s[i];
    BurstIsDetected(s, t, maxSize, size, i, i + 1);
  }
}
