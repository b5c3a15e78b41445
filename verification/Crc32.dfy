/** CRC-32 as applications/crc32.c computes it, against the bit-serial definition of
    section 8 of RFC 1952: reflected polynomial, all-ones start value, inverted result. */
module Crc32 {

  type Byte = bv8

  const POLY: bv32 := 0xEDB88320

  // ---------------------------------------------------------------------------------
  // Reference: one message bit at a time, least significant bit of each byte first
  // ---------------------------------------------------------------------------------

  function Shift(c: bv32): bv32 {
    if c & 1 == 1 then (c >> 1) ^ POLY else c >> 1
  }

  function Xor(a: bv32, b: bv32): bv32 {
    a ^ b
  }

  function Bit(bit: bool): bv32 {
    if bit then 1 else 0
  }

  function FeedBit(c: bv32, bit: bool): bv32 {
    Shift(Xor(c, Bit(bit)))
  }

  function Feed(c: bv32, bits: seq<bool>): bv32
    decreases bits
  {
    if bits == [] then c else Feed(FeedBit(c, bits[0]), bits[1..])
  }

  function BitsOf(d: Byte): seq<bool> {
    [d & 1 != 0, d & 2 != 0, d & 4 != 0, d & 8 != 0, d & 16 != 0, d & 32 != 0, d & 64 != 0, d & 128 != 0]
  }

  function MessageBits(data: seq<Byte>): (bits: seq<bool>)
    ensures |bits| == 8 * |data|
  {
    if data == [] then [] else BitsOf(data[0]) + MessageBits(data[1..])
  }

  function Register(c: bv32, data: seq<Byte>): bv32 {
    Feed(c, MessageBits(data))
  }

  function Crc(data: seq<Byte>): bv32 {
    Xor(Register(0xFFFFFFFF, data), 0xFFFFFFFF)
  }

  // ---------------------------------------------------------------------------------
  // The lookup table, in the rows of eight the source writes it in
  // ---------------------------------------------------------------------------------

  function TableRow(r: bv8): (row: seq<bv32>)
    ensures |row| == 8
  {
    match r
    case 0 => [0x00000000, 0x77073096, 0xEE0E612C, 0x990951BA, 0x076DC419, 0x706AF48F, 0xE963A535, 0x9E6495A3]
    case 1 => [0x0EDB8832, 0x79DCB8A4, 0xE0D5E91E, 0x97D2D988, 0x09B64C2B, 0x7EB17CBD, 0xE7B82D07, 0x90BF1D91]
    case 2 => [0x1DB71064, 0x6AB020F2, 0xF3B97148, 0x84BE41DE, 0x1ADAD47D, 0x6DDDE4EB, 0xF4D4B551, 0x83D385C7]
    case 3 => [0x136C9856, 0x646BA8C0, 0xFD62F97A, 0x8A65C9EC, 0x14015C4F, 0x63066CD9, 0xFA0F3D63, 0x8D080DF5]
    case 4 => [0x3B6E20C8, 0x4C69105E, 0xD56041E4, 0xA2677172, 0x3C03E4D1, 0x4B04D447, 0xD20D85FD, 0xA50AB56B]
    case 5 => [0x35B5A8FA, 0x42B2986C, 0xDBBBC9D6, 0xACBCF940, 0x32D86CE3, 0x45DF5C75, 0xDCD60DCF, 0xABD13D59]
    case 6 => [0x26D930AC, 0x51DE003A, 0xC8D75180, 0xBFD06116, 0x21B4F4B5, 0x56B3C423, 0xCFBA9599, 0xB8BDA50F]
    case 7 => [0x2802B89E, 0x5F058808, 0xC60CD9B2, 0xB10BE924, 0x2F6F7C87, 0x58684C11, 0xC1611DAB, 0xB6662D3D]
    case 8 => [0x76DC4190, 0x01DB7106, 0x98D220BC, 0xEFD5102A, 0x71B18589, 0x06B6B51F, 0x9FBFE4A5, 0xE8B8D433]
    case 9 => [0x7807C9A2, 0x0F00F934, 0x9609A88E, 0xE10E9818, 0x7F6A0DBB, 0x086D3D2D, 0x91646C97, 0xE6635C01]
    case 10 => [0x6B6B51F4, 0x1C6C6162, 0x856530D8, 0xF262004E, 0x6C0695ED, 0x1B01A57B, 0x8208F4C1, 0xF50FC457]
    case 11 => [0x65B0D9C6, 0x12B7E950, 0x8BBEB8EA, 0xFCB9887C, 0x62DD1DDF, 0x15DA2D49, 0x8CD37CF3, 0xFBD44C65]
    case 12 => [0x4DB26158, 0x3AB551CE, 0xA3BC0074, 0xD4BB30E2, 0x4ADFA541, 0x3DD895D7, 0xA4D1C46D, 0xD3D6F4FB]
    case 13 => [0x4369E96A, 0x346ED9FC, 0xAD678846, 0xDA60B8D0, 0x44042D73, 0x33031DE5, 0xAA0A4C5F, 0xDD0D7CC9]
    case 14 => [0x5005713C, 0x270241AA, 0xBE0B1010, 0xC90C2086, 0x5768B525, 0x206F85B3, 0xB966D409, 0xCE61E49F]
    case 15 => [0x5EDEF90E, 0x29D9C998, 0xB0D09822, 0xC7D7A8B4, 0x59B33D17, 0x2EB40D81, 0xB7BD5C3B, 0xC0BA6CAD]
    case 16 => [0xEDB88320, 0x9ABFB3B6, 0x03B6E20C, 0x74B1D29A, 0xEAD54739, 0x9DD277AF, 0x04DB2615, 0x73DC1683]
    case 17 => [0xE3630B12, 0x94643B84, 0x0D6D6A3E, 0x7A6A5AA8, 0xE40ECF0B, 0x9309FF9D, 0x0A00AE27, 0x7D079EB1]
    case 18 => [0xF00F9344, 0x8708A3D2, 0x1E01F268, 0x6906C2FE, 0xF762575D, 0x806567CB, 0x196C3671, 0x6E6B06E7]
    case 19 => [0xFED41B76, 0x89D32BE0, 0x10DA7A5A, 0x67DD4ACC, 0xF9B9DF6F, 0x8EBEEFF9, 0x17B7BE43, 0x60B08ED5]
    case 20 => [0xD6D6A3E8, 0xA1D1937E, 0x38D8C2C4, 0x4FDFF252, 0xD1BB67F1, 0xA6BC5767, 0x3FB506DD, 0x48B2364B]
    case 21 => [0xD80D2BDA, 0xAF0A1B4C, 0x36034AF6, 0x41047A60, 0xDF60EFC3, 0xA867DF55, 0x316E8EEF, 0x4669BE79]
    case 22 => [0xCB61B38C, 0xBC66831A, 0x256FD2A0, 0x5268E236, 0xCC0C7795, 0xBB0B4703, 0x220216B9, 0x5505262F]
    case 23 => [0xC5BA3BBE, 0xB2BD0B28, 0x2BB45A92, 0x5CB36A04, 0xC2D7FFA7, 0xB5D0CF31, 0x2CD99E8B, 0x5BDEAE1D]
    case 24 => [0x9B64C2B0, 0xEC63F226, 0x756AA39C, 0x026D930A, 0x9C0906A9, 0xEB0E363F, 0x72076785, 0x05005713]
    case 25 => [0x95BF4A82, 0xE2B87A14, 0x7BB12BAE, 0x0CB61B38, 0x92D28E9B, 0xE5D5BE0D, 0x7CDCEFB7, 0x0BDBDF21]
    case 26 => [0x86D3D2D4, 0xF1D4E242, 0x68DDB3F8, 0x1FDA836E, 0x81BE16CD, 0xF6B9265B, 0x6FB077E1, 0x18B74777]
    case 27 => [0x88085AE6, 0xFF0F6A70, 0x66063BCA, 0x11010B5C, 0x8F659EFF, 0xF862AE69, 0x616BFFD3, 0x166CCF45]
    case 28 => [0xA00AE278, 0xD70DD2EE, 0x4E048354, 0x3903B3C2, 0xA7672661, 0xD06016F7, 0x4969474D, 0x3E6E77DB]
    case 29 => [0xAED16A4A, 0xD9D65ADC, 0x40DF0B66, 0x37D83BF0, 0xA9BCAE53, 0xDEBB9EC5, 0x47B2CF7F, 0x30B5FFE9]
    case 30 => [0xBDBDF21C, 0xCABAC28A, 0x53B39330, 0x24B4A3A6, 0xBAD03605, 0xCDD70693, 0x54DE5729, 0x23D967BF]
    case _ => [0xB3667A2E, 0xC4614AB8, 0x5D681B02, 0x2A6F2B94, 0xB40BBE37, 0xC30C8EA1, 0x5A05DF1B, 0x2D02EF8D]
  }

  function Table(i: Byte): bv32 {
    var row := TableRow(i >> 3);
    match i & 7
    case 0 => row[0]
    case 1 => row[1]
    case 2 => row[2]
    case 3 => row[3]
    case 4 => row[4]
    case 5 => row[5]
    case 6 => row[6]
    case _ => row[7]
  }

  /** The statement in the loop of crc32_update. */
  function TableStep(c: bv32, d: Byte): bv32 {
    Xor(c >> 8, Table(Index(c, d)))
  }

  function Index(c: bv32, d: Byte): Byte {
    (c & 0xFF) as Byte ^ d
  }

  class Context {
    var crc: bv32

    constructor ()
      ensures crc == 0xFFFFFFFF
    {
      crc := 0xFFFFFFFF;
    }

    method Update(data: seq<Byte>)
      modifies this
      ensures crc == Register(old(crc), data)
    {
      hide TableStep, Shift, Xor, FeedBit, Register;
      RegisterOfNothing(crc);
      for i := 0 to |data|
        invariant crc == Register(old(crc), data[..i])
      {
        TableStepFeedsOneByte(crc, data[i]);
        RegisterAppend(old(crc), data[..i], [data[i]]);
        assert data[..i + 1] == data[..i] + [data[i]];
        crc := TableStep(crc, data[i]);
      }
      assert data[..|data|] == data;
    }

    /** The source stores the result byte by byte, least significant first, which on the
        little-endian target is the 32-bit value itself. */
    method Final() returns (result: bv32)
      modifies this
      ensures result == crc == Xor(old(crc), 0xFFFFFFFF)
    {
      crc := Xor(crc, 0xFFFFFFFF);
      result := crc;
    }
  }

  // ---------------------------------------------------------------------------------
  // Streaming: the register after a concatenation is the register fed on
  // ---------------------------------------------------------------------------------

  lemma {:induction false} FeedAppend(c: bv32, a: seq<bool>, b: seq<bool>)
    ensures Feed(c, a + b) == Feed(Feed(c, a), b)
    decreases a
  {
    hide FeedBit;
    if a == [] {
      assert a + b == b;
    } else {
      assert (a + b)[1..] == a[1..] + b;
      FeedAppend(FeedBit(c, a[0]), a[1..], b);
    }
  }

  lemma {:induction false} MessageBitsAppend(a: seq<Byte>, b: seq<Byte>)
    ensures MessageBits(a + b) == MessageBits(a) + MessageBits(b)
  {
    if a == [] {
      assert a + b == b;
    } else {
      assert (a + b)[1..] == a[1..] + b;
      MessageBitsAppend(a[1..], b);
    }
  }

  lemma RegisterOfNothing(c: bv32)
    ensures Register(c, []) == c
  {
  }

  lemma RegisterAppend(c: bv32, a: seq<Byte>, b: seq<Byte>)
    ensures Register(c, a + b) == Register(Register(c, a), b)
  {
    MessageBitsAppend(a, b);
    FeedAppend(c, MessageBits(a), MessageBits(b));
  }

  // ---------------------------------------------------------------------------------
  // Table step = eight bit steps
  // ---------------------------------------------------------------------------------

  /** n steps of the register without input. */
  function Shifts(n: nat, c: bv32): bv32 {
    if n == 0 then c else Shifts(n - 1, Shift(c))
  }

  function Push(word: bv32, bit: bool): bv32 {
    (word << 1) | Bit(bit)
  }

  ghost predicate TopClear(word: bv32) {
    word & 0x80000000 == 0
  }

  /** The bits as one register word, first bit lowest. */
  function Word(bits: seq<bool>): bv32 {
    if bits == [] then 0 else Push(Word(bits[1..]), bits[0])
  }

  /** The n lowest bits. */
  ghost function LowMask(n: nat): bv32 {
    if n == 0 then 0 else Push(LowMask(n - 1), true)
  }

  ghost predicate Within(word: bv32, mask: bv32) {
    word & !mask == 0
  }

  lemma PushWithin(word: bv32, bit: bool, mask: bv32)
    requires Within(word, mask)
    ensures Within(Push(word, bit), Push(mask, true))
  {
  }

  lemma {:induction false} WordWithinMask(bits: seq<bool>)
    ensures Within(Word(bits), LowMask(|bits|))
  {
    hide Push, Within;
    if bits == [] {
      assert Within(0, 0) by { ZeroWithin(); }
    } else {
      WordWithinMask(bits[1..]);
      PushWithin(Word(bits[1..]), bits[0], LowMask(|bits| - 1));
    }
  }

  lemma ZeroWithin()
    ensures Within(0, 0)
  {
  }

  lemma PushTopClear(mask: bv32)
    requires Within(mask, Push(mask, true)) && TopClear(Push(mask, true))
    ensures TopClear(mask)
  {
  }

  lemma {:induction false} LowMaskTopClear(n: nat)
    requires n <= 31
    ensures TopClear(LowMask(n)) && Within(LowMask(n), LowMask(n + 1))
    decreases 31 - n
  {
    hide Push, Within, TopClear;
    LowMaskWithinNext(n);
    if n == 31 {
      LowMask31();
    } else {
      LowMaskTopClear(n + 1);
      PushTopClear(LowMask(n));
    }
  }

  lemma {:induction false} LowMaskWithinNext(n: nat)
    ensures Within(LowMask(n), LowMask(n + 1))
  {
    hide Push, Within;
    if n == 0 {
      ZeroWithinOne();
    } else {
      LowMaskWithinNext(n - 1);
      PushWithin(LowMask(n - 1), true, LowMask(n));
    }
  }

  lemma ZeroWithinOne()
    ensures Within(0, Push(0, true))
  {
  }

  lemma LowMask31()
    ensures TopClear(LowMask(31))
  {
    assert LowMask(2) == 0x3 && LowMask(4) == 0xF && LowMask(6) == 0x3F && LowMask(8) == 0xFF;
    assert LowMask(10) == 0x3FF && LowMask(12) == 0xFFF && LowMask(14) == 0x3FFF && LowMask(16) == 0xFFFF;
    assert LowMask(18) == 0x3FFFF && LowMask(20) == 0xFFFFF && LowMask(22) == 0x3FFFFF;
    assert LowMask(24) == 0xFFFFFF && LowMask(26) == 0x3FFFFFF && LowMask(28) == 0xFFFFFFF;
    assert LowMask(30) == 0x3FFFFFFF;
  }

  lemma WithinTopClear(word: bv32, mask: bv32)
    requires Within(word, mask) && TopClear(mask)
    ensures TopClear(word)
  {
  }

  lemma WordFits(bits: seq<bool>)
    requires |bits| <= 31
    ensures TopClear(Word(bits))
  {
    hide Within, TopClear;
    WordWithinMask(bits);
    LowMaskTopClear(|bits|);
    WithinTopClear(Word(bits), LowMask(|bits|));
  }

  predicate Odd(a: bv32) {
    a & 1 == 1
  }

  function Half(a: bv32): bv32 {
    a >> 1
  }

  lemma ShiftParts(a: bv32)
    ensures Shift(a) == if Odd(a) then Xor(Half(a), POLY) else Half(a)
  {
  }

  lemma XorOdd(a: bv32, b: bv32)
    ensures Odd(Xor(a, b)) <==> Odd(a) != Odd(b)
  {
  }

  lemma XorHalf(a: bv32, b: bv32)
    ensures Half(Xor(a, b)) == Xor(Half(a), Half(b))
  {
  }

  lemma XorOnce(x: bv32, y: bv32, p: bv32)
    ensures Xor(Xor(x, p), y) == Xor(Xor(x, y), p) && Xor(x, Xor(y, p)) == Xor(Xor(x, y), p)
  {
  }

  lemma XorTwice(x: bv32, y: bv32, p: bv32)
    ensures Xor(Xor(x, p), Xor(y, p)) == Xor(x, y)
  {
    hide Xor;
    XorOnce(Xor(x, p), y, p);
    XorOnce(x, y, p);
    XorOff(Xor(x, y), p);
  }

  lemma XorOff(z: bv32, p: bv32)
    ensures Xor(Xor(z, p), p) == z
  {
  }

  lemma ShiftLinear(a: bv32, b: bv32)
    ensures Shift(Xor(a, b)) == Xor(Shift(a), Shift(b))
  {
    hide Shift, Xor, Odd, Half;
    ShiftParts(a);
    ShiftParts(b);
    ShiftParts(Xor(a, b));
    XorOdd(a, b);
    XorHalf(a, b);
    XorOnce(Half(a), Half(b), POLY);
    XorTwice(Half(a), Half(b), POLY);
  }

  lemma {:induction false} ShiftsLinear(n: nat, a: bv32, b: bv32)
    ensures Shifts(n, Xor(a, b)) == Xor(Shifts(n, a), Shifts(n, b))
    decreases n
  {
    hide Shift, Xor;
    if n > 0 {
      ShiftLinear(a, b);
      ShiftsLinear(n - 1, Shift(a), Shift(b));
    }
  }

  /** One bit of a word: what remains after feeding it is the word's tail xored in. */
  lemma PeelBit(c: bv32, bit: bool, rest: bv32)
    requires TopClear(rest)
    ensures Shift(Xor(c, Push(rest, bit))) == Xor(FeedBit(c, bit), rest)
  {
    hide Shift, Xor, Push, TopClear, Bit;
    PushIsXor(c, bit, rest);
    ShiftLinear(Xor(c, Bit(bit)), Push(rest, false));
    ShiftOfPush(rest);
  }

  lemma PushIsXor(c: bv32, bit: bool, rest: bv32)
    ensures Xor(c, Push(rest, bit)) == Xor(Xor(c, Bit(bit)), Push(rest, false))
  {
  }

  lemma ShiftOfPush(rest: bv32)
    requires TopClear(rest)
    ensures Shift(Push(rest, false)) == rest
  {
  }

  /** Feeding up to 32 bits is xoring them in at once and shifting as often. */
  lemma {:induction false} FeedIsShiftOfWord(c: bv32, bits: seq<bool>)
    requires |bits| <= 32
    ensures Feed(c, bits) == Shifts(|bits|, Xor(c, Word(bits)))
    decreases bits
  {
    hide Shift, Xor, FeedBit, Push, TopClear;
    if bits == [] {
      XorZero(c);
    } else {
      WordFits(bits[1..]);
      PeelBit(c, bits[0], Word(bits[1..]));
      FeedIsShiftOfWord(FeedBit(c, bits[0]), bits[1..]);
    }
  }

  lemma XorZero(c: bv32)
    ensures Xor(c, 0) == c
  {
  }

  function Shift8(c: bv32): bv32 {
    Shift(Shift(Shift(Shift(Shift(Shift(Shift(Shift(c))))))))
  }

  ghost predicate RowIsShifted(r: bv8) {
    var b := (r as bv32) << 3;
    TableRow(r) == [Shift8(b), Shift8(b | 1), Shift8(b | 2), Shift8(b | 3),
                    Shift8(b | 4), Shift8(b | 5), Shift8(b | 6), Shift8(b | 7)]
  }

  lemma Rows0To7(r: bv8)
    requires 0 <= r < 8
    ensures RowIsShifted(r)
  {
    match r
    case 0 =>
    case 1 =>
    case 2 =>
    case 3 =>
    case 4 =>
    case 5 =>
    case 6 =>
    case 7 =>
    case _ =>
  }

  lemma Rows8To15(r: bv8)
    requires 8 <= r < 16
    ensures RowIsShifted(r)
  {
    match r
    case 8 =>
    case 9 =>
    case 10 =>
    case 11 =>
    case 12 =>
    case 13 =>
    case 14 =>
    case 15 =>
    case _ =>
  }

  lemma Rows16To23(r: bv8)
    requires 16 <= r < 24
    ensures RowIsShifted(r)
  {
    match r
    case 16 =>
    case 17 =>
    case 18 =>
    case 19 =>
    case 20 =>
    case 21 =>
    case 22 =>
    case 23 =>
    case _ =>
  }

  lemma Rows24To31(r: bv8)
    requires 24 <= r < 32
    ensures RowIsShifted(r)
  {
    match r
    case 24 =>
    case 25 =>
    case 26 =>
    case 27 =>
    case 28 =>
    case 29 =>
    case 30 =>
    case 31 =>
    case _ =>
  }

  lemma EveryRowIsShifted(r: bv8)
    requires r < 32
    ensures RowIsShifted(r)
  {
    hide RowIsShifted;
    if r < 8 {
      Rows0To7(r);
    } else if r < 16 {
      Rows8To15(r);
    } else if r < 24 {
      Rows16To23(r);
    } else {
      Rows24To31(r);
    }
  }

  lemma IndexParts(i: Byte)
    ensures i >> 3 < 32
    ensures i as bv32 == (((i >> 3) as bv32) << 3) | ((i & 7) as bv32)
  {
  }

  lemma TableIsEightShifts(i: Byte)
    ensures Table(i) == Shift8(i as bv32)
  {
    hide Shift8, TableRow;
    IndexParts(i);
    EveryRowIsShifted(i >> 3);
    match i & 7
    case 0 =>
    case 1 =>
    case 2 =>
    case 3 =>
    case 4 =>
    case 5 =>
    case 6 =>
    case _ =>
      LastColumn(i);
  }

  lemma LastColumn(i: Byte)
    requires i & 7 != 0 && i & 7 != 1 && i & 7 != 2 && i & 7 != 3 && i & 7 != 4 && i & 7 != 5 && i & 7 != 6
    ensures i & 7 == 7
  {
  }

  lemma ShiftsEight(c: bv32)
    ensures Shifts(8, c) == Shift8(c)
  {
    hide Shift;
    var c2 := Shift(Shift(c));
    var c4 := Shift(Shift(c2));
    var c6 := Shift(Shift(c4));
    assert Shifts(8, c) == Shifts(7, Shift(c)) == Shifts(6, c2) == Shifts(5, Shift(c2)) == Shifts(4, c4);
    assert Shifts(4, c4) == Shifts(3, Shift(c4)) == Shifts(2, c6) == Shifts(1, Shift(c6)) ==
        Shifts(0, Shift(Shift(c6)));
  }

  lemma BitsCompose(d: Byte)
    ensures var p := Push(Push(Push(Push(0, d & 128 != 0), d & 64 != 0), d & 32 != 0), d & 16 != 0);
            Push(Push(Push(Push(p, d & 8 != 0), d & 4 != 0), d & 2 != 0), d & 1 != 0) == d as bv32
  {
  }

  lemma WordOfEight(b: seq<bool>)
    requires |b| == 8
    ensures Word(b) == Push(Push(Push(Push(Push(Push(Push(Push(0, b[7]), b[6]), b[5]), b[4]), b[3]), b[2]), b[1]), b[0])
  {
    hide Push;
    forall k | 0 <= k < 8
      ensures Word(b[k..]) == Push(Word(b[k + 1..]), b[k])
    {
      assert b[k..][1..] == b[k + 1..];
    }
    assert b[0..] == b && b[8..] == [];
  }

  lemma ByteIsWord(d: Byte)
    ensures Word(BitsOf(d)) == d as bv32
  {
    hide Push;
    WordOfEight(BitsOf(d));
    BitsCompose(d);
  }

  /** One table lookup advances the register exactly as the eight bits of the byte do. */
  lemma TableStepFeedsOneByte(c: bv32, d: Byte)
    ensures TableStep(c, d) == Register(c, [d])
  {
    hide Shift8, Table, Xor, Shift, Shifts, Index, FeedBit, Push, Bit, Word, BitsOf;
    var high, index := c & 0xFFFFFF00, Index(c, d);
    LowByteSplits(c, d);
    HighBytesPassThrough(c);
    assert MessageBits([d]) == BitsOf(d);
    ByteIsWord(d);
    FeedIsShiftOfWord(c, BitsOf(d));
    TableIsEightShifts(index);
    ShiftsLinear(8, high, index as bv32);
    ShiftsEight(high);
    ShiftsEight(index as bv32);
  }

  lemma LowByteSplits(c: bv32, d: Byte)
    ensures Xor(c, d as bv32) == Xor(c & 0xFFFFFF00, Index(c, d) as bv32)
  {
  }

  lemma HighBytesPassThrough(c: bv32)
    ensures Shift8(c & 0xFFFFFF00) == c >> 8
  {
  }

  // ---------------------------------------------------------------------------------
  // Error detection
  // ---------------------------------------------------------------------------------

  lemma ShiftInjective(x: bv32, y: bv32)
    requires Shift(x) == Shift(y)
    ensures x == y
  {
  }

  lemma {:induction false} ShiftsInjective(n: nat, x: bv32, y: bv32)
    requires Shifts(n, x) == Shifts(n, y)
    ensures x == y
    decreases n
  {
    hide Shift;
    if n > 0 {
      ShiftsInjective(n - 1, Shift(x), Shift(y));
      ShiftInjective(x, y);
    }
  }

  lemma XorCancels(x: bv32, y: bv32, z: bv32)
    requires Xor(x, z) == Xor(y, z) || Xor(z, x) == Xor(z, y)
    ensures x == y
  {
  }

  lemma {:induction false} FeedInjectiveInState(x: bv32, y: bv32, bits: seq<bool>)
    requires Feed(x, bits) == Feed(y, bits)
    ensures x == y
    decreases bits
  {
    hide Shift, Xor, Bit;
    if bits != [] {
      FeedInjectiveInState(FeedBit(x, bits[0]), FeedBit(y, bits[0]), bits[1..]);
      ShiftInjective(Xor(x, Bit(bits[0])), Xor(y, Bit(bits[0])));
      XorCancels(x, y, Bit(bits[0]));
    }
  }

  lemma PushInjective(x: bv32, a: bool, y: bv32, b: bool)
    requires TopClear(x) && TopClear(y) && Push(x, a) == Push(y, b)
    ensures x == y && a == b
  {
  }

  lemma {:induction false} WordInjective(a: seq<bool>, b: seq<bool>)
    requires |a| == |b| <= 32 && Word(a) == Word(b)
    ensures a == b
  {
    hide Push, TopClear;
    if a != [] {
      WordFits(a[1..]);
      WordFits(b[1..]);
      PushInjective(Word(a[1..]), a[0], Word(b[1..]), b[0]);
      WordInjective(a[1..], b[1..]);
    }
  }

  /** Two bit strings that agree outside a window of at most 32 bits never leave the
      same register behind. */
  lemma BurstChangesRegister(c: bv32, before: seq<bool>, a: seq<bool>, b: seq<bool>, after: seq<bool>)
    requires |a| == |b| <= 32 && a != b
    ensures Feed(c, before + a + after) != Feed(c, before + b + after)
  {
    hide Feed, Shifts, Word, Xor;
    var d := Feed(c, before);
    FeedAppend(c, before + a, after);
    FeedAppend(c, before, a);
    FeedAppend(c, before + b, after);
    FeedAppend(c, before, b);
    if Feed(c, before + a + after) == Feed(c, before + b + after) {
      FeedInjectiveInState(Feed(d, a), Feed(d, b), after);
      FeedIsShiftOfWord(d, a);
      FeedIsShiftOfWord(d, b);
      ShiftsInjective(|a|, Xor(d, Word(a)), Xor(d, Word(b)));
      XorCancels(Word(a), Word(b), d);
      WordInjective(a, b);
    }
  }

  lemma {:induction false} MessageBitsInjective(a: seq<Byte>, b: seq<Byte>)
    requires |a| == |b| && MessageBits(a) == MessageBits(b)
    ensures a == b
  {
    if a != [] {
      assert BitsOf(a[0]) == MessageBits(a)[..8] && BitsOf(b[0]) == MessageBits(b)[..8];
      assert MessageBits(a[1..]) == MessageBits(a)[8..] && MessageBits(b[1..]) == MessageBits(b)[8..];
      ByteIsWord(a[0]);
      ByteIsWord(b[0]);
      MessageBitsInjective(a[1..], b[1..]);
    }
  }

  /** Equal-length messages that differ, but only inside four consecutive bytes, always
      have different checksums. */
  lemma FourByteCorruptionDetected(m: seq<Byte>, n: seq<Byte>, at: nat)
    requires |m| == |n| && m != n
    requires forall i :: 0 <= i < |m| && !(at <= i < at + 4) ==> m[i] == n[i]
    ensures Crc(m) != Crc(n)
  {
    hide Feed, Xor, MessageBits;
    var from := if at <= |m| then at else |m|;
    var to := if at + 4 <= |m| then at + 4 else |m|;
    assert m == m[..from] + m[from..to] + m[to..];
    assert n == n[..from] + n[from..to] + n[to..];
    assert m[..from] == n[..from] && m[to..] == n[to..];
    MessageBitsAppend(m[..from] + m[from..to], m[to..]);
    MessageBitsAppend(m[..from], m[from..to]);
    MessageBitsAppend(n[..from] + n[from..to], n[to..]);
    MessageBitsAppend(n[..from], n[from..to]);
    if MessageBits(m[from..to]) == MessageBits(n[from..to]) {
      MessageBitsInjective(m[from..to], n[from..to]);
    }
    BurstChangesRegister(0xFFFFFFFF, MessageBits(m[..from]), MessageBits(m[from..to]),
                         MessageBits(n[from..to]), MessageBits(m[to..]));
    if Crc(m) == Crc(n) {
      XorCancels(Register(0xFFFFFFFF, m), Register(0xFFFFFFFF, n), 0xFFFFFFFF);
    }
  }
}

