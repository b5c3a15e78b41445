/** The ready bitmap (rt-thread/src/scheduler.c) as a 32-bit word: single-bit masks, setting and
    clearing bits, and __rt_ffs (rt-thread/src/kservice.c) finding the lowest one. */
module ReadyBits {

  /** number_mask of a thread: 1 shifted left by its priority. */
  function Mask(p: nat): bv32 {
    if p == 0 then 1 else Mask(p - 1) << 1
  }

  function And(a: bv32, b: bv32): bv32 {
    a & b
  }

  function Or(a: bv32, b: bv32): bv32 {
    a | b
  }

  function AndNot(a: bv32, b: bv32): bv32 {
    a & !b
  }

  function Less1(a: bv32): bv32 {
    a - 1
  }

  predicate Has(v: bv32, p: nat) {
    And(v, Mask(p)) != 0
  }

  function With(v: bv32, p: nat): bv32 {
    Or(v, Mask(p))
  }

  function Without(v: bv32, p: nat): bv32 {
    AndNot(v, Mask(p))
  }

  // ---------------------------------------------------------------------------------
  // Masks
  // ---------------------------------------------------------------------------------

  predicate Single(m: bv32) {
    m != 0 && m & (m - 1) == 0
  }

  lemma MaskValues0()
    ensures Mask(0) == 1 && Mask(1) == 2 && Mask(2) == 4 && Mask(3) == 8
    ensures Mask(4) == 16 && Mask(5) == 32 && Mask(6) == 64 && Mask(7) == 128
  {
  }

  lemma MaskValues1()
    ensures Mask(8) == 0x100 && Mask(9) == 0x200 && Mask(10) == 0x400 && Mask(11) == 0x800
    ensures Mask(12) == 0x1000 && Mask(13) == 0x2000 && Mask(14) == 0x4000 && Mask(15) == 0x8000
  {
    MaskValues0();
  }

  lemma MaskValues2()
    ensures Mask(16) == 0x10000 && Mask(17) == 0x20000 && Mask(18) == 0x40000 && Mask(19) == 0x80000
    ensures Mask(20) == 0x100000 && Mask(21) == 0x200000 && Mask(22) == 0x400000 && Mask(23) == 0x800000
  {
    MaskValues1();
  }

  lemma MaskValues3()
    ensures Mask(24) == 0x1000000 && Mask(25) == 0x2000000 && Mask(26) == 0x4000000 && Mask(27) == 0x8000000
    ensures Mask(28) == 0x10000000 && Mask(29) == 0x20000000 && Mask(30) == 0x40000000 && Mask(31) == 0x80000000
  {
    MaskValues2();
  }

  lemma DoubleSingle(m: bv32)
    requires Single(m) && m < 0x80000000
    ensures Single(m << 1) && m < m << 1
  {
  }

  /** A mask below the top one is below the value of the top mask. */
  lemma {:induction false} MaskSingle(p: nat)
    requires p < 32
    ensures Single(Mask(p)) && (p < 31 ==> Mask(p) < 0x80000000)
  {
    if p > 0 {
      MaskSingle(p - 1);
      DoubleSingle(Mask(p - 1));
    }
    if p < 31 {
      NotTop(p);
    }
  }

  /** If a lower mask had the top bit, the last mask would be 0. */
  lemma {:induction false} ZeroStays(p: nat, q: nat)
    requires p <= q && Mask(p) == 0
    ensures Mask(q) == 0
  {
    if p < q {
      ZeroStays(p, q - 1);
      ShiftZero();
    }
  }

  lemma ShiftZero()
    ensures (0 as bv32) << 1 == 0
  {
  }

  lemma TopShifted(m: bv32)
    requires m & (m - 1) == 0 && m >= 0x80000000
    ensures m << 1 == 0
  {
  }

  lemma DoubleAnd(m: bv32)
    requires m & (m - 1) == 0
    ensures (m << 1) & ((m << 1) - 1) == 0
  {
  }

  lemma {:induction false} MaskAnd(p: nat)
    ensures Mask(p) & (Mask(p) - 1) == 0
  {
    if p > 0 {
      MaskAnd(p - 1);
      DoubleAnd(Mask(p - 1));
    }
  }

  lemma NotTop(p: nat)
    requires p < 31
    ensures Mask(p) < 0x80000000
  {
    MaskAnd(p);
    if Mask(p) >= 0x80000000 {
      TopShifted(Mask(p));
      ZeroStays(p + 1, 31);
      MaskValues3();
    }
  }

  lemma {:induction false} MaskAscending(p: nat, q: nat)
    requires p < q < 32
    ensures Mask(p) < Mask(q)
  {
    hide Single;
    MaskSingle(q - 1);
    DoubleSingle(Mask(q - 1));
    if p < q - 1 {
      MaskAscending(p, q - 1);
    }
  }

  lemma SinglesDisjoint(m: bv32, n: bv32)
    requires Single(m) && Single(n) && m < n
    ensures And(m, n) == 0 && And(m, Less1(n)) == m
  {
  }

  lemma MasksDisjoint(p: nat, q: nat)
    requires p < q < 32
    ensures And(Mask(p), Mask(q)) == 0 && And(Mask(p), Less1(Mask(q))) == Mask(p)
  {
    hide Single, Mask, And, Less1;
    MaskSingle(p);
    MaskSingle(q);
    MaskAscending(p, q);
    SinglesDisjoint(Mask(p), Mask(q));
  }

  lemma OrKeeps(v: bv32, m: bv32, n: bv32)
    requires And(m, n) == 0
    ensures And(Or(v, m), n) == And(v, n)
  {
  }

  lemma AndNotKeeps(v: bv32, m: bv32, n: bv32)
    requires And(m, n) == 0
    ensures And(AndNot(v, m), n) == And(v, n)
  {
  }

  lemma OrSame(v: bv32, m: bv32)
    ensures And(Or(v, m), m) == m && And(AndNot(v, m), m) == 0
  {
  }

  lemma AndCommutes(m: bv32, n: bv32)
    ensures And(m, n) == And(n, m)
  {
  }

  lemma MasksApart(p: nat, q: nat)
    requires p < 32 && q < 32 && p != q
    ensures And(Mask(p), Mask(q)) == 0
  {
    hide Mask, And, Less1;
    if p < q {
      MasksDisjoint(p, q);
    } else {
      MasksDisjoint(q, p);
      AndCommutes(Mask(p), Mask(q));
    }
  }

  /** Setting bit p sets that bit and no other; clearing it clears that bit and no other. */
  lemma BitUpdates(v: bv32, p: nat, q: nat)
    requires p < 32 && q < 32
    ensures Has(With(v, p), q) <==> q == p || Has(v, q)
    ensures Has(Without(v, p), q) <==> q != p && Has(v, q)
  {
    hide Mask, And, Or, AndNot;
    if p == q {
      OrSame(v, Mask(p));
      MaskSingle(p);
    } else {
      MasksApart(p, q);
      OrKeeps(v, Mask(p), Mask(q));
      AndNotKeeps(v, Mask(p), Mask(q));
    }
  }

  lemma EmptyHas(p: nat)
    ensures !Has(0, p)
  {
    hide Mask, And;
    ZeroAnd(Mask(p));
  }

  lemma ZeroAnd(m: bv32)
    ensures And(0, m) == 0
  {
  }

  // ---------------------------------------------------------------------------------
  // __rt_ffs
  // ---------------------------------------------------------------------------------

  /** A row of __lowest_bit_bitmap: the sixteen entries from 16 * r. */
  function BitmapRow(r: bv8): (row: seq<nat>)
    ensures |row| == 16
  {
    match r
    case 0 => [0, 0, 1, 0, 2, 0, 1, 0, 3, 0, 1, 0, 2, 0, 1, 0]
    case 1 => [4, 0, 1, 0, 2, 0, 1, 0, 3, 0, 1, 0, 2, 0, 1, 0]
    case 2 => [5, 0, 1, 0, 2, 0, 1, 0, 3, 0, 1, 0, 2, 0, 1, 0]
    case 3 => [4, 0, 1, 0, 2, 0, 1, 0, 3, 0, 1, 0, 2, 0, 1, 0]
    case 4 => [6, 0, 1, 0, 2, 0, 1, 0, 3, 0, 1, 0, 2, 0, 1, 0]
    case 5 => [4, 0, 1, 0, 2, 0, 1, 0, 3, 0, 1, 0, 2, 0, 1, 0]
    case 6 => [5, 0, 1, 0, 2, 0, 1, 0, 3, 0, 1, 0, 2, 0, 1, 0]
    case 7 => [4, 0, 1, 0, 2, 0, 1, 0, 3, 0, 1, 0, 2, 0, 1, 0]
    case 8 => [7, 0, 1, 0, 2, 0, 1, 0, 3, 0, 1, 0, 2, 0, 1, 0]
    case 9 => [4, 0, 1, 0, 2, 0, 1, 0, 3, 0, 1, 0, 2, 0, 1, 0]
    case 10 => [5, 0, 1, 0, 2, 0, 1, 0, 3, 0, 1, 0, 2, 0, 1, 0]
    case 11 => [4, 0, 1, 0, 2, 0, 1, 0, 3, 0, 1, 0, 2, 0, 1, 0]
    case 12 => [6, 0, 1, 0, 2, 0, 1, 0, 3, 0, 1, 0, 2, 0, 1, 0]
    case 13 => [4, 0, 1, 0, 2, 0, 1, 0, 3, 0, 1, 0, 2, 0, 1, 0]
    case 14 => [5, 0, 1, 0, 2, 0, 1, 0, 3, 0, 1, 0, 2, 0, 1, 0]
    case _ => [4, 0, 1, 0, 2, 0, 1, 0, 3, 0, 1, 0, 2, 0, 1, 0]
  }

  function Bitmap(b: bv8): nat {
    var row := BitmapRow(b >> 4);
    match b & 15
    case 0 => row[0]
    case 1 => row[1]
    case 2 => row[2]
    case 3 => row[3]
    case 4 => row[4]
    case 5 => row[5]
    case 6 => row[6]
    case 7 => row[7]
    case 8 => row[8]
    case 9 => row[9]
    case 10 => row[10]
    case 11 => row[11]
    case 12 => row[12]
    case 13 => row[13]
    case 14 => row[14]
    case _ => row[15]
  }

  function Byte(v: bv32, k: nat): bv8 {
    if k == 0 then (v & 0xff) as bv8
    else if k == 1 then ((v & 0xff00) >> 8) as bv8
    else if k == 2 then ((v & 0xff0000) >> 16) as bv8
    else ((v & 0xff000000) >> 24) as bv8
  }

  function Ffs(v: bv32): nat {
    if v == 0 then 0
    else if v & 0xff != 0 then Bitmap(Byte(v, 0)) + 1
    else if v & 0xff00 != 0 then Bitmap(Byte(v, 1)) + 9
    else if v & 0xff0000 != 0 then Bitmap(Byte(v, 2)) + 17
    else Bitmap(Byte(v, 3)) + 25
  }

  /** The lowest set bit of a byte, by testing the bits one after the other. */
  function LowestOf(b: bv8): nat {
    if b & 1 != 0 then 0 else if b & 2 != 0 then 1 else if b & 4 != 0 then 2 else if b & 8 != 0 then 3
    else if b & 16 != 0 then 4 else if b & 32 != 0 then 5 else if b & 64 != 0 then 6 else 7
  }

  /** Every row ends in the same fifteen entries. */
  lemma RowsAgree(r: bv8)
    ensures BitmapRow(r)[1..] == [0, 1, 0, 2, 0, 1, 0, 3, 0, 1, 0, 2, 0, 1, 0]
  {
  }

  lemma LowColumns(b: bv8)
    requires b & 15 != 0
    ensures Bitmap(b) == LowestOf(b)
  {
    hide BitmapRow;
    var row := BitmapRow(b >> 4);
    RowsAgree(b >> 4);
    assert forall k :: 1 <= k < 16 ==> row[k] == row[1..][k - 1];
    LowNibble(b);
  }

  /** LowestOf for a byte whose low four bits are not all clear. */
  lemma LowNibble(b: bv8)
    requires b & 15 != 0
    ensures b & 15 == 1 ==> LowestOf(b) == 0
    ensures b & 15 == 2 ==> LowestOf(b) == 1
    ensures b & 15 == 3 ==> LowestOf(b) == 0
    ensures b & 15 == 4 ==> LowestOf(b) == 2
    ensures b & 15 == 5 ==> LowestOf(b) == 0
    ensures b & 15 == 6 ==> LowestOf(b) == 1
    ensures b & 15 == 7 ==> LowestOf(b) == 0
    ensures b & 15 == 8 ==> LowestOf(b) == 3
    ensures b & 15 == 9 ==> LowestOf(b) == 0
    ensures b & 15 == 10 ==> LowestOf(b) == 1
    ensures b & 15 == 11 ==> LowestOf(b) == 0
    ensures b & 15 == 12 ==> LowestOf(b) == 2
    ensures b & 15 == 13 ==> LowestOf(b) == 0
    ensures b & 15 == 14 ==> LowestOf(b) == 1
    ensures b & 15 == 15 ==> LowestOf(b) == 0
    ensures b & 15 == 15 || b & 15 < 15
  {
  }

  lemma HighNibble(b: bv8)
    requires b & 15 == 0 && b != 0
    ensures b >> 4 == 1 ==> LowestOf(b) == 4
    ensures b >> 4 == 2 ==> LowestOf(b) == 5
    ensures b >> 4 == 3 ==> LowestOf(b) == 4
    ensures b >> 4 == 4 ==> LowestOf(b) == 6
    ensures b >> 4 == 5 ==> LowestOf(b) == 4
    ensures b >> 4 == 6 ==> LowestOf(b) == 5
    ensures b >> 4 == 7 ==> LowestOf(b) == 4
    ensures b >> 4 == 8 ==> LowestOf(b) == 7
    ensures b >> 4 == 9 ==> LowestOf(b) == 4
    ensures b >> 4 == 10 ==> LowestOf(b) == 5
    ensures b >> 4 == 11 ==> LowestOf(b) == 4
    ensures b >> 4 == 12 ==> LowestOf(b) == 6
    ensures b >> 4 == 13 ==> LowestOf(b) == 4
    ensures b >> 4 == 14 ==> LowestOf(b) == 5
    ensures b >> 4 == 15 ==> LowestOf(b) == 4
    ensures 1 <= b >> 4 <= 15
  {
  }

  /** The table gives the lowest set bit of every byte but 0. */
  lemma BitmapIsLowest(b: bv8)
    requires b != 0
    ensures Bitmap(b) == LowestOf(b)
  {
    if b & 15 != 0 {
      LowColumns(b);
    } else {
      FirstColumn(b);
    }
  }

  lemma FirstColumn(b: bv8)
    requires b & 15 == 0 && b != 0
    ensures Bitmap(b) == LowestOf(b)
  {
    hide LowestOf;
    HighNibble(b);
    assert Bitmap(b) == BitmapRow(b >> 4)[0];
  }

  lemma LowestInByte0(v: bv32)
    requires v & 0xff != 0
    ensures var j := LowestOf(Byte(v, 0)); j < 8 && IsLowest(v, 0 + j) && Byte(v, 0) != 0
  {
    hide Mask;
    MaskValues0();
  }

  lemma LowestInByte1(v: bv32)
    requires v & 0xff00 != 0 && v & 0xff == 0
    ensures var j := LowestOf(Byte(v, 1)); j < 8 && IsLowest(v, 8 + j) && Byte(v, 1) != 0
  {
    hide Mask;
    MaskValues1();
  }

  lemma LowestInByte2(v: bv32)
    requires v & 0xff0000 != 0 && v & 0xffff == 0
    ensures var j := LowestOf(Byte(v, 2)); j < 8 && IsLowest(v, 16 + j) && Byte(v, 2) != 0
  {
    hide Mask;
    MaskValues2();
  }

  lemma LowestInByte3(v: bv32)
    requires v & 0xff000000 != 0 && v & 0xffffff == 0
    ensures var j := LowestOf(Byte(v, 3)); j < 8 && IsLowest(v, 24 + j) && Byte(v, 3) != 0
  {
    hide Mask;
    MaskValues3();
  }

  /** Bit p is set and everything below it is clear. */
  predicate IsLowest(v: bv32, p: nat) {
    And(v, Mask(p)) != 0 && And(v, Less1(Mask(p))) == 0
  }

  lemma NothingLower(v: bv32, p: nat, q: nat)
    requires q < p < 32 && IsLowest(v, p)
    ensures !Has(v, q)
  {
    hide Mask, And, Less1;
    MasksDisjoint(q, p);
    AndWithin(v, Mask(q), Less1(Mask(p)));
  }

  lemma AndWithin(v: bv32, m: bv32, n: bv32)
    requires And(m, n) == m && And(v, n) == 0
    ensures And(v, m) == 0
  {
  }

  lemma ZeroByBytes(v: bv32)
    ensures v & 0xff == 0 && v & 0xff00 == 0 ==> v & 0xffff == 0
    ensures v & 0xffff == 0 && v & 0xff0000 == 0 ==> v & 0xffffff == 0
    ensures v & 0xffffff == 0 && v & 0xff000000 == 0 ==> v == 0
  {
  }

  /** __rt_ffs numbers the lowest set bit, from 1; 0 means that no bit is set. */
  lemma FfsIsLowest(v: bv32)
    ensures v == 0 <==> Ffs(v) == 0
    ensures v != 0 ==> 1 <= Ffs(v) <= 32 && Has(v, Ffs(v) - 1) && forall q :: 0 <= q < Ffs(v) - 1 ==> !Has(v, q)
  {
    hide Mask, And, Less1, Bitmap, LowestOf, Byte;
    if v != 0 {
      ZeroByBytes(v);
      if v & 0xff != 0 {
        LowestInByte0(v);
        BitmapIsLowest(Byte(v, 0));
      } else if v & 0xff00 != 0 {
        LowestInByte1(v);
        BitmapIsLowest(Byte(v, 1));
      } else if v & 0xff0000 != 0 {
        LowestInByte2(v);
        BitmapIsLowest(Byte(v, 2));
      } else {
        LowestInByte3(v);
        BitmapIsLowest(Byte(v, 3));
      }
      forall q | 0 <= q < Ffs(v) - 1
        ensures !Has(v, q)
      {
        NothingLower(v, Ffs(v) - 1, q);
      }
    }
  }
}
