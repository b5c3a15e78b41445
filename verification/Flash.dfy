/** The NOR flash under the boot loader: board/fal_flash_port.c and the bounds checks of the
    FAL partition layer.

    A reset can come between any two flash operations. The board carries the number of
    atomic operations its supply still allows; the operation that finds none left does not
    happen and switches the board off, and from then on nothing has an effect. Verifying a
    method for every supply therefore verifies it for every point at which it may be cut. */
module Flash {
  import opened Crc32

  const PAGE_SIZE: nat := 256
  const SECTOR: nat := 4096
  const BLANK: Byte := 0xFF
  const ADDRESS_SPAN: nat := 0x1_0000_0000   // addresses and sizes have 32 bits

  datatype Supply = Forever | Operations(left: nat)

  datatype Partition = Partition(name: string, offset: nat, len: nat)

  /** What programming does to one cell: bits only go from one to zero. */
  function Burn(cell: Byte, data: Byte): (r: Byte)
    ensures cell == BLANK ==> r == data
  {
    cell & data
  }

  function Programmed(mem: seq<Byte>, at: nat, data: seq<Byte>): (r: seq<Byte>)
    requires at + |data| <= |mem|
    ensures |r| == |mem|
    ensures forall i :: 0 <= i < |mem| ==> r[i] == if at <= i < at + |data| then Burn(mem[i], data[i - at]) else mem[i]
  {
    seq(|mem|, i requires 0 <= i < |mem| => if at <= i < at + |data| then Burn(mem[i], data[i - at]) else mem[i])
  }

  function Erased(mem: seq<Byte>, at: nat, size: nat): (r: seq<Byte>)
    requires at + size <= |mem|
    ensures |r| == |mem|
    ensures forall i :: 0 <= i < |mem| ==> r[i] == if at <= i < at + size then BLANK else mem[i]
  {
    seq(|mem|, i requires 0 <= i < |mem| => if at <= i < at + size then BLANK else mem[i])
  }

  /** (size + blk_size - 1) & ~(blk_size - 1) */
  function RoundUp(size: nat): (r: nat)
    ensures size <= r < size + SECTOR && r % SECTOR == 0
  {
    (size + SECTOR - 1) / SECTOR * SECTOR
  }

  function InPage(at: nat): nat {
    at % PAGE_SIZE
  }

  predicate SamePage(at: nat, n: nat) {
    n > 0 && at / PAGE_SIZE == (at + n - 1) / PAGE_SIZE
  }

  /** What is left of a page lies in that page, and then the next one begins. */
  lemma OnePage(at: nat)
    ensures InPage(at) < PAGE_SIZE && InPage(at + (PAGE_SIZE - InPage(at))) == 0
    ensures forall n: nat :: 0 < n <= PAGE_SIZE - InPage(at) ==> SamePage(at, n)
  {
  }

  /** The part of the memory that belongs to a partition. */
  function View(mem: seq<Byte>, part: Partition): (r: seq<Byte>)
    requires part.offset + part.len <= |mem|
    ensures |r| == part.len
  {
    mem[part.offset..part.offset + part.len]
  }

  ghost predicate Disjoint(p: Partition, q: Partition) {
    p.offset + p.len <= q.offset || q.offset + q.len <= p.offset
  }

  class Board {
    var mem: seq<Byte>
    var bootFlag: bool
    var supply: Supply
    var on: bool

    ghost predicate Valid()
      reads this
    {
      |mem| % SECTOR == 0 && |mem| < ADDRESS_SPAN
    }

    ghost predicate Holds(part: Partition)
      reads this
    {
      Valid() && part.offset + part.len <= |mem| && part.offset % SECTOR == 0 && part.len % SECTOR == 0
    }

    constructor (mem: seq<Byte>)
      requires |mem| % SECTOR == 0 && |mem| < ADDRESS_SPAN
      ensures Valid() && this.mem == mem && !bootFlag && !on
    {
      this.mem := mem;
      bootFlag := false;
      supply := Operations(0);
      on := false;
    }

    method PowerOn(s: Supply)
      modifies this`supply, this`on
      ensures on && supply == s
    {
      on, supply := true, s;
    }

    /** Every atomic operation first asks the supply. */
    method Spend()
      modifies this`supply, this`on
      ensures on ==> old(on)
      ensures old(supply).Forever? ==> supply.Forever? && on == old(on)
    {
      if on {
        match supply
        case Forever =>
        case Operations(n) =>
          if n == 0 {
            on := false;
          } else {
            supply := Operations(n - 1);
          }
      }
    }

    /** rom_xpi_nor_program: programs cells of one page. */
    method ProgramPage(at: nat, data: seq<Byte>)
      requires |data| > 0 && at + |data| <= |mem|
      requires SamePage(at, |data|)
      modifies this`mem, this`supply, this`on
      ensures mem == if on then Programmed(old(mem), at, data) else old(mem)
      ensures on ==> old(on)
      ensures old(supply).Forever? ==> supply.Forever? && on == old(on)
    {
      Spend();
      if on {
        mem := Programmed(mem, at, data);
      }
    }

    /** rom_xpi_nor_erase_sector. */
    method EraseSector(at: nat)
      requires Valid() && at % SECTOR == 0 && at + SECTOR <= |mem|
      modifies this`mem, this`supply, this`on
      ensures mem == if on then Erased(old(mem), at, SECTOR) else old(mem)
      ensures on ==> old(on)
      ensures old(supply).Forever? ==> supply.Forever? && on == old(on)
    {
      Spend();
      if on {
        mem := Erased(mem, at, SECTOR);
      }
    }

    method SetBootFlag()
      modifies this`bootFlag, this`supply, this`on
      ensures bootFlag == (old(bootFlag) || on)
      ensures on ==> old(on)
      ensures old(supply).Forever? ==> supply.Forever? && on == old(on)
    {
      Spend();
      if on {
        bootFlag := true;
      }
    }

    /** `write`: the first page is filled up, then the rest goes page by page. */
    method Write(offset: nat, buf: seq<Byte>) returns (ret: int, ghost done: nat)
      requires Valid() && offset + |buf| <= |mem|
      modifies this`mem, this`supply, this`on
      ensures Valid() && ret == |buf|
      ensures done <= |buf| && mem == Programmed(old(mem), offset, buf[..done])
      ensures on ==> old(on) && done == |buf|
      ensures old(supply).Forever? ==> supply.Forever? && on == old(on)
    {
      hide Programmed, SamePage, InPage;
      ret, done := |buf|, 0;
      var at, pos := offset, 0;
      ProgrammedNothing(mem, offset);
      assert buf[..0] == [];
      var inPage := InPage(offset);
      OnePage(offset);
      if inPage != 0 && |buf| > 0 {
        var n := if PAGE_SIZE - inPage < |buf| then PAGE_SIZE - inPage else |buf|;
        ProgramPage(offset, buf[..n]);
        if on {
          done := n;
        }
        at, pos := offset + n, n;
      }
      while pos < |buf|
        invariant pos <= |buf| && at == offset + pos && Valid()
        invariant pos < |buf| ==> InPage(at) == 0
        invariant done <= pos && mem == Programmed(old(mem), offset, buf[..done])
        invariant on ==> old(on) && done == pos
        invariant old(supply).Forever? ==> supply.Forever? && on == old(on)
      {
        var n := if |buf| - pos < PAGE_SIZE then |buf| - pos else PAGE_SIZE;
        ProgrammedFurther(old(mem), offset, buf, pos, pos + n);
        OnePage(at);
        ProgramPage(at, buf[pos..pos + n]);
        if on {
          done := pos + n;
        }
        at, pos := at + n, pos + n;
      }
    }

    /** `erase`: sector by sector, ascending, the size rounded up to whole sectors. */
    method Erase(offset: nat, size: nat) returns (ret: int, ghost done: nat)
      requires Valid() && offset % SECTOR == 0 && offset + RoundUp(size) <= |mem|
      modifies this`mem, this`supply, this`on
      ensures Valid() && ret == size
      ensures done <= RoundUp(size) && done % SECTOR == 0 && mem == Erased(old(mem), offset, done)
      ensures on ==> old(on) && done == RoundUp(size)
      ensures done > 0 ==> old(on)
      ensures old(supply).Forever? ==> supply.Forever? && on == old(on)
    {
      hide Erased;
      ret, done := size, 0;
      var at, remaining := offset, RoundUp(size);
      ErasedNothing(mem, offset);
      while remaining > 0
        invariant Valid() && remaining >= 0 && remaining % SECTOR == 0
        invariant at + remaining == offset + RoundUp(size) && offset <= at
        invariant done <= at - offset && done % SECTOR == 0 && |mem| == |old(mem)|
        invariant mem == Erased(old(mem), offset, done)
        invariant on ==> old(on) && done == at - offset
        invariant done > 0 ==> old(on)
        invariant old(supply).Forever? ==> supply.Forever? && on == old(on)
      {
        ErasedFurther(old(mem), offset, at - offset, SECTOR);
        EraseSector(at);
        if on {
          done := done + SECTOR;
        }
        at, remaining := at + SECTOR, remaining - SECTOR;
      }
    }

    // ------------------------------------------------------------------------------
    // fal_partition_read / write / erase_all: a request past the end is refused with -1. The
    // check adds address and size on 32 bits, so the caller keeps that sum from wrapping.
    // ------------------------------------------------------------------------------

    method PartitionRead(part: Partition, addr: nat, size: nat) returns (ret: int, buf: seq<Byte>)
      requires Holds(part) && addr + size < ADDRESS_SPAN
      ensures addr + size > part.len ==> ret == -1
      ensures addr + size <= part.len ==> ret == size == |buf| && buf == View(mem, part)[addr..addr + size]
    {
      if (addr + size) % ADDRESS_SPAN > part.len {
        return -1, [];
      }
      ret, buf := size, mem[part.offset + addr..part.offset + addr + size];
      SliceOfSlice(mem, part.offset, part.len, addr, size);
    }

    method PartitionWrite(part: Partition, addr: nat, buf: seq<Byte>) returns (ret: int, ghost done: nat)
      requires Holds(part) && addr + |buf| < ADDRESS_SPAN
      modifies this`mem, this`supply, this`on
      ensures Holds(part) && |mem| == |old(mem)|
      ensures addr + |buf| > part.len ==> ret == -1 && mem == old(mem) && on == old(on)
      ensures addr + |buf| <= part.len ==> ret == |buf| && done <= |buf| && (on ==> done == |buf|)
      ensures addr + |buf| <= part.len ==> View(mem, part) == Programmed(View(old(mem), part), addr, buf[..done])
      ensures forall q: Partition :: q.offset + q.len <= |mem| && Disjoint(part, q) ==>
              View(mem, q) == View(old(mem), q)
      ensures on ==> old(on)
      ensures old(supply).Forever? ==> supply.Forever? && on == old(on)
    {
      if (addr + |buf|) % ADDRESS_SPAN > part.len {
        return -1, 0;
      }
      ret, done := Write(part.offset + addr, buf);
    }

    method PartitionEraseAll(part: Partition) returns (ret: int, ghost done: nat)
      requires Holds(part)
      modifies this`mem, this`supply, this`on
      ensures Holds(part) && |mem| == |old(mem)|
      ensures ret == part.len && done <= part.len && done % SECTOR == 0
      ensures View(mem, part) == Erased(View(old(mem), part), 0, done)
      ensures forall q: Partition :: q.offset + q.len <= |mem| && Disjoint(part, q) ==>
              View(mem, q) == View(old(mem), q)
      ensures on ==> old(on) && done == part.len
      ensures done > 0 ==> old(on)
      ensures old(supply).Forever? ==> supply.Forever? && on == old(on)
    {
      ret, done := Erase(part.offset, part.len);
    }
  }

  // ---------------------------------------------------------------------------------
  // Pieces of a write or an erase add up
  // ---------------------------------------------------------------------------------

  lemma ProgrammedNothing(mem: seq<Byte>, at: nat)
    requires at <= |mem|
    ensures Programmed(mem, at, []) == mem
  {
  }

  lemma SliceOfSlice(s: seq<Byte>, from: nat, len: nat, at: nat, n: nat)
    requires from + len <= |s| && at + n <= len
    ensures s[from..from + len][at..at + n] == s[from + at..from + at + n]
  {
    var part, whole := s[from..from + len][at..at + n], s[from + at..from + at + n];
    assert |part| == |whole|;
    forall i | 0 <= i < n
      ensures part[i] == whole[i]
    {
    }
  }

  lemma ErasedNothing(mem: seq<Byte>, at: nat)
    requires at <= |mem|
    ensures Erased(mem, at, 0) == mem
  {
  }

  lemma ProgrammedFurther(mem: seq<Byte>, at: nat, buf: seq<Byte>, i: nat, j: nat)
    requires at + |buf| <= |mem| && i <= j <= |buf|
    ensures Programmed(Programmed(mem, at, buf[..i]), at + i, buf[i..j]) == Programmed(mem, at, buf[..j])
  {
  }

  lemma ErasedFurther(mem: seq<Byte>, at: nat, n: nat, more: nat)
    requires at + n + more <= |mem|
    ensures Erased(Erased(mem, at, n), at + n, more) == Erased(mem, at, n + more)
  {
  }
}
