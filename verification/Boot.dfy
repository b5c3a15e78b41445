/** Firmware check and upgrade (applications/boot.c) and the UPDATE step that drives them
    (applications/system.c), over a flash that can lose power between any two operations. */
module Boot {
  import opened Crc32
  import opened Flash

  const HEADER_SIZE: nat := 96
  const FIRM_BUF_SIZE: nat := 4096

  // Offsets of the packed firm_pkg_t.
  const ALGO: nat := 4
  const BODY_CRC: nat := 76
  const RAW_SIZE: nat := 84
  const HDR_CRC: nat := 92

  // ---------------------------------------------------------------------------------
  // What a firmware image is
  // ---------------------------------------------------------------------------------

  function Le32(b: seq<Byte>, at: nat): bv32
    requires at + 4 <= |b|
  {
    (b[at] as bv32) | ((b[at + 1] as bv32) << 8) | ((b[at + 2] as bv32) << 16) | ((b[at + 3] as bv32) << 24)
  }

  function Le16(b: seq<Byte>, at: nat): bv16
    requires at + 2 <= |b|
  {
    (b[at] as bv16) | ((b[at + 1] as bv16) << 8)
  }

  function Length(b: seq<Byte>, at: nat): nat
    requires at + 4 <= |b|
  {
    b[at] as nat + 0x100 * (b[at + 1] as nat) + 0x10000 * (b[at + 2] as nat) + 0x1000000 * (b[at + 3] as nat)
  }

  predicate HeaderOk(h: seq<Byte>)
    requires |h| == HEADER_SIZE
  {
    && Crc(h[..HDR_CRC]) == Le32(h, HDR_CRC)
    && h[0] == 0x52 && h[1] == 0x42 && h[2] == 0x4C  // "RBL"
    && Le16(h, ALGO) & 0x000F == 0
    && Le16(h, ALGO) & 0x0F00 == 0
  }

  function HeaderOffset(part: Partition): int {
    if part.name == "app" then part.len - HEADER_SIZE else 0
  }

  function BodyOffset(part: Partition): nat {
    if part.name == "app" then 0 else HEADER_SIZE
  }

  function HeaderOf(part: Partition, content: seq<Byte>): (h: seq<Byte>)
    requires |content| == part.len >= HEADER_SIZE
    ensures |h| == HEADER_SIZE
  {
    content[HeaderOffset(part)..HeaderOffset(part) + HEADER_SIZE]
  }

  predicate BodyOk(part: Partition, content: seq<Byte>, h: seq<Byte>)
    requires |content| == part.len && |h| == HEADER_SIZE
  {
    var size, off := Length(h, RAW_SIZE), BodyOffset(part);
    0 < size && size + off <= part.len && Crc(content[off..off + size]) == Le32(h, BODY_CRC)
  }

  /** What check_part_firm accepts. */
  predicate ValidFirm(part: Partition, content: seq<Byte>)
    requires |content| == part.len >= HEADER_SIZE
  {
    var h := HeaderOf(part, content);
    HeaderOk(h) && BodyOk(part, content, h)
  }

  /** The image with header h and the given body is in the application partition: the body
      from the start, the header in the last bytes, not overlapping. */
  ghost predicate Installed(app: seq<Byte>, h: seq<Byte>, body: seq<Byte>) {
    |body| + |h| <= |app| && app[..|body|] == body && app[|app| - |h|..] == h
  }

  /** An application partition that holds exactly one image. */
  ghost function InstallImage(len: nat, h: seq<Byte>, body: seq<Byte>): (app: seq<Byte>)
    requires |body| + |h| <= len
    ensures |app| == len && Installed(app, h, body)
  {
    body + seq(len - |h| - |body|, _ => BLANK) + h
  }

  /** app holds the image that is in download. */
  ghost predicate InstalledFrom(app: seq<Byte>, download: seq<Byte>)
    requires |download| >= HEADER_SIZE && HEADER_SIZE + Length(download, RAW_SIZE) <= |download|
  {
    Installed(app, ImageHeader(download), ImageBody(download))
  }

  predicate Fits(header: seq<Byte>, app: Partition)
    requires |header| >= HEADER_SIZE
  {
    Length(header, RAW_SIZE) + HEADER_SIZE <= app.len
  }

  /** What a complete upgrade leaves in the application partition. */
  ghost function FreshApp(app: Partition, download: seq<Byte>): (content: seq<Byte>)
    requires |download| >= HEADER_SIZE && HEADER_SIZE + Length(download, RAW_SIZE) <= |download|
    requires HEADER_SIZE + Length(download, RAW_SIZE) <= app.len
    ensures |content| == app.len && InstalledFrom(content, download)
  {
    InstallImage(app.len, ImageHeader(download), ImageBody(download))
  }

  ghost function ImageHeader(download: seq<Byte>): seq<Byte>
    requires |download| >= HEADER_SIZE
  {
    download[..HEADER_SIZE]
  }

  ghost function ImageBody(download: seq<Byte>): seq<Byte>
    requires |download| >= HEADER_SIZE && HEADER_SIZE + Length(download, RAW_SIZE) <= |download|
  {
    download[HEADER_SIZE..HEADER_SIZE + Length(download, RAW_SIZE)]
  }

  ghost predicate IsDownload(part: Partition) {
    part.name != "app" && part.len >= HEADER_SIZE
  }

  ghost predicate IsApp(part: Partition) {
    part.name == "app" && part.len >= HEADER_SIZE
  }

  lemma LengthOfHeader(download: seq<Byte>)
    requires |download| >= HEADER_SIZE
    ensures Length(download[..HEADER_SIZE], RAW_SIZE) == Length(download, RAW_SIZE)
  {
  }

  /** The installed copy passes the same check as the download it came from. */
  lemma InstalledIsValid(src: Partition, download: seq<Byte>, app: Partition, content: seq<Byte>)
    requires IsDownload(src) && IsApp(app) && |download| == src.len && |content| == app.len
    requires ValidFirm(src, download)
    requires HEADER_SIZE + Length(download, RAW_SIZE) <= |download| && InstalledFrom(content, download)
    ensures ValidFirm(app, content)
  {
    hide Crc, Le32, Le16, Length;
    LengthOfHeader(download);
    assert HeaderOf(src, download) == ImageHeader(download);
    assert HeaderOf(app, content) == ImageHeader(download);
    assert content[0..|ImageBody(download)|] == ImageBody(download);
  }

  lemma ValidBodyFits(src: Partition, download: seq<Byte>)
    requires IsDownload(src) && |download| == src.len && ValidFirm(src, download)
    ensures 0 < Length(download, RAW_SIZE) && HEADER_SIZE + Length(download, RAW_SIZE) <= |download|
  {
    hide HeaderOk, Length, Crc, Le32;
    LengthOfHeader(download);
    assert HeaderOf(src, download) == ImageHeader(download);
  }

  /** The bytes of a little-endian word. */
  lemma WordBytes(b: seq<Byte>, at: nat)
    requires at + 4 <= |b|
    ensures Le32(b, at) & 0xFF == b[at] as bv32 && (Le32(b, at) >> 8) & 0xFF == b[at + 1] as bv32
    ensures (Le32(b, at) >> 16) & 0xFF == b[at + 2] as bv32 && Le32(b, at) >> 24 == b[at + 3] as bv32
  {
    FourBytes(b[at], b[at + 1], b[at + 2], b[at + 3]);
  }

  lemma FourBytes(b0: Byte, b1: Byte, b2: Byte, b3: Byte)
    ensures var w := (b0 as bv32) | ((b1 as bv32) << 8) | ((b2 as bv32) << 16) | ((b3 as bv32) << 24);
            && w & 0xFF == b0 as bv32 && (w >> 8) & 0xFF == b1 as bv32
            && (w >> 16) & 0xFF == b2 as bv32 && w >> 24 == b3 as bv32
  {
  }

  lemma SameByte(a: Byte, b: Byte)
    requires a as bv32 == b as bv32
    ensures a == b
  {
  }

  /** A valid image whose body is changed at some place d, and only inside four consecutive bytes
      around it, is refused. */
  lemma CorruptBodyRefused(part: Partition, image: seq<Byte>, content: seq<Byte>, at: nat, d: nat)
    requires |image| == |content| == part.len >= HEADER_SIZE && ValidFirm(part, image)
    requires HeaderOf(part, content) == HeaderOf(part, image)
    requires var off, size := if part.name == "app" then 0 else 96, Length(HeaderOf(part, image), 84);
             && off <= at <= d < at + 4 && d < off + size <= part.len && image[d] != content[d]
             && forall i :: off <= i < off + size && !(at <= i < at + 4) ==> image[i] == content[i]
    ensures !ValidFirm(part, content)
  {
    hide Crc, Le32, Le16, Length, HeaderOk;
    var off, size := if part.name == "app" then 0 else 96, Length(HeaderOf(part, image), 84);
    assert off == BodyOffset(part);
    BodiesDiffer(image, content, off, size, at, d);
  }

  lemma BodiesDiffer(image: seq<Byte>, content: seq<Byte>, off: nat, size: nat, at: nat, d: nat)
    requires off <= at <= d < at + 4 && d < off + size <= |image| == |content| && image[d] != content[d]
    requires forall i :: off <= i < off + size && !(at <= i < at + 4) ==> image[i] == content[i]
    ensures Crc(image[off..off + size]) != Crc(content[off..off + size])
  {
    hide Crc;
    var m, n := image[off..off + size], content[off..off + size];
    assert m[d - off] == image[d] && n[d - off] == content[d];
    forall i | 0 <= i < |m| && !(at - off <= i < at - off + 4)
      ensures m[i] == n[i]
    {
      assert m[i] == image[off + i] && n[i] == content[off + i];
    }
    FourByteCorruptionDetected(m, n, at - off);
  }

  /** So is one whose header is changed inside four consecutive bytes that do not straddle the
      start of its own checksum. */
  lemma CorruptHeaderRefused(part: Partition, image: seq<Byte>, content: seq<Byte>, at: nat)
    requires |image| == |content| == part.len >= HEADER_SIZE && ValidFirm(part, image)
    requires var g, h := HeaderOf(part, image), HeaderOf(part, content);
             g != h && (at + 4 <= 92 || at == 92) && forall i :: 0 <= i < 96 && !(at <= i < at + 4) ==> g[i] == h[i]
    ensures !ValidFirm(part, content)
  {
    hide Crc, Le16, Length, BodyOk;
    var g, h := HeaderOf(part, image), HeaderOf(part, content);
    hide Le32;
    if at == 92 {
      assert g[..92] == h[..92];
      DifferentWords(g, h, 92);
    } else {
      assert g[92..] == h[92..] by {
        assert forall i :: 0 <= i < 4 ==> g[92..][i] == h[92..][i];
      }
      SameWords(g, h, 92);
      assert g[..92] != h[..92] by {
        assert g == g[..92] + g[92..] && h == h[..92] + h[92..];
      }
      FourByteCorruptionDetected(g[..92], h[..92], at);
    }
  }

  lemma SameWords(g: seq<Byte>, h: seq<Byte>, at: nat)
    requires at + 4 == |g| == |h| && g[at..] == h[at..]
    ensures Le32(g, at) == Le32(h, at)
  {
    assert forall i :: 0 <= i < 4 ==> g[at + i] == g[at..][i] && h[at + i] == h[at..][i];
    assert g[at + 0] == h[at + 0] && g[at + 1] == h[at + 1] && g[at + 2] == h[at + 2] && g[at + 3] == h[at + 3];
  }

  lemma DifferentWords(g: seq<Byte>, h: seq<Byte>, at: nat)
    requires at + 4 == |g| == |h| && g != h && g[..at] == h[..at]
    ensures Le32(g, at) != Le32(h, at)
  {
    WordBytes(g, at);
    WordBytes(h, at);
    hide Le32;
    if Le32(g, at) == Le32(h, at) {
      SameByte(g[at], h[at]);
      SameByte(g[at + 1], h[at + 1]);
      SameByte(g[at + 2], h[at + 2]);
      SameByte(g[at + 3], h[at + 3]);
      forall i | 0 <= i < |g|
        ensures g[i] == h[i]
      {
        if i < at {
          assert g[..at][i] == h[..at][i];
        }
      }
      assert false;
    }
  }

  /** The tests on the header, byte by byte. */
  lemma HeaderTests(h: seq<Byte>)
    requires |h| == 96
    ensures HeaderOk(h) <==>
              && Crc(h[..92]) == Le32(h, 92) && h[0] == 0x52 && h[1] == 0x42 && h[2] == 0x4C
              && h[4] & 0x0F == 0 && h[5] & 0x0F == 0
  {
    hide Crc, Le32;
    Nibbles(h[4], h[5]);
  }

  /** All tests of check_part_firm, byte by byte. */
  lemma FirmTests(part: Partition, content: seq<Byte>, header: seq<Byte>)
    requires |content| == part.len >= HEADER_SIZE && header == HeaderOf(part, content)
    ensures ValidFirm(part, content) <==>
              var off := if part.name == "app" then 0 else 96;
              var size := header[84] as nat + 0x100 * (header[85] as nat) + 0x10000 * (header[86] as nat)
                          + 0x1000000 * (header[87] as nat);
              && Crc(header[..92]) == Le32(header, 92)
              && header[0] == 0x52 && header[1] == 0x42 && header[2] == 0x4C
              && header[4] & 0x0F == 0 && header[5] & 0x0F == 0
              && 0 < size && off + size <= part.len
              && Crc(content[off..off + size]) == Le32(header, 76)
  {
    HeaderTests(header);
    hide HeaderOk, Le32, Crc;
  }

  lemma HeaderPlace(part: Partition, content: seq<Byte>)
    requires |content| == part.len >= HEADER_SIZE
    ensures HeaderOf(part, content) == content[if part.name == "app" then part.len - 96 else 0..][..96]
  {
  }

  lemma Nibbles(low: Byte, high: Byte)
    ensures var w := (low as bv16) | ((high as bv16) << 8);
            (w & 0x000F == 0 <==> low & 0x0F == 0) && (w & 0x0F00 == 0 <==> high & 0x0F == 0)
  {
  }

  /** The copy loop's state: the first n bytes are the image's, the rest is blank. */
  ghost predicate Copied(app: seq<Byte>, body: seq<Byte>, n: nat) {
    n <= |app| && n <= |body| && app[..n] == body[..n] && forall i :: n <= i < |app| ==> app[i] == BLANK
  }

  lemma CopyBegins(before: seq<Byte>, after: seq<Byte>, body: seq<Byte>)
    requires after == Erased(before, 0, |before|)
    ensures Copied(after, body, 0)
  {
  }

  lemma CopyStep(before: seq<Byte>, after: seq<Byte>, body: seq<Byte>, buf: seq<Byte>, n: nat)
    requires Copied(before, body, n) && n + |buf| <= |body| && n + |buf| <= |before|
    requires buf == body[n..n + |buf|] && after == Programmed(before, n, buf)
    ensures Copied(after, body, n + |buf|)
  {
    hide Burn, Programmed;
    forall i | 0 <= i < n + |buf|
      ensures after[i] == body[i]
    {
      if i < n {
        assert before[..n][i] == body[..n][i];
      }
    }
  }

  lemma CopyEnds(before: seq<Byte>, after: seq<Byte>, header: seq<Byte>, body: seq<Byte>)
    requires Copied(before, body, |body|) && |body| + |header| <= |before|
    requires after == Programmed(before, |before| - |header|, header)
    ensures after == InstallImage(|before|, header, body)
  {
    hide Burn, Programmed, Installed;
    assert forall i :: 0 <= i < |body| ==> before[..|body|][i] == body[i];
  }

  // ---------------------------------------------------------------------------------
  // boot.c
  // ---------------------------------------------------------------------------------

  method GetFirmHeader(board: Board, part: Partition, off: nat) returns (ok: bool, header: seq<Byte>)
    requires board.Holds(part) && off + HEADER_SIZE < ADDRESS_SPAN
    ensures off + HEADER_SIZE > part.len ==> !ok
    ensures off + HEADER_SIZE <= part.len ==>
            header == View(board.mem, part)[off..off + HEADER_SIZE] && ok == HeaderOk(header)
  {
    hide Register, Le32, Le16, Xor;
    var ret, buf := board.PartitionRead(part, off, HEADER_SIZE);
    header := buf;
    if ret < 0 {
      return false, header;
    }
    var ctx := new Context();
    ctx.Update(header[..HDR_CRC]);
    var crc := ctx.Final();
    if crc != Le32(header, HDR_CRC) {
      return false, header;
    }
    if header[0] != 0x52 || header[1] != 0x42 || header[2] != 0x4C {
      return false, header;
    }
    if Le16(header, ALGO) & 0x000F != 0 {
      return false, header;
    }
    if Le16(header, ALGO) & 0x0F00 != 0 {
      return false, header;
    }
    ok := true;
  }

  /** Streams the body through the CRC in pieces of the buffer size. */
  method CalcPartFirmCrc32(board: Board, part: Partition, firmLen: nat, firmOff: nat) returns (ok: bool, crc: bv32)
    requires board.Holds(part)
    ensures ok == (firmLen + firmOff <= part.len && firmLen > 0)
    ensures ok ==> crc == Crc(View(board.mem, part)[firmOff..firmOff + firmLen])
  {
    hide Register, Xor;
    crc := 0;
    if firmLen + firmOff > part.len {
      return false, crc;
    }
    ghost var body := View(board.mem, part)[firmOff..firmOff + firmLen];
    var ctx := new Context();
    var total := 0;
    RegisterOfNothing(ctx.crc);
    assert body[..0] == [];
    while true
      invariant total < firmLen || total == firmLen == 0
      invariant ctx.crc == Register(0xFFFFFFFF, body[..total])
      decreases firmLen - total
    {
      var size := if firmLen - total > FIRM_BUF_SIZE then FIRM_BUF_SIZE else firmLen - total;
      var length, buf := board.PartitionRead(part, firmOff + total, size);
      if length <= 0 {
        return false, crc;
      }
      ctx.Update(buf);
      RegisterAppend(0xFFFFFFFF, body[..total], buf);
      assert body[..total + length] == body[..total] + buf;
      total := total + length;
      if total >= firmLen {
        break;
      }
    }
    assert body[..firmLen] == body;
    crc := ctx.Final();
    ok := true;
  }

  method CheckPartFirm(board: Board, part: Partition) returns (ok: bool, header: seq<Byte>)
    requires board.Holds(part) && part.len >= HEADER_SIZE
    ensures ok == ValidFirm(part, View(board.mem, part))
    ensures header == View(board.mem, part)[if part.name == "app" then part.len - 96 else 0..][..96]
    ensures ok <==>
              var content := View(board.mem, part);
              var off := if part.name == "app" then 0 else 96;
              var size := header[84] as nat + 0x100 * (header[85] as nat) + 0x10000 * (header[86] as nat)
                          + 0x1000000 * (header[87] as nat);
              && Crc(header[..92]) == Le32(header, 92)
              && header[0] == 0x52 && header[1] == 0x42 && header[2] == 0x4C
              && header[4] & 0x0F == 0 && header[5] & 0x0F == 0
              && 0 < size && off + size <= part.len
              && Crc(content[off..off + size]) == Le32(header, 76)
  {
    ok, header := ReadAndTest(board, part);
    HeaderPlace(part, View(board.mem, part));
    FirmTests(part, View(board.mem, part), header);
    hide HeaderOk, Le32, Crc, ValidFirm, HeaderOf, View;
  }

  /** The body of check_part_firm. */
  method ReadAndTest(board: Board, part: Partition) returns (ok: bool, header: seq<Byte>)
    requires board.Holds(part) && part.len >= HEADER_SIZE
    ensures ok == ValidFirm(part, View(board.mem, part)) && header == HeaderOf(part, View(board.mem, part))
  {
    hide HeaderOk, Le32, Length, Crc;
    var headerOff, firmOff := 0, HEADER_SIZE;
    if part.name == "app" {
      headerOff, firmOff := part.len - HEADER_SIZE, 0;
    }
    ok, header := GetFirmHeader(board, part, headerOff);
    if !ok {
      return;
    }
    var crc;
    ok, crc := CalcPartFirmCrc32(board, part, Length(header, RAW_SIZE), firmOff);
    if !ok {
      return;
    }
    ok := Le32(header, BODY_CRC) == crc;
  }

  /** The erase and the copy loop of firm_upgrade. */
  method CopyBody(board: Board, src: Partition, rawSize: nat, app: Partition) returns (ok: bool)
    requires board.Holds(src) && board.Holds(app) && Disjoint(src, app)
    requires 0 < rawSize && HEADER_SIZE + rawSize <= src.len && rawSize <= app.len
    modifies board`mem, board`supply, board`on
    ensures board.Holds(src) && board.Holds(app) && |board.mem| == |old(board.mem)|
    ensures View(board.mem, src) == old(View(board.mem, src)) && ok
    ensures board.on ==> old(board.on)
    ensures board.on ==> Copied(View(board.mem, app), View(board.mem, src)[HEADER_SIZE..HEADER_SIZE + rawSize], rawSize)
    ensures old(board.supply).Forever? ==> board.supply.Forever? && board.on == old(board.on)
  {
    hide Programmed, Erased, Burn, Copied, View;
    ghost var body := View(board.mem, src)[HEADER_SIZE..HEADER_SIZE + rawSize];
    var result, done := board.PartitionEraseAll(app);
    if result < 0 {
      return false;
    }
    var total := 0;
    if board.on {
      CopyBegins(old(View(board.mem, app)), View(board.mem, app), body);
    }
    while true
      invariant board.Holds(src) && board.Holds(app) && |board.mem| == |old(board.mem)|
      invariant View(board.mem, src) == old(View(board.mem, src))
      invariant 0 <= total < rawSize
      invariant board.on ==> old(board.on) && Copied(View(board.mem, app), body, total)
      invariant old(board.supply).Forever? ==> board.supply.Forever? && board.on == old(board.on)
      decreases rawSize - total
    {
      var size := if rawSize - total > FIRM_BUF_SIZE then FIRM_BUF_SIZE else rawSize - total;
      var length, buf := board.PartitionRead(src, HEADER_SIZE + total, size);
      if length <= 0 {
        return false;
      }
      ghost var before := View(board.mem, app);
      SliceOfSlice(View(board.mem, src), HEADER_SIZE, rawSize, total, length);
      result, done := board.PartitionWrite(app, total, buf);
      if result <= 0 {
        return false;
      }
      if board.on {
        assert buf[..done] == buf;
        CopyStep(before, View(board.mem, app), body, buf, total);
      }
      total := total + length;
      if total >= rawSize {
        break;
      }
    }
    ok := true;
  }

  /** firm_upgrade. The early return when the image does not fit reports success without
      having copied anything; otherwise, unless the supply fails, the image ends up in app. */
  method FirmUpgrade(board: Board, src: Partition, header: seq<Byte>, app: Partition) returns (ok: bool)
    requires board.Holds(src) && board.Holds(app) && Disjoint(src, app) && IsDownload(src) && IsApp(app)
    requires ValidFirm(src, View(board.mem, src)) && header == ImageHeader(View(board.mem, src))
    modifies board`mem, board`supply, board`on
    ensures board.Holds(src) && board.Holds(app) && |board.mem| == |old(board.mem)|
    ensures View(board.mem, src) == old(View(board.mem, src))
    ensures board.on ==> old(board.on) && ok
    ensures !Fits(header, app) ==> ok && board.mem == old(board.mem) && board.on == old(board.on)
    ensures Fits(header, app) && board.on ==> View(board.mem, app) == FreshApp(app, View(board.mem, src))
    ensures old(board.supply).Forever? ==> board.supply.Forever? && board.on == old(board.on)
  {
    hide HeaderOk, Length, BodyOk, Programmed, View, Copied, ValidFirm;
    ghost var download := View(board.mem, src);
    LengthOfHeader(download);
    ValidBodyFits(src, download);
    var rawSize := Length(header, RAW_SIZE);
    if rawSize + HEADER_SIZE > app.len {
      return true;
    }
    var wasOk, appHeader := CheckPartFirm(board, app);
    ok := CopyBody(board, src, rawSize, app);
    if !ok {
      return;
    }
    ghost var before := View(board.mem, app);
    var result, done := board.PartitionWrite(app, app.len - HEADER_SIZE, header);
    if result < 0 {
      return false;
    }
    if board.on {
      assert header[..done] == header;
      CopyEnds(before, View(board.mem, app), header, ImageBody(download));
      InstalledIsValid(src, download, app, View(board.mem, app));
    }
    ok, appHeader := CheckPartFirm(board, app);
  }

  // ---------------------------------------------------------------------------------
  // system.c: the UPDATE step, and boots that may be cut short
  // ---------------------------------------------------------------------------------

  /** What a complete run of the UPDATE step on an accepted download leaves in app. */
  ghost function Upgraded(app: Partition, content: seq<Byte>, download: Partition, image: seq<Byte>): (r: seq<Byte>)
    requires IsApp(app) && IsDownload(download) && |content| == app.len && |image| == download.len
    requires ValidFirm(download, image)
    ensures |r| == app.len
  {
    ValidBodyFits(download, image);
    LengthOfHeader(image);
    if Fits(ImageHeader(image), app) then FreshApp(app, image) else content
  }

  lemma UpgradedCases(app: Partition, content: seq<Byte>, download: Partition, image: seq<Byte>)
    requires IsApp(app) && IsDownload(download) && |content| == app.len && |image| == download.len
    requires ValidFirm(download, image)
    ensures HEADER_SIZE + Length(image, RAW_SIZE) <= |image|
    ensures !Fits(ImageHeader(image), app) ==> Upgraded(app, content, download, image) == content
    ensures Fits(ImageHeader(image), app) ==> HEADER_SIZE + Length(image, RAW_SIZE) <= app.len
    ensures Fits(ImageHeader(image), app) ==> Upgraded(app, content, download, image) == FreshApp(app, image)
  {
    ValidBodyFits(download, image);
    LengthOfHeader(image);
  }

  lemma DownloadHeader(download: Partition, image: seq<Byte>)
    requires IsDownload(download) && |image| == download.len
    ensures HeaderOf(download, image) == ImageHeader(image)
  {
  }

  /** The UPDATE step of system_process: an accepted download is installed, erased and
      flagged; anything else leaves the flash alone and still sets the boot flag. */
  method UpdateStep(board: Board, app: Partition, download: Partition) returns (ghost done: nat)
    requires board.Holds(download) && board.Holds(app) && Disjoint(download, app)
    requires IsDownload(download) && IsApp(app)
    modifies board
    ensures board.Holds(download) && board.Holds(app) && |board.mem| == |old(board.mem)|
    ensures board.on ==> old(board.on) && board.bootFlag
    ensures old(board.supply).Forever? ==> board.supply.Forever? && board.on == old(board.on)
    ensures board.bootFlag && !old(board.bootFlag) ==> board.on
    ensures done <= download.len && done % SECTOR == 0 && (board.on ==> done == download.len)
    ensures !ValidFirm(download, old(View(board.mem, download))) ==> board.mem == old(board.mem)
    ensures ValidFirm(download, old(View(board.mem, download)))
            ==> View(board.mem, download) == Erased(old(View(board.mem, download)), 0, done)
    ensures ValidFirm(download, old(View(board.mem, download))) && (done > 0 || board.on)
            ==> View(board.mem, app) ==
                Upgraded(app, old(View(board.mem, app)), download, old(View(board.mem, download)))
  {
    hide ValidFirm, Erased, View, Fits, Upgraded;
    done := 0;
    var ok, header := CheckPartFirm(board, download);
    if ok {
      ErasedNothing(View(board.mem, download), 0);
      DownloadHeader(download, View(board.mem, download));
      ok := FirmUpgrade(board, download, header, app);
      UpgradedCases(app, old(View(board.mem, app)), download, View(board.mem, download));
      if ok {
        var ret;
        ret, done := board.PartitionEraseAll(download);
        board.SetBootFlag();
      } else {
        board.on := false;  // ppor_sw_reset
      }
    } else {
      var appOk, appHeader := CheckPartFirm(board, app);
      board.SetBootFlag();
      done := download.len;
    }
  }

  // ---------------------------------------------------------------------------------
  // Resets at any point
  // ---------------------------------------------------------------------------------

  /** The promise while an image is being installed: it is still whole in download, or it is
      installed and the download partition no longer passes for a firmware. A set boot flag
      means it is installed. */
  ghost predicate ImageSafe(app: seq<Byte>, download: seq<Byte>, flag: bool, image: seq<Byte>)
    requires |image| >= HEADER_SIZE && HEADER_SIZE + Length(image, RAW_SIZE) <= |image|
  {
    && (download == image || (InstalledFrom(app, image) && |download| > 0 && download[0] == BLANK))
    && (flag ==> InstalledFrom(app, image))
  }

  lemma BlankStartIsNoFirm(part: Partition, content: seq<Byte>)
    requires IsDownload(part) && |content| == part.len && content[0] == BLANK
    ensures !ValidFirm(part, content)
  {
    hide Crc, Le32, Le16, BodyOk;
    assert HeaderOf(part, content)[0] == content[0];
  }

  /** Erasing whole sectors takes the header away first. */
  lemma ErasedStart(content: seq<Byte>, done: nat)
    requires done <= |content| && done % SECTOR == 0
    ensures done == 0 ==> Erased(content, 0, done) == content
    ensures done > 0 ==> Erased(content, 0, done)[0] == BLANK
  {
    if done == 0 {
      ErasedNothing(content, 0);
    }
  }

  /** boot_start_application: the flag is read and cleared; a set flag starts the application. */
  method BootStartApplication(board: Board) returns (jump: bool)
    modifies board`bootFlag
    ensures jump == old(board.bootFlag) && !board.bootFlag
  {
    jump := board.bootFlag;
    board.bootFlag := false;
  }

  /** One power cycle that reaches the UPDATE step, cut after as many operations as `supply` allows. */
  method PowerCycle(board: Board, app: Partition, download: Partition, supply: Supply,
                    ghost image: seq<Byte>) returns (jump: bool)
    requires board.Holds(download) && board.Holds(app) && Disjoint(download, app) && IsDownload(download) && IsApp(app)
    requires |image| == download.len && ValidFirm(download, image) && Fits(ImageHeader(image), app)
    requires HEADER_SIZE + Length(image, RAW_SIZE) <= |image|
    requires ImageSafe(View(board.mem, app), View(board.mem, download), board.bootFlag, image)
    modifies board
    ensures board.Holds(download) && board.Holds(app) && |board.mem| == |old(board.mem)|
    ensures ImageSafe(View(board.mem, app), View(board.mem, download), board.bootFlag, image)
    ensures jump ==> InstalledFrom(View(board.mem, app), image)
    ensures supply.Forever? && !jump ==> board.bootFlag && InstalledFrom(View(board.mem, app), image)
  {
    hide ValidFirm, View, Fits, Upgraded, Erased, InstalledFrom;
    board.PowerOn(supply);
    jump := BootStartApplication(board);
    if jump {
      return;
    }
    ghost var before := View(board.mem, download);
    if before[0] == BLANK {
      BlankStartIsNoFirm(download, before);
    } else {
      UpgradedCases(app, View(board.mem, app), download, image);
    }
    ghost var done := UpdateStep(board, app, download);
    ErasedStart(before, done);
  }

  /** Any number of cycles, each cut wherever its supply ends: the image is never lost, and
      the first cycle that is not cut leaves it installed and flagged. */
  method SurviveResets(board: Board, app: Partition, download: Partition, supplies: seq<Supply>, ghost image: seq<Byte>)
    returns (started: bool)
    requires board.Holds(download) && board.Holds(app) && Disjoint(download, app) && IsDownload(download) && IsApp(app)
    requires |image| == download.len && ValidFirm(download, image) && Fits(ImageHeader(image), app)
    requires View(board.mem, download) == image && !board.bootFlag
    modifies board
    ensures board.Holds(download) && board.Holds(app)
    ensures HEADER_SIZE + Length(image, RAW_SIZE) <= |image|
    ensures View(board.mem, download) == image || InstalledFrom(View(board.mem, app), image)
    ensures started ==> InstalledFrom(View(board.mem, app), image)
    ensures supplies != [] && supplies[|supplies| - 1].Forever? && !started
            ==> board.bootFlag && InstalledFrom(View(board.mem, app), image)
  {
    hide ValidFirm, View, Fits, InstalledFrom;
    assert HEADER_SIZE + Length(image, RAW_SIZE) <= |image| by {
      ValidBodyFits(download, image);
    }
    started := false;
    var i := 0;
    while i < |supplies| && !started
      invariant i <= |supplies|
      invariant board.Holds(download) && board.Holds(app)
      invariant ImageSafe(View(board.mem, app), View(board.mem, download), board.bootFlag, image)
      invariant started ==> InstalledFrom(View(board.mem, app), image)
      invariant i > 0 && supplies[i - 1].Forever? && !started ==>
              board.bootFlag && InstalledFrom(View(board.mem, app), image)
      decreases |supplies| - i
    {
      started := PowerCycle(board, app, download, supplies[i], image);
      i := i + 1;
    }
  }

  /** Exactly when a complete upgrade keeps the image: the guard of the early return decides.
      If the image does not fit, app is left alone and the download is then erased. */
  lemma UpgradeKeepsImageIffItFits(app: Partition, content: seq<Byte>, download: Partition, image: seq<Byte>)
    requires IsApp(app) && IsDownload(download) && |content| == app.len && |image| == download.len
    requires ValidFirm(download, image)
    ensures HEADER_SIZE + Length(image, RAW_SIZE) <= |image|
    ensures InstalledFrom(Upgraded(app, content, download, image), image) <==> Fits(ImageHeader(image), app)
  {
    hide ValidFirm;
    UpgradedCases(app, content, download, image);
    LengthOfHeader(image);
  }

  /** With an app partition of one sector, a valid download whose body alone fills a sector is
      lost: app stays as it was, whatever it held, and is no copy of the image. */
  lemma ShortAppLosesImage(app: Partition, content: seq<Byte>, download: Partition, image: seq<Byte>)
    requires IsApp(app) && IsDownload(download) && |content| == app.len == SECTOR && |image| == download.len
    requires ValidFirm(download, image) && Length(image, RAW_SIZE) >= SECTOR
    ensures HEADER_SIZE + Length(image, RAW_SIZE) <= |image|
    ensures Upgraded(app, content, download, image) == content && !InstalledFrom(content, image)
  {
    hide ValidFirm;
    UpgradedCases(app, content, download, image);
    LengthOfHeader(image);
    UpgradeKeepsImageIffItFits(app, content, download, image);
  }

  /** With partitions of equal length, as board/fal_cfg.h lays them out, every accepted image fits. */
  lemma EqualPartitionsFit(app: Partition, download: Partition, image: seq<Byte>)
    requires IsApp(app) && IsDownload(download) && |image| == download.len <= app.len
    requires ValidFirm(download, image)
    ensures Fits(ImageHeader(image), app)
  {
    ValidBodyFits(download, image);
    LengthOfHeader(image);
  }
}
