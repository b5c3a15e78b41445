/** The in-application-programming protocol of applications/iap_slave.c: START picks and
    erases a partition, numbered WRITE packets fill it, retransmissions are recognised. */
module IapSlave {
  import opened Crc32
  import opened Flash

  const FC_IAP: int := 0x50

  const CMD_SYNC: int := 1
  const CMD_CHECK: int := 2
  const CMD_START: int := 3
  const CMD_WRITE: int := 4
  const CMD_UPDATE: int := 5

  const FLASH_APP: Byte := 1
  const FLASH_DOWNLOAD: Byte := 2

  datatype Step = StepNull | StepStart | StepWrite | StepUpdate

  datatype Using = NoPart | AppPart | DownloadPart

  datatype Fault = IllegalDataValue | NotDefined

  /** What the callback hands back: nothing, an exception, or an answer behind the echoed command. */
  datatype Response =
    | Silent
    | Exception(fault: Fault)
    | Done
    | StartReply(ok: bool)
    | WriteReply(packet: nat, ok: bool)

  datatype Packet = Packet(num: nat, payload: seq<Byte>)

  function Be16(b: seq<Byte>, at: nat): nat
    requires at + 2 <= |b|
  {
    0x100 * (b[at] as nat) + b[at + 1] as nat
  }

  function Be32(b: seq<Byte>, at: nat): nat
    requires at + 4 <= |b|
  {
    0x1000000 * (b[at] as nat) + 0x10000 * (b[at + 1] as nat) + 0x100 * (b[at + 2] as nat) + b[at + 3] as nat
  }

  /** compute_meta_length_after_function_callback and compute_data_length_after_meta_callback:
      command and length follow the function code, then as many bytes as the length says. */
  function MetaLength(function_: int, indication: bool): nat {
    if function_ == FC_IAP then 4 else if indication then 0 else 1
  }

  function DataLength(function_: int, meta: seq<Byte>): nat
    requires function_ == FC_IAP ==> |meta| == 4
  {
    if function_ == FC_IAP then Be16(meta, 2) else 0
  }

  ghost predicate FrameComplete(frame: seq<Byte>) {
    |frame| >= 4 && |frame| == MetaLength(FC_IAP, true) + DataLength(FC_IAP, frame[..4])
  }

  /** A frame is complete when exactly as many bytes follow command and length as the length
      says; so a WRITE carries the payload that its own length field announces exactly when the
      two lengths agree. */
  lemma CompleteFrame(frame: seq<Byte>)
    ensures FrameComplete(frame) <==> |frame| >= 4 && |frame[4..]| == Be16(frame, 2)
    ensures FrameComplete(frame) && |frame| >= 8 ==>
              (|frame[4..]| == 4 + Be16(frame[4..], 2) <==> Be16(frame, 2) == 4 + Be16(frame[4..], 2))
  {
    if |frame| >= 4 {
      assert frame[..4][2] == frame[2] && frame[..4][3] == frame[3];
    }
  }

  // ---------------------------------------------------------------------------------
  // What a stream of packets delivers
  // ---------------------------------------------------------------------------------

  function Payloads(log: seq<Packet>): seq<Byte> {
    if log == [] then [] else Payloads(log[..|log| - 1]) + log[|log| - 1].payload
  }

  function Truncate(s: seq<Byte>, n: nat): (r: seq<Byte>)
    ensures |r| == if |s| < n then |s| else n
  {
    if |s| <= n then s else s[..n]
  }

  ghost predicate Increasing(log: seq<Packet>) {
    forall i, j :: 0 <= i < j < |log| ==> log[i].num < log[j].num
  }

  function LastNum(log: seq<Packet>): nat {
    if log == [] then 0 else log[|log| - 1].num
  }

  /** The packets that pass the number check, of all that arrive. */
  function Delivered(arrived: seq<Packet>): (log: seq<Packet>)
    ensures arrived == [] ==> log == []
  {
    if arrived == [] then []
    else
      var before, p := Delivered(arrived[..|arrived| - 1]), arrived[|arrived| - 1];
      if p.num > LastNum(before) then before + [p] else before
  }

  lemma {:induction false} DeliveredIncreasing(arrived: seq<Packet>)
    ensures Increasing(Delivered(arrived))
    ensures forall p :: p in Delivered(arrived) ==> p in arrived && p.num <= LastNum(Delivered(arrived))
  {
    if arrived != [] {
      DeliveredIncreasing(arrived[..|arrived| - 1]);
    }
  }

  /** A sender that repeats each packet any number of times before the next. */
  ghost predicate Retransmission(arrived: seq<Packet>, sent: seq<Packet>)
    decreases |arrived|
  {
    if sent == [] then arrived == []
    else
      && arrived != [] && arrived[|arrived| - 1] == sent[|sent| - 1]
      && (|| Retransmission(arrived[..|arrived| - 1], sent)
          || Retransmission(arrived[..|arrived| - 1], sent[..|sent| - 1]))
  }

  /** Retransmission is invisible: exactly the sent packets are delivered, once each. */
  lemma {:induction false} RetransmissionInvisible(arrived: seq<Packet>, sent: seq<Packet>)
    requires Increasing(sent) && (forall p :: p in sent ==> p.num > 0)
    requires Retransmission(arrived, sent)
    ensures Delivered(arrived) == sent
    decreases |arrived|
  {
    if sent != [] {
      var front, last := arrived[..|arrived| - 1], sent[|sent| - 1];
      assert last in sent;
      if Retransmission(front, sent) {
        RetransmissionInvisible(front, sent);
      } else {
        var init := sent[..|sent| - 1];
        RetransmissionInvisible(front, init);
        assert init != [] ==> LastNum(init) == sent[|sent| - 2].num;
        assert sent == init + [last];
      }
    }
  }

  lemma PayloadsStep(log: seq<Packet>, p: Packet)
    ensures Payloads(log + [p]) == Payloads(log) + p.payload
  {
    assert (log + [p])[..|log|] == log;
  }

  lemma TruncateStep(s: seq<Byte>, p: seq<Byte>, n: nat)
    ensures |s| >= n ==> Truncate(s + p, n) == Truncate(s, n)
    ensures |s| < n ==> Truncate(s + p, n) == s + Truncate(p, n - |s|)
  {
  }

  // ---------------------------------------------------------------------------------
  // The flash during a session
  // ---------------------------------------------------------------------------------

  /** The first bytes hold data, the rest is blank. */
  ghost predicate Filled(content: seq<Byte>, data: seq<Byte>) {
    |data| <= |content| && content[..|data|] == data && forall i :: |data| <= i < |content| ==> content[i] == BLANK
  }

  lemma FilledFurther(before: seq<Byte>, after: seq<Byte>, data: seq<Byte>, more: seq<Byte>)
    requires Filled(before, data) && |data| + |more| <= |before|
    requires after == Programmed(before, |data|, more)
    ensures Filled(after, data + more)
  {
    hide Burn, Programmed;
    forall i | 0 <= i < |data| + |more|
      ensures after[i] == (data + more)[i]
    {
      if i < |data| {
        assert before[..|data|][i] == data[i];
      }
    }
  }

  /** A session's partition holds what the delivered packets say, cut at the announced length. */
  ghost predicate Session(content: seq<Byte>, totalLen: nat, writeLen: nat, writePacket: nat, arrived: seq<Packet>) {
    var data := Truncate(Payloads(Delivered(arrived)), totalLen);
    && totalLen <= |content|
    && writePacket == LastNum(Delivered(arrived))
    && writeLen == |data|
    && Filled(content, data)
  }

  lemma SessionStarts(content: seq<Byte>, totalLen: nat)
    requires Filled(content, []) && totalLen <= |content|
    ensures Session(content, totalLen, 0, 0, [])
  {
  }

  lemma ErasedIsBlank(before: seq<Byte>, after: seq<Byte>)
    requires after == Erased(before, 0, |before|)
    ensures Filled(after, [])
  {
  }

  /** A packet that is not newer delivers nothing. */
  lemma SessionIgnores(content: seq<Byte>, totalLen: nat, writeLen: nat, writePacket: nat, arrived: seq<Packet>,
                       p: Packet)
    requires Session(content, totalLen, writeLen, writePacket, arrived) && p.num <= writePacket
    ensures Session(content, totalLen, writeLen, writePacket, arrived + [p])
  {
    assert (arrived + [p])[..|arrived|] == arrived;
  }

  /** A newer packet whose payload, cut to the room that is left, is programmed behind the rest. */
  lemma SessionGrows(content: seq<Byte>, after: seq<Byte>, totalLen: nat, writeLen: nat, writePacket: nat,
                     arrived: seq<Packet>, p: Packet)
    requires Session(content, totalLen, writeLen, writePacket, arrived) && p.num > writePacket
    requires writeLen <= totalLen && after == Programmed(content, writeLen, Truncate(p.payload, totalLen - writeLen))
    ensures Session(after, totalLen, writeLen + |Truncate(p.payload, totalLen - writeLen)|, p.num, arrived + [p])
  {
    hide Filled, Programmed, Burn, Payloads, Truncate;
    var log := Delivered(arrived);
    assert (arrived + [p])[..|arrived|] == arrived;
    PayloadsStep(log, p);
    TruncateStep(Payloads(log), p.payload, totalLen);
    TruncateCases(Payloads(log), totalLen);
    TruncateCases(p.payload, totalLen - writeLen);
    var data, more := Truncate(Payloads(log), totalLen), Truncate(p.payload, totalLen - writeLen);
    FilledFurther(content, after, data, more);
    assert Delivered(arrived + [p]) == log + [p];
    assert Truncate(Payloads(log + [p]), totalLen) == data + more by {
      if |Payloads(log)| >= totalLen {
        assert more == [] && data + more == data;
      }
    }
  }

  lemma OtherPartition(app: Partition, download: Partition)
    requires Disjoint(app, download)
    ensures Disjoint(download, app)
  {
  }

  /** The lesser of a and b, but never less than nothing. */
  function Least(a: int, b: int): int {
    if b < 0 then 0 else if a < b then a else b
  }

  /** Command, packet number and length are big-endian. */
  lemma BigEndian(b: seq<Byte>, at: nat)
    requires at + 4 <= |b|
    ensures Be32(b, at) == 0x10000 * Be16(b, at) + Be16(b, at + 2)
    ensures Be16(b, at) / 0x100 == b[at] as nat && Be16(b, at) % 0x100 == b[at + 1] as nat
  {
  }

  lemma TruncateCases(s: seq<Byte>, n: nat)
    ensures |s| <= n ==> Truncate(s, n) == s
    ensures n == 0 ==> Truncate(s, n) == []
  {
  }

  class Slave {
    const app: Partition
    const download: Partition
    var isRemain: bool
    var isQuit: bool
    var syncCount: nat
    var step: Step
    var using: Using
    var totalLen: nat
    var writeLen: nat
    var writePacket: nat
    ghost var inSession: bool
    ghost var arrived: seq<Packet>

    constructor (app: Partition, download: Partition)
      ensures this.app == app && this.download == download
      ensures step == StepNull && using == NoPart && !inSession && !isRemain && syncCount == 0
    {
      this.app, this.download := app, download;
      isRemain, isQuit, syncCount := false, false, 0;
      step, using := StepNull, NoPart;
      totalLen, writeLen, writePacket := 0, 0, 0;
      inSession, arrived := false, [];
    }

    function PartitionOf(u: Using): Partition
      requires u != NoPart
    {
      if u == AppPart then app else download
    }

    ghost predicate Layout(board: Board)
      reads board
    {
      board.Holds(app) && board.Holds(download) && Disjoint(app, download)
    }

    /** The protocol's invariant: after START the partition is blank, and a session's partition
        holds its data. */
    ghost predicate Valid(board: Board)
      reads this, board
    {
      && Layout(board) && totalLen < ADDRESS_SPAN
      && (step == StepStart ==> using != NoPart && Filled(View(board.mem, PartitionOf(using)), []))
      && (inSession ==>
            && using != NoPart
            && Session(View(board.mem, PartitionOf(using)), totalLen, writeLen, writePacket, arrived))
    }

    /** IAP_CMD_START. */
    method Start(board: Board, data: seq<Byte>) returns (rsp: Response)
      requires Valid(board) && board.on && board.supply.Forever?
      modifies this`using, this`step, this`totalLen, this`writeLen, this`writePacket, this`inSession, this`arrived,
          board`mem, board`supply, board`on
      ensures Valid(board) && board.on && board.supply.Forever?
      ensures rsp.StartReply? || rsp.Exception?
      ensures rsp.Exception? <==>
                || |data| != 5 || (data[0] != 1 && data[0] != 2)
                || Be32(data, 1) > (if data[0] == 1 then app else download).len
      ensures rsp.StartReply? ==> (data[0] == 1 ==> using == AppPart) && (data[0] == 2 ==> using == DownloadPart)
      ensures using == AppPart ==> View(board.mem, download) == old(View(board.mem, download))
      ensures using == DownloadPart ==> View(board.mem, app) == old(View(board.mem, app))
      ensures rsp.Exception? ==> board.mem == old(board.mem) && totalLen == old(totalLen)
      ensures rsp.Exception? && using == old(using) ==>
              step == old(step) && inSession == old(inSession) && arrived == old(arrived)
      ensures rsp == StartReply(true) ==>
              inSession && using != NoPart && arrived == [] && totalLen == Be32(data, 1) && step == StepStart
      ensures rsp == StartReply(true) ==> Filled(View(board.mem, PartitionOf(using)), [])
      ensures rsp == StartReply(true) && old(step) == StepStart && using == old(using) ==> board.mem == old(board.mem)
    {
      hide View, Filled, Session, Programmed, Erased, Be32, Disjoint;
      var previous := using;
      if |data| != 5 {
        return Exception(IllegalDataValue);
      }
      if data[0] == FLASH_APP {
        using := AppPart;
      } else if data[0] == FLASH_DOWNLOAD {
        using := DownloadPart;
      } else {
        return Exception(IllegalDataValue);
      }
      if using != previous {
        step := StepNull;
        inSession := false;
      }
      var firmLen := Be32(data, 1);
      if firmLen > PartitionOf(using).len {
        return Exception(IllegalDataValue);
      }
      totalLen, writeLen, writePacket := firmLen, 0, 0;
      inSession, arrived := false, [];
      rsp := Open(board);
    }

    /** The end of IAP_CMD_START: erase unless nothing was written since the last START. */
    method Open(board: Board) returns (rsp: Response)
      requires Valid(board) && board.on && board.supply.Forever?
      requires using != NoPart && totalLen <= PartitionOf(using).len
      requires writeLen == writePacket == 0 && !inSession && arrived == []
      modifies this`step, this`inSession, board`mem, board`supply, board`on
      ensures Valid(board) && board.on && board.supply.Forever?
      ensures rsp == StartReply(inSession) && (inSession ==> step == StepStart)
      ensures using == AppPart ==> View(board.mem, download) == old(View(board.mem, download))
      ensures using == DownloadPart ==> View(board.mem, app) == old(View(board.mem, app))
      ensures inSession <==> old(step) == StepStart || PartitionOf(using).len > 0
      ensures old(step) == StepStart ==> board.mem == old(board.mem)
    {
      OtherPartition(app, download);
      hide View, Filled, Session, Programmed, Erased, Disjoint;
      if step == StepStart {
        SessionStarts(View(board.mem, PartitionOf(using)), totalLen);
        inSession := true;
        return StartReply(true);
      }
      ghost var blankFrom := View(board.mem, PartitionOf(using));
      var ret, done := board.PartitionEraseAll(PartitionOf(using));
      if ret <= 0 {
        return StartReply(false);
      }
      ErasedIsBlank(blankFrom, View(board.mem, PartitionOf(using)));
      SessionStarts(View(board.mem, PartitionOf(using)), totalLen);
      step := StepStart;
      inSession := true;
      rsp := StartReply(true);
    }

    /** IAP_CMD_WRITE. A repeated packet is confirmed and an older one refused, both without
        touching anything; a newer one is programmed behind the data already there, cut to the
        announced length. An empty or superfluous payload writes nothing. */
    method Write(board: Board, data: seq<Byte>) returns (rsp: Response)
      requires Valid(board) && board.on && board.supply.Forever?
      modifies this`step, this`writeLen, this`writePacket, this`arrived, board`mem, board`supply, board`on
      ensures Valid(board) && board.on && board.supply.Forever?
      ensures rsp.Exception? <==> using == NoPart || |data| < 4 || Be16(data, 0) == 0 || |data| != 4 + Be16(data, 2)
      ensures rsp.Exception? || Be16(data, 0) <= old(writePacket)
              ==> board.mem == old(board.mem) && writeLen == old(writeLen) && writePacket == old(writePacket) &&
                  step == old(step)
      ensures rsp.Exception? ==> arrived == old(arrived)
      ensures !rsp.Exception? ==> arrived == old(arrived) + [Packet(Be16(data, 0), data[4..])]
      ensures !rsp.Exception? && Be16(data, 0) == old(writePacket) ==> rsp == WriteReply(old(writePacket), true)
      ensures !rsp.Exception? && Be16(data, 0) < old(writePacket) ==> rsp == WriteReply(old(writePacket), false)
      ensures !rsp.Exception? && Be16(data, 0) > old(writePacket) ==> writePacket == Be16(data, 0)
      ensures !rsp.Exception? && Be16(data, 0) > old(writePacket)
              ==> rsp.WriteReply? && rsp.packet == writePacket && (inSession && |data| > 4 ==> rsp.ok)
      ensures !rsp.Exception? && Be16(data, 0) > old(writePacket) && (inSession || rsp == WriteReply(writePacket, true))
              ==> writeLen == old(writeLen) + Least(|data| - 4, totalLen - old(writeLen))
      ensures using == AppPart ==> View(board.mem, download) == old(View(board.mem, download))
      ensures using == DownloadPart ==> View(board.mem, app) == old(View(board.mem, app))
    {
      hide View, Session, Filled, Programmed, Be16, Truncate, Disjoint;
      if using == NoPart {
        return Exception(NotDefined);
      }
      if |data| < 4 {
        return Exception(IllegalDataValue);
      }
      var packetNum := Be16(data, 0);
      if packetNum == 0 {
        return Exception(IllegalDataValue);
      }
      if |data| != 4 + Be16(data, 2) {
        return Exception(IllegalDataValue);
      }
      ghost var packet := Packet(packetNum, data[4..]);
      if packetNum <= writePacket && inSession {
        SessionIgnores(View(board.mem, PartitionOf(using)), totalLen, writeLen, writePacket, arrived, packet);
      }
      if packetNum == writePacket {
        arrived := arrived + [packet];
        return WriteReply(writePacket, true);
      }
      if packetNum < writePacket {
        arrived := arrived + [packet];
        return WriteReply(writePacket, false);
      }
      rsp := Program(board, packetNum, data[4..]);
    }

    /** The rest of IAP_CMD_WRITE, for a packet that is newer than the last. */
    method Program(board: Board, packetNum: nat, payload: seq<Byte>) returns (rsp: Response)
      requires Valid(board) && board.on && board.supply.Forever?
      requires using != NoPart && packetNum > writePacket
      modifies this`writePacket, this`writeLen, this`step, this`arrived, board`mem, board`supply, board`on
      ensures Valid(board) && board.on && board.supply.Forever?
      ensures arrived == old(arrived) + [Packet(packetNum, payload)]
      ensures rsp.WriteReply? && rsp.packet == writePacket == packetNum
      ensures inSession || rsp.ok ==> writeLen == old(writeLen) + Least(|payload|, totalLen - old(writeLen))
      ensures using == AppPart ==> View(board.mem, download) == old(View(board.mem, download))
      ensures using == DownloadPart ==> View(board.mem, app) == old(View(board.mem, app))
      ensures inSession && payload != [] ==> rsp.ok
    {
      hide View, Session, Filled, Programmed, Truncate, Disjoint, Burn, Erased, Payloads, Delivered;
      ghost var part, packet := PartitionOf(using), Packet(packetNum, payload);
      ghost var before := View(board.mem, part);
      if inSession {
        SessionRoom(before, totalLen, writeLen, writePacket, arrived);
        RoomTruncates(payload, totalLen - writeLen);
      }
      arrived, writePacket := arrived + [packet], packetNum;
      if writeLen >= totalLen {
        if inSession {
          ProgrammedNothing(before, writeLen);
          SessionGrows(before, before, totalLen, writeLen, old(writePacket), old(arrived), packet);
        }
        return WriteReply(writePacket, true);
      }
      var firm := payload;
      if totalLen - writeLen < |payload| {
        firm := payload[..totalLen - writeLen];
      }
      if inSession {
        SessionGrows(before, Programmed(before, writeLen, firm), totalLen, writeLen, old(writePacket), old(arrived),
                     packet);
      }
      var ok := Append(board, firm);
      rsp := WriteReply(writePacket, ok);
    }

    /** The flash write of a packet, behind what is there. */
    method Append(board: Board, firm: seq<Byte>) returns (ok: bool)
      requires Layout(board) && board.on && board.supply.Forever?
      requires using != NoPart && writeLen + |firm| < ADDRESS_SPAN
      modifies this`writeLen, this`step, board`mem, board`supply, board`on
      ensures Layout(board) && board.on && board.supply.Forever? && step == StepWrite
      ensures ok <==> 0 < |firm| && old(writeLen) + |firm| <= PartitionOf(using).len
      ensures writeLen == old(writeLen) + if ok then |firm| else 0
      ensures old(writeLen) + |firm| <= PartitionOf(using).len ==>
                View(board.mem, PartitionOf(using)) ==
                Programmed(old(View(board.mem, PartitionOf(using))), old(writeLen), firm)
      ensures old(writeLen) + |firm| > PartitionOf(using).len ==> board.mem == old(board.mem)
      ensures using == AppPart ==> View(board.mem, download) == old(View(board.mem, download))
      ensures using == DownloadPart ==> View(board.mem, app) == old(View(board.mem, app))
    {
      OtherPartition(app, download);
      hide View, Programmed, Disjoint;
      step := StepWrite;
      var ret, done := board.PartitionWrite(PartitionOf(using), writeLen, firm);
      assert done == |firm| ==> firm[..done] == firm;
      if ret <= 0 {
        return false;
      }
      writeLen := writeLen + |firm|;
      ok := true;
    }

    /** slave_callback. */
    method Callback(board: Board, function_: int, frame: seq<Byte>) returns (rsp: Response)
      requires Valid(board) && board.on && board.supply.Forever?
      requires function_ == FC_IAP ==> FrameComplete(frame)
      modifies this, board`mem, board`supply, board`on
      ensures Valid(board) && board.on && board.supply.Forever?
      ensures function_ != FC_IAP || (!old(isRemain) && Be16(frame, 0) != CMD_SYNC) ==>
              rsp == Silent && board.mem == old(board.mem)
      ensures function_ == FC_IAP && old(isRemain) && Be16(frame, 0) !in {CMD_START, CMD_WRITE} ==>
              board.mem == old(board.mem)
      ensures || function_ != FC_IAP || (!old(isRemain) && Be16(frame, 0) != CMD_SYNC)
              || Be16(frame, 0) !in {CMD_START, CMD_WRITE}
              ==> inSession == old(inSession) && arrived == old(arrived) && using == old(using)
                  && totalLen == old(totalLen) && writeLen == old(writeLen) && writePacket == old(writePacket)
      ensures function_ == FC_IAP && Be16(frame, 0) == CMD_SYNC ==> syncCount == old(syncCount) + 1 && rsp == Silent
      ensures function_ == FC_IAP && old(isRemain) && Be16(frame, 0) in {CMD_CHECK, CMD_UPDATE} ==> rsp == Done
      ensures rsp.StartReply? ==> function_ == FC_IAP && Be16(frame, 0) == CMD_START
      ensures rsp == StartReply(true)
              ==> inSession && using != NoPart && arrived == []
                  && |frame| == 9 && totalLen == Be32(frame[4..], 1)
                  && Filled(View(board.mem, PartitionOf(using)), [])
      ensures function_ == FC_IAP && old(isRemain) && Be16(frame, 0) == CMD_START ==> rsp.StartReply? || rsp.Exception?
      ensures function_ == FC_IAP && old(isRemain) && Be16(frame, 0) == CMD_START
              ==> (rsp.Exception? <==>
                     || |frame| != 9 || (frame[4] != 1 && frame[4] != 2)
                     || Be32(frame[4..], 1) > (if frame[4] == 1 then app else download).len)
      ensures rsp.StartReply? ==> |frame| == 9
      ensures rsp.StartReply? ==> (frame[4] == 1 ==> using == AppPart) && (frame[4] == 2 ==> using == DownloadPart)
      ensures using == AppPart ==> View(board.mem, download) == old(View(board.mem, download))
      ensures using == DownloadPart ==> View(board.mem, app) == old(View(board.mem, app))
      ensures function_ == FC_IAP && old(isRemain) && Be16(frame, 0) == CMD_WRITE ==> rsp.WriteReply? || rsp.Exception?
      ensures function_ == FC_IAP && old(isRemain) && Be16(frame, 0) == CMD_WRITE && rsp.WriteReply?
              ==> |frame| >= 8 && arrived == old(arrived) + [Packet(Be16(frame[4..], 0), frame[4..][4..])]
      ensures isRemain <==> old(isRemain) || (syncCount == 3 && old(syncCount) == 2)
      ensures isQuit <==> old(isQuit) || (function_ == FC_IAP && old(isRemain) && Be16(frame, 0) == CMD_UPDATE)
    {
      hide View, Session, Filled, Be16, Disjoint;
      if function_ != FC_IAP {
        return Silent;
      }
      var cmd := Be16(frame, 0);
      if !isRemain && cmd != CMD_SYNC {
        return Silent;
      }
      var data := frame[4..];
      if cmd == CMD_SYNC {
        syncCount := syncCount + 1;
        if syncCount == 3 {
          isRemain := true;
        }
        rsp := Silent;
      } else if cmd == CMD_CHECK {
        rsp := Done;
      } else if cmd == CMD_START {
        rsp := Start(board, data);
      } else if cmd == CMD_WRITE {
        rsp := Write(board, data);
      } else if cmd == CMD_UPDATE {
        isQuit := true;
        step := StepUpdate;
        rsp := Done;
      } else {
        rsp := Silent;
      }
    }
  }

  /** Inside a session the room that is left is never negative. */
  lemma SessionRoom(content: seq<Byte>, totalLen: nat, writeLen: nat, writePacket: nat, arrived: seq<Packet>)
    requires Session(content, totalLen, writeLen, writePacket, arrived)
    ensures writeLen <= totalLen <= |content|
  {
  }

  lemma RoomTruncates(payload: seq<Byte>, room: nat)
    ensures Truncate(payload, room) == if room < |payload| then payload[..room] else payload
  {
  }

  /** A sender that numbers its packets upwards from 1 or more and repeats each as often as it
      likes gets exactly its image into the partition. */
  lemma TransferIsExact(content: seq<Byte>, totalLen: nat, writeLen: nat, writePacket: nat, arrived: seq<Packet>,
                        sent: seq<Packet>)
    requires Session(content, totalLen, writeLen, writePacket, arrived)
    requires Increasing(sent) && (forall p :: p in sent ==> p.num > 0) && Retransmission(arrived, sent)
    requires |Payloads(sent)| >= totalLen
    ensures writeLen == totalLen && content[..totalLen] == Payloads(sent)[..totalLen]
    ensures forall i :: totalLen <= i < |content| ==> content[i] == BLANK
  {
    hide Delivered, Payloads, Retransmission, Increasing;
    RetransmissionInvisible(arrived, sent);
  }
}
