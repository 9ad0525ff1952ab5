/**
 The byte streams the I2C driver sends to the uDMA (drivers/i2c.c) and their meaning:
 an interpreter of the command set of drivers/include/i2c_periph.h, in which RPT
 repeats the next command and repeated writes take their bytes from the stream.
 */
module I2cStream {

  const CMD_START := 0x00
  const CMD_STOP := 0x20
  const CMD_RD_ACK := 0x40
  const CMD_RD_NACK := 0x60
  const CMD_WR := 0x80
  const CMD_EOT := 0x90
  const CMD_WAIT := 0xA0
  const CMD_RPT := 0xC0
  const CMD_CFG := 0xE0

  // What happens on the bus.
  datatype Bus =
    | Config(divider: int)
    | Start
    | Stop
    | Write(byte: int)
    | ReadAck
    | ReadNack
    | Pause(cycles: int)
    | EndOfTransfer
    | Malformed

  function Writes(bytes: seq<int>): seq<Bus> {
    seq(|bytes|, i requires 0 <= i < |bytes| => Write(bytes[i]))
  }

  function Repeat(b: Bus, n: nat): seq<Bus> {
    seq(n, i => b)
  }

  // The command in the high half of a byte.
  function Opcode(byte: int): int {
    if 0 <= byte < 0x100 && byte % 16 == 0 then byte / 16 else -1
  }

  function Interpret(s: seq<int>): seq<Bus>
    decreases |s|
  {
    if s == [] then []
    else
      var c := Opcode(s[0]);
      if c == 0xE && 3 <= |s| then [Config(s[1] * 256 + s[2])] + Interpret(s[3..])
      else if c == 0x0 then [Start] + Interpret(s[1..])
      else if c == 0x2 then [Stop] + Interpret(s[1..])
      else if c == 0x4 then [ReadAck] + Interpret(s[1..])
      else if c == 0x6 then [ReadNack] + Interpret(s[1..])
      else if c == 0x9 then [EndOfTransfer] + Interpret(s[1..])
      else if c == 0x8 && 2 <= |s| then [Write(s[1])] + Interpret(s[2..])
      else if c == 0xA && 2 <= |s| then [Pause(s[1])] + Interpret(s[2..])
      else if c == 0xC && 3 <= |s| && 0 <= s[1] && Opcode(s[2]) == 0x4 then
        Repeat(ReadAck, s[1]) + Interpret(s[3..])
      else if c == 0xC && 3 <= |s| && 0 <= s[1] <= |s| - 3 && Opcode(s[2]) == 0x8 then
        Writes(s[3..3 + s[1]]) + Interpret(s[3 + s[1]..])
      else [Malformed]
  }

  // A chip select: clock divider and address byte without the direction bit.
  datatype Slave = Slave(clkDiv: int, addr: int) {
    predicate Valid() {
      0 <= clkDiv < 0x1_0000 && 0 <= addr < 0x100
    }
  }

  // addr | ADDRESS_READ
  function ReadAddress(addr: int): (r: int)
    ensures r % 2 == 1 && r / 2 == addr / 2
  {
    if addr % 2 == 0 then addr + 1 else addr
  }

  function Header(s: Slave): seq<int> {
    [CMD_CFG, s.clkDiv / 256 % 256, s.clkDiv % 256]
  }

  // `__pi_i2c_copy_exec_read`, for 1 to 255 bytes
  function ReadCommands(s: Slave, size: int): seq<int> {
    Header(s) + [CMD_START, CMD_WR, ReadAddress(s.addr)]
    + (if size > 1 then [CMD_RPT, size - 1, CMD_RD_ACK] else [])
    + [CMD_RD_NACK]
  }

  // `__pi_i2c_copy_exec_write`, for 0 to 255 bytes
  function WriteCommands(s: Slave, size: int, start: bool): seq<int> {
    Header(s)
    + (if start then [CMD_START, CMD_WR, s.addr] else [])
    + (if size > 0 then [CMD_RPT, size, CMD_WR] else [])
  }

  // The stop sequence, or the part of it that only signals the end.
  function Trailer(stop: bool, wait: int): seq<int> {
    (if stop then [CMD_STOP] else []) + [CMD_WAIT, wait, CMD_EOT]
  }

  // ---------------------------------------------------------------- meaning

  function ReadMeaning(s: Slave, size: nat): seq<Bus>
    requires 0 < size
  {
    [Config(s.clkDiv), Start, Write(ReadAddress(s.addr))] + Repeat(ReadAck, size - 1) + [ReadNack]
  }

  function WriteMeaning(s: Slave, bytes: seq<int>, start: bool): seq<Bus> {
    [Config(s.clkDiv)] + (if start then [Start, Write(s.addr)] else []) + Writes(bytes)
  }

  function TrailerMeaning(stop: bool, wait: int): seq<Bus> {
    (if stop then [Stop] else []) + [Pause(wait), EndOfTransfer]
  }

  lemma InterpretHeader(s: Slave, rest: seq<int>)
    requires s.Valid()
    ensures Interpret(Header(s) + rest) == [Config(s.clkDiv)] + Interpret(rest)
  {
    var t := Header(s) + rest;
    assert t[3..] == rest && t[0] == CMD_CFG;
    assert t[1] * 256 + t[2] == s.clkDiv;
  }

  // A command of one byte.
  function Single(c: int): Bus {
    if c == CMD_START then Start else if c == CMD_STOP then Stop
    else if c == CMD_RD_ACK then ReadAck else if c == CMD_RD_NACK then ReadNack
    else EndOfTransfer
  }

  lemma InterpretSingle(c: int, rest: seq<int>)
    requires c in [CMD_START, CMD_STOP, CMD_RD_ACK, CMD_RD_NACK, CMD_EOT]
    ensures Interpret([c] + rest) == [Single(c)] + Interpret(rest)
  {
    var t := [c] + rest;
    assert t[1..] == rest && t[0] == c;
  }

  lemma InterpretPair(c: int, x: int, rest: seq<int>)
    requires c == CMD_WR || c == CMD_WAIT
    ensures Interpret([c, x] + rest) == [if c == CMD_WR then Write(x) else Pause(x)] + Interpret(rest)
  {
    var t := [c, x] + rest;
    assert t[2..] == rest && t[0] == c && t[1] == x;
  }

  lemma InterpretAddress(addr: int, rest: seq<int>)
    ensures Interpret([CMD_START, CMD_WR, addr] + rest) == [Start, Write(addr)] + Interpret(rest)
  {
    hide Interpret;
    InterpretSingle(CMD_START, [CMD_WR, addr] + rest);
    InterpretPair(CMD_WR, addr, rest);
    assert [CMD_START, CMD_WR, addr] + rest == [CMD_START] + ([CMD_WR, addr] + rest);
  }

  lemma InterpretRepeat(n: nat, rest: seq<int>)
    ensures Interpret([CMD_RPT, n, CMD_RD_ACK] + rest) == Repeat(ReadAck, n) + Interpret(rest)
  {
    var t := [CMD_RPT, n, CMD_RD_ACK] + rest;
    assert t[3..] == rest && t[0] == CMD_RPT && t[1] == n && t[2] == CMD_RD_ACK;
  }

  lemma InterpretReads(size: int, rest: seq<int>)
    requires 0 < size
    ensures Interpret((if size > 1 then [CMD_RPT, size - 1, CMD_RD_ACK] else []) + [CMD_RD_NACK] + rest) ==
            Repeat(ReadAck, size - 1) + [ReadNack] + Interpret(rest)
  {
    hide Interpret;
    var last := [CMD_RD_NACK] + rest;
    InterpretSingle(CMD_RD_NACK, rest);
    if size > 1 {
      InterpretRepeat(size - 1, last);
      assert [CMD_RPT, size - 1, CMD_RD_ACK] + [CMD_RD_NACK] + rest == [CMD_RPT, size - 1, CMD_RD_ACK] + last;
    } else {
      assert [] + [CMD_RD_NACK] + rest == last;
      assert Repeat(ReadAck, 0) == [];
    }
  }

  /** A read of `size` bytes addresses the slave for reading, acknowledges every byte but
      the last and refuses the last one, as section 3.1.6 of NXP UM10204 asks of a
      receiving master; nothing is left over. */
  lemma ReadPerforms(s: Slave, size: nat, rest: seq<int>)
    requires s.Valid() && 1 <= size <= 255
    ensures Interpret(ReadCommands(s, size) + rest) == ReadMeaning(s, size) + Interpret(rest)
    ensures ReadMeaning(s, size)[1] == Start
    ensures exists x :: ReadMeaning(s, size)[2] == Write(x) && x % 2 == 1 && x / 2 == s.addr / 2
    ensures |ReadMeaning(s, size)| == 3 + size && ReadMeaning(s, size)[2 + size] == ReadNack
    ensures forall i :: 3 <= i < 2 + size ==> ReadMeaning(s, size)[i] == ReadAck
    ensures |ReadCommands(s, size)| <= 16
    ensures forall i :: 0 <= i < |ReadCommands(s, size)| ==> 0 <= ReadCommands(s, size)[i] < 256
  {
    hide Interpret, Header;
    var body := (if size > 1 then [CMD_RPT, size - 1, CMD_RD_ACK] else []) + [CMD_RD_NACK];
    var addr := [CMD_START, CMD_WR, ReadAddress(s.addr)];
    ReadLayout(s, size);
    assert ReadCommands(s, size) + rest == Header(s) + (addr + (body + rest));
    InterpretHeader(s, addr + (body + rest));
    InterpretAddress(ReadAddress(s.addr), body + rest);
    InterpretReads(size, rest);
    assert ReadMeaning(s, size)[2] == Write(ReadAddress(s.addr));
  }

  lemma ReadLayout(s: Slave, size: nat)
    requires s.Valid() && 1 <= size <= 255
    ensures |ReadCommands(s, size)| <= 16
    ensures forall i :: 0 <= i < |ReadCommands(s, size)| ==> 0 <= ReadCommands(s, size)[i] < 256
  {
  }

  lemma InterpretWrites(bytes: seq<int>, rest: seq<int>)
    ensures Interpret((if |bytes| > 0 then [CMD_RPT, |bytes|, CMD_WR] else []) + bytes + rest) ==
            Writes(bytes) + Interpret(rest)
  {
    if |bytes| > 0 {
      var t := [CMD_RPT, |bytes|, CMD_WR] + bytes + rest;
      assert t[3..3 + |bytes|] == bytes && t[3 + |bytes|..] == rest;
    } else {
      assert [] + bytes + rest == rest;
      assert Writes(bytes) + Interpret(rest) == Interpret(rest);
    }
  }

  /** A write addresses the slave unless told not to, and sends exactly the bytes of the
      buffer queued behind the commands. */
  lemma WritePerforms(s: Slave, bytes: seq<int>, start: bool, rest: seq<int>)
    requires s.Valid() && |bytes| <= 255
    ensures Interpret(WriteCommands(s, |bytes|, start) + bytes + rest) ==
            WriteMeaning(s, bytes, start) + Interpret(rest)
    ensures var m, k := WriteMeaning(s, bytes, start), if start then 3 else 1;
      && |m| == k + |bytes| && (start ==> m[1] == Start && m[2] == Write(s.addr))
      && forall i :: 0 <= i < |bytes| ==> m[k + i] == Write(bytes[i])
    ensures |WriteCommands(s, |bytes|, start)| <= 16
    ensures forall i :: 0 <= i < |WriteCommands(s, |bytes|, start)| ==> 0 <= WriteCommands(s, |bytes|, start)[i] < 256
  {
    hide Interpret, Header;
    var addr := if start then [CMD_START, CMD_WR, s.addr] else [];
    var tail := (if |bytes| > 0 then [CMD_RPT, |bytes|, CMD_WR] else []) + bytes + rest;
    WriteLayout(s, |bytes|, start);
    assert WriteCommands(s, |bytes|, start) + bytes + rest == Header(s) + (addr + tail);
    InterpretHeader(s, addr + tail);
    InterpretWrites(bytes, rest);
    if start {
      InterpretAddress(s.addr, tail);
    } else {
      assert addr + tail == tail;
    }
  }

  lemma WriteLayout(s: Slave, size: nat, start: bool)
    requires s.Valid() && size <= 255
    ensures |WriteCommands(s, size, start)| <= 16
    ensures forall i :: 0 <= i < |WriteCommands(s, size, start)| ==> 0 <= WriteCommands(s, size, start)[i] < 256
  {
  }

  /** The trailer stops the bus only when asked to and always signals the end. */
  lemma TrailerPerforms(stop: bool, wait: int, rest: seq<int>)
    ensures Interpret(Trailer(stop, wait) + rest) == TrailerMeaning(stop, wait) + Interpret(rest)
  {
    hide Interpret;
    var t := [CMD_WAIT, wait, CMD_EOT] + rest;
    InterpretPair(CMD_WAIT, wait, [CMD_EOT] + rest);
    InterpretSingle(CMD_EOT, rest);
    assert t == [CMD_WAIT, wait] + ([CMD_EOT] + rest);
    InterpretSingle(CMD_STOP, t);
    assert Trailer(stop, wait) + rest == if stop then [CMD_STOP] + t else t;
  }
}
