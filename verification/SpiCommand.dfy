/**
 The command words a transfer is started with (drivers/include/spi_periph.h), and
 what the SPI master makes of them.
 */
module SpiCommand {

  // The largest transfer in bits: 8192 bytes.
  const MAX_BITS: bv32 := 65536

  // SPI_CMD_SOT
  function StartOfTransfer(cs: bv32): bv32 {
    (0x1 << 28) | cs
  }

  // SPI_CMD_TX_DATA and SPI_CMD_RX_DATA with one 32-bit word per transfer, MSB first. A
  // count of 0 wraps around.
  function MoveData(isSend: bool, words: bv32, quad: bv32): bv32 {
    ((if isSend then 0x6 else 0x7) << 28) | (quad << 27) | (0 << 21) | (31 << 16) | (words - 1) | (0 << 26)
  }

  // SPI_CMD_EOT with an event
  function EndOfTransfer(keep: bv32): bv32 {
    (0x9 << 28) | 1 | (keep << 1)
  }

  // (flags & (0x3 << 2)) == PI_SPI_LINES_QUAD
  function Quad(flags: bv32): bv32 {
    if flags & 0xC == 0x4 then 1 else 0
  }

  // ((flags >> 0) & 0x3) == PI_SPI_CS_KEEP
  function Keep(flags: bv32): bv32 {
    if flags & 0x3 == 0x1 then 1 else 0
  }

  // The words of `udma_cmd` for a transfer of `len` bits.
  function Commands(cfg: bv32, cs: bv32, len: bv32, flags: bv32, isSend: bool): seq<bv32> {
    [cfg, StartOfTransfer(cs), MoveData(isSend, len >> 5, Quad(flags)), EndOfTransfer(Keep(flags))]
  }

  function BufferBytes(len: bv32): bv32 {
    (len + 7) >> 3
  }

  /** The buffer has just the bytes for the bits, and the limit is 8192 of them. */
  lemma BufferFits(len: bv32)
    requires len <= 0xFFFF_FFF8
    ensures var b := BufferBytes(len);
      && b <= 0x1FFF_FFFF && len <= 8 * b && (b == 0 || 8 * (b - 1) < len)
      && (len > MAX_BITS <==> b > 8192)
  {
  }

  // ---------------------------------------------------------------- decoding

  // The fields of a data command: opcode, number of words less one, bits per word less
  // one, words per transfer, LSB first, quad lines.
  datatype DataCommand = DataCommand(opcode: bv32, words: bv32, bits: bv32, group: bv32, lsb: bv32, quad: bv32)

  function Decode(w: bv32): DataCommand {
    DataCommand(w >> 28, w & 0xFFFF, (w >> 16) & 0x1F, (w >> 21) & 0x3, (w >> 26) & 0x1, (w >> 27) & 0x1)
  }

  /** The master reads back the requested move exactly when there is a whole word to move:
      below 32 bits the count underflows and spoils the whole command. */
  lemma DataDecodes(isSend: bool, len: bv32, flags: bv32)
    requires len <= MAX_BITS
    ensures Decode(MoveData(isSend, len >> 5, Quad(flags))) ==
            DataCommand(if isSend then 0x6 else 0x7, (len >> 5) - 1, 31, 0, 0, Quad(flags))
            <==> 32 <= len
  {
  }

  // Bits moved by a decoded data command.
  function BitsMoved(c: DataCommand): bv32 {
    (c.words + 1) << 5
  }

  /** It moves all `len` bits exactly when that is a positive number of whole words. */
  lemma DataComplete(isSend: bool, len: bv32, flags: bv32)
    requires len <= MAX_BITS
    ensures var c := Decode(MoveData(isSend, len >> 5, Quad(flags)));
      (c.opcode == (if isSend then 0x6 else 0x7) && BitsMoved(c) == len) <==> 32 <= len && len & 0x1F == 0
  {
  }

  /** The end command raises the end event and keeps the chip select as asked. */
  lemma EndDecodes(flags: bv32)
    ensures var w := EndOfTransfer(Keep(flags));
      w >> 28 == 0x9 && w & 0x1 == 1 && ((w >> 1) & 0x1 == 1 <==> flags & 0x3 == 0x1)
  {
  }

  // ---------------------------------------------------------------- the whole sequence

  // What the master does for a command word.
  datatype Action =
    | Configure(word: bv32)
    | Select(cs: bv32)
    | Move(isSend: bool, bytes: bv32, quad: bool)
    | Finish(event: bool, keep: bool)
    | Unknown

  function Perform(w: bv32): Action {
    var opcode := w >> 28;
    if opcode == 0x0 then Configure(w)
    else if opcode == 0x1 then Select(w & 0x3)
    else if opcode == 0x6 || opcode == 0x7 then
      var c := Decode(w);
      if c.bits == 31 && c.group == 0 && c.lsb == 0 then Move(opcode == 0x6, (c.words + 1) << 2, c.quad == 1) else Unknown
    else if opcode == 0x9 then Finish(w & 0x1 == 1, (w >> 1) & 0x1 == 1)
    else Unknown
  }

  lemma SelectPerforms(cs: bv32)
    ensures Perform(StartOfTransfer(cs)) == Select(cs) <==> cs < 4
  {
  }

  lemma MovePerforms(isSend: bool, len: bv32, flags: bv32)
    requires len <= MAX_BITS
    ensures Perform(MoveData(isSend, len >> 5, Quad(flags))) == Move(isSend, (len >> 5) << 2, flags & 0xC == 0x4) <==>
            32 <= len
  {
    DataDecodes(isSend, len, flags);
  }

  /** For every length the driver accepts and every chip select: the master is configured,
      selects the chip, moves every whole word of the buffer in the requested direction and
      mode, signals the end and keeps the chip select if asked, if and only if there are four
      chip selects at most and a whole word to move. */
  lemma CommandsPerform(cfg: bv32, cs: bv32, len: bv32, flags: bv32, isSend: bool)
    requires cfg >> 28 == 0 && len <= MAX_BITS
    ensures var w := Commands(cfg, cs, len, flags, isSend);
      [Perform(w[0]), Perform(w[1]), Perform(w[2]), Perform(w[3])] ==
      [Configure(cfg), Select(cs), Move(isSend, (len >> 5) << 2, flags & 0xC == 0x4), Finish(true, flags & 0x3 == 0x1)]
      <==> cs < 4 && 32 <= len
    ensures (len >> 5) << 2 == BufferBytes(len) <==> len & 0x1F == 0
  {
    SelectPerforms(cs);
    MovePerforms(isSend, len, flags);
    EndDecodes(flags);
    CountBytes(len);
    var w := Commands(cfg, cs, len, flags, isSend);
    assert Perform(w[0]) == Configure(cfg) && Perform(w[3]) == Finish(true, flags & 0x3 == 0x1);
    hide Perform, MoveData, StartOfTransfer, EndOfTransfer;
    var all := [Perform(w[0]), Perform(w[1]), Perform(w[2]), Perform(w[3])];
    assert all[1] == Perform(w[1]) && all[2] == Perform(w[2]);
  }

  lemma CountBytes(len: bv32)
    requires len <= MAX_BITS
    ensures (len >> 5) << 2 == BufferBytes(len) <==> len & 0x1F == 0
  {
  }
}
