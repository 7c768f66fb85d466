/** The command encoder and the read split of the `MCP4725` driver. The bus transport
    is not modelled: each write operation yields the frame handed to the bus, and the
    read operation takes the outcome of the bus read as a parameter. */
module Driver {
  import opened Bits
  import opened Types

  /** The outcome of a bus transaction: a value, or the transport's own error. */
  datatype Result<T, E> = Ok(value: T) | Err(error: E)

  /** `MCP4725::fast_write`: a 2-byte frame. Bits 15-14 of the big-endian word are the
      fast-write selector 00, bits 13-12 the mode and bits 11-0 the DAC code with its
      upper bits discarded. */
  function FastWrite(mode: PowerDownMode, dac: bv16): (frame: seq<Byte>)
    ensures |frame| == 2
    ensures Be16(frame[0], frame[1]) == Code(mode) as bv16 * 0x1000 + dac % 0x1000
    ensures Field(frame[0], 6, 2) == 0 && Field(frame[0], 4, 2) == Code(mode)
    ensures Field(frame[0], 0, 4) as bv16 == dac / 0x100 % 0x10
    ensures frame[1] as bv16 == dac % 0x100
  {
    var data := (dac & 0xFFF) | ((Code(mode) as bv16) << 12);
    ToBeBytes(data)
  }

  /** `MCP4725::write`: a 3-byte frame. Byte 0 is the selector (011 when the value is
      also written to EEPROM, 010 otherwise) in bits 7-5, zeros in bits 4-3, the mode
      in bits 2-1 and a zero in bit 0. Bytes 1-2 are the code shifted left by 4 within
      16 bits, so the code's bits 11-4 are byte 1, its bits 3-0 the high nibble of
      byte 2, and the low nibble of byte 2 is zero. */
  function Write(mode: PowerDownMode, dac: bv16, writeEeprom: bool): (frame: seq<Byte>)
    ensures |frame| == 3
    ensures Field(frame[0], 5, 3) == if writeEeprom then 0x3 else 0x2
    ensures Field(frame[0], 3, 2) == 0 && Field(frame[0], 0, 1) == 0
    ensures Field(frame[0], 1, 2) == Code(mode)
    ensures Be16(frame[1], frame[2]) == dac % 0x1000 * 0x10
  {
    var data := ((if writeEeprom then 0x3 else 0x2) << 5) | (Code(mode) << 1);
    var shifted := dac << 4;
    var bytes := ToBeBytes(shifted);
    [data, bytes[0], bytes[1]]
  }

  /** Bytes 1-2 of a full-write frame, byte by byte: the code's bits 11-4, then its
      bits 3-0 followed by four zero bits. */
  lemma WriteCodeBytes(mode: PowerDownMode, dac: bv16, writeEeprom: bool)
    ensures var frame := Write(mode, dac, writeEeprom);
      && frame[1] as bv16 == dac / 0x10 % 0x100
      && Field(frame[2], 4, 4) as bv16 == dac % 0x10
      && Field(frame[2], 0, 4) == 0
  {
    var frame := Write(mode, dac, writeEeprom);
    PaddedCodeBytes(frame[1], frame[2], dac);
  }

  /** The two bytes of a 12-bit code shifted left by 4 within 16 bits. */
  lemma PaddedCodeBytes(hi: Byte, lo: Byte, dac: bv16)
    requires Be16(hi, lo) == dac % 0x1000 * 0x10
    ensures hi as bv16 == dac / 0x10 % 0x100
    ensures Field(lo, 4, 4) as bv16 == dac % 0x10 && Field(lo, 0, 4) == 0
  {
  }

  /** `MCP4725::set_voltage`: the output is always switched to `Normal`. With
      `writeEeprom` it is a 3-byte write-and-persist frame, otherwise a 2-byte fast
      write; in both, the mode bits are zero. */
  function SetVoltage(dac: bv16, writeEeprom: bool): (frame: seq<Byte>)
    ensures |frame| == if writeEeprom then 3 else 2
    ensures writeEeprom ==> frame[0] == 0x60 && Be16(frame[1], frame[2]) == dac % 0x1000 * 0x10
    ensures !writeEeprom ==> Be16(frame[0], frame[1]) == dac % 0x1000
  {
    if writeEeprom then Write(Normal, dac, writeEeprom) else FastWrite(Normal, dac)
  }

  /** `MCP4725::read`: the bus read's outcome, with 5 bytes on success, split into the
      register view of bytes 0-2 and the EEPROM view of bytes 3-4. A transport error is
      passed through unchanged. */
  function Read<E>(transfer: Result<seq<Byte>, E>): (r: Result<(RegisterStatus, EEPROMStatus), E>)
    requires transfer.Ok? ==> |transfer.value| == 5
    ensures r.Err? <==> transfer.Err?
    ensures r.Err? ==> r.error == transfer.error
    ensures r.Ok? ==> var packet, reg, eeprom := transfer.value, r.value.0, r.value.1;
      && reg.ReadData() == packet[0]
      && Code(reg.PowerDownMode()) == Field(packet[0], 1, 2)
      && reg.Dac() == packet[1] as bv16 * 0x10 + Field(packet[2], 4, 4) as bv16
      && Code(eeprom.PowerDownMode()) == Field(packet[3], 5, 2)
      && eeprom.Dac() == Field(packet[3], 0, 4) as bv16 * 0x100 + packet[4] as bv16
  {
    match transfer
    case Err(e) => Err(e)
    case Ok(packet) =>
      Ok((RegisterStatus.New([packet[0], packet[1], packet[2]]),
          EEPROMStatus.New([packet[3], packet[4]])))
  }

  /** Only the low 12 bits of the code reach a fast-write frame. */
  lemma FastWriteMasks(mode: PowerDownMode, dac: bv16)
    ensures FastWrite(mode, dac) == FastWrite(mode, dac & 0xFFF)
  {
  }

  /** Only the low 12 bits of the code reach a full-write frame. */
  lemma WriteMasks(mode: PowerDownMode, dac: bv16, writeEeprom: bool)
    ensures Write(mode, dac, writeEeprom) == Write(mode, dac & 0xFFF, writeEeprom)
  {
  }

  /** `set_voltage` is the `Normal`-mode fast write or the `Normal`-mode persisting write. */
  lemma SetVoltageDelegates(dac: bv16)
    ensures SetVoltage(dac, false) == FastWrite(Normal, dac)
    ensures SetVoltage(dac, true) == Write(Normal, dac, true)
  {
  }

  /** A full-write frame read back through the register layout yields the mode written
      and the code with its upper bits discarded. */
  lemma WriteDecodesAsRegister(mode: PowerDownMode, dac: bv16, writeEeprom: bool)
    ensures RegisterStatus.New(Write(mode, dac, writeEeprom)).PowerDownMode() == mode
    ensures RegisterStatus.New(Write(mode, dac, writeEeprom)).Dac() == dac & 0xFFF
  {
    CodeInjective(RegisterStatus.New(Write(mode, dac, writeEeprom)).PowerDownMode(), mode);
  }

  /** A fast-write frame read back through the EEPROM layout yields the code with its
      upper bits discarded. */
  lemma FastWriteDecodesAsEeprom(mode: PowerDownMode, dac: bv16)
    ensures EEPROMStatus.New(FastWrite(mode, dac)).Dac() == dac & 0xFFF
  {
  }

  /** Two fast writes send the same frame exactly when they agree on the mode and on
      the low 12 bits of the code. */
  lemma FastWriteInjective(m1: PowerDownMode, d1: bv16, m2: PowerDownMode, d2: bv16)
    ensures FastWrite(m1, d1) == FastWrite(m2, d2) <==> m1 == m2 && d1 & 0xFFF == d2 & 0xFFF
  {
    CodeInjective(m1, m2);
    FastWriteMasks(m1, d1);
    FastWriteMasks(m2, d2);
  }

  /** Two full writes send the same frame exactly when they agree on the selector, the
      mode and the low 12 bits of the code. */
  lemma WriteInjective(m1: PowerDownMode, d1: bv16, e1: bool, m2: PowerDownMode, d2: bv16, e2: bool)
    ensures Write(m1, d1, e1) == Write(m2, d2, e2) <==> e1 == e2 && m1 == m2 && d1 & 0xFFF == d2 & 0xFFF
  {
    var f1, f2 := Write(m1, d1, e1), Write(m2, d2, e2);
    if f1 == f2 {
      WriteDecodesAsRegister(m1, d1, e1);
      WriteDecodesAsRegister(m2, d2, e2);
      assert Field(f1[0], 5, 3) == Field(f2[0], 5, 3);
    }
    if e1 == e2 && m1 == m2 && d1 & 0xFFF == d2 & 0xFFF {
      WriteMasks(m1, d1, e1);
      WriteMasks(m2, d2, e2);
    }
  }

  /** The fast-write layout is complete: every 2-byte frame whose bits 15-14 are the
      fast-write selector 00 is sent by some fast write. */
  lemma FastWriteOnto(frame: seq<Byte>)
    requires |frame| == 2 && Field(frame[0], 6, 2) == 0
    ensures exists mode, dac :: FastWrite(mode, dac) == frame
  {
    var mode := ModeOfBits(Field(frame[0], 4, 2));
    var dac := Be16(frame[0], frame[1]) & 0xFFF;
    var sent := FastWrite(mode, dac);
    assert sent[0] == frame[0] && sent[1] == frame[1];
    assert sent == frame;
  }

  /** The full-write layout is complete: every 3-byte frame with selector 010 or 011,
      zero bits 4-3 and 0 and a zero low nibble in byte 2 is sent by some full write. */
  lemma WriteOnto(frame: seq<Byte>)
    requires |frame| == 3
    requires Field(frame[0], 5, 3) == 0x2 || Field(frame[0], 5, 3) == 0x3
    requires Field(frame[0], 3, 2) == 0 && Field(frame[0], 0, 1) == 0 && Field(frame[2], 0, 4) == 0
    ensures exists mode, dac, writeEeprom :: Write(mode, dac, writeEeprom) == frame
  {
    var mode := ModeOfBits(Field(frame[0], 1, 2));
    var dac := Be16(frame[1], frame[2]) >> 4;
    var writeEeprom := Field(frame[0], 5, 3) == 0x3;
    WriteControlByte(frame[0], mode, dac, writeEeprom);
    WriteDataBytes(frame[1], frame[2], mode, writeEeprom);
    var sent := Write(mode, dac, writeEeprom);
    assert sent == frame;
  }

  /** Byte 0 of a full write is rebuilt from its selector and mode fields. */
  lemma WriteControlByte(b: Byte, mode: PowerDownMode, dac: bv16, writeEeprom: bool)
    requires Field(b, 5, 3) == 0x2 || Field(b, 5, 3) == 0x3
    requires Field(b, 3, 2) == 0 && Field(b, 0, 1) == 0
    requires Code(mode) == Field(b, 1, 2) && writeEeprom == (Field(b, 5, 3) == 0x3)
    ensures Write(mode, dac, writeEeprom)[0] == b
  {
  }

  /** Bytes 1-2 of a full write are rebuilt from the code they carry. */
  lemma WriteDataBytes(hi: Byte, lo: Byte, mode: PowerDownMode, writeEeprom: bool)
    requires Field(lo, 0, 4) == 0
    ensures Write(mode, Be16(hi, lo) >> 4, writeEeprom)[1] == hi
    ensures Write(mode, Be16(hi, lo) >> 4, writeEeprom)[2] == lo
  {
  }

  /** The register view of a reply depends on bytes 0-2 only, the EEPROM view on bytes
      3-4 only. */
  lemma ReadSplit<E>(p: seq<Byte>, q: seq<Byte>)
    requires |p| == 5 && |q| == 5
    ensures p[..3] == q[..3] ==> Read<E>(Ok(p)).value.0 == Read<E>(Ok(q)).value.0
    ensures p[3..] == q[3..] ==> Read<E>(Ok(p)).value.1 == Read<E>(Ok(q)).value.1
  {
    if p[..3] == q[..3] {
      assert p[0] == q[0] && p[1] == q[1] && p[2] == q[2] by {
        assert p[0] == p[..3][0] && p[1] == p[..3][1] && p[2] == p[..3][2];
      }
    }
    if p[3..] == q[3..] {
      assert p[3] == q[3] && p[4] == q[4] by {
        assert p[3] == p[3..][0] && p[4] == p[3..][1];
      }
    }
  }

  /** Reference encoder of the reply layout the device sends, used to state the read
      round trip: status flags in bits 7 and 6 of byte 0 and the register mode in its
      bits 2-1; the register code in bits 15-4 of bytes 1-2; the EEPROM mode in bits 6-5
      of byte 3 and the EEPROM code in bits 11-0 of bytes 3-4; every other bit zero. */
  function DeviceReply(ready: bool, por: bool, regMode: PowerDownMode, regDac: bv16,
                       eepromMode: PowerDownMode, eepromDac: bv16): (packet: seq<Byte>)
    ensures |packet| == 5
  {
    var flags: Byte := (if ready then 0x80 else 0x00) | (if por then 0x40 else 0x00);
    [ flags | (Code(regMode) << 1),
      ((regDac >> 4) & 0xFF) as Byte,
      ((regDac & 0xF) << 4) as Byte,
      (Code(eepromMode) << 5) | ((eepromDac >> 8) & 0xF) as Byte,
      (eepromDac & 0xFF) as Byte ]
  }

  /** Decoding a reply recovers every field the device put into it. */
  lemma ReadRecoversReply<E>(ready: bool, por: bool, regMode: PowerDownMode, regDac: bv16,
                             eepromMode: PowerDownMode, eepromDac: bv16)
    requires regDac <= 0xFFF && eepromDac <= 0xFFF
    ensures var r := Read<E>(Ok(DeviceReply(ready, por, regMode, regDac, eepromMode, eepromDac)));
      && r.Ok?
      && r.value.0.EepromReady() == ready && r.value.0.Por() == por
      && r.value.0.PowerDownMode() == regMode && r.value.0.Dac() == regDac
      && r.value.1.PowerDownMode() == eepromMode && r.value.1.Dac() == eepromDac
  {
    var r := Read<E>(Ok(DeviceReply(ready, por, regMode, regDac, eepromMode, eepromDac)));
    CodeInjective(r.value.0.PowerDownMode(), regMode);
    CodeInjective(r.value.1.PowerDownMode(), eepromMode);
  }

  /** Conversely, a reply whose unused bits are zero is rebuilt exactly from its decoded
      fields, so no information the device sends is lost by the decoder. */
  lemma ReplyFromRead<E>(packet: seq<Byte>)
    requires |packet| == 5
    requires packet[0] & 0x39 == 0 && packet[2] & 0x0F == 0 && packet[3] & 0x90 == 0
    ensures var r := Read<E>(Ok(packet)); var reg, eeprom := r.value.0, r.value.1;
      DeviceReply(reg.EepromReady(), reg.Por(), reg.PowerDownMode(), reg.Dac(),
                  eeprom.PowerDownMode(), eeprom.Dac()) == packet
  {
    var r := Read<E>(Ok(packet));
    var reg, eeprom := r.value.0, r.value.1;
    var ready, por, regMode, regDac := reg.EepromReady(), reg.Por(), reg.PowerDownMode(), reg.Dac();
    var eepromMode, eepromDac := eeprom.PowerDownMode(), eeprom.Dac();
    RebuildStatusByte(packet[0], ready, por, regMode, regDac, eepromMode, eepromDac);
    RebuildRegisterCode(packet[1], packet[2], ready, por, regMode, regDac, eepromMode, eepromDac);
    RebuildEepromBytes(packet[3], packet[4], ready, por, regMode, regDac, eepromMode, eepromDac);
  }

  /** Byte 0 of a reply from its flags and register mode, when its unused bits are zero. */
  lemma RebuildStatusByte(b: Byte, ready: bool, por: bool, regMode: PowerDownMode, regDac: bv16,
                          eepromMode: PowerDownMode, eepromDac: bv16)
    requires b & 0x39 == 0
    requires (ready <==> Field(b, 7, 1) == 1) && (por <==> Field(b, 6, 1) == 1)
    requires Code(regMode) == Field(b, 1, 2)
    ensures DeviceReply(ready, por, regMode, regDac, eepromMode, eepromDac)[0] == b
  {
  }

  /** Bytes 1-2 of a reply from the register code, when the padding nibble is zero. */
  lemma RebuildRegisterCode(hi: Byte, lo: Byte, ready: bool, por: bool, regMode: PowerDownMode,
                            regDac: bv16, eepromMode: PowerDownMode, eepromDac: bv16)
    requires lo & 0x0F == 0
    requires regDac == hi as bv16 * 0x10 + Field(lo, 4, 4) as bv16
    ensures DeviceReply(ready, por, regMode, regDac, eepromMode, eepromDac)[1] == hi
    ensures DeviceReply(ready, por, regMode, regDac, eepromMode, eepromDac)[2] == lo
  {
  }

  /** Bytes 3-4 of a reply from the EEPROM mode and code, when bits 7 and 4 of byte 3
      are zero. */
  lemma RebuildEepromBytes(hi: Byte, lo: Byte, ready: bool, por: bool, regMode: PowerDownMode,
                           regDac: bv16, eepromMode: PowerDownMode, eepromDac: bv16)
    requires hi & 0x90 == 0
    requires Code(eepromMode) == Field(hi, 5, 2)
    requires eepromDac == Field(hi, 0, 4) as bv16 * 0x100 + lo as bv16
    ensures DeviceReply(ready, por, regMode, regDac, eepromMode, eepromDac)[3] == hi
    ensures DeviceReply(ready, por, regMode, regDac, eepromMode, eepromDac)[4] == lo
  {
  }
}
