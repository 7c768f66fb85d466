# MCP4725 command and status encoding, in Dafny

This project models the byte-level protocol layer of an asynchronous driver for the
Microchip MCP4725, a 12-bit digital-to-analog converter reached over I²C. The layer
has two parts, both total functions without side effects:

- the **command encoder** (`src/lib.rs`): `fast_write` packs a power-down mode and a
  DAC code into a 2-byte frame, `write` packs a command selector (register only, or
  register and EEPROM), the mode and the code into a 3-byte frame, and `set_voltage`
  picks one of the two with the mode forced to `Normal`; `read` splits the device's
  5-byte reply into a 3-byte register part and a 2-byte EEPROM part;
- the **status decoder** (`src/types.rs`): the `PowerDownMode` enumeration, whose
  discriminants are its 2-bit wire codes, and the two parsed views of a reply,
  `RegisterStatus` (raw status byte, EEPROM-ready flag, power-on-reset flag, mode in
  bits 2-1, DAC code stored shifted left by 4) and `EEPROMStatus` (mode in bits 6-5,
  DAC code in the low 12 bits, not shifted).

Rust's `u8` and `u16` are modelled as `bv8` and `bv16`, so every shift, mask and
truncation in the source (notably the 16-bit `dac << 4` in `write`, which drops the
code's upper four bits) has the source's fixed-width meaning. Contracts describe
frames and status fields through an independent vocabulary in module `Bits`:
`Field(b, lo, width)` is a bit field of a byte and `Be16` is the big-endian word of two
bytes, stated arithmetically. Both status views are immutable values, so they are
datatypes whose member functions are the Rust accessors. `Driver.DeviceReply` is a
reference encoder of the reply layout the device sends; it exists only to state the
decoder's round trip in both directions.

Files: `bits.dfy` (module `Bits`), `types.dfy` (module `Types`, for `src/types.rs`),
`driver.dfy` (module `Driver`, for `src/lib.rs`), `vectors.dfy` (module `Vectors`, the
concrete frames and replies of `src/tests.rs`).

The tests' expected write payloads are twice as long as the frames `src/lib.rs` sends
(4 bytes for a fast write, 6 for a full write, each the frame repeated). The model
follows `src/lib.rs`, and the vectors use the first frame of each payload. The comments
at `src/tests.rs:247` and `src/tests.rs:254` name the wrong mode; the assertions at
`src/tests.rs:282` and `src/tests.rs:290`, which agree with the code, are followed.

## Model

| member | source | states |
|---|---|---|
| `Bits.Be16` | src/types.rs:28 | `u16::from_be_bytes`: the word is 256 times the first byte plus the second |
| `Bits.ToBeBytes` | src/lib.rs:63 | `u16::to_be_bytes`: exactly two bytes, the quotient and remainder of the word by 256, which `Be16` packs back into the same word |
| `Bits.BeBytesRoundTrip` | src/lib.rs:79 | splitting the packed word of two bytes returns those two bytes |
| `Types.Code` | src/types.rs:5-14 | each mode's discriminant, its wire code, is at most 3 |
| `Types.ModeOfBits` | src/types.rs:58-63 | the decoding match maps each 2-bit pattern to the mode whose code it is; its precondition, discharged at every call, makes the `unreachable!()` arm dead |
| `Types.CodeRoundTrip` | src/types.rs:7-13 | decoding a mode's code gives the mode back |
| `Types.CodeInjective` | src/types.rs:7-13 | two modes have the same code exactly when they are the same mode |
| `Types.RegisterStatus.New` | src/types.rs:27-33 | the raw byte is byte 0 unchanged; the code is byte 1 followed by the high nibble of byte 2, so at most 0xFFF |
| `Types.RegisterStatus.EepromReady` | src/types.rs:45-47 | true exactly when bit 7 of the status byte is set |
| `Types.RegisterStatus.Por` | src/types.rs:51-53 | true exactly when bit 6 of the status byte is set |
| `Types.RegisterStatus.PowerDownMode` | src/types.rs:57-65 | the mode's code equals bits 2-1 of the status byte, for every byte value |
| `Types.EEPROMStatus.New` | src/types.rs:83-94 | the mode's code equals bits 6-5 of the first byte; the code is the low nibble of the first byte followed by the second byte, so at most 0xFFF |
| `Types.RegisterIgnoresUnusedBits` | src/types.rs:37-53 | status bits 5-3 and 0 and the low nibble of byte 2 change neither flag, nor the mode, nor the code; only the raw byte shows them |
| `Types.EepromIgnoresUnusedBits` | src/types.rs:84-91 | bits 7 and 4 of the first EEPROM byte do not change the EEPROM view |
| `Driver.FastWrite` | src/lib.rs:57-65 | two bytes whose word is 0x1000 times the mode's code plus the code modulo 0x1000: bits 7-6 of byte 0 zero, bits 5-4 the mode, bits 3-0 the code's bits 11-8, byte 1 the code's bits 7-0 |
| `Driver.Write` | src/lib.rs:69-83 | three bytes; byte 0 holds selector 011 (with EEPROM) or 010 in bits 7-5, zero bits 4-3, the mode in bits 2-1 and a zero bit 0; bytes 1-2 form the code modulo 0x1000 times 16 |
| `Driver.WriteCodeBytes` | src/lib.rs:77-80 | byte 1 of a full write is the code's bits 11-4; byte 2 is its bits 3-0 followed by four zero bits |
| `Driver.SetVoltage` | src/lib.rs:35-41 | with the EEPROM flag, 3 bytes with byte 0 = 0x60 (persisting write, mode `Normal`) and the code shifted in bytes 1-2; without it, 2 bytes whose word is the masked code alone (mode bits `Normal`) |
| `Driver.SetVoltageDelegates` | src/lib.rs:35-41 | `set_voltage(d, false)` is the `Normal` fast write and `set_voltage(d, true)` the `Normal` persisting full write |
| `Driver.Read` | src/lib.rs:44-52 | a transport error is returned unchanged; otherwise the register view reads bytes 0-2 (raw byte, mode in bits 2-1, shifted code) and the EEPROM view bytes 3-4 (mode in bits 6-5, unshifted code) |
| `Driver.FastWriteOnto` | src/lib.rs:62-63 | every 2-byte frame starting with the fast-write selector 00 is the frame of some fast write |
| `Driver.WriteOnto` | src/lib.rs:75-80 | every 3-byte frame with selector 010 or 011, zero bits 4-3 and 0 and a zero padding nibble is the frame of some full write |
| `Driver.ReadSplit` | src/lib.rs:48-51 | the register view depends on reply bytes 0-2 only and the EEPROM view on bytes 3-4 only |
| `Driver.FastWriteMasks` | src/lib.rs:54-62 | a fast write ignores the code's bits above bit 11 |
| `Driver.WriteMasks` | src/lib.rs:67-77 | a full write ignores the code's bits above bit 11 |
| `Driver.WriteDecodesAsRegister` | src/lib.rs:75-80 | a full-write frame read through the register layout gives back the mode and the code masked to 12 bits |
| `Driver.FastWriteDecodesAsEeprom` | src/lib.rs:62-63 | a fast-write frame read through the EEPROM layout gives back the code masked to 12 bits |
| `Driver.FastWriteInjective` | src/lib.rs:62-63 | two fast writes send the same frame exactly when mode and masked code agree |
| `Driver.WriteInjective` | src/lib.rs:75-80 | two full writes send the same frame exactly when selector, mode and masked code agree |
| `Driver.ReadRecoversReply` | src/lib.rs:44-52 | reading a reply laid out by the device recovers both flags, both modes and both 12-bit codes |
| `Driver.ReplyFromRead` | src/lib.rs:44-52 | a reply whose unused bits are zero is rebuilt exactly from its decoded fields |
| `Vectors.FastWriteVectors` | src/tests.rs:59-91 | fast writes of 0xAAA in the four modes give `[0x0A, 0xAA]`, `[0x1A, 0xAA]`, `[0x2A, 0xAA]`, `[0x3A, 0xAA]` |
| `Vectors.WriteRegisterVectors` | src/tests.rs:100-140 | register-only writes of 0xAAA give `[0x40..0x46 by mode, 0xAA, 0xA0]` |
| `Vectors.WriteEepromVectors` | src/tests.rs:149-189 | persisting writes of 0xAAA give `[0x60..0x66 by mode, 0xAA, 0xA0]` |
| `Vectors.SetVoltageVectors` | src/tests.rs:198-218 | `set_voltage(0xAAA, false)` is `[0x0A, 0xAA]`, `set_voltage(0xAAA, true)` is `[0x60, 0xAA, 0xA0]` |
| `Vectors.ReadVectors` | src/tests.rs:228-291 | the four test replies decode to the flags, modes and code 0xAAA the test asserts |

## Left out

- The I²C transport (`self.i2c.read`, `self.i2c.write`) and the `embedded_hal_async` trait: foreign asynchronous I/O. Write operations yield the frame handed to the bus; `Read` takes the outcome of the bus read as a parameter.
- The transport error returned by `fast_write`, `write` and `set_voltage`: it is the bus's own result, passed through unchanged, and carries no logic of the driver.
- `MCP4725::new` and `MCP4725::destroy` and the address field: they only move the bus handle.
- The accessors `RegisterStatus::read_data`, `RegisterStatus::dac`, `EEPROMStatus::power_down_mode` and `EEPROMStatus::dac` return a stored field; what they return is stated by the contracts of the two `New` functions.
- The `I2cMock` test harness and the doubled test payloads: test plumbing over the asynchronous trait.
- The `Debug`, `Copy` and `defmt` derives: formatting only.
