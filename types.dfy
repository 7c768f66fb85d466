/** The value types of the driver: the power-down modes and the two parsed views of
    the device's 5-byte status reply. */
module Types {
  import opened Bits

  /** The output's power-down configuration. */
  datatype PowerDownMode =
    | Normal        // output driven
    | OneK          // 1 kOhm to ground
    | OneHundredK   // 100 kOhm to ground
    | FiveHundredK  // 500 kOhm to ground

  /** The discriminant of each mode, which is also its 2-bit wire encoding. */
  function Code(mode: PowerDownMode): (c: Byte)
    ensures c <= 3
  {
    match mode
    case Normal => 0x0
    case OneK => 0x1
    case OneHundredK => 0x2
    case FiveHundredK => 0x3
  }

  /** The decoding match both status views use: a 2-bit pattern to its mode. Its
      precondition is what makes the source's catch-all `unreachable!()` arm dead:
      every caller passes a value masked to two bits. */
  function ModeOfBits(bits: Byte): (mode: PowerDownMode)
    requires bits <= 3
    ensures Code(mode) == bits
  {
    if bits == 0x0 then Normal
    else if bits == 0x1 then OneK
    else if bits == 0x2 then OneHundredK
    else if bits == 0x3 then FiveHundredK
    else assert false; Normal
  }

  /** Decoding undoes encoding, so the two directions of the mode table agree. */
  lemma CodeRoundTrip(mode: PowerDownMode)
    ensures ModeOfBits(Code(mode)) == mode
  {
  }

  /** Distinct modes have distinct wire codes. */
  lemma CodeInjective(m1: PowerDownMode, m2: PowerDownMode)
    ensures Code(m1) == Code(m2) <==> m1 == m2
  {
    CodeRoundTrip(m1);
    CodeRoundTrip(m2);
  }

  /** The DAC register's live status: the raw status byte and the 12-bit code. */
  datatype RegisterStatus = RegisterStatus(data: Byte, dac: bv16)
  {
    /** Parses bytes 0-2 of a reply. Byte 0 is kept as it is; bytes 1-2 hold the code
        shifted left by 4, so the code's bits 11-4 are byte 1 and its bits 3-0 are the
        high nibble of byte 2. */
    static function New(bytes: seq<Byte>): (status: RegisterStatus)
      requires |bytes| == 3
      ensures status.ReadData() == bytes[0]
      ensures status.Dac() == bytes[1] as bv16 * 0x10 + Field(bytes[2], 4, 4) as bv16
      ensures status.Dac() <= 0xFFF
    {
      var dac := Be16(bytes[1], bytes[2]);
      RegisterStatus(bytes[0], dac >> 4)
    }

    /** The raw status byte. */
    function ReadData(): Byte
    {
      data
    }

    /** Whether the last EEPROM write has completed: bit 7 of the status byte. */
    function EepromReady(): (ready: bool)
      ensures ready <==> Field(data, 7, 1) == 1
    {
      data & 0x80 != 0
    }

    /** The power-on-reset flag: bit 6 of the status byte. */
    function Por(): (por: bool)
      ensures por <==> Field(data, 6, 1) == 1
    {
      data & 0x40 != 0
    }

    /** The register's power-down mode: bits 2-1 of the status byte, for every one of
        the 256 byte values. */
    function PowerDownMode(): (mode: PowerDownMode)
      ensures Code(mode) == Field(data, 1, 2)
    {
      ModeOfBits((data & 0x06) >> 1)
    }

    /** The 12-bit DAC code. */
    function Dac(): bv16
    {
      dac
    }
  }

  /** The status persisted in EEPROM: a power-down mode and a 12-bit code. */
  datatype EEPROMStatus = EEPROMStatus(powerDownMode: PowerDownMode, dac: bv16)
  {
    /** Parses bytes 3-4 of a reply. The mode is bits 6-5 of the first byte; the code is
        the low 12 bits of the big-endian word, not shifted (unlike the register view). */
    static function New(bytes: seq<Byte>): (status: EEPROMStatus)
      requires |bytes| == 2
      ensures Code(status.PowerDownMode()) == Field(bytes[0], 5, 2)
      ensures status.Dac() == Field(bytes[0], 0, 4) as bv16 * 0x100 + bytes[1] as bv16
      ensures status.Dac() <= 0xFFF
    {
      var powerDownMode := ModeOfBits((bytes[0] & 0x60) >> 5);
      var dac := Be16(bytes[0], bytes[1]) & 0xFFF;
      EEPROMStatus(powerDownMode, dac)
    }

    function PowerDownMode(): PowerDownMode
    {
      powerDownMode
    }

    function Dac(): bv16
    {
      dac
    }
  }

  /** Status bits 5-3 and bit 0 are unused: two register views whose status bytes agree
      on bits 7, 6, 2 and 1 and whose code bytes agree outside the low nibble of byte 2
      report the same flags, mode and code. Only `ReadData` tells them apart. */
  lemma RegisterIgnoresUnusedBits(p: seq<Byte>, q: seq<Byte>)
    requires |p| == 3 && |q| == 3
    requires p[0] & 0xC6 == q[0] & 0xC6
    requires p[1] == q[1] && p[2] & 0xF0 == q[2] & 0xF0
    ensures RegisterStatus.New(p).EepromReady() == RegisterStatus.New(q).EepromReady()
    ensures RegisterStatus.New(p).Por() == RegisterStatus.New(q).Por()
    ensures RegisterStatus.New(p).PowerDownMode() == RegisterStatus.New(q).PowerDownMode()
    ensures RegisterStatus.New(p).Dac() == RegisterStatus.New(q).Dac()
    ensures RegisterStatus.New(p).ReadData() == RegisterStatus.New(q).ReadData() <==> p[0] == q[0]
  {
    var s, t := RegisterStatus.New(p), RegisterStatus.New(q);
    CodeInjective(s.PowerDownMode(), t.PowerDownMode());
  }

  /** The EEPROM view ignores bit 7, bit 4 and the top nibble above the code: two views
      whose first bytes agree on bits 6-5 and 3-0 and whose second bytes agree are equal. */
  lemma EepromIgnoresUnusedBits(p: seq<Byte>, q: seq<Byte>)
    requires |p| == 2 && |q| == 2
    requires p[0] & 0x6F == q[0] & 0x6F && p[1] == q[1]
    ensures EEPROMStatus.New(p) == EEPROMStatus.New(q)
  {
    var s, t := EEPROMStatus.New(p), EEPROMStatus.New(q);
    CodeInjective(s.PowerDownMode(), t.PowerDownMode());
  }
}
