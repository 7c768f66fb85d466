/** Concrete frames and replies: the first frame of each expected bus payload in the
    driver's tests, with the DAC code 0b1010_1010_1010. */
module Vectors {
  import opened Bits
  import opened Types
  import opened Driver

  const TestDac: bv16 := 0xAAA

  /** Fast writes in each of the four modes. */
  lemma FastWriteVectors()
    ensures FastWrite(Normal, TestDac) == [0x0A, 0xAA]
    ensures FastWrite(OneK, TestDac) == [0x1A, 0xAA]
    ensures FastWrite(OneHundredK, TestDac) == [0x2A, 0xAA]
    ensures FastWrite(FiveHundredK, TestDac) == [0x3A, 0xAA]
  {
  }

  /** Register-only full writes in each of the four modes. */
  lemma WriteRegisterVectors()
    ensures Write(Normal, TestDac, false) == [0x40, 0xAA, 0xA0]
    ensures Write(OneK, TestDac, false) == [0x42, 0xAA, 0xA0]
    ensures Write(OneHundredK, TestDac, false) == [0x44, 0xAA, 0xA0]
    ensures Write(FiveHundredK, TestDac, false) == [0x46, 0xAA, 0xA0]
  {
  }

  /** Register-and-EEPROM full writes in each of the four modes. */
  lemma WriteEepromVectors()
    ensures Write(Normal, TestDac, true) == [0x60, 0xAA, 0xA0]
    ensures Write(OneK, TestDac, true) == [0x62, 0xAA, 0xA0]
    ensures Write(OneHundredK, TestDac, true) == [0x64, 0xAA, 0xA0]
    ensures Write(FiveHundredK, TestDac, true) == [0x66, 0xAA, 0xA0]
  {
  }

  /** `set_voltage` without and with the EEPROM write. */
  lemma SetVoltageVectors()
    ensures SetVoltage(TestDac, false) == [0x0A, 0xAA]
    ensures SetVoltage(TestDac, true) == [0x60, 0xAA, 0xA0]
  {
  }

  /** The four replies of the read test, each decoded into both views. */
  lemma ReadVectors<E>()
    ensures var r := Read<E>(Ok([0x00, 0xAA, 0xA0, 0x0A, 0xAA]));
      && r.Ok? && !r.value.0.EepromReady() && !r.value.0.Por()
      && r.value.0.PowerDownMode() == Normal && r.value.0.Dac() == TestDac
      && r.value.1.PowerDownMode() == Normal && r.value.1.Dac() == TestDac
    ensures var r := Read<E>(Ok([0xC6, 0xAA, 0xA0, 0x6A, 0xAA]));
      && r.Ok? && r.value.0.EepromReady() && r.value.0.Por()
      && r.value.0.PowerDownMode() == FiveHundredK && r.value.0.Dac() == TestDac
      && r.value.1.PowerDownMode() == FiveHundredK && r.value.1.Dac() == TestDac
    ensures var r := Read<E>(Ok([0x02, 0xAA, 0xA0, 0x2A, 0xAA]));
      && r.Ok? && !r.value.0.EepromReady() && !r.value.0.Por()
      && r.value.0.PowerDownMode() == OneK && r.value.0.Dac() == TestDac
      && r.value.1.PowerDownMode() == OneK && r.value.1.Dac() == TestDac
    ensures var r := Read<E>(Ok([0x04, 0xAA, 0xA0, 0x4A, 0xAA]));
      && r.Ok? && !r.value.0.EepromReady() && !r.value.0.Por()
      && r.value.0.PowerDownMode() == OneHundredK && r.value.0.Dac() == TestDac
      && r.value.1.PowerDownMode() == OneHundredK && r.value.1.Dac() == TestDac
  {
  }
}
