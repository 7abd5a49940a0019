/** Tests on the sensor's status byte. */
module StatusBits {
  import opened Common

  /** Bit 0x08: the sensor reports itself calibrated. */
  const CALIBRATED: byte := 0x08

  /** Bits 0x18: both must be set for the sensor to be ready for use. */
  const READY: byte := 0x18

  /** Bit 0x80: a measurement is in progress. */
  const BUSY: byte := 0x80

  /**
   * `needsReset`: the two ready bits are not both set; in numbers, the status
   * value's low five bits are below 0x18, whatever its top three bits.
   */
  function NeedsReset(s: byte): (r: bool)
    ensures r <==> s as nat % 32 < 0x18
  {
    s & READY != READY
  }

  /** `isCalibrated`: the calibration bit is set; in numbers, the low four bits are at least 0x08. */
  function IsCalibrated(s: byte): (r: bool)
    ensures r <==> s as nat % 16 >= 0x08
  {
    s & CALIBRATED == CALIBRATED
  }

  /** `isMeasuring`: the busy bit is set, that is the status value is at least 0x80. */
  function IsMeasuring(s: byte): (r: bool)
    ensures r <==> s as nat >= 0x80
  {
    s & BUSY == BUSY
  }

  /** `isIdle`: the busy bit is clear, that is the status value is below 0x80. */
  function IsIdle(s: byte): (r: bool)
    ensures r <==> s as nat < 0x80
  {
    s & BUSY == 0x00
  }

  /** For one status byte the sensor is idle exactly when it is not measuring. */
  lemma IdleIffNotMeasuring(s: byte)
    ensures IsIdle(s) <==> !IsMeasuring(s)
  {
  }

  /** A sensor that needs no reset is calibrated; the converse fails, as status 0x08 shows. */
  lemma ReadyImpliesCalibrated(s: byte)
    ensures !NeedsReset(s) ==> IsCalibrated(s)
    ensures IsCalibrated(0x08) && NeedsReset(0x08)
  {
  }
}
