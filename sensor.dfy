/**
 * The driver's state record and its operations. The bus and the clock are not
 * modelled: every value they would deliver is a parameter of the operation
 * that uses it.
 */
module Sensor {
  import opened Common
  import opened Checksum
  import opened StatusBits
  import opened Payload

  /** Minimum time between the last accepted read and the next measurement, in ms. */
  const MIN_INTERVAL: nat := 1000
  /** Number of 7-byte reads a measurement performs. */
  const READ_ATTEMPTS: nat := 5
  /** Number of reset attempts initialisation makes. */
  const RESET_ATTEMPTS: nat := 3

  /**
   * One 7-byte read as the bus and the clock deliver it: whether the transfer
   * succeeded, what the buffer holds afterwards, and the millisecond clock
   * when the driver looks at it.
   */
  datatype ReadEvent = ReadEvent(ok: bool, payload: seq<byte>, clock: uint32)

  predicate WellFormed(r: ReadEvent) {
    |r.payload| == PAYLOAD_LENGTH
  }

  predicate AllWellFormed(events: seq<ReadEvent>) {
    forall i :: 0 <= i < |events| ==> WellFormed(events[i])
  }

  /** `readMeasurement`'s verdict on one read. */
  function Verdict(r: ReadEvent): Code
    requires WellFormed(r)
  {
    ReadVerdict(r.ok, r.payload)
  }

  /** The last-read timestamp after a run of reads: each accepted read stamps its clock. */
  function LastReadAfter(lastRead: uint32, events: seq<ReadEvent>): uint32
    requires AllWellFormed(events)
    decreases |events|
  {
    if events == [] then lastRead
    else
      var r := events[|events| - 1];
      if Verdict(r) == Ok then r.clock else LastReadAfter(lastRead, events[..|events| - 1])
  }

  /**
   * What a measurement reports once its reads are done: the last read's
   * verdict, and when that read was accepted, the checksum test on its payload.
   */
  function MeasurementOutcome(events: seq<ReadEvent>): Code
    requires |events| > 0 && AllWellFormed(events)
  {
    var last := events[|events| - 1];
    if Verdict(last) == Ok then ChecksumVerdict(last.payload) else Verdict(last)
  }

  /** The two status bytes one reset attempt reads: before deciding to reset, and 100 ms after. */
  datatype ResetPoll = ResetPoll(before: byte, after: byte)

  /** The writes `resetSensor` issues for the status byte it reads. */
  function ResetWrites(s: byte): seq<seq<byte>> {
    if NeedsReset(s) then [RST_MSG_1, RST_MSG_2, RST_MSG_3] else []
  }

  /** The writes issued by a run of reset attempts, in order. */
  function ResetLog(polls: seq<ResetPoll>): seq<seq<byte>>
    decreases |polls|
  {
    if polls == [] then []
    else ResetLog(polls[..|polls| - 1]) + ResetWrites(polls[|polls| - 1].before)
  }

  /**
   * The number of reset attempts initialisation makes: it stops after the
   * first attempt whose second status read shows the sensor ready, and after
   * the last attempt otherwise.
   */
  function AttemptsMade(polls: seq<ResetPoll>): (n: nat)
    requires |polls| > 0
    ensures 1 <= n <= |polls|
    ensures forall k :: 0 <= k < n - 1 ==> NeedsReset(polls[k].after)
    ensures n < |polls| ==> !NeedsReset(polls[n - 1].after)
    decreases |polls|
  {
    if |polls| == 1 || !NeedsReset(polls[0].after) then 1
    else 1 + AttemptsMade(polls[1..])
  }

  /** The driver's state record. */
  class Dht20 {
    var humidity: real
    var temperature: real
    var humOffset: real
    var tempOffset: real
    var status: byte
    var lastRequest: uint32
    var lastRead: uint32
    var updateInterval: uint32
    /** The fixed 7-byte measurement buffer embedded in the record. */
    const bytes: array<byte>
    var crc: byte

    ghost predicate Valid()
      reads this
    {
      bytes.Length == PAYLOAD_LENGTH
    }

    /** Storage for a record; its contents mean nothing until `Init`. */
    constructor ()
      ensures Valid() && fresh(bytes)
    {
      bytes := new byte[PAYLOAD_LENGTH];
    }

    /** `getHumidity`: the last converted humidity plus its offset. */
    function GetHumidity(): real
      reads this
    {
      humidity + humOffset
    }

    /** `getTemperature`: the last converted temperature plus its offset. */
    function GetTemperature(): real
      reads this
    {
      temperature + tempOffset
    }

    /** `getHumOffset`: the stored humidity offset. */
    function GetHumOffset(): real
      reads this
    {
      humOffset
    }

    /** `getTempOffset`: the stored temperature offset. */
    function GetTempOffset(): real
      reads this
    {
      tempOffset
    }

    /** `internalStatus`: the status byte of the last conversion, not a fresh bus read. */
    function InternalStatus(): byte
      reads this
    {
      status
    }

    /** `lastRead`: the clock of the last accepted read. */
    function LastRead(): uint32
      reads this
    {
      lastRead
    }

    /** `lastRequest`: the stored request time, which only initialisation writes. */
    function LastRequest(): uint32
      reads this
    {
      lastRequest
    }

    /** `setHumOffset`: later humidity readings carry the new offset; the stored reading stays. */
    method SetHumOffset(offset: real)
      modifies this`humOffset
      ensures humOffset == offset
      ensures GetHumidity() == humidity + offset && GetTemperature() == old(GetTemperature())
    {
      humOffset := offset;
    }

    /** `setTempOffset`: later temperature readings carry the new offset; the stored reading stays. */
    method SetTempOffset(offset: real)
      modifies this`tempOffset
      ensures tempOffset == offset
      ensures GetTemperature() == temperature + offset && GetHumidity() == old(GetHumidity())
    {
      tempOffset := offset;
    }

    /**
     * `readMeasurement`: one 7-byte transfer into the buffer, then the checks
     * in order: bus failure, busy bit, all bytes zero. Only an accepted read
     * stamps `lastRead`.
     */
    method ReadMeasurement(r: ReadEvent) returns (code: Code)
      requires Valid() && WellFormed(r)
      modifies bytes, this`lastRead
      ensures bytes[..] == r.payload
      ensures code == ReadVerdict(r.ok, r.payload)
      ensures lastRead == if code == Ok then r.clock else old(lastRead)
    {
      forall i | 0 <= i < PAYLOAD_LENGTH {
        bytes[i] := r.payload[i];
      }
      assert bytes[..] == r.payload;
      if !r.ok {
        return ErrorConnect;
      }
      if bytes[0] & 0x80 == 0x80 {
        return ErrorBusy;
      }
      var allZero := true;
      var i := 0;
      while i < PAYLOAD_LENGTH
        invariant 0 <= i <= PAYLOAD_LENGTH
        invariant allZero
        invariant forall k :: 0 <= k < i ==> bytes[k] == 0
      {
        if bytes[i] > 0 {
          allZero := false;
          break;
        }
        i := i + 1;
      }
      if allZero {
        return ErrorBytesAllZero;
      }
      lastRead := r.clock;
      return Ok;
    }

    /**
     * `convert`: stores the status byte and both readings, then the CRC of
     * bytes 0 to 5, and reports a checksum error when byte 6 differs. The
     * readings are stored either way; the buffer is not changed.
     */
    method Convert() returns (code: Code)
      requires Valid()
      modifies this`status, this`humidity, this`temperature, this`crc
      ensures status == bytes[0]
      ensures humidity == HumidityPercent(RawHumidity(bytes[..]))
      ensures temperature == TemperatureCelsius(RawTemperature(bytes[..]))
      ensures crc == Crc(bytes[..CHECKED_LENGTH])
      ensures code == ChecksumVerdict(bytes[..])
    {
      status := bytes[0];
      ghost var p := bytes[..];
      var raw: nat := bytes[1] as nat;
      raw := raw * 0x100;
      raw := raw + bytes[2] as nat;
      raw := raw * 0x10;
      raw := raw + (bytes[3] >> 4) as nat;
      assert raw == RawHumidity(p);
      humidity := raw as real * 0.000095367431640625;

      raw := (bytes[3] & 0x0F) as nat;
      raw := raw * 0x100;
      raw := raw + bytes[4] as nat;
      raw := raw * 0x100;
      raw := raw + bytes[5] as nat;
      assert raw == RawTemperature(p);
      temperature := raw as real * 0.00019073486328125 - 50.0;

      crc := Crc8(bytes, CHECKED_LENGTH);
      if crc != bytes[6] {
        return ErrorChecksum;
      }
      return Ok;
    }
  
    /** `startMeasurement`: writes the trigger command; a failed write is a connect error. */
    method StartMeasurement(writeOk: bool) returns (code: Code, sent: seq<seq<byte>>)
      ensures sent == [TRIGGER_MEASUREMENT]
      ensures code == Ok <==> writeOk
      ensures code == Ok || code == ErrorConnect
    {
      sent := [TRIGGER_MEASUREMENT];
      if !writeOk {
        return ErrorConnect, sent;
      }
      return Ok, sent;
    }

    /** `resetSensor`: the three reset commands, sent only when the status read shows a reset is needed. */
    method ResetSensor(statusRead: byte) returns (sent: seq<seq<byte>>)
      ensures NeedsReset(statusRead) ==> sent == [RST_MSG_1, RST_MSG_2, RST_MSG_3]
      ensures !NeedsReset(statusRead) ==> sent == []
    {
      sent := [];
      if NeedsReset(statusRead) {
        sent := sent + [RST_MSG_1];
        sent := sent + [RST_MSG_2];
        sent := sent + [RST_MSG_3];
      }
    }

    /**
     * `DHT20_init`: zeroes the record (all but `updateInterval`), then makes
     * up to three reset attempts, stopping after the first whose second status
     * read shows the sensor ready.
     */
    method Init(polls: seq<ResetPoll>) returns (code: Code, sent: seq<seq<byte>>)
      requires Valid() && |polls| == RESET_ATTEMPTS
      modifies this`humidity, this`temperature, this`humOffset, this`tempOffset
      modifies this`status, this`lastRequest, this`lastRead, this`crc, bytes
      ensures humidity == 0.0 && temperature == 0.0 && humOffset == 0.0 && tempOffset == 0.0
      ensures status == 0 && lastRequest == 0 && lastRead == 0 && crc == 0
      ensures bytes[..] == [0, 0, 0, 0, 0, 0, 0]
      ensures code == Ok <==> exists k :: 0 <= k < |polls| && !NeedsReset(polls[k].after)
      ensures code == Ok || code == ErrorNoReset
      ensures sent == ResetLog(polls[..AttemptsMade(polls)])
    {
      humidity := 0.0;
      temperature := 0.0;
      humOffset := 0.0;
      tempOffset := 0.0;
      status := 0;
      lastRequest := 0;
      lastRead := 0;
      crc := 0;
      forall i | 0 <= i < PAYLOAD_LENGTH {
        bytes[i] := 0;
      }
      assert bytes[..] == [0, 0, 0, 0, 0, 0, 0];
      code, sent := ResetAttempts(polls);
    }

    /**
     * The reset loop of `DHT20_init`: up to three attempts, each a
     * `resetSensor` followed by a second status read; the first attempt that
     * finds the sensor ready ends it.
     */
    method ResetAttempts(polls: seq<ResetPoll>) returns (code: Code, sent: seq<seq<byte>>)
      requires |polls| == RESET_ATTEMPTS
      ensures code == Ok <==> exists k :: 0 <= k < |polls| && !NeedsReset(polls[k].after)
      ensures code == Ok || code == ErrorNoReset
      ensures sent == ResetLog(polls[..AttemptsMade(polls)])
    {
      sent := [];
      for i := 0 to RESET_ATTEMPTS
        invariant sent == ResetLog(polls[..i])
        invariant forall k :: 0 <= k < i ==> NeedsReset(polls[k].after)
      {
        var w := ResetSensor(polls[i].before);
        assert polls[..i + 1][..i] == polls[..i];
        sent := sent + w;
        if !NeedsReset(polls[i].after) {
          return Ok, sent;
        }
      }
      assert polls[..RESET_ATTEMPTS] == polls;
      return ErrorNoReset, sent;
    }

    /**
     * `getMeasurement`: refuses within 1000 ms (uint32 arithmetic) of the last
     * accepted read, triggers a measurement, then reads five times; the loop
     * never stops early, so the fifth read alone decides whether the buffer
     * is converted.
     */
    method GetMeasurement(now: uint32, triggerOk: bool, events: seq<ReadEvent>)
      returns (code: Code, readsDone: nat, sent: seq<seq<byte>>)
      requires Valid() && |events| == READ_ATTEMPTS && AllWellFormed(events)
      modifies bytes, this`lastRead, this`status, this`humidity, this`temperature, this`crc
      ensures sent == if Sub32(now, old(lastRead)) < MIN_INTERVAL then [] else [TRIGGER_MEASUREMENT]
      ensures readsDone > 0 ==> sent == [TRIGGER_MEASUREMENT]
      ensures Sub32(now, old(lastRead)) < MIN_INTERVAL ==>
        code == ErrorLastRead && readsDone == 0 && unchanged(this) && unchanged(bytes)
      ensures MIN_INTERVAL <= Sub32(now, old(lastRead)) && !triggerOk ==>
        code == ErrorConnect && readsDone == 0 && unchanged(this) && unchanged(bytes)
      ensures MIN_INTERVAL <= Sub32(now, old(lastRead)) && triggerOk ==>
        readsDone == READ_ATTEMPTS &&
        bytes[..] == events[READ_ATTEMPTS - 1].payload &&
        lastRead == LastReadAfter(old(lastRead), events) &&
        code == MeasurementOutcome(events) &&
        if Verdict(events[READ_ATTEMPTS - 1]) == Ok then
          status == bytes[0] && crc == Crc(bytes[..CHECKED_LENGTH]) &&
          humidity == HumidityPercent(RawHumidity(bytes[..])) &&
          temperature == TemperatureCelsius(RawTemperature(bytes[..]))
        else
          status == old(status) && crc == old(crc) &&
          humidity == old(humidity) && temperature == old(temperature)
    {
      readsDone := 0;
      if Sub32(now, lastRead) < MIN_INTERVAL {
        return ErrorLastRead, readsDone, [];
      }
      code, sent := StartMeasurement(triggerOk);
      if code != Ok {
        return code, readsDone, sent;
      }
      for n := 0 to READ_ATTEMPTS
        invariant readsDone == n
        invariant lastRead == LastReadAfter(old(lastRead), events[..n])
        invariant n > 0 ==> bytes[..] == events[n - 1].payload && code == Verdict(events[n - 1])
        invariant status == old(status) && crc == old(crc)
        invariant humidity == old(humidity) && temperature == old(temperature)
      {
        code := ReadMeasurement(events[n]);
        readsDone := readsDone + 1;
        assert events[..n + 1][..n] == events[..n];
        if code == ErrorBusy {
          // The driver sleeps 10 ms here; `continue` ends the iteration as the body would anyway.
          continue;
        }
      }
      assert events[..READ_ATTEMPTS] == events;
      if code != Ok {
        return code, readsDone, sent;
      }
      code := Convert();
    }
  }

  /** A timestamp `d` ms after `lastRead`, wrapped to 32 bits, is exactly `d` ms later by the driver's subtraction. */
  lemma ElapsedAcrossWrap(lastRead: uint32, d: nat)
    requires d < TWO_TO_32
    ensures Sub32((lastRead + d) % TWO_TO_32, lastRead) == d
  {
    var now := (lastRead + d) % TWO_TO_32;
    if lastRead + d < TWO_TO_32 {
      assert now == lastRead + d;
    } else {
      assert now == lastRead + d - TWO_TO_32;
      assert now - lastRead == d - TWO_TO_32;
    }
  }

  /** A measurement is refused exactly when fewer than 1000 ms passed since the last accepted read, across wrap-around too. */
  lemma RefusedWithinInterval(lastRead: uint32, d: nat)
    requires d < TWO_TO_32
    ensures Sub32((lastRead + d) % TWO_TO_32, lastRead) < MIN_INTERVAL <==> d < MIN_INTERVAL
  {
    ElapsedAcrossWrap(lastRead, d);
  }

  /** `lastRead` after a run of reads is the clock of the last accepted read. */
  lemma {:induction false} LastReadAfterIsLastAccepted(lastRead: uint32, events: seq<ReadEvent>, i: nat)
    requires AllWellFormed(events) && i < |events| && Verdict(events[i]) == Ok
    requires forall j :: i < j < |events| ==> Verdict(events[j]) != Ok
    ensures LastReadAfter(lastRead, events) == events[i].clock
    decreases |events|
  {
    var k := |events| - 1;
    if i < k {
      var prefix := events[..k];
      assert forall j :: 0 <= j < k ==> prefix[j] == events[j];
      LastReadAfterIsLastAccepted(lastRead, prefix, i);
    }
  }

  /** `lastRead` is unchanged by a run of reads none of which was accepted. */
  lemma {:induction false} LastReadAfterNoneAccepted(lastRead: uint32, events: seq<ReadEvent>)
    requires AllWellFormed(events)
    requires forall i :: 0 <= i < |events| ==> Verdict(events[i]) != Ok
    ensures LastReadAfter(lastRead, events) == lastRead
    decreases |events|
  {
    if events != [] {
      var k := |events| - 1;
      var prefix := events[..k];
      assert forall j :: 0 <= j < k ==> prefix[j] == events[j];
      LastReadAfterNoneAccepted(lastRead, prefix);
    }
  }

  /**
   * A measurement reported OK came from a successful transfer of an idle,
   * not all-zero payload whose byte 6 is the CRC of bytes 0 to 5.
   */
  lemma AcceptedMeasurementIsIntact(events: seq<ReadEvent>)
    requires |events| > 0 && AllWellFormed(events)
    requires MeasurementOutcome(events) == Ok
    ensures var p := events[|events| - 1].payload;
      events[|events| - 1].ok && IsIdle(p[0]) && !AllZero(p) && p == Sealed(p[..CHECKED_LENGTH])
  {
    var last := events[|events| - 1];
    ReadVerdictCases(last.ok, last.payload);
    VerdictOkIffSealed(last.payload);
  }

  /**
   * Only the fifth read counts: an accepted, intact first read followed by
   * four busy reads makes the measurement report busy, although the first
   * read stamped `lastRead`: a measurement requested `d` ms after that read
   * is refused exactly when `d` is below 1000, across wrap-around too.
   */
  lemma EarlierAcceptedReadIsDiscarded(lastRead: uint32, good: seq<byte>, busy: seq<byte>, t0: uint32, t: uint32, d: nat)
    requires |good| == PAYLOAD_LENGTH && |busy| == PAYLOAD_LENGTH
    requires good[0] == 0x18 && good[6] == Crc(good[..CHECKED_LENGTH])
    requires busy[0] == 0x98
    requires d < TWO_TO_32
    ensures var events := [ReadEvent(true, good, t0)] + seq(READ_ATTEMPTS - 1, _ => ReadEvent(true, busy, t));
      AllWellFormed(events) &&
      Verdict(events[0]) == Ok && ChecksumVerdict(good) == Ok &&
      MeasurementOutcome(events) == ErrorBusy &&
      LastReadAfter(lastRead, events) == t0 &&
      (Sub32((t0 + d) % TWO_TO_32, LastReadAfter(lastRead, events)) < MIN_INTERVAL <==> d < MIN_INTERVAL)
  {
    var events := [ReadEvent(true, good, t0)] + seq(READ_ATTEMPTS - 1, _ => ReadEvent(true, busy, t));
    assert good[0] != 0;
    assert !AllZero(good);
    assert Verdict(events[0]) == Ok;
    assert forall i :: 1 <= i < |events| ==> Verdict(events[i]) == ErrorBusy;
    LastReadAfterIsLastAccepted(lastRead, events, 0);
    RefusedWithinInterval(t0, d);
  }

  /** Every write initialisation issues is one of the three reset commands, in complete triples. */
  lemma {:induction false} ResetLogShape(polls: seq<ResetPoll>)
    ensures |ResetLog(polls)| % 3 == 0 && |ResetLog(polls)| <= 3 * |polls|
    ensures forall w :: w in ResetLog(polls) ==> w == RST_MSG_1 || w == RST_MSG_2 || w == RST_MSG_3
    decreases |polls|
  {
    if polls != [] {
      ResetLogShape(polls[..|polls| - 1]);
    }
  }

  /** A sensor that reports itself ready on both reads of the first attempt is sent no command at all. */
  lemma ReadySensorGetsNoWrites(polls: seq<ResetPoll>)
    requires |polls| == RESET_ATTEMPTS
    requires !NeedsReset(polls[0].before) && !NeedsReset(polls[0].after)
    ensures AttemptsMade(polls) == 1 && ResetLog(polls[..AttemptsMade(polls)]) == []
  {
    assert polls[..1][..0] == [];
  }

  /** Initialisation sends the reset triple once for every attempt whose first status read needs it, and nothing else. */
  lemma {:induction false} ResetLogCountsResets(polls: seq<ResetPoll>)
    ensures |ResetLog(polls)| == 3 * |ResetIndices(polls)|
    decreases |polls|
  {
    if polls != [] {
      var k := |polls| - 1;
      ResetLogCountsResets(polls[..k]);
      ResetIndicesOfPrefix(polls);
    }
  }

  /** The attempts among `polls` whose first status read needs a reset. */
  function ResetIndices(polls: seq<ResetPoll>): set<nat> {
    set i: nat | i < |polls| && NeedsReset(polls[i].before)
  }

  /** Extending the attempts by one adds that attempt's index exactly when it needs a reset. */
  lemma ResetIndicesOfPrefix(polls: seq<ResetPoll>)
    requires polls != []
    ensures var k := |polls| - 1;
      |ResetIndices(polls)| == |ResetIndices(polls[..k])| + (if NeedsReset(polls[k].before) then 1 else 0)
  {
    var k := |polls| - 1;
    var before := ResetIndices(polls[..k]);
    assert before == set i: nat | i < k && NeedsReset(polls[i].before);
    assert k !in before;
    if NeedsReset(polls[k].before) {
      assert ResetIndices(polls) == before + {k};
    } else {
      assert ResetIndices(polls) == before;
    }
  }
}
