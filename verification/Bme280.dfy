/** The BME280 driver (bme280_sensor.c): detection, calibration and measurement, up to the bus transfers, whose
    outcomes are arguments. */
module Bme280 {
  import opened Common
  import opened Compensation
  import opened Humidity

  datatype Sample = Sample(temperature: int, pressure: nat, humidity: nat)

  /** BME280_SENSOR_STATUS. */
  datatype Status =
    | Ok
    | NotFound
    | WrongChipId
    | BusError
    | CalibrationError
    | MeasurementTimeout
    | InvalidData

  /** What a bus address does: it does not respond, its identity cannot be read, or it is read. */
  datatype Probe = Silent | Unreadable | Identified(id: byte)

  const CHIP_ID: byte := 0x60
  /** The primary and the secondary address. */
  const ADDRESSES: seq<nat> := [0x76, 0x77]

  /** Why waiting for a status bit to clear can end. */
  predicate WaitStatus(s: Status) {
    s == Ok || s == BusError || s == MeasurementTimeout
  }

  /** A 20-bit reading: two bytes and the upper half of a third. */
  function Raw20(b: seq<byte>): (r: nat)
    requires |b| == 3
    ensures r < 0x10_0000
    ensures r / 0x10 == b[0] as int * 0x100 + b[1] as int && r % 0x10 == b[2] as int / 0x10
  {
    b[0] as int * 0x1000 + b[1] as int * 0x10 + b[2] as int / 0x10
  }

  function Raw16(b: seq<byte>): (r: nat)
    requires |b| == 2
    ensures r < 0x1_0000 && r / 0x100 == b[0] as int && r % 0x100 == b[1] as int
  {
    b[0] as int * 0x100 + b[1] as int
  }

  /** The reading that means the channel was skipped. */
  const SKIPPED: nat := 0x8_0000

  class Sensor {
    var calibration: Calibration
    /** t_fine, which links the pressure to the last temperature. */
    var fine: int
    var initialized: bool
    /** Zero when no device was found. */
    var address: nat
    var chipId: byte

    ghost predicate Valid()
      reads this
    {
      calibration.Typed() && (initialized ==> calibration.Accepted() && address in ADDRESSES && chipId == CHIP_ID)
    }

    constructor ()
      ensures Valid() && !initialized
    {
      calibration := Calibration(0, 0, 0, 0, 0, 0, 0, 0, 0, 0, 0, 0, 0, 0, 0, 0, 0, 0);
      fine, initialized, address, chipId := 0, false, 0, 0;
    }

    /** The search for the sensor: the first address with its chip id, else the last one that identified itself. */
    method Detect(probes: seq<Probe>) returns (status: Status)
      requires |probes| == |ADDRESSES|
      modifies this`address, this`chipId
      ensures status == Ok <==> exists i :: 0 <= i < |probes| && probes[i] == Identified(CHIP_ID)
      ensures status == Ok ==>
                chipId == CHIP_ID
                && exists i :: 0 <= i < |probes| && address == ADDRESSES[i] && probes[i] == Identified(CHIP_ID)
                               && forall j :: 0 <= j < i ==> probes[j] != Identified(CHIP_ID)
      ensures status == WrongChipId ==>
                chipId != CHIP_ID
                && exists i :: 0 <= i < |probes| && address == ADDRESSES[i] && probes[i] == Identified(chipId)
                               && forall j :: i < j < |probes| ==> !probes[j].Identified?
      ensures status == NotFound <==> forall i :: 0 <= i < |probes| ==> !probes[i].Identified?
      ensures status == NotFound ==> address == 0
      ensures status == Ok || status == WrongChipId || status == NotFound
    {
      address, chipId := 0, 0;
      var respondingAddress, respondingId: byte := 0, 0;
      var index := 0;
      while index < |ADDRESSES|
        invariant 0 <= index <= |ADDRESSES| && address == 0
        invariant forall i :: 0 <= i < index ==> probes[i] != Identified(CHIP_ID)
        invariant respondingAddress == 0 ==> forall i :: 0 <= i < index ==> !probes[i].Identified?
        invariant respondingAddress != 0 ==>
                    exists i :: 0 <= i < index && respondingAddress == ADDRESSES[i] && probes[i] == Identified(respondingId)
                                && forall j :: i < j < index ==> !probes[j].Identified?
      {
        if probes[index].Identified? {
          respondingAddress := ADDRESSES[index];
          respondingId := probes[index].id;
          if respondingId == CHIP_ID {
            address := ADDRESSES[index];
            chipId := respondingId;
            return Ok;
          }
        }
        index := index + 1;
      }
      address := respondingAddress;
      chipId := respondingId;
      status := if respondingAddress != 0 then WrongChipId else NotFound;
    }

    /** read_calibration, from the two register blocks, None when a block cannot be read: the record it fills is the
        one the registers encode. */
    method ReadCalibration(tp: Option<seq<byte>>, h: Option<seq<byte>>) returns (status: Status)
      requires (tp.Some? ==> |tp.value| == 26) && (h.Some? ==> |h.value| == 7)
      modifies this`calibration, this`fine
      ensures status == BusError <==> tp.None? || h.None?
      ensures status == BusError ==> calibration == old(calibration) && fine == old(fine)
      ensures status != BusError ==> calibration.Typed() && fine == 0 && Holds(tp.value, h.value, calibration)
      ensures status == Ok <==> status != BusError && calibration.Accepted()
      ensures status == Ok || status == BusError || status == CalibrationError
    {
      if tp.None? || h.None? {
        return BusError;
      }
      Decode(tp.value, h.value);
      if calibration.t1 == 0 || calibration.t1 == 0xFFFF || calibration.p1 == 0 || calibration.p1 == 0xFFFF {
        return CalibrationError;
      }
      status := Ok;
    }

    /** The assignments of read_calibration. */
    method Decode(tp: seq<byte>, h: seq<byte>)
      requires |tp| == 26 && |h| == 7
      modifies this`calibration, this`fine
      ensures calibration.Typed() && fine == 0 && Holds(tp, h, calibration)
    {
      SharedByte(h[3], h[4], h[5]);
      hide U16, S16, TwoBytes, Extended12, S8, SharesByte;
      calibration := Calibration(
        U16(tp[0..2]), S16(tp[2..4]), S16(tp[4..6]),
        U16(tp[6..8]), S16(tp[8..10]), S16(tp[10..12]), S16(tp[12..14]), S16(tp[14..16]),
        S16(tp[16..18]), S16(tp[18..20]), S16(tp[20..22]), S16(tp[22..24]),
        tp[25], S16(h[0..2]), h[2],
        Extended12(h[3] as int * 0x10 + h[4] as int % 0x10),
        Extended12(h[5] as int * 0x10 + h[4] as int / 0x10),
        S8(h[6]));
      fine := 0;
    }

    /** BME280_Sensor_Init: `reset` and `configured` say whether the register writes before and after reading the
        calibration succeeded, `ready` how waiting for the sensor's start ended. The sensor is in use
        exactly when every step succeeded. */
    method Initialize(probes: seq<Probe>, reset: bool, ready: Status,
                      tp: Option<seq<byte>>, h: Option<seq<byte>>, configured: bool) returns (status: Status)
      requires |probes| == |ADDRESSES| && WaitStatus(ready)
      requires (tp.Some? ==> |tp.value| == 26) && (h.Some? ==> |h.value| == 7)
      requires Valid()
      modifies this
      ensures Valid() && (initialized <==> status == Ok)
      ensures status == Ok <==>
                && (exists i :: 0 <= i < |probes| && probes[i] == Identified(CHIP_ID))
                && reset && ready == Ok && tp.Some? && h.Some? && calibration.Accepted() && configured
      ensures status == Ok ==> Holds(tp.value, h.value, calibration)
    {
      initialized := false;
      status := Detect(probes);
      if status != Ok {
        return;
      }
      if !reset {
        return BusError;
      }
      if ready != Ok {
        return ready;
      }
      status := ReadCalibration(tp, h);
      if status != Ok {
        return;
      }
      if !configured {
        return BusError;
      }
      initialized := true;
    }

    /** compensate_temperature: within two hundredths of a degree of the exact formula. */
    method CompensateTemperature(raw: nat) returns (temperature: int)
      requires calibration.Typed() && TemperatureFits(calibration, raw)
      modifies this`fine
      ensures fine == Fine(calibration, raw)
      ensures -4000 <= temperature <= 8500
      ensures -2.0 < temperature as real - ClampedReal(ExactTemperature(calibration, raw), -4000.0, 8500.0) < 2.0
      ensures Unclamped(fine) ==> temperature == (fine * 5 + 128) / 0x100
    {
      var var1 := raw / 8 - calibration.t1 * 2;
      var1 := var1 * calibration.t2 / 0x800;
      var var2 := raw / 16 - calibration.t1;
      var2 := var2 * var2 / 0x1000 * calibration.t3 / 0x4000;
      fine := var1 + var2;
      temperature := (fine * 5 + 128) / 0x100;
      TemperatureError(calibration, raw);
      ExactIsARatio(calibration, raw);
      ClampingContracts(temperature, ExactNumerator(calibration, raw), ExactTemperature(calibration, raw));
      if temperature < -4000 {
        temperature := -4000;
      } else if temperature > 8500 {
        temperature := 8500;
      }
    }

    /** compensate_pressure. */
    method CompensatePressure(raw: nat) returns (pressure: nat)
      requires calibration.Typed() && PressureFits(calibration, fine - 128000, raw)
      ensures pressure == 0 <==> Divisor(calibration, fine - 128000) == 0
      ensures pressure != 0 ==>
                && PRESSURE_MIN <= pressure <= PRESSURE_MAX
                && pressure == Reported(PressureValue(calibration, fine - 128000, raw))
      ensures calibration.Accepted() && Unclamped(fine) ==> pressure != 0
    {
      hide PressureFits, Unclamped;
      if calibration.Accepted() && Unclamped(fine) { DivisorIsLarge(calibration, fine); }
      var c := calibration;
      var var1 := fine - 128000;
      var var2 := var1 * var1 * c.p6;
      var2 := var2 + var1 * c.p5 * 131072;
      var2 := var2 + c.p4 * 34359738368;
      var1 := var1 * var1 * c.p3 / 0x100 + var1 * c.p2 * 4096;
      var1 := (140737488355328 + var1) * c.p1 / 0x2_0000_0000;
      if var1 == 0 {
        return 0;
      }
      var var4 := 1048576 - raw;
      var4 := Truncated((var4 * 2147483648 - var2) * 3125, var1);
      var1 := c.p9 * (var4 / 0x2000) * (var4 / 0x2000) / 0x200_0000;
      var2 := c.p8 * var4 / 0x8_0000;
      var4 := (var4 + var1 + var2) / 0x100 + c.p7 * 16;
      pressure := Truncated(Truncated(var4, 2) * 100, 128) % 0x1_0000_0000;
      if pressure < PRESSURE_MIN {
        pressure := PRESSURE_MIN;
      } else if pressure > PRESSURE_MAX {
        pressure := PRESSURE_MAX;
      }
    }

    /** compensate_humidity. */
    method CompensateHumidity(raw: nat) returns (humidity: nat)
      requires calibration.Typed() && HumidityFits(calibration, fine - 76800, raw)
      ensures humidity == HumidityOf(calibration, fine - 76800, raw) <= 102400
    {
      hide HumidityFits;
      var c := calibration;
      var var1 := fine - 76800;
      ghost var v := var1;
      var var2 := raw * 16384;
      var var3 := c.h4 * 1048576;
      var var4 := c.h5 * var1;
      var var5 := (var2 - var3 - var4 + 16384) / 0x8000;
      assert var5 == Level(c, v, raw);
      hide Level;
      var2 := var1 * c.h6 / 0x400;
      var3 := var1 * c.h3 / 0x800;
      var4 := var2 * (var3 + 32768) / 0x400 + 2097152;
      assert var4 == Influence(v * c.h6, v * c.h3);
      hide Influence;
      var2 := (var4 * c.h2 + 8192) / 0x4000;
      assert var2 == Slope(c, v);
      hide Slope;
      var3 := var5 * var2;
      assert var3 == Uncorrected(c, v, raw);
      hide Uncorrected;
      var4 := var3 / 0x8000 * (var3 / 0x8000) / 0x80;
      var5 := var3 - var4 * c.h1 / 0x10;
      assert var5 == var3 - Correction(var3, c.h1);
      hide Correction;
      if var5 < 0 {
        var5 := 0;
      } else if var5 > FULL {
        var5 := FULL;
      }
      var reduced := var5 / 0x1000;
      if reduced > 102400 {
        reduced := 102400;
      }
      humidity := reduced;
    }

    /** A measurement is usable: no channel was skipped. */
    static predicate Usable(raw: seq<byte>)
      requires |raw| == 8
    {
      Raw20(raw[..3]) != SKIPPED && Raw20(raw[3..6]) != SKIPPED
    }

    /** What the C arithmetic demands of the readings: nothing overflows. */
    static predicate Computable(c: Calibration, raw: seq<byte>)
      requires |raw| == 8
    {
      var fine := Fine(c, Raw20(raw[3..6]));
      && TemperatureFits(c, Raw20(raw[3..6]))
      && PressureFits(c, fine - 128000, Raw20(raw[..3]))
      && (Divisor(c, fine - 128000) != 0 ==> HumidityFits(c, fine - 76800, Raw16(raw[6..])))
    }

    /** The three values against the formulas of the data sheet. */
    static ghost predicate NearExact(c: Calibration, raw: seq<byte>, s: Sample)
      requires |raw| == 8
    {
      var fine := Fine(c, Raw20(raw[3..6]));
      && Near(s.temperature, ExactTemperature(c, Raw20(raw[3..6])), -4000.0, 8500.0, 2.0)
      && (Regular(c, fine - 128000, Raw20(raw[..3])) && PressureValue(c, fine - 128000, Raw20(raw[..3])) >= 0 ==>
            && ExactDivisor(c, fine - 128000) > 0.0
            && Near(s.pressure, ExactPressure(c, fine - 128000, Raw20(raw[..3])), 3000000.0, 11000000.0, 30.0))
      && Near(s.humidity, ExactHumidity(c, fine - 76800, Raw16(raw[6..])), 0.0, 102400.0, 37.0 + 0.47 * Abs(c.h2) as real)
    }

    /** A value is close to an exact one under a clamp. */
    static ghost predicate Near(value: int, exact: real, low: real, high: real, error: real)
      requires low <= high
    {
      -error < value as real - ClampedReal(exact, low, high) < error
    }

    lemma HumidityIsNear(raw: seq<byte>)
      requires |raw| == 8 && calibration.Typed() && Computable(calibration, raw)
      requires Divisor(calibration, Fine(calibration, Raw20(raw[3..6])) - 128000) != 0
      ensures var v, r := Fine(calibration, Raw20(raw[3..6])) - 76800, Raw16(raw[6..]);
        Near(HumidityOf(calibration, v, r), ExactHumidity(calibration, v, r), 0.0, 102400.0,
             37.0 + 0.47 * Abs(calibration.h2) as real)
    {
      hide Fine, TemperatureFits, PressureFits, HumidityFits, Divisor, HumidityOf, ExactHumidity;
      FineIsInReach(calibration, Raw20(raw[3..6]));
      HumidityError(calibration, Fine(calibration, Raw20(raw[3..6])) - 76800, Raw16(raw[6..]));
    }

    lemma PressureIsNear(raw: seq<byte>)
      requires |raw| == 8 && calibration.Typed() && Computable(calibration, raw)
      requires Regular(calibration, Fine(calibration, Raw20(raw[3..6])) - 128000, Raw20(raw[..3]))
      requires PressureValue(calibration, Fine(calibration, Raw20(raw[3..6])) - 128000, Raw20(raw[..3])) >= 0
      ensures var v, r := Fine(calibration, Raw20(raw[3..6])) - 128000, Raw20(raw[..3]);
        && ExactDivisor(calibration, v) > 0.0
        && Near(Reported(PressureValue(calibration, v, r)), ExactPressure(calibration, v, r), 3000000.0, 11000000.0, 30.0)
    {
      hide Fine, TemperatureFits, DivisionFits, HumidityFits, Divisor, Dividend, Truncated, ExactDivisor, PressureValue,
        ExactPressure, Reported;
      ReportedError(calibration, Fine(calibration, Raw20(raw[3..6])) - 128000, Raw20(raw[..3]));
    }

    /** BME280_Sensor_Read: `started` says whether the measurement could be started, `ready` how waiting for it
        ended, and `raw` is None when the readings could not be transferred. */
    method Read(started: bool, ready: Status, raw: Option<seq<byte>>) returns (status: Status, sample: Option<Sample>)
      requires Valid() && WaitStatus(ready) && (raw.Some? ==> |raw.value| == 8)
      requires initialized && raw.Some? && Usable(raw.value) ==> Computable(calibration, raw.value)
      modifies this`fine
      ensures Valid() && (status == Ok <==> sample.Some?)
      ensures status == Ok <==>
                && initialized && started && ready == Ok && raw.Some? && Usable(raw.value)
                && Divisor(calibration, Fine(calibration, Raw20(raw.value[3..6])) - 128000) != 0
      ensures status == BusError <==> initialized && (!started || ready == BusError || (ready == Ok && raw.None?))
      ensures initialized && started && ready == Ok && raw.Some? && Usable(raw.value) && Unclamped(fine) ==> status == Ok
      ensures status == Ok ==>
                var f := Fine(calibration, Raw20(raw.value[3..6]));
                var exact := ExactTemperature(calibration, Raw20(raw.value[3..6]));
                && -2.0 < sample.value.temperature as real - ClampedReal(exact, -4000.0, 8500.0) < 2.0
                && sample.value.pressure == Reported(PressureValue(calibration, f - 128000, Raw20(raw.value[..3])))
                && sample.value.humidity == HumidityOf(calibration, f - 76800, Raw16(raw.value[6..]))
                && NearExact(calibration, raw.value, sample.value)
    {
      hide TemperatureFits, PressureFits, HumidityFits, Fine, Divisor, PressureValue, ExactTemperature, HumidityOf;
      hide Regular, Unclamped, Reported, ExactDivisor, ExactPressure, ExactHumidity, Raw20, Raw16;
      if !initialized {
        return InvalidData, None;
      }
      if !started {
        return BusError, None;
      }
      if ready != Ok {
        return ready, None;
      }
      if raw.None? {
        return BusError, None;
      }
      var rawPressure, rawTemperature := Raw20(raw.value[..3]), Raw20(raw.value[3..6]);
      if rawPressure == SKIPPED || rawTemperature == SKIPPED {
        return InvalidData, None;
      }
      var temperature := CompensateTemperature(rawTemperature);
      var pressure := CompensatePressure(rawPressure);
      if pressure == 0 {
        return InvalidData, None;
      }
      var humidity := CompensateHumidity(Raw16(raw.value[6..]));
      HumidityIsNear(raw.value);
      if Regular(calibration, fine - 128000, rawPressure) && PressureValue(calibration, fine - 128000, rawPressure) >= 0 {
        PressureIsNear(raw.value);
      }
      status, sample := Ok, Some(Sample(temperature, pressure, humidity));
    }
  }
}
