/** The five record schemas of the BMS register map (src/queries.ts).

    Each schema is a register block (first register, number of registers),
    which the source adapter fetches as `2 * length` bytes, and a parse
    function that decodes named fields from that block through the
    accessors of `Buffers`, relative to the block's first register. */
module Queries {
  import opened Buffers

  /** A contiguous run of registers fetched in one request. */
  datatype Block = Block(register: int, length: nat)

  /** Per-device corrections from the configuration file. A present value
      wins over the buffer even when it is 0 or "". */
  datatype Overrides = Overrides(cellCount: Option<nat>, serial: Option<string>)

  /** A `numberAt` field: register, width in registers, signedness and
      decimal places. */
  datatype NumberField = NumberField(register: int, length: int, signed: Signedness, decimalPlaces: Option<int>)

  /** An `asciiAt` field: register and width in registers. */
  datatype AsciiField = AsciiField(register: int, length: int)

  predicate NumberFieldWithin(block: Block, field: NumberField) {
    block.register <= field.register && field.register + field.length <= block.register + block.length
  }

  predicate AsciiFieldWithin(block: Block, field: AsciiField) {
    block.register <= field.register && field.register + field.length <= block.register + block.length
  }

  function ReadNumber(buffer: seq<byte>, block: Block, field: NumberField): (r: Result<Decimal>) {
    NumberAt(buffer, block.register, field.register, field.length, field.signed, field.decimalPlaces)
  }

  function ReadText(buffer: seq<byte>, block: Block, field: AsciiField): (r: Result<string>) {
    AsciiAt(buffer, block.register, field.register, field.length)
  }

  /** The unsigned register at byte `offset`, as a count. */
  function Word(buffer: seq<byte>, offset: nat): (w: nat)
    requires offset + 2 <= |buffer|
    ensures w < 65536
  {
    PowersOf256();
    DecodeInteger(buffer[offset..offset + 2], Unsigned)
  }

  // ---------------------------------------------------------------------
  // Cell temperatures and voltages

  const CellTemperaturesAndVoltagesBlock := Block(5000, 34)
  const CellVoltageCountRegister := 5000
  const FirstCellVoltageRegister := 5001
  const CellTemperatureCountRegister := 5017
  const FirstCellTemperatureRegister := 5018

  datatype CellTemperaturesAndVoltages = CellTemperaturesAndVoltages(
    cellVoltageCount: nat,
    cellVoltages: seq<Decimal>,
    cellTemperatureCount: nat,
    cellTemperatures: seq<Decimal>)

  /** `overrides.cellCount ?? numberAt(countRegister)`. */
  function CellCount(buffer: seq<byte>, overrides: Overrides, countRegister: int): (r: Result<nat>)
    requires countRegister >= CellTemperaturesAndVoltagesBlock.register
    ensures overrides.cellCount.Some? ==> r == Ok(overrides.cellCount.value)
    ensures overrides.cellCount.None? ==>
              var offset := 2 * (countRegister - CellTemperaturesAndVoltagesBlock.register);
              && (r.Ok? <==> offset + 2 <= |buffer|)
              && (r.Ok? ==> r.value == Word(buffer, offset))
  {
    match overrides.cellCount
    case Some(count) => Ok(count)
    case None =>
      var count :- NumberAt(buffer, CellTemperaturesAndVoltagesBlock.register, countRegister, 1, Unsigned, None);
      Ok(count.mantissa)
  }

  /** `range(count).map(index => numberAt(firstRegister + index))`: `count`
      consecutive unsigned registers from `firstRegister`, read in index
      order, so that the first failing index is the one reported. Nothing
      past register `firstRegister + count - 1` is read. */
  function CellValues(buffer: seq<byte>, firstRegister: int, count: nat): (r: Result<seq<Decimal>>)
    requires firstRegister >= CellTemperaturesAndVoltagesBlock.register
    ensures var firstOffset := 2 * (firstRegister - CellTemperaturesAndVoltagesBlock.register);
            && (r.Ok? <==> count == 0 || firstOffset + 2 * count <= |buffer|)
            && (r.Ok? ==> |r.value| == count)
            && (r.Ok? ==> forall i :: 0 <= i < count ==> r.value[i] == Decimal(Word(buffer, firstOffset + 2 * i), 0))
    ensures r.Err? ==> r.error == FirstCellError(|buffer|, firstRegister)
  {
    if count == 0 then
      Ok([])
    else
      var init :- CellValues(buffer, firstRegister, count - 1);
      var last :- NumberAt(buffer, CellTemperaturesAndVoltagesBlock.register, firstRegister + count - 1, 1, Unsigned, None);
      Ok(init + [last])
  }

  /** The error `CellValues` reports: that of `numberAt` at the first cell
      register that does not fit in the buffer. It depends on the buffer's
      length only. */
  function FirstCellError(bufferLength: nat, firstRegister: int): (e: Error)
    requires firstRegister >= CellTemperaturesAndVoltagesBlock.register
    ensures e.BadOffset? || e.ReadOutOfRange?
  {
    var start := CellTemperaturesAndVoltagesBlock.register;
    var firstOffset := 2 * (firstRegister - start);
    var readable := if firstOffset >= bufferLength then 0 else (bufferLength - firstOffset) / 2;
    var offset := firstOffset + 2 * readable;
    if offset >= bufferLength then BadOffset(bufferLength, start, firstRegister + readable)
    else ReadOutOfRange(offset, 2, bufferLength)
  }

  /** The cell-voltage count the schema uses: the override, else register 5000. */
  function VoltageCount(buffer: seq<byte>, overrides: Overrides): (count: nat)
    requires overrides.cellCount.Some? || |buffer| >= 2
  {
    if overrides.cellCount.Some? then overrides.cellCount.value else Word(buffer, 0)
  }

  /** The cell-temperature count the schema uses: the same override, else register 5017. */
  function TemperatureCount(buffer: seq<byte>, overrides: Overrides): (count: nat)
    requires overrides.cellCount.Some? || |buffer| >= 36
  {
    if overrides.cellCount.Some? then overrides.cellCount.value else Word(buffer, 34)
  }

  /** Whether every register the cell schema reads lies in the buffer. */
  predicate CellsReadable(buffer: seq<byte>, overrides: Overrides) {
    && (overrides.cellCount.Some? || |buffer| >= 36)
    && (VoltageCount(buffer, overrides) == 0 || 2 + 2 * VoltageCount(buffer, overrides) <= |buffer|)
    && (TemperatureCount(buffer, overrides) == 0 || 36 + 2 * TemperatureCount(buffer, overrides) <= |buffer|)
  }

  /** `cellTemperaturesAndVoltages.parse`. */
  function ParseCellTemperaturesAndVoltages(buffer: seq<byte>, overrides: Overrides): (r: Result<CellTemperaturesAndVoltages>)
    ensures r.Ok? <==> CellsReadable(buffer, overrides)
    ensures r.Ok? ==> && r.value.cellVoltageCount == VoltageCount(buffer, overrides)
                      && r.value.cellTemperatureCount == TemperatureCount(buffer, overrides)
    ensures r.Ok? ==> && |r.value.cellVoltages| == r.value.cellVoltageCount
                      && |r.value.cellTemperatures| == r.value.cellTemperatureCount
    ensures r.Ok? ==> forall i :: 0 <= i < r.value.cellVoltageCount ==>
                        r.value.cellVoltages[i] == Decimal(Word(buffer, 2 + 2 * i), 0)
    ensures r.Ok? ==> forall i :: 0 <= i < r.value.cellTemperatureCount ==>
                        r.value.cellTemperatures[i] == Decimal(Word(buffer, 36 + 2 * i), 0)
  {
    var cellVoltageCount :- CellCount(buffer, overrides, CellVoltageCountRegister);
    var cellVoltages :- CellValues(buffer, FirstCellVoltageRegister, cellVoltageCount);
    var cellTemperatureCount :- CellCount(buffer, overrides, CellTemperatureCountRegister);
    var cellTemperatures :- CellValues(buffer, FirstCellTemperatureRegister, cellTemperatureCount);
    Ok(CellTemperaturesAndVoltages(cellVoltageCount, cellVoltages, cellTemperatureCount, cellTemperatures))
  }

  /** On a buffer of exactly the block (34 registers), parsing fails exactly
      when a count reaches past register 5033: more than 33 voltages or more
      than 16 temperatures. */
  lemma CellsFailExactlyWhenCountsOverrunTheBlock(buffer: seq<byte>, overrides: Overrides)
    requires |buffer| == 2 * CellTemperaturesAndVoltagesBlock.length
    ensures ParseCellTemperaturesAndVoltages(buffer, overrides).Err?
        <==> VoltageCount(buffer, overrides) > 33 || TemperatureCount(buffer, overrides) > 16
  {
  }

  /** One `cellCount` override sets both counts, and a zero override reads
      nothing at all, so it succeeds on any buffer. */
  lemma CellCountOverrideWins(buffer: seq<byte>, count: nat, serial: Option<string>)
    ensures var r := ParseCellTemperaturesAndVoltages(buffer, Overrides(Some(count), serial));
            r.Ok? ==> r.value.cellVoltageCount == count && r.value.cellTemperatureCount == count
    ensures ParseCellTemperaturesAndVoltages(buffer, Overrides(Some(0), serial))
         == Ok(CellTemperaturesAndVoltages(0, [], 0, []))
  {
  }

  /** The cell values depend on their own registers only: two buffers of
      the same length that agree there give the same result. */
  lemma CellValuesReadOnlyTheirRegisters(buffer: seq<byte>, other: seq<byte>, firstRegister: int, count: nat)
    requires firstRegister >= CellTemperaturesAndVoltagesBlock.register
    requires |buffer| == |other|
    requires var firstOffset := 2 * (firstRegister - CellTemperaturesAndVoltagesBlock.register);
             SameBytes(buffer, other, firstOffset, firstOffset + 2 * count)
    ensures CellValues(buffer, firstRegister, count) == CellValues(other, firstRegister, count)
  {
    var firstOffset := 2 * (firstRegister - CellTemperaturesAndVoltagesBlock.register);
    var r, o := CellValues(buffer, firstRegister, count), CellValues(other, firstRegister, count);
    if r.Ok? {
      forall i | 0 <= i < count ensures r.value[i] == o.value[i] {
        var offset := firstOffset + 2 * i;
        assert buffer[offset..offset + 2] == other[offset..offset + 2];
      }
      assert r.value == o.value;
    }
  }

  // ---------------------------------------------------------------------
  // Counts

  const CountsBlock := Block(5035, 14)
  const AmperageField := NumberField(5042, 1, Signed, Some(2))
  const VoltageField := NumberField(5043, 1, Signed, Some(1))
  const ChargeAhField := NumberField(5044, 2, Unsigned, Some(3))
  const CapacityAhField := NumberField(5046, 2, Unsigned, Some(3))
  const CycleField := NumberField(5048, 1, Unsigned, None)
  const CountsFields := [AmperageField, VoltageField, ChargeAhField, CapacityAhField, CycleField]

  /** `a * b` on exact decimals. */
  function Times(a: Decimal, b: Decimal): (p: Decimal)
    ensures p.Value() == a.Value() * b.Value()
  {
    PowAdd(10, a.places, b.places);
    ProductOfQuotients(a.mantissa, b.mantissa, Pow(10, a.places), Pow(10, b.places));
    Decimal(a.mantissa * b.mantissa, a.places + b.places)
  }

  lemma {:induction false} PowAdd(base: nat, m: nat, n: nat)
    ensures Pow(base, m + n) == Pow(base, m) * Pow(base, n)
  {
    if n > 0 {
      PowAdd(base, m, n - 1);
      var a, b := Pow(base, m), Pow(base, n - 1);
      assert Pow(base, m + n) == base * (a * b);
      assert Pow(base, n) == base * b;
      MultiplyInAnyOrder(base, a, b);
    }
  }

  lemma MultiplyInAnyOrder(x: int, y: int, z: int)
    ensures x * (y * z) == y * (x * z)
  {
  }

  lemma ProductOfQuotients(x: int, y: int, xScale: nat, yScale: nat)
    requires xScale > 0 && yScale > 0
    ensures (x as real / xScale as real) * (y as real / yScale as real) == (x * y) as real / (xScale * yScale) as real
  {
  }

  /** A JavaScript number produced by a division: finite, an infinity
      (division of a non-zero by zero) or NaN (zero by zero). */
  datatype Percentage = Finite(value: real) | Infinite(positive: bool) | NotANumber

  /** `100.0 * (chargeAh / capacityAh)`. */
  function StateOfCharge(chargeAh: Decimal, capacityAh: Decimal): (soc: Percentage)
    ensures soc.Finite? <==> capacityAh.Value() != 0.0
    ensures soc.Finite? ==> soc.value * capacityAh.Value() == 100.0 * chargeAh.Value()
    ensures soc == NotANumber <==> capacityAh.Value() == 0.0 && chargeAh.Value() == 0.0
    ensures soc.Infinite? ==> soc.positive == (chargeAh.Value() > 0.0)
  {
    var charge, capacity := chargeAh.Value(), capacityAh.Value();
    if capacity != 0.0 then Finite(100.0 * (charge / capacity))
    else if charge == 0.0 then NotANumber
    else Infinite(charge > 0.0)
  }

  /** A charge no larger than a non-zero capacity is a percentage in [0, 100]. */
  lemma StateOfChargeIsPercentage(chargeAh: Decimal, capacityAh: Decimal)
    requires 0.0 <= chargeAh.Value() <= capacityAh.Value() && capacityAh.Value() != 0.0
    ensures var soc := StateOfCharge(chargeAh, capacityAh);
            soc.Finite? && 0.0 <= soc.value <= 100.0
  {
    var charge, capacity := chargeAh.Value(), capacityAh.Value();
    QuotientIsFraction(charge, capacity);
  }

  /** `0 <= x <= y` with `y > 0` gives `x / y` in [0, 1]. */
  lemma QuotientIsFraction(x: real, y: real)
    requires 0.0 <= x <= y && y > 0.0
    ensures 0.0 <= x / y <= 1.0
  {
    var q := x / y;
    assert q * y == x;
    assert (1.0 - q) * y == y - x;
  }

  /** Two readings in the same unit: the state of charge is the percentage
      of their mantissas, with the zero-capacity cases of the division. */
  lemma StateOfChargeOfSameUnit(chargeMilli: nat, capacityMilli: nat, places: nat)
    ensures var soc := StateOfCharge(Decimal(chargeMilli, places), Decimal(capacityMilli, places));
            && (capacityMilli != 0 ==> soc == Finite(100.0 * chargeMilli as real / capacityMilli as real))
            && (capacityMilli == 0 && chargeMilli == 0 ==> soc == NotANumber)
            && (capacityMilli == 0 && chargeMilli != 0 ==> soc == Infinite(true))
  {
    var unit := Pow(10, places) as real;
    var c, k := chargeMilli as real, capacityMilli as real;
    assert Decimal(chargeMilli, places).Value() == c / unit;
    assert Decimal(capacityMilli, places).Value() == k / unit;
    CommonScaleCancels(c, k, unit);
  }

  /** Dividing both sides of a ratio by the same positive unit changes
      nothing, and keeps zero and positive values apart. */
  lemma CommonScaleCancels(c: real, k: real, unit: real)
    requires unit > 0.0 && c >= 0.0 && k >= 0.0
    ensures k / unit == 0.0 <==> k == 0.0
    ensures c / unit > 0.0 <==> c > 0.0
    ensures k != 0.0 ==> 100.0 * ((c / unit) / (k / unit)) == 100.0 * c / k
  {
    assert (c / unit) * unit == c;
    assert (k / unit) * unit == k;
    if k != 0.0 {
      var q := (c / unit) / (k / unit);
      assert q * (k / unit) == c / unit;
      assert q * k == c by {
        assert q * k == q * ((k / unit) * unit) == (q * (k / unit)) * unit;
      }
    }
  }

  datatype Counts = Counts(
    amperage: Decimal,
    voltage: Decimal,
    wattage: Decimal,
    chargeAh: Decimal,
    charge: Decimal,
    capacityAh: Decimal,
    capacity: Decimal,
    soc: Percentage,
    cycle: Decimal)

  /** `counts.parse`: amperage (hundredths of an ampere), voltage (tenths of
      a volt), the two 32-bit charge and capacity registers (thousandths of
      an ampere-hour) and the cycle count are read; wattage, charge and
      capacity are products with the voltage, and the state of charge is
      their ratio. */
  function ParseCounts(buffer: seq<byte>, overrides: Overrides): (r: Result<Counts>)
    ensures r.Ok? <==> |buffer| >= 28
    ensures |buffer| <= 14 ==> r == Err(BadOffset(|buffer|, CountsBlock.register, AmperageField.register))
    ensures r.Ok? ==>
              var amps := DecodeInteger(buffer[14..16], Signed);
              var volts := DecodeInteger(buffer[16..18], Signed);
              var chargeMilli := DecodeInteger(buffer[18..22], Unsigned);
              var capacityMilli := DecodeInteger(buffer[22..26], Unsigned);
              && r.value.amperage == Decimal(amps, 2)
              && r.value.voltage == Decimal(volts, 1)
              && r.value.wattage == Decimal(amps * volts, 3)
              && r.value.chargeAh == Decimal(chargeMilli, 3)
              && r.value.charge == Decimal(chargeMilli * volts, 4)
              && r.value.capacityAh == Decimal(capacityMilli, 3)
              && r.value.capacity == Decimal(capacityMilli * volts, 4)
              && r.value.soc == StateOfCharge(Decimal(chargeMilli, 3), Decimal(capacityMilli, 3))
              && r.value.cycle == Decimal(Word(buffer, 26), 0)
    ensures r.Ok? ==> ProductsWithVoltage(r.value)
  {
    var amperage :- ReadNumber(buffer, CountsBlock, AmperageField);
    var voltage :- ReadNumber(buffer, CountsBlock, VoltageField);
    var wattage := Times(amperage, voltage);
    var chargeAh :- ReadNumber(buffer, CountsBlock, ChargeAhField);
    var charge := Times(chargeAh, voltage);
    var capacityAh :- ReadNumber(buffer, CountsBlock, CapacityAhField);
    var capacity := Times(capacityAh, voltage);
    var soc := StateOfCharge(chargeAh, capacityAh);
    var cycle :- ReadNumber(buffer, CountsBlock, CycleField);
    Ok(Counts(amperage, voltage, wattage, chargeAh, charge, capacityAh, capacity, soc, cycle))
  }

  /** Wattage, charge and capacity are computed from the voltage by `Times`. */
  predicate ProductsWithVoltage(c: Counts) {
    && c.wattage == Times(c.amperage, c.voltage)
    && c.charge == Times(c.chargeAh, c.voltage)
    && c.capacity == Times(c.capacityAh, c.voltage)
  }

  /** Wattage, charge and capacity are, as numbers, the products of the
      values read with the voltage. */
  lemma DerivedValuesAreProducts(c: Counts)
    requires ProductsWithVoltage(c)
    ensures c.wattage.Value() == c.amperage.Value() * c.voltage.Value()
    ensures c.charge.Value() == c.chargeAh.Value() * c.voltage.Value()
    ensures c.capacity.Value() == c.capacityAh.Value() * c.voltage.Value()
  {
  }

  /** An amperage register of 250 (2.50 A) and a voltage register of 480
      (48.0 V) give 120.0 W. */
  lemma WattageExample(buffer: seq<byte>, overrides: Overrides)
    requires |buffer| == 2 * CountsBlock.length
    requires DecodeInteger(buffer[14..16], Signed) == 250 && DecodeInteger(buffer[16..18], Signed) == 480
    ensures var r := ParseCounts(buffer, overrides);
            && r.Ok?
            && r.value.amperage.Value() == 2.5
            && r.value.voltage.Value() == 48.0
            && r.value.wattage.Value() == 120.0
  {
    var r := ParseCounts(buffer, overrides);
    assert r.value.wattage == Decimal(120000, 3);
  }

  // ---------------------------------------------------------------------
  // Limits

  const LimitsBlock := Block(5049, 4)
  const ChargeVoltageLimitField := NumberField(5049, 1, Unsigned, Some(1))
  const DischargeVoltageLimitField := NumberField(5050, 1, Unsigned, Some(1))
  const ChargeAmperageLimitField := NumberField(5051, 1, Unsigned, Some(2))
  const DischargeAmperageLimitField := NumberField(5052, 1, Unsigned, Some(2))
  const LimitsFields := [ChargeVoltageLimitField, DischargeVoltageLimitField,
                         ChargeAmperageLimitField, DischargeAmperageLimitField]

  datatype Limits = Limits(
    chargeVoltageLimit: Decimal,
    dischargeVoltageLimit: Decimal,
    chargeAmperageLimit: Decimal,
    dischargeAmperageLimit: Decimal)

  /** `limits.parse`: four unsigned registers, volts in tenths and amperes
      in hundredths. */
  function ParseLimits(buffer: seq<byte>, overrides: Overrides): (r: Result<Limits>)
    ensures r.Ok? <==> |buffer| >= 8
    ensures |buffer| == 0 ==> r == Err(BadOffset(0, LimitsBlock.register, ChargeVoltageLimitField.register))
    ensures r.Ok? ==> && r.value.chargeVoltageLimit == Decimal(Word(buffer, 0), 1)
                      && r.value.dischargeVoltageLimit == Decimal(Word(buffer, 2), 1)
                      && r.value.chargeAmperageLimit == Decimal(Word(buffer, 4), 2)
                      && r.value.dischargeAmperageLimit == Decimal(Word(buffer, 6), 2)
  {
    var chargeVoltageLimit :- ReadNumber(buffer, LimitsBlock, ChargeVoltageLimitField);
    var dischargeVoltageLimit :- ReadNumber(buffer, LimitsBlock, DischargeVoltageLimitField);
    var chargeAmperageLimit :- ReadNumber(buffer, LimitsBlock, ChargeAmperageLimitField);
    var dischargeAmperageLimit :- ReadNumber(buffer, LimitsBlock, DischargeAmperageLimitField);
    Ok(Limits(chargeVoltageLimit, dischargeVoltageLimit, chargeAmperageLimit, dischargeAmperageLimit))
  }

  // ---------------------------------------------------------------------
  // Status

  const StatusBlock := Block(5100, 10)

  /** The status bitfields are not decoded yet: the record has no fields. */
  datatype Status = Unparsed

  /** `status.parse`: the empty record, for any buffer. */
  function ParseStatus(buffer: seq<byte>, overrides: Overrides): (r: Result<Status>)
    ensures r.Ok?
  {
    Ok(Unparsed)
  }

  // ---------------------------------------------------------------------
  // Properties

  const PropertiesBlock := Block(5110, 32)
  const SerialField := AsciiField(5110, 8)
  const ManufacturerVersionField := AsciiField(5118, 1)
  const MainlineVersionField := AsciiField(5119, 2)
  const CommunicationProtocolVersionField := AsciiField(5121, 1)
  const ModelField := AsciiField(5122, 8)
  const SoftwareVersionField := AsciiField(5130, 2)
  const ManufacturerNameField := AsciiField(5132, 10)
  const PropertiesFields := [SerialField, ManufacturerVersionField, MainlineVersionField,
                             CommunicationProtocolVersionField, ModelField, SoftwareVersionField,
                             ManufacturerNameField]

  datatype Properties = Properties(
    serial: string,
    manufacturerVersion: string,
    mainlineVersion: string,
    communicationProtocolVersion: string,
    model: string,
    softwareVersion: string,
    manufacturerName: string)

  /** `properties.parse`: seven text fields; the serial comes from the
      override when one is present, without reading the buffer. */
  function ParseProperties(buffer: seq<byte>, overrides: Overrides): (r: Result<Properties>)
    ensures r.Ok? <==> |buffer| > 44
    ensures |buffer| == 0 && overrides.serial.None? ==> r == Err(BadOffset(0, PropertiesBlock.register, SerialField.register))
    ensures r.Ok? && overrides.serial.Some? ==> r.value.serial == overrides.serial.value
    ensures r.Ok? && overrides.serial.None? ==> r.value.serial == FieldText(buffer, 0, 16)
    ensures r.Ok? ==> && r.value.manufacturerVersion == FieldText(buffer, 16, 18)
                      && r.value.mainlineVersion == FieldText(buffer, 18, 22)
                      && r.value.communicationProtocolVersion == FieldText(buffer, 22, 24)
                      && r.value.model == FieldText(buffer, 24, 40)
                      && r.value.softwareVersion == FieldText(buffer, 40, 44)
                      && r.value.manufacturerName == FieldText(buffer, 44, 64)
  {
    var serial :- if overrides.serial.Some? then Ok(overrides.serial.value)
                  else ReadText(buffer, PropertiesBlock, SerialField);
    var manufacturerVersion :- ReadText(buffer, PropertiesBlock, ManufacturerVersionField);
    var mainlineVersion :- ReadText(buffer, PropertiesBlock, MainlineVersionField);
    var communicationProtocolVersion :- ReadText(buffer, PropertiesBlock, CommunicationProtocolVersionField);
    var model :- ReadText(buffer, PropertiesBlock, ModelField);
    var softwareVersion :- ReadText(buffer, PropertiesBlock, SoftwareVersionField);
    var manufacturerName :- ReadText(buffer, PropertiesBlock, ManufacturerNameField);
    Ok(Properties(serial, manufacturerVersion, mainlineVersion, communicationProtocolVersion,
                  model, softwareVersion, manufacturerName))
  }

  /** A serial override replaces the serial and changes nothing else. */
  lemma SerialOverrideWins(buffer: seq<byte>, cellCount: Option<nat>, serial: string)
    ensures var overridden := ParseProperties(buffer, Overrides(cellCount, Some(serial)));
            var read := ParseProperties(buffer, Overrides(cellCount, None));
            && (overridden.Ok? <==> read.Ok?)
            && (overridden.Ok? ==> overridden.value == read.value.(serial := serial))
  {
  }

  /** The seven text fields tile registers 5110-5141 end to end. */
  lemma PropertiesFieldsTileTheBlock()
    ensures PropertiesFields[0].register == PropertiesBlock.register
    ensures forall i :: 0 <= i < |PropertiesFields| - 1 ==>
              PropertiesFields[i].register + PropertiesFields[i].length == PropertiesFields[i + 1].register
    ensures PropertiesFields[|PropertiesFields| - 1].register + PropertiesFields[|PropertiesFields| - 1].length
         == PropertiesBlock.register + PropertiesBlock.length
  {
  }

  // ---------------------------------------------------------------------
  // Whole-block properties

  /** Every fixed field lies inside its schema's block. */
  lemma FieldsLieWithinTheirBlocks()
    ensures forall f :: f in LimitsFields ==> NumberFieldWithin(LimitsBlock, f)
    ensures forall f :: f in CountsFields ==> NumberFieldWithin(CountsBlock, f)
    ensures forall f :: f in PropertiesFields ==> AsciiFieldWithin(PropertiesBlock, f)
  {
  }

  /** So a buffer of exactly the block never fails to parse. */
  lemma ExactBlockParses(overrides: Overrides, limits: seq<byte>, counts: seq<byte>, properties: seq<byte>)
    requires |limits| == 2 * LimitsBlock.length
    requires |counts| == 2 * CountsBlock.length
    requires |properties| == 2 * PropertiesBlock.length
    ensures ParseLimits(limits, overrides).Ok?
    ensures ParseCounts(counts, overrides).Ok?
    ensures ParseProperties(properties, overrides).Ok?
  {
  }

  /** And nothing after the block is read: a longer buffer parses as its
      first `2 * length` bytes do. */
  lemma LimitsReadOnlyTheBlock(buffer: seq<byte>, overrides: Overrides)
    requires |buffer| >= 2 * LimitsBlock.length
    ensures ParseLimits(buffer, overrides) == ParseLimits(buffer[..2 * LimitsBlock.length], overrides)
  {
    var block := buffer[..2 * LimitsBlock.length];
    assert block[0..2] == buffer[0..2] && block[2..4] == buffer[2..4];
    assert block[4..6] == buffer[4..6] && block[6..8] == buffer[6..8];
  }

  lemma CountsReadOnlyTheBlock(buffer: seq<byte>, overrides: Overrides)
    requires |buffer| >= 2 * CountsBlock.length
    ensures ParseCounts(buffer, overrides) == ParseCounts(buffer[..2 * CountsBlock.length], overrides)
  {
    var block := buffer[..2 * CountsBlock.length];
    assert block[14..16] == buffer[14..16] && block[16..18] == buffer[16..18];
    assert block[18..22] == buffer[18..22] && block[22..26] == buffer[22..26];
    assert block[26..28] == buffer[26..28];
  }

  lemma PropertiesReadOnlyTheBlock(buffer: seq<byte>, overrides: Overrides)
    requires |buffer| >= 2 * PropertiesBlock.length
    ensures ParseProperties(buffer, overrides) == ParseProperties(buffer[..2 * PropertiesBlock.length], overrides)
  {
    var block := buffer[..2 * PropertiesBlock.length];
    assert block[0..16] == buffer[0..16] && block[16..18] == buffer[16..18];
    assert block[18..22] == buffer[18..22] && block[22..24] == buffer[22..24];
    assert block[24..40] == buffer[24..40] && block[40..44] == buffer[40..44];
    assert block[44..64] == buffer[44..64];
  }
}
