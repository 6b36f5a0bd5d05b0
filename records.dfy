/** The decoded header record and its sub-records. */
module Records {
  import opened Outcomes
  import opened Text
  import opened Numbers

  /** Alarm thresholds from an `A` line. The decoder fills all eight fields or
      none (the Rust struct wraps each in an `Option` that is always `Some` when
      the decoder returns a record), so the model keeps plain values. Volts are
      the token divided by ten, kept as exact decimals. */
  datatype Alarms = Alarms(
    minVolts: Decimal,
    maxVolts: Decimal,
    maxEgtSpread: int,
    maxCht: int,
    maxChtCoolRate: int,
    maxEgt: int,
    minOilTemp: int,
    maxOilTemp: int)

  datatype FuelFlowUnits = GPH | PPH | LPH | KPH

  datatype TempUnits = Farenheit | Celcius

  datatype Fuel = Fuel(
    fuelFlowUnits: Option<FuelFlowUnits>,
    fullLevel: Option<int>,
    warningLevel: Option<int>,
    kFactorFf1: Option<int>,
    kFactorFf2: Option<int>)

  datatype Sensors = Sensors(
    egtCount: Option<int>,
    chtCount: Option<int>,
    volts: bool,
    oilTemp: bool,
    tit1: bool,
    tit2: bool,
    oat: bool,
    fuelFlow: bool,
    iat: bool,
    cdt: bool,
    manifoldPressure: bool,  // `map` in the source; `map` is a Dafny keyword
    rpm: bool)

  datatype Features = Features(
    model: Option<int>,
    firmwareVersion: Option<int>,
    sensors: Option<Sensors>,
    engineTemperatureUnit: Option<TempUnits>,
    unknown1: Option<int>,
    unknown2: Option<int>)

  /** The whole decoded header. `downloadTime` is an i64 and `protocolVersion`
      an i32 in the source; no decoder writes them. */
  datatype HeaderData = HeaderData(
    registration: Option<seq<Byte>>,
    alarms: Option<Alarms>,
    fuel: Option<Fuel>,
    downloadTime: Option<int>,
    protocolVersion: Option<int>,
    features: Option<Features>)

  /** `HeaderData::default()`: every field unset. */
  const EMPTY_HEADER: HeaderData := HeaderData(None, None, None, None, None, None)

  /** The four fields that no line tag decodes are still unset. */
  predicate UndecodedFieldsUnset(h: HeaderData)
  {
    h.fuel.None? && h.downloadTime.None? && h.protocolVersion.None? && h.features.None?
  }
}
