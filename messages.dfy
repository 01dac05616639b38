/**
 * The message catalogue of messages.rs: the request type codes, the fixed little-endian
 * body layout of every request and of the server's reply, and the construction of a
 * reply from a decoded request (`SofarMessage::from_incoming_message`).
 *
 * A body decoder reads its fields strictly in declared order from the start of the slice
 * it is given; bytes after the last field are ignored, as bincode ignores trailing bytes.
 */
module Messages {
  import opened Wrappers
  import opened Wire
  import opened Utf8
  import opened Helpers

  /** The request kinds a logger sends. */
  datatype SofarMessageType = Heartbeat | Data | Hello | HelloCd | Unknown44

  /** The discriminant of each request kind, i.e. its type code on the wire. */
  function Code(t: SofarMessageType): uint16 {
    match t
    case Heartbeat => 0x4710
    case Data => 0x4210
    case Hello => 0x4110
    case HelloCd => 0x4810
    case Unknown44 => 0x4310
  }

  /** `SofarMessageType::from_u16`: the kind whose discriminant is `code`, if any. */
  function FromU16(code: uint16): (r: Option<SofarMessageType>)
    ensures r.Some? <==> code in {0x4710, 0x4210, 0x4110, 0x4810, 0x4310}
    ensures r.Some? ==> Code(r.value) == code
  {
    if code == 0x4710 then Some(Heartbeat)
    else if code == 0x4210 then Some(Data)
    else if code == 0x4110 then Some(Hello)
    else if code == 0x4810 then Some(HelloCd)
    else if code == 0x4310 then Some(Unknown44)
    else None
  }

  /** `from_u16` inverts the discriminant table, and no other u16 names a request kind. */
  lemma FromU16Inverse(code: uint16, t: SofarMessageType)
    ensures FromU16(code) == Some(t) <==> Code(t) == code
    ensures FromU16(code).None? <==> code !in {0x4710, 0x4210, 0x4110, 0x4810, 0x4310}
  {
  }

  // ---------------------------------------------------------------- reply body

  /** The reply body. */
  datatype ServerResponse = ServerResponse(
    messageId: uint8,
    unknown1: uint8,
    timestamp: uint32,
    unknown2: uint16,
    unknown3: uint16)

  /** bincode's serialization of a ServerResponse: its fields in order, little-endian. */
  function SerializeServerResponse(r: ServerResponse): (bytes: seq<uint8>)
    ensures |bytes| == 10
    ensures bytes[0] == r.messageId && bytes[1] == r.unknown1
    ensures LeU32(bytes[2], bytes[3], bytes[4], bytes[5]) == r.timestamp
    ensures LeU16(bytes[6], bytes[7]) == r.unknown2 && LeU16(bytes[8], bytes[9]) == r.unknown3
  {
    U32ReadOfWrite(r.timestamp);
    U16RoundTrip(r.unknown2, 0, 0);
    U16RoundTrip(r.unknown3, 0, 0);
    [r.messageId, r.unknown1] + U32Le(r.timestamp) + U16Le(r.unknown2) + U16Le(r.unknown3)
  }

  // ---------------------------------------------------------------- request bodies

  datatype HeartbeatBody = HeartbeatBody(unknown: uint8)

  datatype DataBody = DataBody(
    unknown1: uint8,
    sensorTypeList: uint16,
    totalOperationTime: uint32,
    timer: uint32,
    timestamp: uint32,
    unknown2: uint16,
    counter: uint32,
    inverterSerialNumber: Text,
    inverterTemperature: real,
    vdc1: real,
    vdc2: real,
    idc1: real,
    idc2: real,
    iac1: real,
    iac2: real,
    iac3: real,
    vac1: real,
    vac2: real,
    vac3: real,
    fac: real,
    currentPower: uint32,
    dailyEnergy: real,
    totalEnergy: real,
    totalTime: uint32,
    inverterStatus: uint16,
    faultCode1: uint8,
    faultCode2: uint8,
    faultCode3: uint8,
    faultCode4: uint8,
    faultCode5: uint8,
    faultCode6: uint8,
    faultCode7: uint8,
    faultCode8: uint8,
    faultCode9: uint8,
    faultCode10: uint8,
    alertMessageCode: uint16,
    innerBoardMessageCode: uint16,
    inverterFirmware: Text,
    hardwareVersion: Text,
    loggerTemperature: int16,
    busVoltage: real,
    viceCpuInputVoltage: real,
    unknown3: uint16,
    countdownTime: uint16,
    unknown4: uint16,
    pv1InsulationResistance: uint16,
    pv2InsulationResistance: uint16,
    insulationImpedance: uint16,
    countryCode: uint16,
    unknown5: uint32,
    leakingCurrent: uint16,
    aPhaseDcDistribution: uint16,
    bPhaseDcDistribution: uint16,
    cPhaseDcDistribution: uint16,
    mainInverterFirmware: Text,
    slaveInverterFirmware: Text,
    year: uint8,
    month: uint8,
    day: uint8,
    hour: uint8,
    minute: uint8,
    second: uint8,
    unknown6: uint32)

  /** A station MAC address: six raw bytes. */
  datatype MacAddr6 = MacAddr6(octets: seq<uint8>)

  datatype HelloBody = HelloBody(
    one: uint8,
    totalOperationTime: uint32,
    timer: uint32,
    unknown1: uint32,
    uploadingFrequency: uint8,
    dataLoggingFrequency: uint8,
    hearbeatFrequency: uint8,
    maxNumOfConnectedDevices: uint8,
    signalQuality: uint8,
    sensorType: uint8,
    moduleVersion: Text,
    staMacAddress: MacAddr6,
    localIpAddress: Text,
    unknown2: uint16,
    unknown3: uint16,
    sensorTypeList: uint16)

  datatype HelloCdBody = HelloCdBody(
    one: uint8,
    totalOperationTime: uint32,
    timer: uint32,
    timestamp: uint32,
    unknown1: uint16,
    unknown2: uint32,
    unknown3: uint8,
    unknown4: uint32,
    unknown5: uint32)

  /** Only the leading field of HelloEnd is modelled: no type code decodes to it. */
  datatype HelloEndBody = HelloEndBody(one: uint8)

  datatype Unknown44Body = Unknown44Body(
    unknown1: uint8,
    unknown2: uint8,
    unknown3: uint8,
    unknown4: uint8,
    unknown5: uint8,
    unknown6: uint8,
    unknown7: uint8,
    unknown8: uint8,
    unknown9: uint8,
    timestamp: uint32,
    unknown10: uint16,
    wifiSsid: Text)

  datatype IncomingMessageData =
    | IncomingHeartbeat(heartbeat: HeartbeatBody)
    | IncomingData(data: DataBody)
    | IncomingHello(hello: HelloBody)
    | IncomingHelloCd(helloCd: HelloCdBody)
    | IncomingHelloEnd(helloEnd: HelloEndBody)
    | IncomingUnknown44(unknown44: Unknown44Body)

  datatype OutgoingMessageData = OutgoingServerResponse(response: ServerResponse)

  /** A message together with the frame header it travels with. */
  datatype SofarMessage<T> = SofarMessage(
    data: T,
    messageType: SofarMessageType,
    messageNumber: uint8,
    messageNumber2: uint8,
    dataLoggerSn: uint32)

  type IncomingMessage = SofarMessage<IncomingMessageData>
  type OutgoingMessage = SofarMessage<OutgoingMessageData>

  // ---------------------------------------------------------------- body decoders

  function DecodeHeartbeat(s: seq<uint8>): (r: Result<HeartbeatBody, DecodeError>)
    ensures r.Ok? ==> |s| >= 1 && r.value.unknown == s[0]
  {
    var unknown := ReadU8(s, 0);
    if unknown.Err? then Err(unknown.error) else
    Ok(HeartbeatBody(unknown.value))
  }

  /**
   * The Data layout. bincode reads its 63 fields in order and stops at the first that fails;
   * the decoder reads them as four consecutive spans, which fails at the same field with the
   * same error. Besides its length, the contract names the scaled readings: the inverter
   * temperature is the LE i16 at 37 divided by 10; string voltages and currents, phase
   * currents and voltages are the LE u16s at 39..59 divided by 10; the frequency is the
   * LE u16 at 59 divided by 100; the current power is the plain LE u32 at 61; the daily and
   * total energy are the LE u32s at 65 and 69 divided by 100 and by 10; the logger
   * temperature is the plain LE i16 at 101; the bus and vice-CPU voltages are the LE u16s at
   * 103 and 105 divided by 10.
   */
  datatype DataHead = DataHead(
    unknown1: uint8,
    sensorTypeList: uint16,
    totalOperationTime: uint32,
    timer: uint32,
    timestamp: uint32,
    unknown2: uint16,
    counter: uint32,
    inverterSerialNumber: Text)

  datatype DataReadings = DataReadings(
    inverterTemperature: real,
    vdc1: real,
    vdc2: real,
    idc1: real,
    idc2: real,
    iac1: real,
    iac2: real,
    iac3: real,
    vac1: real,
    vac2: real,
    vac3: real,
    fac: real,
    currentPower: uint32,
    dailyEnergy: real,
    totalEnergy: real,
    totalTime: uint32)

  datatype DataStatus = DataStatus(
    inverterStatus: uint16,
    faultCode1: uint8,
    faultCode2: uint8,
    faultCode3: uint8,
    faultCode4: uint8,
    faultCode5: uint8,
    faultCode6: uint8,
    faultCode7: uint8,
    faultCode8: uint8,
    faultCode9: uint8,
    faultCode10: uint8,
    alertMessageCode: uint16,
    innerBoardMessageCode: uint16,
    inverterFirmware: Text,
    hardwareVersion: Text,
    loggerTemperature: int16,
    busVoltage: real,
    viceCpuInputVoltage: real)

  datatype DataTail = DataTail(
    unknown3: uint16,
    countdownTime: uint16,
    unknown4: uint16,
    pv1InsulationResistance: uint16,
    pv2InsulationResistance: uint16,
    insulationImpedance: uint16,
    countryCode: uint16,
    unknown5: uint32,
    leakingCurrent: uint16,
    aPhaseDcDistribution: uint16,
    bPhaseDcDistribution: uint16,
    cPhaseDcDistribution: uint16,
    mainInverterFirmware: Text,
    slaveInverterFirmware: Text,
    year: uint8,
    month: uint8,
    day: uint8,
    hour: uint8,
    minute: uint8,
    second: uint8,
    unknown6: uint32)

  /** The first span of the Data layout, bytes [0, 37): ids, counters, timestamp and the inverter serial number. */
  function DecodeDataHead(s: seq<uint8>): (r: Result<DataHead, DecodeError>)
    ensures r.Ok? <==> |s| >= 37 && ValidUtf8(s[21..37])
    ensures r.Ok? ==> var h := r.value;
      && h.unknown1 == s[0] && h.timestamp == LeU32(s[11], s[12], s[13], s[14])
      && h.inverterSerialNumber == s[21..37]
  {
    var unknown1 := ReadU8(s, 0);
    if unknown1.Err? then Err(unknown1.error) else
    var sensorTypeList := ReadU16(s, 1);
    if sensorTypeList.Err? then Err(sensorTypeList.error) else
    var totalOperationTime := ReadU32(s, 3);
    if totalOperationTime.Err? then Err(totalOperationTime.error) else
    var timer := ReadU32(s, 7);
    if timer.Err? then Err(timer.error) else
    var timestamp := ReadU32(s, 11);
    if timestamp.Err? then Err(timestamp.error) else
    var unknown2 := ReadU16(s, 15);
    if unknown2.Err? then Err(unknown2.error) else
    var counter := ReadU32(s, 17);
    if counter.Err? then Err(counter.error) else
    var inverterSerialNumber := ParseStringAt(s, 21, 16);
    if inverterSerialNumber.Err? then Err(inverterSerialNumber.error) else
    Ok(DataHead(
      unknown1.value, sensorTypeList.value, totalOperationTime.value, timer.value,
      timestamp.value, unknown2.value, counter.value, inverterSerialNumber.value))
  }

  /** Bytes [37, 77) of the Data layout: the scaled temperature, voltage, current, frequency and energy readings. */
  function DecodeDataReadings(s: seq<uint8>): (r: Result<DataReadings, DecodeError>)
    ensures r.Ok? <==> |s| >= 77
    ensures r.Ok? ==> var g := r.value;
      && g.inverterTemperature * 10.0 == AsI16(LeU16(s[37], s[38])) as real
      && g.vdc1 * 10.0 == LeU16(s[39], s[40]) as real && g.vdc2 * 10.0 == LeU16(s[41], s[42]) as real
      && g.idc1 * 10.0 == LeU16(s[43], s[44]) as real && g.idc2 * 10.0 == LeU16(s[45], s[46]) as real
      && g.iac1 * 10.0 == LeU16(s[47], s[48]) as real && g.iac2 * 10.0 == LeU16(s[49], s[50]) as real
      && g.iac3 * 10.0 == LeU16(s[51], s[52]) as real
      && g.vac1 * 10.0 == LeU16(s[53], s[54]) as real && g.vac2 * 10.0 == LeU16(s[55], s[56]) as real
      && g.vac3 * 10.0 == LeU16(s[57], s[58]) as real
      && g.fac * 100.0 == LeU16(s[59], s[60]) as real
      && g.currentPower == LeU32(s[61], s[62], s[63], s[64])
      && g.dailyEnergy * 100.0 == LeU32(s[65], s[66], s[67], s[68]) as real
      && g.totalEnergy * 10.0 == LeU32(s[69], s[70], s[71], s[72]) as real
  {
    var inverterTemperature := DivideI16By(s, 37, 10);
    if inverterTemperature.Err? then Err(inverterTemperature.error) else
    var vdc1 := DivideU16By(s, 39, 10);
    if vdc1.Err? then Err(vdc1.error) else
    var vdc2 := DivideU16By(s, 41, 10);
    if vdc2.Err? then Err(vdc2.error) else
    var idc1 := DivideU16By(s, 43, 10);
    if idc1.Err? then Err(idc1.error) else
    var idc2 := DivideU16By(s, 45, 10);
    if idc2.Err? then Err(idc2.error) else
    var iac1 := DivideU16By(s, 47, 10);
    if iac1.Err? then Err(iac1.error) else
    var iac2 := DivideU16By(s, 49, 10);
    if iac2.Err? then Err(iac2.error) else
    var iac3 := DivideU16By(s, 51, 10);
    if iac3.Err? then Err(iac3.error) else
    var vac1 := DivideU16By(s, 53, 10);
    if vac1.Err? then Err(vac1.error) else
    var vac2 := DivideU16By(s, 55, 10);
    if vac2.Err? then Err(vac2.error) else
    var vac3 := DivideU16By(s, 57, 10);
    if vac3.Err? then Err(vac3.error) else
    var fac := DivideU16By(s, 59, 100);
    if fac.Err? then Err(fac.error) else
    var currentPower := ReadU32(s, 61);
    if currentPower.Err? then Err(currentPower.error) else
    var dailyEnergy := DivideU32By(s, 65, 100);
    if dailyEnergy.Err? then Err(dailyEnergy.error) else
    var totalEnergy := DivideU32By(s, 69, 10);
    if totalEnergy.Err? then Err(totalEnergy.error) else
    var totalTime := ReadU32(s, 73);
    if totalTime.Err? then Err(totalTime.error) else
    Ok(DataReadings(
      inverterTemperature.value, vdc1.value, vdc2.value, idc1.value, idc2.value, iac1.value,
      iac2.value, iac3.value, vac1.value, vac2.value, vac3.value, fac.value,
      currentPower.value, dailyEnergy.value, totalEnergy.value, totalTime.value))
  }

  /** Bytes [77, 107) of the Data layout: status, fault codes, firmware texts and the logger's own readings. */
  function DecodeDataStatus(s: seq<uint8>): (r: Result<DataStatus, DecodeError>)
    ensures r.Ok? <==> |s| >= 107 && ValidUtf8(s[93..97]) && ValidUtf8(s[97..101])
    ensures r.Ok? ==> var u := r.value;
      && u.loggerTemperature == AsI16(LeU16(s[101], s[102]))
      && u.busVoltage * 10.0 == LeU16(s[103], s[104]) as real
      && u.viceCpuInputVoltage * 10.0 == LeU16(s[105], s[106]) as real
  {
    var inverterStatus := ReadU16(s, 77);
    if inverterStatus.Err? then Err(inverterStatus.error) else
    var faultCode1 := ReadU8(s, 79);
    if faultCode1.Err? then Err(faultCode1.error) else
    var faultCode2 := ReadU8(s, 80);
    if faultCode2.Err? then Err(faultCode2.error) else
    var faultCode3 := ReadU8(s, 81);
    if faultCode3.Err? then Err(faultCode3.error) else
    var faultCode4 := ReadU8(s, 82);
    if faultCode4.Err? then Err(faultCode4.error) else
    var faultCode5 := ReadU8(s, 83);
    if faultCode5.Err? then Err(faultCode5.error) else
    var faultCode6 := ReadU8(s, 84);
    if faultCode6.Err? then Err(faultCode6.error) else
    var faultCode7 := ReadU8(s, 85);
    if faultCode7.Err? then Err(faultCode7.error) else
    var faultCode8 := ReadU8(s, 86);
    if faultCode8.Err? then Err(faultCode8.error) else
    var faultCode9 := ReadU8(s, 87);
    if faultCode9.Err? then Err(faultCode9.error) else
    var faultCode10 := ReadU8(s, 88);
    if faultCode10.Err? then Err(faultCode10.error) else
    var alertMessageCode := ReadU16(s, 89);
    if alertMessageCode.Err? then Err(alertMessageCode.error) else
    var innerBoardMessageCode := ReadU16(s, 91);
    if innerBoardMessageCode.Err? then Err(innerBoardMessageCode.error) else
    var inverterFirmware := ParseStringAt(s, 93, 4);
    if inverterFirmware.Err? then Err(inverterFirmware.error) else
    var hardwareVersion := ParseStringAt(s, 97, 4);
    if hardwareVersion.Err? then Err(hardwareVersion.error) else
    var loggerTemperature := ReadI16(s, 101);
    if loggerTemperature.Err? then Err(loggerTemperature.error) else
    var busVoltage := DivideU16By(s, 103, 10);
    if busVoltage.Err? then Err(busVoltage.error) else
    var viceCpuInputVoltage := DivideU16By(s, 105, 10);
    if viceCpuInputVoltage.Err? then Err(viceCpuInputVoltage.error) else
    Ok(DataStatus(
      inverterStatus.value, faultCode1.value, faultCode2.value, faultCode3.value,
      faultCode4.value, faultCode5.value, faultCode6.value, faultCode7.value, faultCode8.value,
      faultCode9.value, faultCode10.value, alertMessageCode.value, innerBoardMessageCode.value,
      inverterFirmware.value, hardwareVersion.value, loggerTemperature.value, busVoltage.value,
      viceCpuInputVoltage.value))
  }

  /** Bytes [107, 151) of the Data layout: insulation, country code, leakage, slave firmware and the clock. */
  function DecodeDataTail(s: seq<uint8>): (r: Result<DataTail, DecodeError>)
    ensures r.Ok? <==> |s| >= 151 && ValidUtf8(s[133..137]) && ValidUtf8(s[137..141])
  {
    var unknown3 := ReadU16(s, 107);
    if unknown3.Err? then Err(unknown3.error) else
    var countdownTime := ReadU16(s, 109);
    if countdownTime.Err? then Err(countdownTime.error) else
    var unknown4 := ReadU16(s, 111);
    if unknown4.Err? then Err(unknown4.error) else
    var pv1InsulationResistance := ReadU16(s, 113);
    if pv1InsulationResistance.Err? then Err(pv1InsulationResistance.error) else
    var pv2InsulationResistance := ReadU16(s, 115);
    if pv2InsulationResistance.Err? then Err(pv2InsulationResistance.error) else
    var insulationImpedance := ReadU16(s, 117);
    if insulationImpedance.Err? then Err(insulationImpedance.error) else
    var countryCode := ReadU16(s, 119);
    if countryCode.Err? then Err(countryCode.error) else
    var unknown5 := ReadU32(s, 121);
    if unknown5.Err? then Err(unknown5.error) else
    var leakingCurrent := ReadU16(s, 125);
    if leakingCurrent.Err? then Err(leakingCurrent.error) else
    var aPhaseDcDistribution := ReadU16(s, 127);
    if aPhaseDcDistribution.Err? then Err(aPhaseDcDistribution.error) else
    var bPhaseDcDistribution := ReadU16(s, 129);
    if bPhaseDcDistribution.Err? then Err(bPhaseDcDistribution.error) else
    var cPhaseDcDistribution := ReadU16(s, 131);
    if cPhaseDcDistribution.Err? then Err(cPhaseDcDistribution.error) else
    var mainInverterFirmware := ParseStringAt(s, 133, 4);
    if mainInverterFirmware.Err? then Err(mainInverterFirmware.error) else
    var slaveInverterFirmware := ParseStringAt(s, 137, 4);
    if slaveInverterFirmware.Err? then Err(slaveInverterFirmware.error) else
    var year := ReadU8(s, 141);
    if year.Err? then Err(year.error) else
    var month := ReadU8(s, 142);
    if month.Err? then Err(month.error) else
    var day := ReadU8(s, 143);
    if day.Err? then Err(day.error) else
    var hour := ReadU8(s, 144);
    if hour.Err? then Err(hour.error) else
    var minute := ReadU8(s, 145);
    if minute.Err? then Err(minute.error) else
    var second := ReadU8(s, 146);
    if second.Err? then Err(second.error) else
    var unknown6 := ReadU32(s, 147);
    if unknown6.Err? then Err(unknown6.error) else
    Ok(DataTail(
      unknown3.value, countdownTime.value, unknown4.value, pv1InsulationResistance.value,
      pv2InsulationResistance.value, insulationImpedance.value, countryCode.value,
      unknown5.value, leakingCurrent.value, aPhaseDcDistribution.value,
      bPhaseDcDistribution.value, cPhaseDcDistribution.value, mainInverterFirmware.value,
      slaveInverterFirmware.value, year.value, month.value, day.value, hour.value,
      minute.value, second.value, unknown6.value))
  }

  function DecodeData(s: seq<uint8>): (r: Result<DataBody, DecodeError>)
    ensures r.Ok? ==> |s| >= 151
    ensures r.Ok? ==> var d := r.value;
      && d.inverterTemperature * 10.0 == AsI16(LeU16(s[37], s[38])) as real
      && d.vdc1 * 10.0 == LeU16(s[39], s[40]) as real && d.vdc2 * 10.0 == LeU16(s[41], s[42]) as real
      && d.idc1 * 10.0 == LeU16(s[43], s[44]) as real && d.idc2 * 10.0 == LeU16(s[45], s[46]) as real
      && d.iac1 * 10.0 == LeU16(s[47], s[48]) as real && d.iac2 * 10.0 == LeU16(s[49], s[50]) as real
      && d.iac3 * 10.0 == LeU16(s[51], s[52]) as real
      && d.vac1 * 10.0 == LeU16(s[53], s[54]) as real && d.vac2 * 10.0 == LeU16(s[55], s[56]) as real
      && d.vac3 * 10.0 == LeU16(s[57], s[58]) as real
      && d.fac * 100.0 == LeU16(s[59], s[60]) as real
      && d.currentPower == LeU32(s[61], s[62], s[63], s[64])
      && d.dailyEnergy * 100.0 == LeU32(s[65], s[66], s[67], s[68]) as real
      && d.totalEnergy * 10.0 == LeU32(s[69], s[70], s[71], s[72]) as real
      && d.loggerTemperature == AsI16(LeU16(s[101], s[102]))
      && d.busVoltage * 10.0 == LeU16(s[103], s[104]) as real
      && d.viceCpuInputVoltage * 10.0 == LeU16(s[105], s[106]) as real
  {
    var head := DecodeDataHead(s);
    if head.Err? then Err(head.error) else
    var readings := DecodeDataReadings(s);
    if readings.Err? then Err(readings.error) else
    var status := DecodeDataStatus(s);
    if status.Err? then Err(status.error) else
    var tail := DecodeDataTail(s);
    if tail.Err? then Err(tail.error) else
    var h, g, u, t := head.value, readings.value, status.value, tail.value;
    Ok(DataBody(
      h.unknown1, h.sensorTypeList, h.totalOperationTime, h.timer, h.timestamp, h.unknown2,
      h.counter, h.inverterSerialNumber, g.inverterTemperature, g.vdc1, g.vdc2, g.idc1, g.idc2,
      g.iac1, g.iac2, g.iac3, g.vac1, g.vac2, g.vac3, g.fac, g.currentPower, g.dailyEnergy,
      g.totalEnergy, g.totalTime, u.inverterStatus, u.faultCode1, u.faultCode2, u.faultCode3,
      u.faultCode4, u.faultCode5, u.faultCode6, u.faultCode7, u.faultCode8, u.faultCode9,
      u.faultCode10, u.alertMessageCode, u.innerBoardMessageCode, u.inverterFirmware,
      u.hardwareVersion, u.loggerTemperature, u.busVoltage, u.viceCpuInputVoltage, t.unknown3,
      t.countdownTime, t.unknown4, t.pv1InsulationResistance, t.pv2InsulationResistance,
      t.insulationImpedance, t.countryCode, t.unknown5, t.leakingCurrent,
      t.aPhaseDcDistribution, t.bPhaseDcDistribution, t.cPhaseDcDistribution,
      t.mainInverterFirmware, t.slaveInverterFirmware, t.year, t.month, t.day, t.hour,
      t.minute, t.second, t.unknown6))
  }

  function DecodeHello(s: seq<uint8>): (r: Result<HelloBody, DecodeError>)
    ensures r.Ok? ==> |s| >= 87 && r.value.one == s[0]
    ensures r.Ok? ==> r.value.sensorTypeList == LeU16(s[85], s[86])
  {
    var one := ReadU8(s, 0);
    if one.Err? then Err(one.error) else
    var totalOperationTime := ReadU32(s, 1);
    if totalOperationTime.Err? then Err(totalOperationTime.error) else
    var timer := ReadU32(s, 5);
    if timer.Err? then Err(timer.error) else
    var unknown1 := ReadU32(s, 9);
    if unknown1.Err? then Err(unknown1.error) else
    var uploadingFrequency := ReadU8(s, 13);
    if uploadingFrequency.Err? then Err(uploadingFrequency.error) else
    var dataLoggingFrequency := ReadU8(s, 14);
    if dataLoggingFrequency.Err? then Err(dataLoggingFrequency.error) else
    var hearbeatFrequency := ReadU8(s, 15);
    if hearbeatFrequency.Err? then Err(hearbeatFrequency.error) else
    var maxNumOfConnectedDevices := ReadU8(s, 16);
    if maxNumOfConnectedDevices.Err? then Err(maxNumOfConnectedDevices.error) else
    var signalQuality := ReadU8(s, 17);
    if signalQuality.Err? then Err(signalQuality.error) else
    var sensorType := ReadU8(s, 18);
    if sensorType.Err? then Err(sensorType.error) else
    var moduleVersion := ParseStringAt(s, 19, 40);
    if moduleVersion.Err? then Err(moduleVersion.error) else
    var staMacAddress := ReadBytes(s, 59, 6);
    if staMacAddress.Err? then Err(staMacAddress.error) else
    var localIpAddress := ParseStringAt(s, 65, 16);
    if localIpAddress.Err? then Err(localIpAddress.error) else
    var unknown2 := ReadU16(s, 81);
    if unknown2.Err? then Err(unknown2.error) else
    var unknown3 := ReadU16(s, 83);
    if unknown3.Err? then Err(unknown3.error) else
    var sensorTypeList := ReadU16(s, 85);
    if sensorTypeList.Err? then Err(sensorTypeList.error) else
    Ok(HelloBody(
      one.value, totalOperationTime.value, timer.value, unknown1.value,
      uploadingFrequency.value, dataLoggingFrequency.value, hearbeatFrequency.value,
      maxNumOfConnectedDevices.value, signalQuality.value, sensorType.value,
      moduleVersion.value, MacAddr6(staMacAddress.value), localIpAddress.value,
      unknown2.value, unknown3.value, sensorTypeList.value))
  }

  function DecodeHelloCd(s: seq<uint8>): (r: Result<HelloCdBody, DecodeError>)
    ensures r.Ok? ==> |s| >= 28 && r.value.one == s[0]
  {
    var one := ReadU8(s, 0);
    if one.Err? then Err(one.error) else
    var totalOperationTime := ReadU32(s, 1);
    if totalOperationTime.Err? then Err(totalOperationTime.error) else
    var timer := ReadU32(s, 5);
    if timer.Err? then Err(timer.error) else
    var timestamp := ReadU32(s, 9);
    if timestamp.Err? then Err(timestamp.error) else
    var unknown1 := ReadU16(s, 13);
    if unknown1.Err? then Err(unknown1.error) else
    var unknown2 := ReadU32(s, 15);
    if unknown2.Err? then Err(unknown2.error) else
    var unknown3 := ReadU8(s, 19);
    if unknown3.Err? then Err(unknown3.error) else
    var unknown4 := ReadU32(s, 20);
    if unknown4.Err? then Err(unknown4.error) else
    var unknown5 := ReadU32(s, 24);
    if unknown5.Err? then Err(unknown5.error) else
    Ok(HelloCdBody(
      one.value, totalOperationTime.value, timer.value, timestamp.value, unknown1.value,
      unknown2.value, unknown3.value, unknown4.value, unknown5.value))
  }

  function DecodeUnknown44(s: seq<uint8>): (r: Result<Unknown44Body, DecodeError>)
    ensures r.Ok? ==> |s| >= 31 && r.value.unknown1 == s[0]
  {
    var unknown1 := ReadU8(s, 0);
    if unknown1.Err? then Err(unknown1.error) else
    var unknown2 := ReadU8(s, 1);
    if unknown2.Err? then Err(unknown2.error) else
    var unknown3 := ReadU8(s, 2);
    if unknown3.Err? then Err(unknown3.error) else
    var unknown4 := ReadU8(s, 3);
    if unknown4.Err? then Err(unknown4.error) else
    var unknown5 := ReadU8(s, 4);
    if unknown5.Err? then Err(unknown5.error) else
    var unknown6 := ReadU8(s, 5);
    if unknown6.Err? then Err(unknown6.error) else
    var unknown7 := ReadU8(s, 6);
    if unknown7.Err? then Err(unknown7.error) else
    var unknown8 := ReadU8(s, 7);
    if unknown8.Err? then Err(unknown8.error) else
    var unknown9 := ReadU8(s, 8);
    if unknown9.Err? then Err(unknown9.error) else
    var timestamp := ReadU32(s, 9);
    if timestamp.Err? then Err(timestamp.error) else
    var unknown10 := ReadU16(s, 13);
    if unknown10.Err? then Err(unknown10.error) else
    var wifiSsid := ParseStringAt(s, 15, 16);
    if wifiSsid.Err? then Err(wifiSsid.error) else
    Ok(Unknown44Body(
      unknown1.value, unknown2.value, unknown3.value, unknown4.value, unknown5.value,
      unknown6.value, unknown7.value, unknown8.value, unknown9.value, timestamp.value,
      unknown10.value, wifiSsid.value))
  }

  /** Whether a body is of the variant that request kind t carries. */
  predicate Carries(t: SofarMessageType, d: IncomingMessageData) {
    match t
    case Heartbeat => d.IncomingHeartbeat?
    case Data => d.IncomingData?
    case Hello => d.IncomingHello?
    case HelloCd => d.IncomingHelloCd?
    case Unknown44 => d.IncomingUnknown44?
  }

  /** The `bincode::deserialize` dispatch of the decoder: the layout chosen by the type. */
  function DecodeBody(t: SofarMessageType, s: seq<uint8>): (r: Result<IncomingMessageData, DecodeError>)
    ensures r.Ok? ==> Carries(t, r.value) && |s| >= 1 && MessageId(r.value) == s[0]
  {
    match t
    case Heartbeat => var b := DecodeHeartbeat(s); if b.Err? then Err(b.error) else Ok(IncomingHeartbeat(b.value))
    case Data => var b := DecodeData(s); if b.Err? then Err(b.error) else Ok(IncomingData(b.value))
    case Hello => var b := DecodeHello(s); if b.Err? then Err(b.error) else Ok(IncomingHello(b.value))
    case HelloCd => var b := DecodeHelloCd(s); if b.Err? then Err(b.error) else Ok(IncomingHelloCd(b.value))
    case Unknown44 =>
      var b := DecodeUnknown44(s); if b.Err? then Err(b.error) else Ok(IncomingUnknown44(b.value))
  }

  // ---------------------------------------------------------------- replies

  /** The leading byte of each request body, which a reply echoes as its message id. */
  function MessageId(d: IncomingMessageData): uint8 {
    match d
    case IncomingHeartbeat(b) => b.unknown
    case IncomingData(b) => b.unknown1
    case IncomingHello(b) => b.one
    case IncomingHelloCd(b) => b.one
    case IncomingHelloEnd(b) => b.one
    case IncomingUnknown44(b) => b.unknown1
  }

  /**
   * `SofarMessage::from_incoming_message`: the server's acknowledgement of a request.
   * The message number is incremented as a u8; the source's `+ 1` panics at 255 in a
   * debug build and wraps to 0 in a release build, and the model takes the wrap.
   */
  function FromIncomingMessage(request: IncomingMessage, timestamp: uint32): (reply: OutgoingMessage)
    ensures reply.data.response.messageId == MessageId(request.data)
    ensures reply.data.response.timestamp == timestamp
    ensures reply.data.response.unknown1 == 1
    ensures reply.data.response.unknown2 == 0x0078 && reply.data.response.unknown3 == 0
    ensures reply.messageType == request.messageType
    ensures reply.messageNumber == (request.messageNumber + 1) % 0x100
    ensures reply.messageNumber2 == request.messageNumber2 && reply.dataLoggerSn == request.dataLoggerSn
  {
    SofarMessage(
      OutgoingServerResponse(ServerResponse(MessageId(request.data), 1, timestamp, 0x0078, 0)),
      request.messageType,
      (request.messageNumber + 1) % 0x100,
      request.messageNumber2,
      request.dataLoggerSn)
  }

  // ---------------------------------------------------------------- layout facts

  /** The number of bytes each request layout occupies. */
  function LayoutSize(t: SofarMessageType): nat {
    match t
    case Heartbeat => 1
    case Data => 151
    case Hello => 87
    case HelloCd => 28
    case Unknown44 => 31
  }

  /** The text fields of each layout, as (offset, length), hold valid UTF-8. */
  predicate TextFieldsValid(t: SofarMessageType, s: seq<uint8>)
    requires |s| >= LayoutSize(t)
  {
    match t
    case Data =>
      && ValidUtf8(s[21..37])     // inverter_serial_number
      && ValidUtf8(s[93..97])     // inverter_firmware
      && ValidUtf8(s[97..101])    // hardware_version
      && ValidUtf8(s[133..137])   // main_inverter_firmware
      && ValidUtf8(s[137..141])   // slave_inverter_firmware
    case Hello =>
      && ValidUtf8(s[19..59])     // module_version
      && ValidUtf8(s[65..81])     // local_ip_address
    case Unknown44 =>
      ValidUtf8(s[15..31])        // wifi_ssid
    case _ => true
  }

  /** The Data layout decodes exactly when all 151 bytes are there and its texts are UTF-8. */
  lemma DataDecodeSucceeds(s: seq<uint8>)
    ensures DecodeData(s).Ok? <==> |s| >= 151 && TextFieldsValid(Data, s)
  {
  }

  lemma HelloDecodeSucceeds(s: seq<uint8>)
    ensures DecodeHello(s).Ok? <==> |s| >= 87 && TextFieldsValid(Hello, s)
  {
  }

  lemma Unknown44DecodeSucceeds(s: seq<uint8>)
    ensures DecodeUnknown44(s).Ok? <==> |s| >= 31 && TextFieldsValid(Unknown44, s)
  {
  }

  /**
   * A body decodes exactly when the slice holds the whole layout and every text field
   * in it is UTF-8; this is the only way a recognised frame's body can be rejected.
   */
  lemma BodyDecodeSucceeds(t: SofarMessageType, s: seq<uint8>)
    ensures DecodeBody(t, s).Ok? <==> |s| >= LayoutSize(t) && TextFieldsValid(t, s)
  {
    match t
    case Data => DataDecodeSucceeds(s);
    case Hello => HelloDecodeSucceeds(s);
    case Unknown44 => Unknown44DecodeSucceeds(s);
    case _ =>
  }

  /** The Heartbeat decoder reads only the first 1 bytes of its slice, one field at a time. */
  lemma HeartbeatDecodeLocal(s: seq<uint8>, s': seq<uint8>)
    requires |s| >= 1 && |s'| >= 1 && s[..1] == s'[..1]
    ensures DecodeHeartbeat(s) == DecodeHeartbeat(s')
  {
    IntegerLocal(s, s', 1, 0, 1);
  }

  /** The span [0, 37) of the Data layout depends only on the first 37 bytes. */
  lemma DataHeadLocal(s: seq<uint8>, s': seq<uint8>)
    requires |s| >= 37 && |s'| >= 37 && s[..37] == s'[..37]
    ensures DecodeDataHead(s) == DecodeDataHead(s')
  {
    IntegerLocal(s, s', 37, 0, 1); IntegerLocal(s, s', 37, 1, 2); IntegerLocal(s, s', 37, 3, 4);
    IntegerLocal(s, s', 37, 7, 4); IntegerLocal(s, s', 37, 11, 4); IntegerLocal(s, s', 37, 15, 2);
    IntegerLocal(s, s', 37, 17, 4); TextLocal(s, s', 37, 21, 16);
  }

  /** The span [37, 77) of the Data layout depends only on the first 77 bytes. */
  lemma DataReadingsLocal(s: seq<uint8>, s': seq<uint8>)
    requires |s| >= 77 && |s'| >= 77 && s[..77] == s'[..77]
    ensures DecodeDataReadings(s) == DecodeDataReadings(s')
  {
    ScaledLocal(s, s', 77, 37, 2, 10); ScaledLocal(s, s', 77, 39, 2, 10);
    ScaledLocal(s, s', 77, 41, 2, 10); ScaledLocal(s, s', 77, 43, 2, 10);
    ScaledLocal(s, s', 77, 45, 2, 10); ScaledLocal(s, s', 77, 47, 2, 10);
    ScaledLocal(s, s', 77, 49, 2, 10); ScaledLocal(s, s', 77, 51, 2, 10);
    ScaledLocal(s, s', 77, 53, 2, 10); ScaledLocal(s, s', 77, 55, 2, 10);
    ScaledLocal(s, s', 77, 57, 2, 10); ScaledLocal(s, s', 77, 59, 2, 100);
    IntegerLocal(s, s', 77, 61, 4); ScaledLocal(s, s', 77, 65, 4, 100);
    ScaledLocal(s, s', 77, 69, 4, 10); IntegerLocal(s, s', 77, 73, 4);
  }

  /** The span [77, 107) of the Data layout depends only on the first 107 bytes. */
  lemma DataStatusLocal(s: seq<uint8>, s': seq<uint8>)
    requires |s| >= 107 && |s'| >= 107 && s[..107] == s'[..107]
    ensures DecodeDataStatus(s) == DecodeDataStatus(s')
  {
    IntegerLocal(s, s', 107, 77, 2); IntegerLocal(s, s', 107, 79, 1);
    IntegerLocal(s, s', 107, 80, 1); IntegerLocal(s, s', 107, 81, 1);
    IntegerLocal(s, s', 107, 82, 1); IntegerLocal(s, s', 107, 83, 1);
    IntegerLocal(s, s', 107, 84, 1); IntegerLocal(s, s', 107, 85, 1);
    IntegerLocal(s, s', 107, 86, 1); IntegerLocal(s, s', 107, 87, 1);
    IntegerLocal(s, s', 107, 88, 1); IntegerLocal(s, s', 107, 89, 2);
    IntegerLocal(s, s', 107, 91, 2); TextLocal(s, s', 107, 93, 4); TextLocal(s, s', 107, 97, 4);
    IntegerLocal(s, s', 107, 101, 2); ScaledLocal(s, s', 107, 103, 2, 10);
    ScaledLocal(s, s', 107, 105, 2, 10);
  }

  /** The span [107, 151) of the Data layout depends only on the first 151 bytes. */
  lemma DataTailLocal(s: seq<uint8>, s': seq<uint8>)
    requires |s| >= 151 && |s'| >= 151 && s[..151] == s'[..151]
    ensures DecodeDataTail(s) == DecodeDataTail(s')
  {
    IntegerLocal(s, s', 151, 107, 2); IntegerLocal(s, s', 151, 109, 2);
    IntegerLocal(s, s', 151, 111, 2); IntegerLocal(s, s', 151, 113, 2);
    IntegerLocal(s, s', 151, 115, 2); IntegerLocal(s, s', 151, 117, 2);
    IntegerLocal(s, s', 151, 119, 2); IntegerLocal(s, s', 151, 121, 4);
    IntegerLocal(s, s', 151, 125, 2); IntegerLocal(s, s', 151, 127, 2);
    IntegerLocal(s, s', 151, 129, 2); IntegerLocal(s, s', 151, 131, 2);
    TextLocal(s, s', 151, 133, 4); TextLocal(s, s', 151, 137, 4); IntegerLocal(s, s', 151, 141, 1);
    IntegerLocal(s, s', 151, 142, 1); IntegerLocal(s, s', 151, 143, 1);
    IntegerLocal(s, s', 151, 144, 1); IntegerLocal(s, s', 151, 145, 1);
    IntegerLocal(s, s', 151, 146, 1); IntegerLocal(s, s', 151, 147, 4);
  }

  /** The Data decoder reads only the first 151 bytes of its slice, one span at a time. */
  lemma DataDecodeLocal(s: seq<uint8>, s': seq<uint8>)
    requires |s| >= 151 && |s'| >= 151 && s[..151] == s'[..151]
    ensures DecodeData(s) == DecodeData(s')
  {
    assert s[..37] == s[..151][..37] && s'[..37] == s'[..151][..37];
    assert s[..77] == s[..151][..77] && s'[..77] == s'[..151][..77];
    assert s[..107] == s[..151][..107] && s'[..107] == s'[..151][..107];
    DataHeadLocal(s, s');
    DataReadingsLocal(s, s');
    DataStatusLocal(s, s');
    DataTailLocal(s, s');
  }

  /** The Hello decoder reads only the first 87 bytes of its slice, one field at a time. */
  lemma HelloDecodeLocal(s: seq<uint8>, s': seq<uint8>)
    requires |s| >= 87 && |s'| >= 87 && s[..87] == s'[..87]
    ensures DecodeHello(s) == DecodeHello(s')
  {
    IntegerLocal(s, s', 87, 0, 1); IntegerLocal(s, s', 87, 1, 4); IntegerLocal(s, s', 87, 5, 4);
    IntegerLocal(s, s', 87, 9, 4); IntegerLocal(s, s', 87, 13, 1); IntegerLocal(s, s', 87, 14, 1);
    IntegerLocal(s, s', 87, 15, 1); IntegerLocal(s, s', 87, 16, 1); IntegerLocal(s, s', 87, 17, 1);
    IntegerLocal(s, s', 87, 18, 1); TextLocal(s, s', 87, 19, 40); BytesLocal(s, s', 87, 59, 6);
    TextLocal(s, s', 87, 65, 16); IntegerLocal(s, s', 87, 81, 2); IntegerLocal(s, s', 87, 83, 2);
    IntegerLocal(s, s', 87, 85, 2);
  }

  /** The HelloCd decoder reads only the first 28 bytes of its slice, one field at a time. */
  lemma HelloCdDecodeLocal(s: seq<uint8>, s': seq<uint8>)
    requires |s| >= 28 && |s'| >= 28 && s[..28] == s'[..28]
    ensures DecodeHelloCd(s) == DecodeHelloCd(s')
  {
    IntegerLocal(s, s', 28, 0, 1); IntegerLocal(s, s', 28, 1, 4); IntegerLocal(s, s', 28, 5, 4);
    IntegerLocal(s, s', 28, 9, 4); IntegerLocal(s, s', 28, 13, 2); IntegerLocal(s, s', 28, 15, 4);
    IntegerLocal(s, s', 28, 19, 1); IntegerLocal(s, s', 28, 20, 4); IntegerLocal(s, s', 28, 24, 4);
  }

  /** The Unknown44 decoder reads only the first 31 bytes of its slice, one field at a time. */
  lemma Unknown44DecodeLocal(s: seq<uint8>, s': seq<uint8>)
    requires |s| >= 31 && |s'| >= 31 && s[..31] == s'[..31]
    ensures DecodeUnknown44(s) == DecodeUnknown44(s')
  {
    IntegerLocal(s, s', 31, 0, 1); IntegerLocal(s, s', 31, 1, 1); IntegerLocal(s, s', 31, 2, 1);
    IntegerLocal(s, s', 31, 3, 1); IntegerLocal(s, s', 31, 4, 1); IntegerLocal(s, s', 31, 5, 1);
    IntegerLocal(s, s', 31, 6, 1); IntegerLocal(s, s', 31, 7, 1); IntegerLocal(s, s', 31, 8, 1);
    IntegerLocal(s, s', 31, 9, 4); IntegerLocal(s, s', 31, 13, 2); TextLocal(s, s', 31, 15, 16);
  }

  /** A body decoder reads only the first LayoutSize(t) bytes of its slice. */
  lemma BodyDecodeLocal(t: SofarMessageType, s: seq<uint8>, s': seq<uint8>)
    requires |s| >= LayoutSize(t) && |s'| >= LayoutSize(t)
    requires s[..LayoutSize(t)] == s'[..LayoutSize(t)]
    ensures DecodeBody(t, s) == DecodeBody(t, s')
  {
    match t
    case Heartbeat => HeartbeatDecodeLocal(s, s');
    case Data => DataDecodeLocal(s, s');
    case Hello => HelloDecodeLocal(s, s');
    case HelloCd => HelloCdDecodeLocal(s, s');
    case Unknown44 => Unknown44DecodeLocal(s, s');
  }

  lemma DataMessageId(s: seq<uint8>)
    requires DecodeData(s).Ok?
    ensures DecodeData(s).value.unknown1 == s[0]
  {
  }

  /** Where the Data body keeps the logger's timestamp. */
  lemma DataTimestampAt(s: seq<uint8>)
    requires DecodeData(s).Ok?
    ensures DecodeData(s).value.timestamp == LeU32(s[11], s[12], s[13], s[14])
  {
  }

  /** Where the Data body keeps the inverter's serial number. */
  lemma DataSerialNumberAt(s: seq<uint8>)
    requires DecodeData(s).Ok?
    ensures DecodeData(s).value.inverterSerialNumber == s[21..37]
  {
  }

  /** Where the Data body keeps the logger's timestamp and the inverter's serial number. */
  lemma DataHeaderFieldsAt(s: seq<uint8>)
    requires DecodeData(s).Ok?
    ensures var d := DecodeData(s).value;
      && d.timestamp == LeU32(s[11], s[12], s[13], s[14])
      && d.inverterSerialNumber == s[21..37]
  {
    DataTimestampAt(s);
    DataSerialNumberAt(s);
  }

  /** The message id of a decoded body is the first byte of the slice it was decoded from. */
  lemma MessageIdIsFirstBodyByte(t: SofarMessageType, s: seq<uint8>)
    requires DecodeBody(t, s).Ok?
    ensures |s| >= 1 && MessageId(DecodeBody(t, s).value) == s[0]
  {
    match t
    case Heartbeat =>
    case Data => DataMessageId(s);
    case Hello =>
    case HelloCd =>
    case Unknown44 =>
  }
}
