/** Configuration, inputs, outputs and memory of the AGC/AVC power controller. */
module ControllerTypes {
  import opened Results
  import opened PowerLimits

  datatype StationLimits = StationLimits(
    ratedActivePowerKw: real, ratedApparentPowerKva: real, maxImportPowerKw: real, maxExportPowerKw: real,
    maxReactivePowerKvar: real, transformerRatedKva: real)

  datatype AgcLoop = AgcLoop(
    enabled: bool, deadbandKw: real, kp: real, ki: real, integralMinKw: real, integralMaxKw: real,
    minKw: real, maxKw: real, riseKwPerSec: real, fallKwPerSec: real,
    frequencyDroopEnabled: bool, nominalHz: real, kwPerHz: real, droopLimitKw: real)

  datatype AvcLoop = AvcLoop(
    enabled: bool, defaultMode: string, deadbandKvar: real, voltageDeadbandV: real, kpQ: real, kiQ: real,
    integralMinKvar: real, integralMaxKvar: real, kpV: real, kiV: real, minKvar: real, maxKvar: real,
    riseKvarPerSec: real, fallKvarPerSec: real)

  /** A PCS: one power converter of the fleet. */
  datatype PcsConfig = PcsConfig(
    meterCode: string, enabled: bool, deviceType: string, weight: real,
    ratedActivePowerKw: CapabilityConfig, ratedApparentPowerKva: CapabilityConfig, ratedReactivePowerKvar: real,
    maxChargePowerKw: real, maxDischargePowerKw: real,
    minStableChargePowerKw: real, minStableDischargePowerKw: real,
    socDischargeStopPercent: real, socDischargeDeratePercent: real,
    socChargeDeratePercent: real, socChargeStopPercent: real,
    temperatureDerateStartC: real, temperatureStopC: real,
    currentDerateStartPercent: real, currentStopPercent: real, ratedAcCurrentA: real,
    setpointType: string,
    riseKwPerSec: real, fallKwPerSec: real, riseKvarPerSec: real, fallKvarPerSec: real,
    fallbackToStaticLimit: bool,
    writeDeadbandKw: real, writeDeadbandKvar: real, minWriteIntervalMs: int,
    feedbackTimeoutMs: int, feedbackToleranceKw: real, feedbackToleranceKvar: real,
    activeTargets: seq<nat>, reactiveTargets: seq<nat>)

  datatype Config = Config(
    enabled: bool, shadowMode: bool, submitWrites: bool,
    cycleMs: int, avcCycleMs: int, commandTimeoutMs: int, writeResultTimeoutMs: int,
    maxConsecutiveWriteFailures: int, pqPriority: string,
    stationLimits: StationLimits, agc: AgcLoop, avc: AvcLoop, pcs: seq<PcsConfig>)

  datatype Command = Command(
    sequence: int, issuedAtMs: int, targetPkw: real, targetQkvar: real, targetVoltageV: real,
    targetPowerFactor: real, avcMode: string)

  datatype PcsInput = PcsInput(
    online: bool, ready: bool, chargeAllowed: bool, dischargeAllowed: bool, inputHealthy: bool,
    soc: real, actualPkw: real, actualQkvar: real,
    availableChargeKw: Option<real>, availableDischargeKw: Option<real>, availableReactiveKvar: Option<real>,
    collectedRatedActiveKw: Option<real>, collectedRatedApparentKva: Option<real>,
    temperatureC: Option<real>, maxAcCurrentA: Option<real>)

  datatype CycleInput = CycleInput(
    nowMs: int, inputHealthy: bool, remoteEnable: bool, emergencyStop: bool, fireAlarm: bool,
    priorityBlocked: bool, pccActivePowerKw: real, pccReactivePowerKvar: real, pccVoltageV: real,
    pccPowerFactor: real, frequencyHz: Option<real>, command: Command, pcs: seq<PcsInput>)

  datatype Assignment = Assignment(
    meterCode: string, available: bool, target: Power,
    availableChargeKw: real, availableDischargeKw: real, availableReactiveKvar: real)

  datatype RuntimeState =
    | Disabled | Standby | Active | Degraded | PausedByPriority | RampToZero | Failsafe

  /** `commandAgeMs` is None where the C++ code holds an infinite age. */
  datatype CycleOutput = CycleOutput(
    state: RuntimeState, commandSequence: int, commandAgeMs: Option<int>,
    rawTarget: Power, effectiveTarget: Power, agcErrorKw: real, avcError: real,
    available: Power, unserved: Power, pcs: seq<Assignment>)

  /** What the controller remembers between cycles; `pcs` holds the last target of every PCS. */
  datatype Memory = Memory(
    lastCycleMs: int, lastAvcCalculationMs: int, integralP: real, integralQ: real, integralV: real,
    previous: Power, heldRawQkvar: real, lastAvcError: real, pcs: seq<Power>)
}
