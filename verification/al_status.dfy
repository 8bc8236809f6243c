/** AL status codes reported by a slave (`AlStatus` and its `From<u16>`).
    Each listed code names a variant; every other code reads as Unknown. */
module AlStatusCodes {
  import opened Bytes

  datatype AlStatus =
    | NoError
    | UnspecifiedError
    | NoMemory
    | InvalidRequestedStateChange
    | UnknownRequestedState
    | BootstrapNotSupported
    | NoValidFirmware
    | InvalidMailboxConfig
    | InvalidMailboxConfig2
    | InvalidSyncManagerConfiguration
    | NoValidInputsAvailable
    | NoValidOutputs
    | SynchronizationError
    | SyncManagerWatchdog
    | InvalidSyncManagerTypes
    | InvalidOutputConfiguration
    | InvalidInputConfiguration
    | InvalidWatchdogConfiguration
    | SlaveNeedsColdStart
    | SlaveNeedsInit
    | SlaveNeedsPreOp
    | SlaveNeedsSafeOp
    | InvalidInputMapping
    | InvalidOutputMapping
    | InconsistentSettings
    | FreerunNotSupported
    | SynchronisationNotSupported
    | FreerunNeeds3BufferMode
    | BackgroundWatchdog
    | NovalidInputsAndOutputs
    | FatalSyncError
    | NoSyncError
    | InvalidInputFmmuConfiguration
    | InvalidDcSyncConfiguration
    | InvalidDcLatchConfiguration
    | PllError
    | DcSyncIoError
    | DcSyncTimeoutError
    | DcInvalidSyncCycleTime
    | DcInvalidSync0CycleTime
    | DcInvalidSync1CycleTime
    | MbxAoe
    | MbxEoe
    | MbxCoe
    | MbxFoe
    | MbxSoe
    | MbcVoe
    | EepromNoAccess
    | EeepromError
    | SlaveRestartedLocally
    | DeviceIdValueUpdated
    | ApplicationControllerAvailable
    | Unknown

  /** The discriminant of each variant (`v as u16`). */
  function Code(v: AlStatus): u16
  {
    match v
    case NoError => 0x0000
    case UnspecifiedError => 0x0001
    case NoMemory => 0x0002
    case InvalidRequestedStateChange => 0x0011
    case UnknownRequestedState => 0x0012
    case BootstrapNotSupported => 0x0013
    case NoValidFirmware => 0x0014
    case InvalidMailboxConfig => 0x0015
    case InvalidMailboxConfig2 => 0x0016
    case InvalidSyncManagerConfiguration => 0x0017
    case NoValidInputsAvailable => 0x0018
    case NoValidOutputs => 0x0019
    case SynchronizationError => 0x001A
    case SyncManagerWatchdog => 0x001B
    case InvalidSyncManagerTypes => 0x001C
    case InvalidOutputConfiguration => 0x001D
    case InvalidInputConfiguration => 0x001E
    case InvalidWatchdogConfiguration => 0x001F
    case SlaveNeedsColdStart => 0x0020
    case SlaveNeedsInit => 0x0021
    case SlaveNeedsPreOp => 0x0022
    case SlaveNeedsSafeOp => 0x0023
    case InvalidInputMapping => 0x0024
    case InvalidOutputMapping => 0x0025
    case InconsistentSettings => 0x0026
    case FreerunNotSupported => 0x0027
    case SynchronisationNotSupported => 0x0028
    case FreerunNeeds3BufferMode => 0x0029
    case BackgroundWatchdog => 0x002A
    case NovalidInputsAndOutputs => 0x002B
    case FatalSyncError => 0x002C
    case NoSyncError => 0x002D
    case InvalidInputFmmuConfiguration => 0x002E
    case InvalidDcSyncConfiguration => 0x0030
    case InvalidDcLatchConfiguration => 0x0031
    case PllError => 0x0032
    case DcSyncIoError => 0x0033
    case DcSyncTimeoutError => 0x0034
    case DcInvalidSyncCycleTime => 0x0035
    case DcInvalidSync0CycleTime => 0x0036
    case DcInvalidSync1CycleTime => 0x0037
    case MbxAoe => 0x0041
    case MbxEoe => 0x0042
    case MbxCoe => 0x0043
    case MbxFoe => 0x0044
    case MbxSoe => 0x0045
    case MbcVoe => 0x004F
    case EepromNoAccess => 0x0050
    case EeepromError => 0x0051
    case SlaveRestartedLocally => 0x0060
    case DeviceIdValueUpdated => 0x0061
    case ApplicationControllerAvailable => 0x00F0
    case Unknown => 0xFFFF
  }

  /** `AlStatus::from(code)`: the variant whose discriminant is the code,
      or Unknown when no variant has it. */
  function FromU16(code: u16): AlStatus
  {
    match code
    case 0x0000 => NoError
    case 0x0001 => UnspecifiedError
    case 0x0002 => NoMemory
    case 0x0011 => InvalidRequestedStateChange
    case 0x0012 => UnknownRequestedState
    case 0x0013 => BootstrapNotSupported
    case 0x0014 => NoValidFirmware
    case 0x0015 => InvalidMailboxConfig
    case 0x0016 => InvalidMailboxConfig2
    case 0x0017 => InvalidSyncManagerConfiguration
    case 0x0018 => NoValidInputsAvailable
    case 0x0019 => NoValidOutputs
    case 0x001A => SynchronizationError
    case 0x001B => SyncManagerWatchdog
    case 0x001C => InvalidSyncManagerTypes
    case 0x001D => InvalidOutputConfiguration
    case 0x001E => InvalidInputConfiguration
    case 0x001F => InvalidWatchdogConfiguration
    case 0x0020 => SlaveNeedsColdStart
    case 0x0021 => SlaveNeedsInit
    case 0x0022 => SlaveNeedsPreOp
    case 0x0023 => SlaveNeedsSafeOp
    case 0x0024 => InvalidInputMapping
    case 0x0025 => InvalidOutputMapping
    case 0x0026 => InconsistentSettings
    case 0x0027 => FreerunNotSupported
    case 0x0028 => SynchronisationNotSupported
    case 0x0029 => FreerunNeeds3BufferMode
    case 0x002A => BackgroundWatchdog
    case 0x002B => NovalidInputsAndOutputs
    case 0x002C => FatalSyncError
    case 0x002D => NoSyncError
    case 0x002E => InvalidInputFmmuConfiguration
    case 0x0030 => InvalidDcSyncConfiguration
    case 0x0031 => InvalidDcLatchConfiguration
    case 0x0032 => PllError
    case 0x0033 => DcSyncIoError
    case 0x0034 => DcSyncTimeoutError
    case 0x0035 => DcInvalidSyncCycleTime
    case 0x0036 => DcInvalidSync0CycleTime
    case 0x0037 => DcInvalidSync1CycleTime
    case 0x0041 => MbxAoe
    case 0x0042 => MbxEoe
    case 0x0043 => MbxCoe
    case 0x0044 => MbxFoe
    case 0x0045 => MbxSoe
    case 0x004F => MbcVoe
    case 0x0050 => EepromNoAccess
    case 0x0051 => EeepromError
    case 0x0060 => SlaveRestartedLocally
    case 0x0061 => DeviceIdValueUpdated
    case 0x00F0 => ApplicationControllerAvailable
    case _ => Unknown
  }

  /** Round trip: the discriminants are distinct, so every variant,
      Unknown (0xFFFF) included, is read back from its own code. */
  lemma FromCodeRoundTrip(v: AlStatus)
    ensures FromU16(Code(v)) == v
  {
    if Code(v) < 0x0020 {
      RoundTripBelow20(v);
    } else if Code(v) < 0x0040 {
      RoundTripBelow40(v);
    } else if Code(v) < 0xFFFF {
      RoundTripFrom40(v);
    } else {
      assert v == Unknown;
    }
  }

  /** The round trip for the codes below 0x0020. */
  lemma RoundTripBelow20(v: AlStatus)
    requires Code(v) < 0x0020
    ensures FromU16(Code(v)) == v
  {
    match v
    case NoError => assert FromU16(0x0000) == NoError;
    case UnspecifiedError => assert FromU16(0x0001) == UnspecifiedError;
    case NoMemory => assert FromU16(0x0002) == NoMemory;
    case InvalidRequestedStateChange => assert FromU16(0x0011) == InvalidRequestedStateChange;
    case UnknownRequestedState => assert FromU16(0x0012) == UnknownRequestedState;
    case BootstrapNotSupported => assert FromU16(0x0013) == BootstrapNotSupported;
    case NoValidFirmware => assert FromU16(0x0014) == NoValidFirmware;
    case InvalidMailboxConfig => assert FromU16(0x0015) == InvalidMailboxConfig;
    case InvalidMailboxConfig2 => assert FromU16(0x0016) == InvalidMailboxConfig2;
    case InvalidSyncManagerConfiguration => assert FromU16(0x0017) == InvalidSyncManagerConfiguration;
    case NoValidInputsAvailable => assert FromU16(0x0018) == NoValidInputsAvailable;
    case NoValidOutputs => assert FromU16(0x0019) == NoValidOutputs;
    case SynchronizationError => assert FromU16(0x001A) == SynchronizationError;
    case SyncManagerWatchdog => assert FromU16(0x001B) == SyncManagerWatchdog;
    case InvalidSyncManagerTypes => assert FromU16(0x001C) == InvalidSyncManagerTypes;
    case InvalidOutputConfiguration => assert FromU16(0x001D) == InvalidOutputConfiguration;
    case InvalidInputConfiguration => assert FromU16(0x001E) == InvalidInputConfiguration;
    case InvalidWatchdogConfiguration => assert FromU16(0x001F) == InvalidWatchdogConfiguration;
  }

  /** The round trip for the codes 0x0020 to 0x003F. */
  lemma RoundTripBelow40(v: AlStatus)
    requires 0x0020 <= Code(v) < 0x0040
    ensures FromU16(Code(v)) == v
  {
    match v
    case SlaveNeedsColdStart => assert FromU16(0x0020) == SlaveNeedsColdStart;
    case SlaveNeedsInit => assert FromU16(0x0021) == SlaveNeedsInit;
    case SlaveNeedsPreOp => assert FromU16(0x0022) == SlaveNeedsPreOp;
    case SlaveNeedsSafeOp => assert FromU16(0x0023) == SlaveNeedsSafeOp;
    case InvalidInputMapping => assert FromU16(0x0024) == InvalidInputMapping;
    case InvalidOutputMapping => assert FromU16(0x0025) == InvalidOutputMapping;
    case InconsistentSettings => assert FromU16(0x0026) == InconsistentSettings;
    case FreerunNotSupported => assert FromU16(0x0027) == FreerunNotSupported;
    case SynchronisationNotSupported => assert FromU16(0x0028) == SynchronisationNotSupported;
    case FreerunNeeds3BufferMode => assert FromU16(0x0029) == FreerunNeeds3BufferMode;
    case BackgroundWatchdog => assert FromU16(0x002A) == BackgroundWatchdog;
    case NovalidInputsAndOutputs => assert FromU16(0x002B) == NovalidInputsAndOutputs;
    case FatalSyncError => assert FromU16(0x002C) == FatalSyncError;
    case NoSyncError => assert FromU16(0x002D) == NoSyncError;
    case InvalidInputFmmuConfiguration => assert FromU16(0x002E) == InvalidInputFmmuConfiguration;
    case InvalidDcSyncConfiguration => assert FromU16(0x0030) == InvalidDcSyncConfiguration;
    case InvalidDcLatchConfiguration => assert FromU16(0x0031) == InvalidDcLatchConfiguration;
    case PllError => assert FromU16(0x0032) == PllError;
    case DcSyncIoError => assert FromU16(0x0033) == DcSyncIoError;
    case DcSyncTimeoutError => assert FromU16(0x0034) == DcSyncTimeoutError;
    case DcInvalidSyncCycleTime => assert FromU16(0x0035) == DcInvalidSyncCycleTime;
    case DcInvalidSync0CycleTime => assert FromU16(0x0036) == DcInvalidSync0CycleTime;
    case DcInvalidSync1CycleTime => assert FromU16(0x0037) == DcInvalidSync1CycleTime;
  }

  /** The round trip for the listed codes from 0x0040 on. */
  lemma RoundTripFrom40(v: AlStatus)
    requires 0x0040 <= Code(v) < 0xFFFF
    ensures FromU16(Code(v)) == v
  {
    match v
    case MbxAoe => assert FromU16(0x0041) == MbxAoe;
    case MbxEoe => assert FromU16(0x0042) == MbxEoe;
    case MbxCoe => assert FromU16(0x0043) == MbxCoe;
    case MbxFoe => assert FromU16(0x0044) == MbxFoe;
    case MbxSoe => assert FromU16(0x0045) == MbxSoe;
    case MbcVoe => assert FromU16(0x004F) == MbcVoe;
    case EepromNoAccess => assert FromU16(0x0050) == EepromNoAccess;
    case EeepromError => assert FromU16(0x0051) == EeepromError;
    case SlaveRestartedLocally => assert FromU16(0x0060) == SlaveRestartedLocally;
    case DeviceIdValueUpdated => assert FromU16(0x0061) == DeviceIdValueUpdated;
    case ApplicationControllerAvailable => assert FromU16(0x00F0) == ApplicationControllerAvailable;
  }

  /** The other direction: a code that names a listed variant is that
      variant's discriminant. */
  lemma CodeOfFromU16(code: u16)
    ensures FromU16(code) != Unknown ==> Code(FromU16(code)) == code
  {
  }

  /** A code reads as Unknown exactly when it is not the discriminant of
      a listed variant. */
  lemma UnknownIffUnlisted(code: u16)
    ensures FromU16(code) == Unknown <==>
      (code == 0xFFFF || forall v: AlStatus :: v != Unknown ==> Code(v) != code)
  {
    CodeOfFromU16(code);
  }

  /** Listed and unlisted codes: 0x0003 and 0x002F (between 0x002E and
      0x0030) are not listed. */
  lemma AlStatusExamples()
    ensures FromU16(0x0000) == NoError
    ensures FromU16(0x001B) == SyncManagerWatchdog
    ensures FromU16(0x0003) == Unknown
    ensures FromU16(0x002F) == Unknown
    ensures FromU16(0xFFFF) == Unknown
  {
  }
}
