/** The field tables of the TOFPET 2B configuration words. */
module Tofpet2b {
  import opened Prelude
  import opened BitFields

  datatype GlobalKey =
    | TxNlinks | TxDdr | TxMode | DebugMode | VetoMode | TdcClkDiv | RClkEn | StopRampEn | CounterEn | CounterPeriod
    | TacRefreshEn | TacRefreshPeriod | DataClkDiv | Unused1 | FetpEnable | InputPolarity | AttenuatorLs
    | VRefDiffBiasIg | VCalRefIg | FePostampT | FePostampE | VCalTpTop | VCalDiffBiasIg | VAttDiffBiasIg
    | VIntegRefIg | ImirrorBiasTop | TdcCompBias | TdcILsb | DiscLsbT1 | FeIb2 | Vdifffoldcas | DiscVcas | DiscLsbE
    | TdcIRef | TdcCompVcas | MainGlobalDac | FeIb1 | DiscIb | DiscLsbT2 | TdcTacVcasP | TdcTacVcasN | AdebugOutMode
    | TdcGlobalDac | DiscSfBias

  const GLOBAL_BITS: nat := 184

  /** The bits of each global field, most significant first. */
  function GlobalSpan(k: GlobalKey): Span
  {
    match k
    case TxNlinks => Falling(0, 2)
    case TxDdr => Falling(2, 3)
    case TxMode => Falling(3, 5)
    case DebugMode => Falling(5, 6)
    case VetoMode => Falling(6, 12)
    case TdcClkDiv => Falling(12, 13)
    case RClkEn => Falling(13, 16)
    case StopRampEn => Falling(18, 20)
    case CounterEn => Falling(20, 21)
    case CounterPeriod => Falling(21, 24)
    case TacRefreshEn => Falling(24, 25)
    case TacRefreshPeriod => Falling(25, 29)
    case DataClkDiv => Falling(29, 31)
    case Unused1 => Rising(31, 32)
    case FetpEnable => Rising(32, 33)
    case InputPolarity => Rising(33, 34)
    case AttenuatorLs => Rising(34, 40)
    case VRefDiffBiasIg => Rising(40, 46)
    case VCalRefIg => Rising(46, 51)
    case FePostampT => Rising(51, 56)
    case FePostampE => Rising(56, 61)
    case VCalTpTop => Rising(61, 66)
    case VCalDiffBiasIg => Rising(66, 71)
    case VAttDiffBiasIg => Rising(71, 77)
    case VIntegRefIg => Rising(77, 83)
    case ImirrorBiasTop => Rising(83, 88)
    case TdcCompBias => Rising(88, 93)
    case TdcILsb => Rising(93, 98)
    case DiscLsbT1 => Rising(98, 104)
    case FeIb2 => Listed([134, 104, 105, 106, 107, 108])
    case Vdifffoldcas => Rising(109, 115)
    case DiscVcas => Rising(115, 119)
    case DiscLsbE => Rising(119, 125)
    case TdcIRef => Rising(125, 130)
    case TdcCompVcas => Rising(130, 134)
    case MainGlobalDac => Rising(135, 140)
    case FeIb1 => Rising(140, 146)
    case DiscIb => Rising(146, 152)
    case DiscLsbT2 => Rising(152, 158)
    case TdcTacVcasP => Rising(158, 163)
    case TdcTacVcasN => Rising(163, 167)
    case AdebugOutMode => Rising(167, 169)
    case TdcGlobalDac => Rising(169, 175)
    case DiscSfBias => Rising(178, 184)
  }

  /** The field a bit belongs to (bits without a field are given to a neighbour). */
  function GlobalOwner(b: nat): GlobalKey
  {
    if b < 66 then
      if b < 25 then
        if b < 12 then
          if b < 3 then
            if b < 2 then GlobalKey.TxNlinks else GlobalKey.TxDdr
          else
            if b < 5 then
              GlobalKey.TxMode
            else
              if b < 6 then GlobalKey.DebugMode else GlobalKey.VetoMode
        else
          if b < 20 then
            if b < 13 then
              GlobalKey.TdcClkDiv
            else
              if b < 16 then GlobalKey.RClkEn else GlobalKey.StopRampEn
          else
            if b < 21 then
              GlobalKey.CounterEn
            else
              if b < 24 then GlobalKey.CounterPeriod else GlobalKey.TacRefreshEn
      else
        if b < 34 then
          if b < 31 then
            if b < 29 then GlobalKey.TacRefreshPeriod else GlobalKey.DataClkDiv
          else
            if b < 32 then
              GlobalKey.Unused1
            else
              if b < 33 then GlobalKey.FetpEnable else GlobalKey.InputPolarity
        else
          if b < 51 then
            if b < 40 then
              GlobalKey.AttenuatorLs
            else
              if b < 46 then GlobalKey.VRefDiffBiasIg else GlobalKey.VCalRefIg
          else
            if b < 56 then
              GlobalKey.FePostampT
            else
              if b < 61 then GlobalKey.FePostampE else GlobalKey.VCalTpTop
    else
      if b < 125 then
        if b < 93 then
          if b < 77 then
            if b < 71 then GlobalKey.VCalDiffBiasIg else GlobalKey.VAttDiffBiasIg
          else
            if b < 83 then
              GlobalKey.VIntegRefIg
            else
              if b < 88 then GlobalKey.ImirrorBiasTop else GlobalKey.TdcCompBias
        else
          if b < 109 then
            if b < 98 then
              GlobalKey.TdcILsb
            else
              if b < 104 then GlobalKey.DiscLsbT1 else GlobalKey.FeIb2
          else
            if b < 115 then
              GlobalKey.Vdifffoldcas
            else
              if b < 119 then GlobalKey.DiscVcas else GlobalKey.DiscLsbE
      else
        if b < 152 then
          if b < 135 then
            if b < 130 then
              GlobalKey.TdcIRef
            else
              if b < 134 then GlobalKey.TdcCompVcas else GlobalKey.FeIb2
          else
            if b < 140 then
              GlobalKey.MainGlobalDac
            else
              if b < 146 then GlobalKey.FeIb1 else GlobalKey.DiscIb
        else
          if b < 167 then
            if b < 158 then
              GlobalKey.DiscLsbT2
            else
              if b < 163 then GlobalKey.TdcTacVcasP else GlobalKey.TdcTacVcasN
          else
            if b < 169 then
              GlobalKey.AdebugOutMode
            else
              if b < 175 then GlobalKey.TdcGlobalDac else GlobalKey.DiscSfBias
  }

  function GlobalField(k: GlobalKey): seq<nat>
  {
    Indices(GlobalSpan(k))
  }

  lemma GlobalListOwned(k: GlobalKey, b: nat)
    requires GlobalSpan(k).Listed? && InSpan(b, GlobalSpan(k))
    ensures GlobalOwner(b) == k && b < GLOBAL_BITS
  {
  }

  lemma GlobalLowRunOwned(k: GlobalKey, b: nat)
    requires !GlobalSpan(k).Listed? && GlobalSpan(k).lo <= b < GlobalSpan(k).hi && b < 66
    ensures GlobalOwner(b) == k
  {
  }

  lemma GlobalHighRunOwned(k: GlobalKey, b: nat)
    requires !GlobalSpan(k).Listed? && 66 <= b && GlobalSpan(k).lo <= b < GlobalSpan(k).hi
    ensures GlobalOwner(b) == k && b < GLOBAL_BITS
  {
  }

  lemma GlobalSpanOwned(k: GlobalKey, b: nat)
    requires InSpan(b, GlobalSpan(k))
    ensures GlobalOwner(b) == k && b < GLOBAL_BITS
  {
    hide GlobalSpan, GlobalOwner;
    if GlobalSpan(k).Listed? {
      GlobalListOwned(k, b);
    } else if b < 66 {
      GlobalLowRunOwned(k, b);
    } else {
      GlobalHighRunOwned(k, b);
    }
  }

  lemma GlobalLaidOut()
    ensures LaidOut(GlobalField, GLOBAL_BITS)
  {
    forall k: GlobalKey
      ensures GlobalSpan(k).Listed? ==> NoRepeats(GlobalSpan(k).bits)
    {
    }
    hide GlobalSpan, GlobalOwner, NoRepeats, InSpan, Indices;
    forall k: GlobalKey, b: nat | InSpan(b, GlobalSpan(k))
      ensures GlobalOwner(b) == k && b < GLOBAL_BITS
    {
      GlobalSpanOwned(k, b);
    }
    OwnersSeparate(GlobalField, GlobalSpan, GlobalOwner, GLOBAL_BITS);
  }

  /** Every sequence of setValue calls on this word reads back exactly. */
  lemma GlobalReadsLastWrite(word: seq<bool>, ws: seq<Write<GlobalKey>>, k: GlobalKey)
    requires |word| == GLOBAL_BITS
    ensures LaidOut(GlobalField, |word|)
    ensures GetField(Writes(word, GlobalField, ws), GlobalField(k)) ==
            if LastWrite(ws, k).Some? then Clamp(LastWrite(ws, k).value, |GlobalField(k)|) else GetField(word, GlobalField(k))
  {
    hide GlobalField;
    GlobalLaidOut();
    ReadsLastWrite(word, GlobalField, ws, k);
  }

  datatype ChannelKey =
    | TriggerMode1 | DebugMode | SyncChainLength | DeadTime | CounterMode | TacMaxAge | TacMinAge | TriggerMode2T
    | TriggerMode2E | TriggerMode2Q | TriggerMode2B | BranchEnEq | BranchEnT | QdcMode | TriggerBLatched
    | MinIntgTime | MaxIntgTime | OutputEn | Qtx2En | BaselineT | VthT1 | VthT2 | VthE | BaselineE | FeDelay
    | PostampGainT | PostampGainE | PostampShE | IntgEn | IntgSignalEn | Att | TdcCurrentT | TdcCurrentE | FeTpEn
    | Ch63ObufMsb | IntegSourceSw | T1Hysteresis | T2Hysteresis | EHysteresis | HysteresisEnN

  const CHANNEL_BITS: nat := 125

  /** The bits of each channel field, most significant first. */
  function ChannelSpan(k: ChannelKey): Span
  {
    match k
    case TriggerMode1 => Falling(0, 2)
    case DebugMode => Falling(2, 4)
    case SyncChainLength => Falling(4, 6)
    case DeadTime => Falling(6, 12)
    case CounterMode => Falling(12, 16)
    case TacMaxAge => Falling(16, 21)
    case TacMinAge => Falling(21, 26)
    case TriggerMode2T => Falling(26, 28)
    case TriggerMode2E => Falling(28, 31)
    case TriggerMode2Q => Falling(31, 33)
    case TriggerMode2B => Falling(33, 36)
    case BranchEnEq => Falling(36, 37)
    case BranchEnT => Falling(37, 38)
    case QdcMode => Falling(38, 39)
    case TriggerBLatched => Falling(39, 40)
    case MinIntgTime => Falling(40, 47)
    case MaxIntgTime => Falling(47, 54)
    case OutputEn => Falling(54, 56)
    case Qtx2En => Falling(56, 57)
    case BaselineT => Falling(57, 63)
    case VthT1 => Falling(63, 69)
    case VthT2 => Falling(69, 75)
    case VthE => Falling(75, 81)
    case BaselineE => Falling(81, 84)
    case FeDelay => Listed([84, 88, 87, 85, 86])
    case PostampGainT => Rising(89, 91)
    case PostampGainE => Rising(91, 93)
    case PostampShE => Falling(93, 95)
    case IntgEn => Falling(95, 96)
    case IntgSignalEn => Falling(96, 97)
    case Att => Falling(97, 100)
    case TdcCurrentT => Falling(100, 104)
    case TdcCurrentE => Falling(104, 108)
    case FeTpEn => Falling(108, 110)
    case Ch63ObufMsb => Falling(110, 111)
    case IntegSourceSw => Falling(111, 112)
    case T1Hysteresis => Falling(115, 118)
    case T2Hysteresis => Falling(118, 121)
    case EHysteresis => Falling(121, 124)
    case HysteresisEnN => Falling(124, 125)
  }

  /** The field a bit belongs to (bits without a field are given to a neighbour). */
  function ChannelOwner(b: nat): ChannelKey
  {
    if b < 63 then
      if b < 33 then
        if b < 16 then
          if b < 4 then
            if b < 2 then ChannelKey.TriggerMode1 else ChannelKey.DebugMode
          else
            if b < 6 then
              ChannelKey.SyncChainLength
            else
              if b < 12 then ChannelKey.DeadTime else ChannelKey.CounterMode
        else
          if b < 26 then
            if b < 21 then ChannelKey.TacMaxAge else ChannelKey.TacMinAge
          else
            if b < 28 then
              ChannelKey.TriggerMode2T
            else
              if b < 31 then ChannelKey.TriggerMode2E else ChannelKey.TriggerMode2Q
      else
        if b < 40 then
          if b < 37 then
            if b < 36 then ChannelKey.TriggerMode2B else ChannelKey.BranchEnEq
          else
            if b < 38 then
              ChannelKey.BranchEnT
            else
              if b < 39 then ChannelKey.QdcMode else ChannelKey.TriggerBLatched
        else
          if b < 54 then
            if b < 47 then ChannelKey.MinIntgTime else ChannelKey.MaxIntgTime
          else
            if b < 56 then
              ChannelKey.OutputEn
            else
              if b < 57 then ChannelKey.Qtx2En else ChannelKey.BaselineT
    else
      if b < 97 then
        if b < 89 then
          if b < 75 then
            if b < 69 then ChannelKey.VthT1 else ChannelKey.VthT2
          else
            if b < 81 then
              ChannelKey.VthE
            else
              if b < 84 then ChannelKey.BaselineE else ChannelKey.FeDelay
        else
          if b < 93 then
            if b < 91 then ChannelKey.PostampGainT else ChannelKey.PostampGainE
          else
            if b < 95 then
              ChannelKey.PostampShE
            else
              if b < 96 then ChannelKey.IntgEn else ChannelKey.IntgSignalEn
      else
        if b < 111 then
          if b < 104 then
            if b < 100 then ChannelKey.Att else ChannelKey.TdcCurrentT
          else
            if b < 108 then
              ChannelKey.TdcCurrentE
            else
              if b < 110 then ChannelKey.FeTpEn else ChannelKey.Ch63ObufMsb
        else
          if b < 118 then
            if b < 112 then ChannelKey.IntegSourceSw else ChannelKey.T1Hysteresis
          else
            if b < 121 then
              ChannelKey.T2Hysteresis
            else
              if b < 124 then ChannelKey.EHysteresis else ChannelKey.HysteresisEnN
  }

  function ChannelField(k: ChannelKey): seq<nat>
  {
    Indices(ChannelSpan(k))
  }

  lemma ChannelListOwned(k: ChannelKey, b: nat)
    requires ChannelSpan(k).Listed? && InSpan(b, ChannelSpan(k))
    ensures ChannelOwner(b) == k && b < CHANNEL_BITS
  {
  }

  lemma ChannelRunOwned(k: ChannelKey, b: nat)
    requires !ChannelSpan(k).Listed? && ChannelSpan(k).lo <= b < ChannelSpan(k).hi
    ensures ChannelOwner(b) == k && b < CHANNEL_BITS
  {
  }

  lemma ChannelSpanOwned(k: ChannelKey, b: nat)
    requires InSpan(b, ChannelSpan(k))
    ensures ChannelOwner(b) == k && b < CHANNEL_BITS
  {
    hide ChannelSpan, ChannelOwner;
    if ChannelSpan(k).Listed? { ChannelListOwned(k, b); } else { ChannelRunOwned(k, b); }
  }

  lemma ChannelLaidOut()
    ensures LaidOut(ChannelField, CHANNEL_BITS)
  {
    forall k: ChannelKey
      ensures ChannelSpan(k).Listed? ==> NoRepeats(ChannelSpan(k).bits)
    {
    }
    hide ChannelSpan, ChannelOwner, NoRepeats, InSpan, Indices;
    forall k: ChannelKey, b: nat | InSpan(b, ChannelSpan(k))
      ensures ChannelOwner(b) == k && b < CHANNEL_BITS
    {
      ChannelSpanOwned(k, b);
    }
    OwnersSeparate(ChannelField, ChannelSpan, ChannelOwner, CHANNEL_BITS);
  }

  /** Every sequence of setValue calls on this word reads back exactly. */
  lemma ChannelReadsLastWrite(word: seq<bool>, ws: seq<Write<ChannelKey>>, k: ChannelKey)
    requires |word| == CHANNEL_BITS
    ensures LaidOut(ChannelField, |word|)
    ensures GetField(Writes(word, ChannelField, ws), ChannelField(k)) ==
            if LastWrite(ws, k).Some? then Clamp(LastWrite(ws, k).value, |ChannelField(k)|) else GetField(word, ChannelField(k))
  {
    hide ChannelField;
    ChannelLaidOut();
    ReadsLastWrite(word, ChannelField, ws, k);
  }
}
