/** The top level keys of the configuration file. */
module YamlElements {
  import opened Seqs
  import opened Names
  import opened YamlText

  datatype Element =
    | Arrange | Align | Order | Scaling | RoundTo | RoundStrategy | AutoScale | Dpi | ScaleMin | ScaleMax
    | Scales | Modes | Transforms | VrrOff | Callback | LidMonitor | LogThreshold | Disabled

  /** cfg_element_name */
  function ElementName(e: Element): string {
    match e
    case Arrange => "ARRANGE"
    case Align => "ALIGN"
    case Order => "ORDER"
    case Scaling => "SCALING"
    case RoundTo => "SCALE_ROUND_TO"
    case RoundStrategy => "SCALE_ROUND_STRATEGY"
    case AutoScale => "AUTO_SCALE"
    case Dpi => "AUTO_SCALE_DPI"
    case ScaleMin => "AUTO_SCALE_MIN"
    case ScaleMax => "AUTO_SCALE_MAX"
    case Scales => "SCALE"
    case Modes => "MODE"
    case Transforms => "TRANSFORM"
    case VrrOff => "VRR_OFF"
    case Callback => "CALLBACK_CMD"
    case LidMonitor => "LAPTOP_LID_MONITOR"
    case LogThreshold => "LOG_THRESHOLD"
    case Disabled => "DISABLED"
  }

  /** cfg_element_val, of the keys that the configuration is written with. */
  function ElementVal(s: string): Option<Element> {
    if SameNoCase("ARRANGE", s) then Some(Arrange)
    else if SameNoCase("ALIGN", s) then Some(Align)
    else if SameNoCase("ORDER", s) then Some(Order)
    else if SameNoCase("SCALING", s) then Some(Scaling)
    else if SameNoCase("AUTO_SCALE", s) then Some(AutoScale)
    else if SameNoCase("SCALE", s) then Some(Scales)
    else if SameNoCase("SCALE_ROUND_TO", s) then Some(RoundTo)
    else if SameNoCase("SCALE_ROUND_STRATEGY", s) then Some(RoundStrategy)
    else if SameNoCase("MODE", s) then Some(Modes)
    else if SameNoCase("VRR_OFF", s) then Some(VrrOff)
    else if SameNoCase("CALLBACK_CMD", s) then Some(Callback)
    else if SameNoCase("LAPTOP_LID_MONITOR", s) then Some(LidMonitor)
    else if SameNoCase("TRANSFORM", s) then Some(Transforms)
    else if SameNoCase("LOG_THRESHOLD", s) then Some(LogThreshold)
    else if SameNoCase("DISABLED", s) then Some(Disabled)
    else if SameNoCase("AUTO_SCALE_DPI", s) then Some(Dpi)
    else if SameNoCase("AUTO_SCALE_MIN", s) then Some(ScaleMin)
    else if SameNoCase("AUTO_SCALE_MAX", s) then Some(ScaleMax)
    else None
  }

  /** Names of different lengths, or with different letters at i, are different. */
  lemma Unlike(full: string, s: string, i: nat)
    ensures |full| != |s| || (i < |full| && Lower(full[i]) != Lower(s[i])) ==> !SameNoCase(full, s)
  {
  }

  lemma ElementReadsBack(e: Element)
    ensures ElementVal(ElementName(e)) == Some(e)
  {
    var name := ElementName(e);
    SameNoCaseReflexive(name);
    hide SameNoCase;
    Unlike("ARRANGE", name, 0);
    Unlike("ALIGN", name, 0);
    Unlike("ORDER", name, 0);
    Unlike("SCALING", name, 0);
    Unlike("AUTO_SCALE", name, 0);
    Unlike("SCALE", name, 0);
    Unlike("SCALE_ROUND_TO", name, 0);
    Unlike("SCALE_ROUND_STRATEGY", name, 0);
    Unlike("MODE", name, 0);
    Unlike("VRR_OFF", name, 0);
    Unlike("CALLBACK_CMD", name, 0);
    Unlike("LAPTOP_LID_MONITOR", name, 0);
    Unlike("TRANSFORM", name, 0);
    Unlike("LOG_THRESHOLD", name, 0);
    Unlike("DISABLED", name, 0);
    Unlike("AUTO_SCALE_DPI", name, 11);
    Unlike("AUTO_SCALE_MIN", name, 12);
  }
}
