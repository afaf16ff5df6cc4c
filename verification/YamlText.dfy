/** The scalars of the YAML files: names of values, which are read without regard to case, and numbers. */
module YamlText {
  import opened Seqs
  import opened Names
  import opened Config
  import Layout
  import Scale

  /** printf and scanf of numbers, and regcomp: libraries that are taken as they come. */
  datatype Codec = Codec(
    showInt: int -> string,
    readInt: string -> Option<int>,
    showReal: real -> string,
    readReal: string -> Option<real>,
    rx: Regex)

  predicate IntReadsBack(k: Codec, n: int) {
    k.readInt(k.showInt(n)) == Some(n)
  }

  /** The number survives being written, with six digits at most, and read. */
  predicate RealReadsBack(k: Codec, x: real) {
    k.readReal(k.showReal(x)) == Some(x)
  }

  /** yaml_valid_name_desc */
  predicate ValidName(k: Codec, nameDesc: string) {
    IsRegex(nameDesc) ==> k.rx.compiles(nameDesc[1..])
  }

  // -------- names of values --------

  /** A case insensitive prefix: strcasestr at the start. */
  predicate Starts(full: string, s: string) {
    0 < |s| <= |full| && SameNoCase(full[..|s|], s)
  }

  function ArrangeName(a: Layout.Arrange): string {
    if a.Row? then "ROW" else "COLUMN"
  }

  /** arrange_val_start: any prefix will do. */
  function ArrangeVal(s: string): Option<Layout.Arrange> {
    if Starts("ROW", s) then Some(Layout.Row)
    else if Starts("COLUMN", s) then Some(Layout.Col)
    else None
  }

  function AlignName(a: Layout.Align): string {
    match a
    case Top => "TOP"
    case Middle => "MIDDLE"
    case Bottom => "BOTTOM"
    case Left => "LEFT"
    case Right => "RIGHT"
  }

  /** align_val_start */
  function AlignVal(s: string): Option<Layout.Align> {
    if Starts("TOP", s) then Some(Layout.Top)
    else if Starts("MIDDLE", s) then Some(Layout.Middle)
    else if Starts("BOTTOM", s) then Some(Layout.Bottom)
    else if Starts("LEFT", s) then Some(Layout.Left)
    else if Starts("RIGHT", s) then Some(Layout.Right)
    else None
  }

  /** An OnOff is written as a boolean. */
  function OnOffName(v: OnOff): string {
    if v.On? then "TRUE" else "FALSE"
  }

  function OnOffVal(s: string): Option<OnOff> {
    if SameNoCase("ON", s) then Some(On)
    else if SameNoCase("OFF", s) then Some(Off)
    else if SameNoCase("TRUE", s) then Some(On)
    else if SameNoCase("FALSE", s) then Some(Off)
    else if SameNoCase("YES", s) then Some(On)
    else if SameNoCase("NO", s) then Some(Off)
    else None
  }

  /** The seven transforms but normal, which has no name. */
  function TransformName(t: nat): Option<string> {
    match t
    case 1 => Some("90")
    case 2 => Some("180")
    case 3 => Some("270")
    case 4 => Some("FLIPPED")
    case 5 => Some("FLIPPED-90")
    case 6 => Some("FLIPPED-180")
    case 7 => Some("FLIPPED-270")
    case _ => None
  }

  function TransformVal(s: string): Option<nat> {
    if SameNoCase("90", s) then Some(1)
    else if SameNoCase("180", s) then Some(2)
    else if SameNoCase("270", s) then Some(3)
    else if SameNoCase("FLIPPED", s) then Some(4)
    else if SameNoCase("FLIPPED-90", s) then Some(5)
    else if SameNoCase("FLIPPED-180", s) then Some(6)
    else if SameNoCase("FLIPPED-270", s) then Some(7)
    else None
  }

  function ThresholdName(t: LogThreshold): string {
    match t
    case Debug => "DEBUG"
    case Info => "INFO"
    case Warning => "WARNING"
    case Error => "ERROR"
    case Fatal => "FATAL"
  }

  function ThresholdVal(s: string): Option<LogThreshold> {
    if SameNoCase("DEBUG", s) then Some(Debug)
    else if SameNoCase("INFO", s) then Some(Info)
    else if SameNoCase("WARNING", s) then Some(Warning)
    else if SameNoCase("ERROR", s) then Some(Error)
    else if SameNoCase("FATAL", s) then Some(Fatal)
    else None
  }

  function LidName(l: LidCondition): string {
    match l
    case Open => "OPEN"
    case Closed => "CLOSED"
    case NotPresent => "NOT_PRESENT"
  }

  function LidVal(s: string): Option<LidCondition> {
    if SameNoCase("OPEN", s) then Some(Open)
    else if SameNoCase("CLOSED", s) then Some(Closed)
    else if SameNoCase("NOT_PRESENT", s) then Some(NotPresent)
    else None
  }

  function StrategyName(s: Scale.Strategy): string {
    match s
    case Nearest => "NEAREST"
    case Up => "UP"
    case Down => "DOWN"
  }

  function StrategyVal(s: string): Option<Scale.Strategy> {
    if SameNoCase("NEAREST", s) then Some(Scale.Nearest)
    else if SameNoCase("UP", s) then Some(Scale.Up)
    else if SameNoCase("DOWN", s) then Some(Scale.Down)
    else None
  }

  function RoundToName(b: Scale.Base): string {
    if b == 8 then "0.125" else if b == 4 then "0.25" else if b == 2 then "0.5" else "1"
  }

  /** scale_round_to_val: the truncated reciprocal, when it is one of the four. */
  function RoundToVal(x: real): Option<Scale.Base> {
    if x == 0.0 then None
    else
      var b := Scale.Trunc(1.0 / x);
      if b == 8 || b == 4 || b == 2 || b == 1 then Some(b) else None
  }

  // -------- names read back --------

  lemma SameNoCaseReflexive(s: string)
    ensures SameNoCase(s, s) && (s != [] ==> Starts(s, s))
  {
  }

  lemma ArrangeReadsBack(a: Layout.Arrange)
    ensures ArrangeVal(ArrangeName(a)) == Some(a)
  {
  }

  lemma DifferAt(full: string, s: string, i: nat)
    ensures i < |full| && i < |s| && Lower(full[i]) != Lower(s[i]) ==> !SameNoCase(full, s) && !Starts(full, s)
  {
  }

  lemma AlignReadsBack(a: Layout.Align)
    ensures AlignVal(AlignName(a)) == Some(a)
  {
    var name := AlignName(a);
    SameNoCaseReflexive(name);
    DifferAt("TOP", name, 0);
    DifferAt("MIDDLE", name, 0);
    DifferAt("BOTTOM", name, 0);
    DifferAt("LEFT", name, 0);
  }

  lemma OnOffReadsBack(v: OnOff)
    ensures OnOffVal(OnOffName(v)) == Some(v)
  {
  }

  lemma TransformReadsBack(t: nat)
    requires TransformName(t).Some?
    ensures TransformVal(TransformName(t).value) == Some(t)
  {
    var name := TransformName(t).value;
    SameNoCaseReflexive(name);
    DifferAt("180", name, 0);
    DifferAt("FLIPPED-180", name, 8);
  }

  lemma ThresholdReadsBack(t: LogThreshold)
    ensures ThresholdVal(ThresholdName(t)) == Some(t)
  {
    var name := ThresholdName(t);
    SameNoCaseReflexive(name);
    DifferAt("DEBUG", name, 0);
    DifferAt("ERROR", name, 0);
  }

  lemma LidReadsBack(l: LidCondition)
    ensures LidVal(LidName(l)) == Some(l)
  {
  }

  lemma StrategyReadsBack(s: Scale.Strategy)
    ensures StrategyVal(StrategyName(s)) == Some(s)
  {
  }

  /** The value that a name of a quantum stands for. */
  function Step(b: Scale.Base): real {
    if b == 8 then 0.125 else if b == 4 then 0.25 else if b == 2 then 0.5 else 1.0
  }

  lemma RoundToReadsBack(b: Scale.Base)
    ensures RoundToVal(Step(b)) == Some(b)
  {
  }
}
