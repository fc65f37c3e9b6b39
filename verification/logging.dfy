/** Logger configuration: the level and format enumerations, their string
    forms, and the options folded into the configuration a logger is built
    from. Levels and formats are Go `int`s, so any integer can reach them. */
module Logging {
  import opened Wrappers

  const LevelDebug: int := -1
  const LevelInfo: int := 0
  const LevelWarn: int := 1
  const LevelError: int := 2

  const FormatJson: int := 0
  const FormatConsole: int := 1

  /** `LoggerLevel.String`: the name of each of the four levels, and the
      empty string for every other value. */
  function LevelString(level: int): (s: string)
    ensures s == "" <==> !(LevelDebug <= level <= LevelError)
    ensures level == LevelDebug ==> s == "debug"
    ensures level == LevelInfo ==> s == "info"
    ensures level == LevelWarn ==> s == "warn"
    ensures level == LevelError ==> s == "error"
  {
    if level == LevelDebug then "debug"
    else if level == LevelInfo then "info"
    else if level == LevelWarn then "warn"
    else if level == LevelError then "error"
    else ""
  }

  /** `ParseLoggerLevelStr` as written: the names of debug, warn and error
      all give Debug; everything else, `info` included, gives Info. */
  function ParseLevel(v: string): (level: int)
    ensures level == LevelDebug <==> v == LevelString(LevelDebug) || v == LevelString(LevelWarn) || v == LevelString(LevelError)
    ensures level != LevelDebug ==> level == LevelInfo
  {
    if v == LevelString(LevelDebug) then LevelDebug
    else if v == LevelString(LevelWarn) then LevelDebug
    else if v == LevelString(LevelError) then LevelDebug
    else LevelInfo
  }

  /** Parsing does not invert printing for the warn and error levels. */
  lemma ParseLevelLosesWarnAndError()
    ensures ParseLevel(LevelString(LevelWarn)) == LevelDebug
    ensures ParseLevel(LevelString(LevelError)) == LevelDebug
  {
  }

  /** The evidently intended parser: each name gives its own level. */
  function ParseLevelIntended(v: string): (level: int)
    ensures LevelDebug <= level <= LevelError
    ensures LevelString(level) == v || level == LevelInfo
  {
    if v == LevelString(LevelDebug) then LevelDebug
    else if v == LevelString(LevelWarn) then LevelWarn
    else if v == LevelString(LevelError) then LevelError
    else LevelInfo
  }

  /** The intended parser inverts printing on all four levels. */
  lemma ParseLevelIntendedRoundTrip(level: int)
    requires LevelDebug <= level <= LevelError
    ensures ParseLevelIntended(LevelString(level)) == level
  {
  }

  /** `LoggerFormat.String`: `console` for Console, `json` for every other
      value. */
  function FormatString(format: int): (s: string)
    ensures s == "console" <==> format == FormatConsole
    ensures s != "console" ==> s == "json"
  {
    if format == FormatConsole then "console" else "json"
  }

  /** `ParseLoggerFormatStr`: `console` gives Console, everything else JSON. */
  function ParseFormat(v: string): (format: int)
    ensures format == FormatConsole <==> v == FormatString(FormatConsole)
    ensures format != FormatConsole ==> format == FormatJson
  {
    if v == FormatString(FormatConsole) then FormatConsole else FormatJson
  }

  /** Printing and parsing a format gives it back. */
  lemma FormatRoundTrip(format: int)
    requires format == FormatJson || format == FormatConsole
    ensures ParseFormat(FormatString(format)) == format
  {
  }

  datatype LoggerConf = LoggerConf(level: int, format: int)

  datatype LoggerOption = LevelOption(level: int) | FormatOption(format: int)

  /** The range-guarded `apply` of each option: a level option sets the level
      when it is one of the four levels, a format option sets the format when
      it is one of the two formats; anything else leaves the configuration as
      it is, and neither touches the other field. */
  function Apply(opt: LoggerOption, conf: LoggerConf): (r: LoggerConf)
    ensures opt.LevelOption? ==> r.format == conf.format
    ensures opt.LevelOption? && LevelDebug <= opt.level <= LevelError ==> r.level == opt.level
    ensures opt.LevelOption? && !(LevelDebug <= opt.level <= LevelError) ==> r == conf
    ensures opt.FormatOption? ==> r.level == conf.level
    ensures opt.FormatOption? && FormatJson <= opt.format <= FormatConsole ==> r.format == opt.format
    ensures opt.FormatOption? && !(FormatJson <= opt.format <= FormatConsole) ==> r == conf
  {
    match opt
    case LevelOption(l) => if LevelDebug <= l && l <= LevelError then conf.(level := l) else conf
    case FormatOption(f) => if FormatJson <= f && f <= FormatConsole then conf.(format := f) else conf
  }

  /** The configuration options start from: Info, and JSON as the format's
      zero value. */
  const DefaultConf: LoggerConf := LoggerConf(LevelInfo, FormatJson)

  /** The options applied in order, left to right. A configuration whose
      level and format are in range stays in range. */
  function Fold(conf: LoggerConf, opts: seq<LoggerOption>): (r: LoggerConf)
    ensures |opts| == 0 ==> r == conf
    ensures LevelDebug <= conf.level <= LevelError ==> LevelDebug <= r.level <= LevelError
    ensures FormatJson <= conf.format <= FormatConsole ==> FormatJson <= r.format <= FormatConsole
    decreases |opts|
  {
    if |opts| == 0 then conf else Fold(Apply(opts[0], conf), opts[1..])
  }

  /** The configuration built by `NewLoggerZapImplWithOption`. */
  function Configure(opts: seq<LoggerOption>): (conf: LoggerConf)
    ensures conf.level == (match LastLevel(opts) case Some(l) => l case None => LevelInfo)
    ensures conf.format == (match LastFormat(opts) case Some(f) => f case None => FormatJson)
  {
    FoldLastWins(DefaultConf, opts);
    Fold(DefaultConf, opts)
  }

  /** The last in-range level option, found from the right. */
  function LastLevel(opts: seq<LoggerOption>): (r: Option<int>)
    ensures r.Some? ==> LevelDebug <= r.value <= LevelError
    decreases |opts|
  {
    if |opts| == 0 then None
    else
      var last := opts[|opts| - 1];
      if last.LevelOption? && LevelDebug <= last.level <= LevelError then Some(last.level)
      else LastLevel(opts[..|opts| - 1])
  }

  /** The last in-range format option, found from the right. */
  function LastFormat(opts: seq<LoggerOption>): (r: Option<int>)
    ensures r.Some? ==> FormatJson <= r.value <= FormatConsole
    decreases |opts|
  {
    if |opts| == 0 then None
    else
      var last := opts[|opts| - 1];
      if last.FormatOption? && FormatJson <= last.format <= FormatConsole then Some(last.format)
      else LastFormat(opts[..|opts| - 1])
  }

  /** Folding one more option applies it to the result of the rest. */
  lemma {:induction false} FoldSnoc(conf: LoggerConf, opts: seq<LoggerOption>, opt: LoggerOption)
    ensures Fold(conf, opts + [opt]) == Apply(opt, Fold(conf, opts))
    decreases |opts|
  {
    if |opts| == 0 {
      assert opts + [opt] == [opt];
      assert [opt][1..] == [];
    } else {
      assert (opts + [opt])[0] == opts[0];
      assert (opts + [opt])[1..] == opts[1..] + [opt];
      FoldSnoc(Apply(opts[0], conf), opts[1..], opt);
    }
  }

  /** Left-to-right folding agrees with the right-to-left search: the last
      in-range option of each kind wins, and the starting value stays when
      there is none. */
  lemma {:induction false} FoldLastWins(conf: LoggerConf, opts: seq<LoggerOption>)
    ensures Fold(conf, opts).level == (match LastLevel(opts) case Some(l) => l case None => conf.level)
    ensures Fold(conf, opts).format == (match LastFormat(opts) case Some(f) => f case None => conf.format)
    decreases |opts|
  {
    if |opts| > 0 {
      var init := opts[..|opts| - 1];
      var last := opts[|opts| - 1];
      assert init + [last] == opts;
      FoldSnoc(conf, init, last);
      FoldLastWins(conf, init);
    }
  }
}
