/**
 * The checker's options: the Chinese-ratio threshold, the white list and the
 * three character lists, each taken from the JSON configuration when its key
 * is present and from a built-in default otherwise.
 */
module Options {
  import opened Wrappers

  type PosInt = n: int | n > 0 witness 1

  /** A threshold `num / den`; it stands for the float `par_chinese_threshold`. */
  datatype Ratio = Ratio(num: int, den: PosInt)

  /** `0 <= num / den <= 1`. */
  predicate InUnitInterval(r: Ratio) {
    0 <= r.num <= r.den
  }

  /** The option values every part of the checker reads. */
  datatype Options = Options(
    threshold: Ratio,
    whiteTables: seq<string>,
    endPunctuations: seq<string>,
    ignoreChars: string,
    splitPunctuations: string)

  /** 0.2, the default of the `par_chinese_threshold` argument. */
  const DefaultThreshold := Ratio(1, 5)

  /** Sentence-ending marks; note the multi-character entry of six ASCII dots. */
  const DefaultEndPunctuations: seq<string> := ["。", "：", "！", "？", "；", "......"]

  /** Symbols dropped before segmentation. */
  const DefaultIgnoreChars: string := "、“”（）—《》~·‘’，："

  /** Clause-ending marks, each replaced by a space before splitting. */
  const DefaultSplitPunctuations: string := "！。？；"

  /** The keys of the JSON configuration file; an absent key is `None`. */
  datatype ConfigFile = ConfigFile(
    threshold: Option<Ratio>,
    whiteTables: Option<seq<string>>,
    endPunctuations: Option<seq<string>>,
    ignoreChars: Option<string>,
    splitPunctuations: Option<string>)

  /** A configuration file that sets none of the keys. */
  const NoConfig := ConfigFile(None, None, None, None, None)

  datatype ConfigError = ThresholdOutOfRange

  /** The threshold the checker uses: the file's value when present, else the argument. */
  function ChosenThreshold(argThreshold: Ratio, file: ConfigFile): Ratio {
    match file.threshold
    case Some(t) => t
    case None => argThreshold
  }

  /** Fills every option from the file, falling back to the argument or the default. */
  function Merge(threshold: Ratio, argWhite: Option<seq<string>>, file: ConfigFile): Options {
    Options(
      threshold,
      match file.whiteTables
      case Some(w) => w
      case None => (match argWhite case Some(w) => w case None => []),
      match file.endPunctuations
      case Some(e) => e
      case None => DefaultEndPunctuations,
      match file.ignoreChars
      case Some(i) => i
      case None => DefaultIgnoreChars,
      match file.splitPunctuations
      case Some(s) => s
      case None => DefaultSplitPunctuations)
  }

  /** The options when neither arguments nor a file override anything. */
  const DefaultOptions := Merge(DefaultThreshold, None, NoConfig)

  /**
   * The constructor's option handling as written: it range-checks the
   * threshold ARGUMENT, although the threshold it keeps is the file's value
   * whenever the file has one.
   */
  function ResolveAsWritten(argThreshold: Ratio, argWhite: Option<seq<string>>, file: ConfigFile)
    : (r: Result<Options, ConfigError>)
    ensures r.Failure? <==> !InUnitInterval(argThreshold)
    ensures r.Success? ==> r.value.threshold == ChosenThreshold(argThreshold, file)
  {
    if !InUnitInterval(argThreshold) then Failure(ThresholdOutOfRange)
    else Success(Merge(ChosenThreshold(argThreshold, file), argWhite, file))
  }

  /**
   * A file threshold outside [0, 1] passes the as-written check, and an
   * out-of-range argument is refused even though the file overrides it.
   */
  lemma ConfigThresholdEscapesValidation()
    ensures var file := NoConfig.(threshold := Some(Ratio(3, 2)));
      && ResolveAsWritten(DefaultThreshold, None, file).Success?
      && !InUnitInterval(ResolveAsWritten(DefaultThreshold, None, file).value.threshold)
    ensures var file := NoConfig.(threshold := Some(DefaultThreshold));
      ResolveAsWritten(Ratio(3, 2), None, file).Failure?
  {
  }

  /**
   * The constructor's option handling with the range check applied to the
   * threshold actually kept; every other option comes from the file when the
   * key is present and from the argument or the default otherwise.
   */
  function Resolve(argThreshold: Ratio, argWhite: Option<seq<string>>, file: ConfigFile)
    : (r: Result<Options, ConfigError>)
    ensures r.Success? <==> InUnitInterval(ChosenThreshold(argThreshold, file))
    ensures r.Success? ==> InUnitInterval(r.value.threshold)
    ensures r.Success? && file.threshold.Some? ==> r.value.threshold == file.threshold.value
    ensures r.Success? && file.threshold.None? ==> r.value.threshold == argThreshold
    ensures r.Success? && file.whiteTables.Some? ==> r.value.whiteTables == file.whiteTables.value
    ensures r.Success? && file.whiteTables.None? && argWhite.Some? ==> r.value.whiteTables == argWhite.value
    ensures r.Success? && file.whiteTables.None? && argWhite.None? ==> r.value.whiteTables == []
    ensures r.Success? && file.endPunctuations.Some? ==> r.value.endPunctuations == file.endPunctuations.value
    ensures r.Success? && file.endPunctuations.None? ==> r.value.endPunctuations == DefaultEndPunctuations
    ensures r.Success? && file.ignoreChars.Some? ==> r.value.ignoreChars == file.ignoreChars.value
    ensures r.Success? && file.ignoreChars.None? ==> r.value.ignoreChars == DefaultIgnoreChars
    ensures r.Success? && file.splitPunctuations.Some? ==> r.value.splitPunctuations == file.splitPunctuations.value
    ensures r.Success? && file.splitPunctuations.None? ==> r.value.splitPunctuations == DefaultSplitPunctuations
  {
    var threshold := ChosenThreshold(argThreshold, file);
    if !InUnitInterval(threshold) then Failure(ThresholdOutOfRange)
    else Success(Merge(threshold, argWhite, file))
  }

  /** Both versions agree whenever the file does not override the threshold. */
  lemma ResolveAgreesWithoutFileThreshold(argThreshold: Ratio, argWhite: Option<seq<string>>, file: ConfigFile)
    requires file.threshold.None?
    ensures Resolve(argThreshold, argWhite, file) == ResolveAsWritten(argThreshold, argWhite, file)
  {
  }
}
