/** RickNMorty's console logger (`Logger` in the common helpers): a message is printed
    when its level passes the configured threshold, behind an emoji for its level. The
    console, the clock and the trimming of the file path are not part of this model:
    the time and the file name are given, and what would be printed is returned. */
module Logging {
  import opened Wrappers
  import Text

  datatype AppLogLevel = Debug | Info | Warning | Error {
    function RawValue(): string {
      match this
      case Debug => "DEBUG"
      case Info => "INFO"
      case Warning => "WARNING"
      case Error => "ERROR"
    }

    /** The order of the levels from the least to the most severe. */
    function Severity(): (r: nat)
      ensures r <= 3
    {
      match this
      case Debug => 0
      case Info => 1
      case Warning => 2
      case Error => 3
    }
  }

  /** The threshold a new logger starts with. */
  const DefaultLogLevel: AppLogLevel := Debug

  /** `shouldLog(_:)` at threshold `logLevel`, case by case. */
  function ShouldLog(logLevel: AppLogLevel, level: AppLogLevel): bool {
    match level
    case Debug => logLevel == Debug
    case Info => logLevel == Debug || logLevel == Info
    case Warning => logLevel == Debug || logLevel == Info || logLevel == Warning
    case Error => true
  }

  /** The case table is a threshold: a level is logged exactly when it is at least as
      severe as the configured one. */
  lemma ShouldLogIffAtLeastThreshold(logLevel: AppLogLevel, level: AppLogLevel)
    ensures ShouldLog(logLevel, level) <==> level.Severity() >= logLevel.Severity()
  {
  }

  /** What is logged at a threshold is logged at every lower threshold, and every level
      more severe than a logged one is logged too. */
  lemma ShouldLogMonotone(logLevel: AppLogLevel, level: AppLogLevel, other: AppLogLevel)
    requires ShouldLog(logLevel, level)
    ensures other.Severity() >= level.Severity() ==> ShouldLog(logLevel, other)
    ensures other.Severity() <= logLevel.Severity() ==> ShouldLog(other, level)
  {
    ShouldLogIffAtLeastThreshold(logLevel, level);
    ShouldLogIffAtLeastThreshold(logLevel, other);
    ShouldLogIffAtLeastThreshold(other, level);
  }

  /** Errors are logged at every threshold; debug messages only at the debug threshold;
      with the default threshold everything is logged. */
  lemma ThresholdCases(logLevel: AppLogLevel, level: AppLogLevel)
    ensures ShouldLog(logLevel, Error)
    ensures ShouldLog(logLevel, Debug) <==> logLevel == Debug
    ensures ShouldLog(logLevel, Info) <==> logLevel in {Debug, Info}
    ensures ShouldLog(logLevel, Warning) <==> logLevel != Error
    ensures ShouldLog(DefaultLogLevel, level)
  {
  }

  /** `emojiForLevel(_:)`. */
  function EmojiForLevel(level: AppLogLevel): (r: string)
    ensures r != ""
  {
    match level
    case Debug => "\U{1F41B}"
    case Info => "\U{2139}\U{FE0F}"
    case Warning => "\U{26A0}\U{FE0F}"
    case Error => "\U{274C}"
  }

  /** Each level has its own emoji and its own raw value. */
  lemma LevelsDistinguishable(a: AppLogLevel, b: AppLogLevel)
    ensures EmojiForLevel(a) == EmojiForLevel(b) <==> a == b
    ensures a.RawValue() == b.RawValue() <==> a == b
  {
  }

  /** The printed line: emoji, time, level, file and line, then the message. */
  function LogLine(level: AppLogLevel, message: string, fileName: string, line: int, currentTime: string): (r: string)
    ensures |r| >= |EmojiForLevel(level)| + |message|
    ensures r[..|EmojiForLevel(level)|] == EmojiForLevel(level)
    ensures r[|r| - |message|..] == message
  {
    var head := EmojiForLevel(level) + " [" + currentTime + "] [" + level.RawValue() + "] ["
      + fileName + ":" + Text.IntToString(line) + "] - ";
    assert (head + message)[..|EmojiForLevel(level)|] == EmojiForLevel(level);
    assert (head + message)[|head|..] == message;
    head + message
  }

  /** `Logger`: the threshold is a property the app may change at any time. */
  class Logger {
    var logLevel: AppLogLevel

    constructor ()
      ensures logLevel == DefaultLogLevel
    {
      logLevel := DefaultLogLevel;
    }

    /** `log(_:_:_:_:)`, which `debug`, `info`, `warning` and `error` call with their
        level: a line is printed exactly when the level is at least the threshold. */
    method Log(level: AppLogLevel, message: string, fileName: string, line: int, currentTime: string)
      returns (printed: Option<string>)
      ensures printed.Some? <==> level.Severity() >= logLevel.Severity()
      ensures printed.Some? ==> printed.value == LogLine(level, message, fileName, line, currentTime)
    {
      ShouldLogIffAtLeastThreshold(logLevel, level);
      if !ShouldLog(logLevel, level) {
        return None;
      }
      printed := Some(LogLine(level, message, fileName, line, currentTime));
    }
  }
}
