/** Level gating of the extension's output channel (`LoggingService` in
    src/logging-service.ts).

    The level is kept as the string the service stores, since nothing stops
    a caller from setting a string outside the five known ones. Each of the
    four logging calls checks the level against its own list of levels that
    silence it; the result is what the call appends to the channel. The
    timestamp in each title line is left out. */
module Logging {
  import opened Base

  const DebugLevel: string := "Debug"
  const InfoLevel: string := "Info"
  const WarnLevel: string := "Warn"
  const ErrorLevel: string := "Error"
  const NoneLevel: string := "None"

  /** The four logging calls. */
  datatype Severity = DebugMessage | InfoMessage | WarningMessage | ErrorMessage

  /** The level text a call writes into its title line. */
  function SeverityText(sev: Severity): string {
    match sev
    case DebugMessage => DebugLevel
    case InfoMessage => InfoLevel
    case WarningMessage => WarnLevel
    case ErrorMessage => ErrorLevel
  }

  datatype Service = Service(logLevel: string)

  /** A new service logs at `Info`. */
  function Init(): (s: Service)
    ensures s.logLevel == InfoLevel
  {
    Service(InfoLevel)
  }

  /** `setOutputLevel(logLevel)` */
  function SetOutputLevel(s: Service, logLevel: string): (r: Service)
    ensures r.logLevel == logLevel
  {
    s.(logLevel := logLevel)
  }

  /** The early-return guards of the four calls: each lists the levels that
      silence it. */
  predicate Emits(logLevel: string, sev: Severity) {
    match sev
    case DebugMessage =>
      !(logLevel == NoneLevel || logLevel == InfoLevel || logLevel == WarnLevel || logLevel == ErrorLevel)
    case InfoMessage =>
      !(logLevel == NoneLevel || logLevel == WarnLevel || logLevel == ErrorLevel)
    case WarningMessage =>
      !(logLevel == NoneLevel || logLevel == ErrorLevel)
    case ErrorMessage =>
      logLevel != NoneLevel
  }

  /** Severity order of the calls. */
  function Rank(sev: Severity): nat {
    match sev
    case DebugMessage => 0
    case InfoMessage => 1
    case WarningMessage => 2
    case ErrorMessage => 3
  }

  /** The least severity a level lets through; `None` lets nothing through
      and an unrecognised level lets everything through. */
  function Threshold(logLevel: string): nat {
    if logLevel == NoneLevel then 4
    else if logLevel == ErrorLevel then 3
    else if logLevel == WarnLevel then 2
    else if logLevel == InfoLevel then 1
    else 0
  }

  /** The four separate guards amount to one threshold on severity. */
  lemma EmitsIffAtThreshold(logLevel: string, sev: Severity)
    ensures Emits(logLevel, sev) <==> Rank(sev) >= Threshold(logLevel)
  {
  }

  /** Whenever a call emits, every more severe call emits as well. */
  lemma SeverityNesting(logLevel: string, a: Severity, b: Severity)
    requires Emits(logLevel, a) && Rank(a) <= Rank(b)
    ensures Emits(logLevel, b)
  {
    EmitsIffAtThreshold(logLevel, a);
    EmitsIffAtThreshold(logLevel, b);
  }

  /** The default level silences debug messages only. */
  lemma DefaultLevelSilencesDebugOnly()
    ensures !Emits(Init().logLevel, DebugMessage)
    ensures Emits(Init().logLevel, InfoMessage) && Emits(Init().logLevel, WarningMessage) && Emits(Init().logLevel, ErrorMessage)
  {
  }

  /** The extra argument of a logging call. */
  datatype Extra =
    | Text(s: string)                             // a string
    | ErrorObject(message: string, stack: string) // an `Error` instance ("" for a missing part)
    | Other(json: string, truthy: bool)           // any other value, with its `JSON.stringify` text

  /** `if (data)`: an empty string is falsy, an object never is. */
  predicate Truthy(e: Extra) {
    match e
    case Text(s) => s != ""
    case ErrorObject(_, _) => true
    case Other(_, truthy) => truthy
  }

  /** `JSON.stringify(data, undefined, 4)`; string escapes are left out. */
  function Json(e: Extra): string {
    match e
    case Text(s) => "\"" + s + "\""
    case ErrorObject(_, _) => "{}"
    case Other(json, _) => json
  }

  /** A line on the output channel: a titled message (`["Level" - time] message`)
      or a plain line. */
  datatype Entry = Titled(level: string, message: string) | Line(text: string)

  /** What `logDebug`, `logInfo`, `logWarning` and `logError` append. */
  function Log(s: Service, sev: Severity, message: string, extra: Option<Extra>): (r: seq<Entry>)
    ensures |r| == 0 <==> !Emits(s.logLevel, sev)
    ensures |r| > 0 ==> r[0] == Titled(SeverityText(sev), message)
    ensures sev != ErrorMessage && |r| > 0 ==>
              (|r| == 2 <==> extra.Some? && Truthy(extra.value)) && |r| <= 2
  {
    if !Emits(s.logLevel, sev) then []
    else [Titled(SeverityText(sev), message)] + Details(sev, extra)
  }

  /** The lines after the title. A string passed to `logError` is written as
      it is, even when empty; an `Error` contributes its message and stack
      when they are present; anything else is written as JSON when truthy. */
  function Details(sev: Severity, extra: Option<Extra>): seq<Entry> {
    match extra
    case None => []
    case Some(e) =>
      if sev != ErrorMessage then (if Truthy(e) then [Line(Json(e))] else [])
      else
        match e
        case Text(t) => [Line(t)]
        case ErrorObject(m, st) =>
          (if m != "" then [Titled(ErrorLevel, m)] else []) + (if st != "" then [Line(st)] else [])
        case Other(json, truthy) => if truthy then [Line(json)] else []
  }

  /** `logError` writes a string argument even when it is empty; the other
      calls drop an empty string. */
  lemma EmptyStringExtra(s: Service, message: string)
    requires s.logLevel == DebugLevel
    ensures Log(s, ErrorMessage, message, Some(Text(""))) == [Titled(ErrorLevel, message), Line("")]
    ensures Log(s, InfoMessage, message, Some(Text(""))) == [Titled(InfoLevel, message)]
  {
  }

  /** At level `None` nothing is written, whatever the call. */
  lemma NoneSilencesAll(sev: Severity, message: string, extra: Option<Extra>)
    ensures Log(Service(NoneLevel), sev, message, extra) == []
  {
  }
}
