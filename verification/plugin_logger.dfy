/** The routing of a plugin's log messages: debug levels shown only up to the configured
    debug level and then as INFO with the debug prefix, CONFIG shown as INFO only while
    enabled, everything else prefixed with the plugin name; plus the set of debug-broadcast
    subscriptions. The message text is taken after `String.format`. */
module PluginLogging {
  import opened Wrappers

  /** The name of the static `Logging` class, whose messages are not prefixed. */
  const LOGGING_CLASS_NAME: string := "pluginbase.logging.Logging"
  const ORIGINAL_DEBUG: string := "-Debug"
  const SHOW_CONFIG: bool := true

  /** The `java.util.logging` levels the logger distinguishes. */
  datatype Level = Severe | Warning | Info | Config | Fine | Finer | Finest

  /** A record handed to the underlying logger. */
  datatype LogRecord = LogRecord(level: Level, message: string)

  /** `IllegalArgumentException` from `setDebugLevel`. */
  datatype LoggerError = DebugLevelOutOfRange

  /** A debug subscription, by identity. */
  type Subscription = nat

  /** The state of one plugin's logger. */
  datatype PluginLogger = PluginLogger(pluginName: string, debugLevel: int, showConfig: bool,
                                       debugString: string, subscriptions: set<Subscription>)

  /** A new logger: debugging off, CONFIG shown, the original debug suffix, no subscriptions. */
  function NewLogger(pluginName: string): (lg: PluginLogger)
    ensures ValidLogger(lg) && lg.pluginName == pluginName && lg.debugLevel == 0
    ensures lg.subscriptions == {}
  {
    PluginLogger(pluginName, 0, SHOW_CONFIG, ORIGINAL_DEBUG, {})
  }

  predicate ValidLogger(lg: PluginLogger) {
    0 <= lg.debugLevel <= 3
  }

  /** `setDebugLevel`: 0 to 3, anything else refused. */
  function SetDebugLevel(lg: PluginLogger, debugLevel: int): Result<PluginLogger, LoggerError> {
    if debugLevel > 3 || debugLevel < 0 then Failure(DebugLevelOutOfRange)
    else Success(lg.(debugLevel := debugLevel))
  }

  /** `shutdown`: debugging off. */
  function Shutdown(lg: PluginLogger): (r: PluginLogger)
    ensures r.debugLevel == 0 && ValidLogger(r)
    ensures r.(debugLevel := lg.debugLevel) == lg
  {
    SetDebugLevel(lg, 0).value
  }

  /** `getPrefixedMessage`: `[name] message`, or the message alone for the `Logging` class. */
  function PrefixedMessage(lg: PluginLogger, message: string): string {
    if lg.pluginName == LOGGING_CLASS_NAME then message
    else "[" + lg.pluginName + "] " + message
  }

  /** `getDebugString`: `[name<suffix>] message`, without the name for the `Logging` class. */
  function DebugString(lg: PluginLogger, message: string): string {
    if lg.pluginName == LOGGING_CLASS_NAME then "[" + lg.debugString + "] " + message
    else "[" + lg.pluginName + lg.debugString + "] " + message
  }

  /** `log(level, message, args)`: the record passed on, or `None` when the message is not
      shown. */
  function Log(lg: PluginLogger, level: Level, message: string): Option<LogRecord> {
    if (level == Fine && lg.debugLevel >= 1) || (level == Finer && lg.debugLevel >= 2)
       || (level == Finest && lg.debugLevel >= 3) then
      Some(LogRecord(Info, DebugString(lg, message)))
    else if level != Fine && level != Finer && level != Finest then
      if level != Config || lg.showConfig then
        if level == Config then Some(LogRecord(Info, PrefixedMessage(lg, message)))
        else Some(LogRecord(level, PrefixedMessage(lg, message)))
      else None
    else None
  }

  /** `subscribeToDebugBroadcast`: true when the subscription is new. */
  function Subscribe(lg: PluginLogger, s: Subscription): (bool, PluginLogger) {
    if s !in lg.subscriptions then (true, lg.(subscriptions := lg.subscriptions + {s}))
    else (false, lg)
  }

  /** `unsubscribeFromDebugBroadcast`: true when the subscription was there. */
  function Unsubscribe(lg: PluginLogger, s: Subscription): (bool, PluginLogger) {
    if s in lg.subscriptions then (true, lg.(subscriptions := lg.subscriptions - {s}))
    else (false, lg)
  }

  predicate HasSubscription(lg: PluginLogger, s: Subscription) {
    s in lg.subscriptions
  }

  /** The name `Level.toString` gives. */
  function LevelName(level: Level): string {
    match level
    case Severe => "SEVERE"
    case Warning => "WARNING"
    case Info => "INFO"
    case Config => "CONFIG"
    case Fine => "FINE"
    case Finer => "FINER"
    case Finest => "FINEST"
  }

  /** The text every subscription receives for a record: `[Logged to <logger>]`, the level
      in brackets, the message. `loggerText` is the logger's own `toString`. */
  function BroadcastText(loggerText: string, record: LogRecord): string {
    "[Logged to " + loggerText + "]" + "[" + LevelName(record.level) + "]" + record.message
  }

  // ---------------------------------------------------------------------------
  // Properties
  // ---------------------------------------------------------------------------

  /** The debug level at which a level starts to be shown, for the three debug levels. */
  function DebugThreshold(level: Level): Option<int> {
    match level
    case Fine => Some(1)
    case Finer => Some(2)
    case Finest => Some(3)
    case _ => None
  }

  /** A message is shown exactly when its level is a debug level within the debug level, or
      CONFIG while CONFIG is shown, or any other level; debug messages and CONFIG come out as
      INFO, debug messages with the debug prefix and all others with the name prefix. */
  lemma LogRouting(lg: PluginLogger, level: Level, message: string)
    ensures Log(lg, level, message).Some? <==>
              match DebugThreshold(level)
              case Some(k) => lg.debugLevel >= k
              case None => level != Config || lg.showConfig
    ensures Log(lg, level, message).Some? && DebugThreshold(level).Some? ==>
              Log(lg, level, message).value == LogRecord(Info, DebugString(lg, message))
    ensures Log(lg, level, message).Some? && DebugThreshold(level).None? ==>
              Log(lg, level, message).value
              == LogRecord(if level == Config then Info else level, PrefixedMessage(lg, message))
  {
  }

  /** With debugging off no debug message is shown, whatever else is set. */
  lemma DebugOffHidesDebug(lg: PluginLogger, level: Level, message: string)
    requires lg.debugLevel == 0 && DebugThreshold(level).Some?
    ensures Log(lg, level, message) == None
  {
  }

  /** Raising the debug level never hides a message that was shown. */
  lemma LogMonotone(lg: PluginLogger, level: Level, message: string, higher: int)
    requires higher >= lg.debugLevel && Log(lg, level, message).Some?
    ensures Log(lg.(debugLevel := higher), level, message).Some?
  {
  }

  /** The debug level is accepted exactly between 0 and 3, and then it is the only change. */
  lemma SetDebugLevelBounds(lg: PluginLogger, debugLevel: int)
    ensures SetDebugLevel(lg, debugLevel).Success? <==> 0 <= debugLevel <= 3
    ensures SetDebugLevel(lg, debugLevel).Success? ==>
              ValidLogger(SetDebugLevel(lg, debugLevel).value)
              && SetDebugLevel(lg, debugLevel).value.debugLevel == debugLevel
              && SetDebugLevel(lg, debugLevel).value.(debugLevel := lg.debugLevel) == lg
  {
  }

  /** The prefixed message is the message after `[name] `; cutting the prefix off gives it
      back. */
  lemma PrefixedMessageShape(lg: PluginLogger, message: string)
    requires lg.pluginName != LOGGING_CLASS_NAME
    ensures var r := PrefixedMessage(lg, message);
            |r| == |lg.pluginName| + 3 + |message| && r[0] == '['
            && r[1..|lg.pluginName| + 1] == lg.pluginName
            && r[|lg.pluginName| + 1..|lg.pluginName| + 3] == "] "
            && r[|lg.pluginName| + 3..] == message
  {
  }

  /** The debug string carries the name and the debug suffix before the message. */
  lemma DebugStringShape(lg: PluginLogger, message: string)
    requires lg.pluginName != LOGGING_CLASS_NAME
    ensures var r := DebugString(lg, message);
            var n := |lg.pluginName| + |lg.debugString|;
            |r| == n + 3 + |message| && r[1..n + 1] == lg.pluginName + lg.debugString
            && r[n + 3..] == message
  {
  }

  /** A second subscription of the same subscriber is refused and changes nothing. */
  lemma SubscribeTwice(lg: PluginLogger, s: Subscription)
    ensures HasSubscription(Subscribe(lg, s).1, s)
    ensures Subscribe(Subscribe(lg, s).1, s) == (false, Subscribe(lg, s).1)
  {
  }

  /** Unsubscribing an absent subscriber is refused and changes nothing. */
  lemma UnsubscribeAbsent(lg: PluginLogger, s: Subscription)
    requires !HasSubscription(lg, s)
    ensures Unsubscribe(lg, s) == (false, lg)
  {
  }

  /** Subscribing a new subscriber and unsubscribing it again gives the logger back, and both
      calls report a change. */
  lemma SubscribeUnsubscribe(lg: PluginLogger, s: Subscription)
    requires !HasSubscription(lg, s)
    ensures Subscribe(lg, s).0 && Unsubscribe(Subscribe(lg, s).1, s) == (true, lg)
  {
    assert lg.subscriptions + {s} - {s} == lg.subscriptions;
  }

  /** Subscriptions of other subscribers are left alone. */
  lemma SubscriptionsIndependent(lg: PluginLogger, s: Subscription, other: Subscription)
    requires s != other
    ensures HasSubscription(Subscribe(lg, s).1, other) == HasSubscription(lg, other)
    ensures HasSubscription(Unsubscribe(lg, s).1, other) == HasSubscription(lg, other)
  {
  }

  /** A broadcast INFO record reads as in the logger's own test: the prefix, `[INFO]`, and the
      prefixed message. */
  lemma BroadcastOfInfo(lg: PluginLogger, loggerText: string, message: string)
    ensures Log(lg, Info, message).Some?
    ensures BroadcastText(loggerText, Log(lg, Info, message).value)
            == "[Logged to " + loggerText + "]" + "[INFO]" + PrefixedMessage(lg, message)
  {
  }
}
