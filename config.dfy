/**
 * The configuration record and its validation (`Config.Complete`). The
 * duration parser and the URL parser are library code outside this model;
 * `Complete` receives them as oracles.
 */
module Configuration {
  import opened Wrappers
  import opened Durations

  /** 3 days and 30 days, the inclusive bounds of the alert threshold. */
  const MinBeforeExpired: int := 3 * 24 * Hour
  const MaxBeforeExpired: int := 30 * 24 * Hour

  /** The four error returns of `Complete`, in the order they are checked. */
  datatype ConfigError =
    | NoDomain                            // "no any domain configured"
    | InvalidBeforeExpired(cause: string) // the duration parser's error, wrapped
    | BeforeExpiredOutOfRange             // "should be between 3 and 30 days"
    | InvalidNotifyUrl(cause: string)     // the URL parser's error, wrapped

  predicate BeforeExpiredInRange(d: int)
  {
    MinBeforeExpired <= d <= MaxBeforeExpired
  }

  class Config {
    var domains: seq<string>
    var notifyUrl: string
    var beforeExpiredStr: string
    /** Not read from the file; written by `Complete` on success. */
    var beforeExpired: int

    /** The record as the file loader fills it in: `beforeExpired` is still Go's zero value. */
    constructor (domains: seq<string>, notifyUrl: string, beforeExpiredStr: string)
      ensures this.domains == domains && this.notifyUrl == notifyUrl
      ensures this.beforeExpiredStr == beforeExpiredStr && beforeExpired == 0
    {
      this.domains := domains;
      this.notifyUrl := notifyUrl;
      this.beforeExpiredStr := beforeExpiredStr;
      beforeExpired := 0;
    }

    /**
     * Runs the checks in order and stops at the first failure; only when all
     * of them pass is the parsed threshold stored.
     */
    method Complete(parseDuration: string -> Result<int, string>, parseRequestUri: string -> Result<(), string>)
      returns (err: Option<ConfigError>)
      modifies this`beforeExpired
      ensures |domains| == 0 ==> err == Some(NoDomain)
      ensures |domains| > 0 && parseDuration(beforeExpiredStr).Err? ==>
        err == Some(InvalidBeforeExpired(parseDuration(beforeExpiredStr).error))
      ensures |domains| > 0 && parseDuration(beforeExpiredStr).Ok? && !BeforeExpiredInRange(parseDuration(beforeExpiredStr).value) ==>
        err == Some(BeforeExpiredOutOfRange)
      ensures (|domains| > 0 && parseDuration(beforeExpiredStr).Ok? && BeforeExpiredInRange(parseDuration(beforeExpiredStr).value)
        && parseRequestUri(notifyUrl).Err?) ==>
        err == Some(InvalidNotifyUrl(parseRequestUri(notifyUrl).error))
      ensures err.None? <==>
        && |domains| > 0
        && parseDuration(beforeExpiredStr).Ok?
        && BeforeExpiredInRange(parseDuration(beforeExpiredStr).value)
        && parseRequestUri(notifyUrl).Ok?
      ensures err.None? ==> beforeExpired == parseDuration(beforeExpiredStr).value && BeforeExpiredInRange(beforeExpired)
      ensures err.Some? ==> beforeExpired == old(beforeExpired)
    {
      if |domains| == 0 {
        return Some(NoDomain);
      }
      var parsed := parseDuration(beforeExpiredStr);
      if parsed.Err? {
        return Some(InvalidBeforeExpired(parsed.error));
      }
      var d := parsed.value;
      if d > MaxBeforeExpired || d < MinBeforeExpired {
        return Some(BeforeExpiredOutOfRange);
      }
      var url := parseRequestUri(notifyUrl);
      if url.Err? {
        return Some(InvalidNotifyUrl(url.error));
      }
      beforeExpired := d;
      return None;
    }
  }
}
