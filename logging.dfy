/** The Logger (logger.h): one JSON line per event, written to log.json and,
    when a host application registered a callback, the bare message handed
    to that callback. The clock, the mutex and console output are not
    modelled; the timestamp is an input. */
module Logging {
  import opened Wrappers

  /** The LogLevel enumerators. A level is an int because the enum can hold
      any value of its underlying type, which is what the default branch of
      logLevelToString is for. */
  const DEBUG: int := 0
  const INFO: int := 1
  const WARN: int := 2
  const ERROR: int := 3

  function LevelName(level: int): (r: string)
    ensures r == "unknown" <==> !(DEBUG <= level <= ERROR)
  {
    if level == DEBUG then "debug"
    else if level == INFO then "info"
    else if level == WARN then "warn"
    else if level == ERROR then "error"
    else "unknown"
  }

  /** Reading a level name back. */
  function LevelCode(name: string): Option<int> {
    if name == "debug" then Some(DEBUG)
    else if name == "info" then Some(INFO)
    else if name == "warn" then Some(WARN)
    else if name == "error" then Some(ERROR)
    else None
  }

  /** The four enumerators have four different names, each of which reads
      back as its enumerator; every other value is "unknown", which reads
      back as nothing. */
  lemma LevelNameRoundTrip(level: int)
    ensures DEBUG <= level <= ERROR ==> LevelCode(LevelName(level)) == Some(level)
    ensures !(DEBUG <= level <= ERROR) ==> LevelCode(LevelName(level)) == None
  {
  }

  datatype LogEntry = LogEntry(timestamp: string, level: string, origin: string, message: string)

  const TimestampKey: string := "{\"timestamp\":\""
  const LevelKey: string := "\",\"level\":\""
  const ModuleKey: string := "\",\"module\":\""
  const MessageKey: string := "\",\"message\":\""
  const LineEnd: string := "\"}\n"

  /** createLogJson: the four fields spliced verbatim, without escaping,
      into one JSON object followed by a newline. */
  function CreateLogJson(e: LogEntry): (r: string)
    ensures TimestampKey <= r && |r| == |e.timestamp| + |e.level| + |e.origin| + |e.message| + 53
    ensures r[|r| - 1] == '\n'
  {
    TimestampKey + e.timestamp + LevelKey + e.level + ModuleKey + e.origin + MessageKey + e.message + LineEnd
  }

  predicate NoQuote(s: string) {
    forall k :: 0 <= k < |s| ==> s[k] != '"'
  }

  predicate Unquoted(e: LogEntry) {
    NoQuote(e.timestamp) && NoQuote(e.level) && NoQuote(e.origin) && NoQuote(e.message)
  }

  /** The position of the first '"' in s, if any. */
  function FirstQuote(s: string): (r: Option<nat>)
    ensures r.Some? ==> r.value < |s| && s[r.value] == '"' && NoQuote(s[..r.value])
    ensures r.None? ==> NoQuote(s)
  {
    if s == [] then None
    else if s[0] == '"' then Some(0)
    else match FirstQuote(s[1..])
      case None => None
      case Some(k) => Some(k + 1)
  }

  /** A field value runs up to the first '"', which must open sep. */
  function ReadField(s: string, sep: string): Option<(string, string)> {
    match FirstQuote(s)
    case None => None
    case Some(k) => if sep <= s[k..] then Some((s[..k], s[k + |sep|..])) else None
  }

  /** Reads one log line back into its entry. */
  function ParseLogLine(line: string): Option<LogEntry> {
    if !(TimestampKey <= line) then None
    else
      var t :- ReadField(line[|TimestampKey|..], LevelKey);
      var l :- ReadField(t.1, ModuleKey);
      var m :- ReadField(l.1, MessageKey);
      var s :- ReadField(m.1, LineEnd);
      if s.1 == "" then Some(LogEntry(t.0, l.0, m.0, s.0)) else None
  }

  lemma {:induction false} FirstQuoteAfter(f: string, rest: string)
    requires NoQuote(f) && rest != [] && rest[0] == '"'
    ensures FirstQuote(f + rest) == Some(|f|)
  {
    if f != [] {
      assert (f + rest)[1..] == f[1..] + rest;
      FirstQuoteAfter(f[1..], rest);
    }
  }

  lemma ReadFieldSplits(f: string, sep: string, rest: string)
    requires NoQuote(f) && sep != [] && sep[0] == '"'
    ensures ReadField(f + sep + rest, sep) == Some((f, rest))
  {
    var s := f + sep + rest;
    assert s == f + (sep + rest);
    FirstQuoteAfter(f, sep + rest);
    assert s[|f|..] == sep + rest;
    assert s[..|f|] == f;
    assert s[|f| + |sep|..] == rest;
  }

  /** The log line, read from the front: each key followed by the rest. */
  lemma LineNested(e: LogEntry)
    ensures CreateLogJson(e) ==
      TimestampKey + (e.timestamp + LevelKey + (e.level + ModuleKey + (e.origin + MessageKey + (e.message + LineEnd))))
  {
  }

  /** A line whose fields hold no '"' reads back as the entry it was made from. */
  lemma LogLineRoundTrip(e: LogEntry)
    requires Unquoted(e)
    ensures ParseLogLine(CreateLogJson(e)) == Some(e)
  {
    var line := CreateLogJson(e);
    var r3 := e.message + LineEnd;
    var r2 := e.origin + MessageKey + r3;
    var r1 := e.level + ModuleKey + r2;
    var r0 := e.timestamp + LevelKey + r1;
    LineNested(e);
    assert line[|TimestampKey|..] == r0;
    ReadFieldSplits(e.timestamp, LevelKey, r1);
    ReadFieldSplits(e.level, ModuleKey, r2);
    ReadFieldSplits(e.origin, MessageKey, r3);
    ReadFieldSplits(e.message, LineEnd, "");
    assert e.message + LineEnd + "" == r3;
  }

  /** Because nothing is escaped, a '"' in a field can forge the keys that
      follow it: two different entries can give the very same line, which
      then no reader can tell apart. */
  lemma LogLineAmbiguous()
    ensures var e1 := LogEntry("t", "info\",\"module\":\"db", "x", "m");
            var e2 := LogEntry("t", "info", "db\",\"module\":\"x", "m");
            e1 != e2 && CreateLogJson(e1) == CreateLogJson(e2)
  {
    var e1 := LogEntry("t", "info\",\"module\":\"db", "x", "m");
    var e2 := LogEntry("t", "info", "db\",\"module\":\"x", "m");
    assert e1.level != e2.level by {
      assert |e1.level| != |e2.level|;
    }
    LineMiddle(e1);
    LineMiddle(e2);
    assert e1.level + ModuleKey + e1.origin == e2.level + ModuleKey + e2.origin;
  }

  /** The log line with the level, the module key and the module grouped. */
  lemma LineMiddle(e: LogEntry)
    ensures CreateLogJson(e) ==
      TimestampKey + e.timestamp + LevelKey + (e.level + ModuleKey + e.origin) + MessageKey + e.message + LineEnd
  {
  }

  /** Logger's static state: the registered callback (an identity standing
      for the function pointer, None for nullptr), what log.json holds, and
      the calls made to callbacks, oldest first. */
  class Logger {
    var callback: Option<nat>
    var logFile: string
    var delivered: seq<(nat, string)>

    constructor ()
      ensures callback.None? && logFile == "" && delivered == []
    {
      callback := None;
      logFile := "";
      delivered := [];
    }

    /** registerCallback overwrites the stored callback: the last one wins. */
    method RegisterCallback(cb: Option<nat>)
      modifies this`callback
      ensures callback == cb
    {
      callback := cb;
    }

    /** log: the entry carries the level's name and the module and message
        unchanged. log.json is opened without append mode, so when it opens
        it ends up holding this line alone; a registered callback then gets
        the bare message, not the JSON line. */
    method Log(level: int, origin: string, message: string, timestamp: string, fileOpens: bool)
      modifies this`logFile, this`delivered
      ensures logFile == if fileOpens then CreateLogJson(LogEntry(timestamp, LevelName(level), origin, message)) else old(logFile)
      ensures delivered == old(delivered) + if callback.Some? then [(callback.value, message)] else []
    {
      var entry := LogEntry(timestamp, LevelName(level), origin, message);
      var jsonString := CreateLogJson(entry);
      if fileOpens {
        logFile := jsonString;
      }
      if callback.Some? {
        delivered := delivered + [(callback.value, message)];
      }
    }
  }
}
