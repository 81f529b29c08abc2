/**
 * The capture buffer of the console wrappers and the text formatters built on it.
 *
 * The module-level `logs` array becomes a `LogBuffer` object (the process holds one); each
 * wrapped `console.log/warn/error/info` call is `Append`, `getCapturedLogs` is `Snapshot`,
 * `clearCapturedLogs` is `Clear`, and the `window.onerror` / `onunhandledrejection` handlers
 * are `OnError` / `OnUnhandledRejection`. A ghost `history` records every entry appended
 * since the last clear, and the buffer always holds its last 100 entries.
 */
module ConsoleCapture {
  import opened Wrappers
  import opened Text
  import opened LogModel

  /** The buffer keeps at most this many entries. */
  const Capacity: nat := 100

  /** The entries the buffer must hold after `history`: the last `Capacity` of them, in order. */
  function Window(history: seq<LogEntry>): (w: seq<LogEntry>)
    ensures |w| == if |history| <= Capacity then |history| else Capacity
    ensures w == history[|history| - |w|..]
  {
    if |history| <= Capacity then history else history[|history| - Capacity..]
  }

  /**
   * One more entry moves the window by one: pushing it, then dropping the head once the
   * array is longer than `Capacity`, gives the window of the longer history.
   */
  lemma WindowSnoc(history: seq<LogEntry>, entry: LogEntry)
    ensures var pushed := Window(history) + [entry];
            Window(history + [entry]) == if |pushed| > Capacity then pushed[1..] else pushed
  {
    var h := history + [entry];
    if |history| >= Capacity {
      assert h[|h| - Capacity..] == history[|history| - Capacity + 1..] + [entry];
      if |history| > Capacity {
        assert (history[|history| - Capacity..] + [entry])[1..] == history[|history| - Capacity + 1..] + [entry];
      } else {
        assert (history + [entry])[1..] == history[1..] + [entry];
      }
    }
  }

  /** The message of the Error that `window.onerror` synthesises when it is not handed one. */
  function RuntimeErrorMessage(msg: Option<string>, url: string, lineNo: string, columnNo: string): (text: string)
    ensures msg.None? ==> text == "Unknown runtime error"
    ensures msg.Some? ==> StartsWith(text, msg.value + " @ " + url + ":")
    ensures msg.Some? ==> text[|msg.value + " @ " + url + ":"|..] == lineNo + ":" + columnNo
  {
    match msg
    case Some(m) =>
      var head := m + " @ " + url + ":";
      var text := head + (lineNo + ":" + columnNo);
      assert text[..|head|] == head && text[|head|..] == lineNo + ":" + columnNo;
      text
    case None => "Unknown runtime error"
  }

  /**
   * What `window.onerror` logs: the error it was handed when that is an Error, otherwise
   * `new Error(RuntimeErrorMessage(...))`, whose stack the host supplies.
   */
  function SafeError(msg: Option<string>, url: string, lineNo: string, columnNo: string,
                     error: Option<Value>, newStack: Option<string>): (e: Value)
    ensures e.Err?
    ensures error.Some? && error.value.Err? ==> e == error.value
    ensures !(error.Some? && error.value.Err?) ==>
              e.name == "Error" && e.message == RuntimeErrorMessage(msg, url, lineNo, columnNo)
  {
    if error.Some? && error.value.Err? then error.value
    else
      var message := RuntimeErrorMessage(msg, url, lineNo, columnNo);
      Err("Error", message, newStack, HostText(JsonText("{}"), JsonText("{}"), "Error: " + message))
  }

  class LogBuffer {
    var logs: seq<LogEntry>
    ghost var history: seq<LogEntry>

    ghost predicate Valid()
      reads this
    {
      logs == Window(history)
    }

    constructor ()
      ensures Valid() && logs == [] && history == []
    {
      logs := [];
      history := [];
    }

    /** A wrapped console call: one entry of that type with the arguments in order; at most 100 are kept. */
    method Append(kind: LogType, args: seq<Value>, timestamp: string)
      requires Valid()
      modifies this
      ensures Valid()
      ensures history == old(history) + [LogEntry(kind, args, timestamp)]
      ensures |logs| <= Capacity
      ensures logs == if |old(logs)| < Capacity then old(logs) + [LogEntry(kind, args, timestamp)]
                      else old(logs)[1..] + [LogEntry(kind, args, timestamp)]
    {
      var entry := LogEntry(kind, args, timestamp);
      WindowSnoc(history, entry);
      logs := logs + [entry];
      if |logs| > Capacity {
        logs := logs[1..];
      }
      history := history + [entry];
    }

    /** `getCapturedLogs()`: a new snapshot holding a copy of the current entries. */
    method Snapshot() returns (snapshot: CapturedLogs)
      ensures fresh(snapshot) && snapshot.entries == logs
    {
      snapshot := new CapturedLogs(logs);
    }

    /** `clearCapturedLogs()` */
    method Clear()
      modifies this
      ensures Valid() && logs == [] && history == []
    {
      logs := [];
      history := [];
    }

    /** `window.onerror`: logs one Error entry through the wrapped `console.error`. */
    method OnError(msg: Option<string>, url: string, lineNo: string, columnNo: string,
                   error: Option<Value>, newStack: Option<string>, timestamp: string)
      requires Valid()
      modifies this
      ensures Valid()
      ensures history == old(history) + [LogEntry(Error, [SafeError(msg, url, lineNo, columnNo, error, newStack)], timestamp)]
    {
      Append(Error, [SafeError(msg, url, lineNo, columnNo, error, newStack)], timestamp);
    }

    /** `window.onunhandledrejection`: logs the rejection reason as one Error entry. */
    method OnUnhandledRejection(reason: Value, timestamp: string)
      requires Valid()
      modifies this
      ensures Valid()
      ensures history == old(history) + [LogEntry(Error, [reason], timestamp)]
    {
      Append(Error, [reason], timestamp);
    }
  }

  /** `CapturedLogs`: a snapshot with its own copy of the entries. */
  class CapturedLogs {
    var entries: seq<LogEntry>

    constructor (entries: seq<LogEntry>)
      ensures this.entries == entries
    {
      this.entries := entries;
    }

    /** `prettyPrintString()`; None where the call throws. */
    function PrettyPrintString(): (text: Option<string>)
      reads this
      ensures text == PrettyPrint(entries)
    {
      PrettyPrint(entries)
    }

    /** `toArray()`: a copy of the entries. */
    method ToArray() returns (copy: seq<LogEntry>)
      ensures copy == entries
    {
      copy := entries;
    }

    /** `clear()`: empties this snapshot only. */
    method Clear()
      modifies this
      ensures entries == []
    {
      entries := [];
    }
  }

  /** A snapshot keeps the entries it was taken with while the buffer goes on changing. */
  method SnapshotOutlivesChanges(buffer: LogBuffer, kind: LogType, args: seq<Value>, timestamp: string)
    returns (snapshot: CapturedLogs)
    requires buffer.Valid()
    modifies buffer
    ensures fresh(snapshot) && snapshot.entries == old(buffer.logs)
    ensures buffer.Valid() && buffer.logs == []
  {
    snapshot := buffer.Snapshot();
    buffer.Append(kind, args, timestamp);
    assert snapshot.entries == old(buffer.logs);
    buffer.Clear();
  }

  /** Clearing a snapshot leaves the buffer it was taken from as it was. */
  method ClearingSnapshotKeepsBuffer(buffer: LogBuffer) returns (snapshot: CapturedLogs)
    requires buffer.Valid()
    ensures fresh(snapshot) && snapshot.entries == []
    ensures buffer.Valid() && buffer.logs == old(buffer.logs)
  {
    snapshot := buffer.Snapshot();
    snapshot.Clear();
  }

  // ---- prettyPrintString ----

  /** `JSON.stringify(v, null, 2)` throws for this argument, and with it `prettyPrintString`. */
  predicate Throws(v: Value)
  {
    v.Other? && v.host.pretty.JsonThrows?
  }

  /**
   * One argument as `prettyPrintString` renders it: an Error as `name: message` and its stack
   * on the next line, a string verbatim, anything else as indented JSON (`undefined` joins as "").
   */
  function PrettyPart(v: Value): (r: Option<string>)
    ensures r.None? <==> Throws(v)
    ensures v.Str? ==> r == Some(v.s)
    ensures v.Err? ==> r == Some(v.name + ": " + v.message + "\n" + StackText(v.stack))
    ensures v.Other? && v.host.pretty.JsonText? ==> r == Some(v.host.pretty.text)
    ensures v.Other? && v.host.pretty.JsonUndefined? ==> r == Some("")
  {
    match v
    case Err(name, message, stack, _) => Some(name + ": " + message + "\n" + StackText(stack))
    case Str(s) => Some(s)
    case Other(_, host) =>
      match host.pretty
      case JsonText(text) => Some(text)
      case JsonUndefined => Some("")
      case JsonThrows => None
  }

  function PrettyParts(vs: seq<Value>): (r: Option<seq<string>>)
    ensures r.Some? <==> forall j :: 0 <= j < |vs| ==> !Throws(vs[j])
    ensures r.Some? ==> |r.value| == |vs| && forall j :: 0 <= j < |vs| ==> PrettyPart(vs[j]) == Some(r.value[j])
    decreases |vs|
  {
    if |vs| == 0 then Some([])
    else
      match PrettyPart(vs[0])
      case None => None
      case Some(p) =>
        match PrettyParts(vs[1..])
        case None => None
        case Some(ps) => Some([p] + ps)
  }

  /** `[timestamp] PREFIX part1\n    part2...` */
  function PrettyEntry(e: LogEntry): Option<string>
  {
    match PrettyParts(e.message)
    case None => None
    case Some(parts) => Some("[" + e.timestamp + "] " + Prefix(e.kind) + " " + Join(parts, "\n    "))
  }

  function PrettyEntries(es: seq<LogEntry>): (r: Option<seq<string>>)
    ensures r.Some? <==> forall i :: 0 <= i < |es| ==> PrettyEntry(es[i]).Some?
    ensures r.Some? ==> |r.value| == |es| && forall i :: 0 <= i < |es| ==> PrettyEntry(es[i]) == Some(r.value[i])
    decreases |es|
  {
    if |es| == 0 then Some([])
    else
      match PrettyEntry(es[0])
      case None => None
      case Some(t) =>
        match PrettyEntries(es[1..])
        case None => None
        case Some(ts) => Some([t] + ts)
  }

  /** The text of `prettyPrintString()`: entries in buffer order, separated by a blank line. */
  function PrettyPrint(es: seq<LogEntry>): (r: Option<string>)
    ensures r.Some? <==> forall i, j :: 0 <= i < |es| && 0 <= j < |es[i].message| ==> !Throws(es[i].message[j])
  {
    match PrettyEntries(es)
    case None => None
    case Some(texts) => Some(Join(texts, "\n\n"))
  }

  /** A single entry prints as itself; it begins with its timestamp and prefix. */
  lemma PrettyPrintSingle(e: LogEntry)
    requires PrettyEntry(e).Some?
    ensures PrettyPrint([e]) == PrettyEntry(e)
    ensures StartsWith(PrettyEntry(e).value, "[" + e.timestamp + "] " + Prefix(e.kind) + " ")
  {
    assert [e][0] == e;
    var texts := PrettyEntries([e]);
    assert texts.Some? && |texts.value| == 1 && texts.value[0] == PrettyEntry(e).value;
    assert texts.value == [PrettyEntry(e).value];
    var parts := PrettyParts(e.message).value;
    var head := "[" + e.timestamp + "] " + Prefix(e.kind) + " ";
    assert PrettyEntry(e).value == head + Join(parts, "\n    ");
  }

  /** A later entry is printed after all earlier ones, separated from them by a blank line. */
  lemma PrettyPrintSnoc(es: seq<LogEntry>, e: LogEntry)
    requires |es| > 0
    requires PrettyPrint(es).Some? && PrettyEntry(e).Some?
    ensures PrettyPrint(es + [e]) == Some(PrettyPrint(es).value + "\n\n" + PrettyEntry(e).value)
  {
    var texts := PrettyEntries(es).value;
    var all := es + [e];
    assert forall i :: 0 <= i < |all| ==> PrettyEntry(all[i]).Some? by {
      forall i | 0 <= i < |all| ensures PrettyEntry(all[i]).Some? {
        if i < |es| { assert all[i] == es[i]; }
      }
    }
    var longer := PrettyEntries(all).value;
    assert longer == texts + [PrettyEntry(e).value] by {
      forall i | 0 <= i < |longer| ensures longer[i] == (texts + [PrettyEntry(e).value])[i] {
        if i < |es| { assert all[i] == es[i]; }
      }
    }
    JoinSnoc(texts, PrettyEntry(e).value, "\n\n");
  }

  // ---- prettyPrintLogsForEmail ----

  /** The text of one entry for the email attachment and the chat card: a header line, then each argument on its own line. */
  function EntryText(e: LogEntry): string
  {
    "[" + e.timestamp + "] " + Prefix(e.kind) + "\n" + Join(ParsedParts(e.message), "\n")
  }

  /** `parseLogMessage` of each argument, as `join` renders it. */
  function ParsedParts(vs: seq<Value>): seq<string>
  {
    seq(|vs|, j requires 0 <= j < |vs| => JoinText(ParseLogMessage(vs[j])))
  }

  lemma EntryTextShape(e: LogEntry)
    ensures StartsWith(EntryText(e), "[" + e.timestamp + "] " + Prefix(e.kind) + "\n")
    ensures |EntryText(e)| > 0
    ensures |e.message| == 1 && e.message[0].Str? ==>
              EntryText(e) == "[" + e.timestamp + "] " + Prefix(e.kind) + "\n" + e.message[0].s
  {
    var head := "[" + e.timestamp + "] " + Prefix(e.kind) + "\n";
    assert EntryText(e) == head + Join(ParsedParts(e.message), "\n");
    assert EntryText(e)[0] == '[';
  }

  /** `prettyPrintLogsForEmail`: undefined for a missing or empty array, else one text per entry, in order. */
  function PrettyPrintLogsForEmail(logs: Option<seq<LogEntry>>): (r: Option<seq<string>>)
    ensures r.None? <==> logs.None? || |logs.value| == 0
    ensures r.Some? ==> |r.value| == |logs.value|
    ensures r.Some? ==> forall i :: 0 <= i < |r.value| ==> r.value[i] == EntryText(logs.value[i])
  {
    if logs.None? || |logs.value| == 0 then None
    else Some(seq(|logs.value|, i requires 0 <= i < |logs.value| => EntryText(logs.value[i])))
  }
}
