/**
  The logging of Runtime/ZMethodsDebug.cs: a level threshold and per-category switches
  decide whether a message is emitted, LogOnce remembers the keys it has seen, and the
  level picks the console channel and the colour of the prefix. What reaches the Unity
  console is appended to a ghost sequence; the clock reading and the hash key of a call
  site are parameters.
*/
module ZMethodsDebug {
  import opened Wrappers
  import opened Decimal

  /** LogLevel, declared from most to least severe. */
  datatype LogLevel = Critical | Error | Warning | Info | Verbose

  /** LogCategory. */
  datatype LogCategory = General

  /** The console method a message goes to. */
  datatype Channel = LogErrorChannel | LogWarningChannel | LogChannel

  /** A message as it reaches the console: its channel, its (possibly coloured) prefix,
      where it was logged from and the logged object's text. */
  datatype LogEntry = LogEntry(channel: Channel, prefix: string, file: string, member: string, line: int, text: string)

  /** The enum's underlying value, which `level > CurrentLogLevel` compares. */
  function Rank(level: LogLevel): (r: nat)
    ensures r < 5
    ensures level == Critical <==> r == 0
    ensures level == Verbose <==> r == 4
  {
    match level
    case Critical => 0
    case Error => 1
    case Warning => 2
    case Info => 3
    case Verbose => 4
  }

  /** The enum order is a total order: distinct levels have distinct ranks. */
  lemma RankInjective(a: LogLevel, b: LogLevel)
    ensures Rank(a) == Rank(b) <==> a == b
  {
  }

  function LevelName(level: LogLevel): string {
    match level
    case Critical => "Critical"
    case Error => "Error"
    case Warning => "Warning"
    case Info => "Info"
    case Verbose => "Verbose"
  }

  function CategoryName(category: LogCategory): string {
    "General"
  }

  /** Critical and Error go to Debug.LogError, Warning to Debug.LogWarning, Info and Verbose
      to Debug.Log. */
  function ChannelOf(level: LogLevel): (c: Channel)
    ensures c == LogErrorChannel <==> Rank(level) <= 1
    ensures c == LogWarningChannel <==> level == Warning
    ensures c == LogChannel <==> Rank(level) >= 3
  {
    match level
    case Critical => LogErrorChannel
    case Error => LogErrorChannel
    case Warning => LogWarningChannel
    case Info => LogChannel
    case Verbose => LogChannel
  }

  /** The colour of the prefix: none for Info, a fixed one per other level. */
  function ColorOf(level: LogLevel): (c: Option<string>)
    ensures c.None? <==> level == Info
  {
    match level
    case Critical => Some("magenta")
    case Error => Some("red")
    case Warning => Some("yellow")
    case Verbose => Some("gray")
    case Info => None
  }

  /** The levels that are coloured all get different colours. */
  lemma ColorsDistinct(a: LogLevel, b: LogLevel)
    requires ColorOf(a).Some? && ColorOf(a) == ColorOf(b)
    ensures a == b
  {
  }

  /** "[time] [category] [level]". */
  function LogInfo(timeStamp: string, category: LogCategory, level: LogLevel): (s: string)
    ensures |s| == |timeStamp| + |CategoryName(category)| + |LevelName(level)| + 8
    ensures s[0] == '[' && s[1..|timeStamp| + 1] == timeStamp && s[|s| - 1] == ']'
    ensures s[|s| - |LevelName(level)| - 1..|s| - 1] == LevelName(level)
  {
    "[" + timeStamp + "] [" + CategoryName(category) + "] [" + LevelName(level) + "]"
  }

  /** The prefix wrapped in the level's colour tag, or left as it is. */
  function ColoredLogInfo(logInfo: string, level: LogLevel): (s: string)
    ensures s == if ColorOf(level).None? then logInfo else "<color=" + ColorOf(level).value + ">" + logInfo + "</color>"
  {
    match ColorOf(level)
    case None => logInfo
    case Some(color) => "<color=" + color + ">" + logInfo + "</color>"
  }

  /** The gate of LogInternal: the level is no less severe than the current level and the
      category is not switched off; a category without an entry counts as switched on. */
  function Passes(currentLogLevel: LogLevel, categoryEnabled: map<LogCategory, bool>, category: LogCategory, level: LogLevel): (b: bool)
    ensures b ==> Rank(level) <= Rank(currentLogLevel)
    ensures category in categoryEnabled && !categoryEnabled[category] ==> !b
    ensures level == currentLogLevel && (category !in categoryEnabled || categoryEnabled[category]) ==> b
  {
    Rank(level) <= Rank(currentLogLevel) && (category !in categoryEnabled || categoryEnabled[category])
  }

  /** Lowering the threshold never lets more through, and Critical messages pass every
      threshold unless their category is off. */
  lemma PassesMonotone(low: LogLevel, high: LogLevel, categoryEnabled: map<LogCategory, bool>, category: LogCategory, level: LogLevel)
    requires Rank(low) <= Rank(high)
    ensures Passes(low, categoryEnabled, category, level) ==> Passes(high, categoryEnabled, category, level)
    ensures Passes(low, categoryEnabled, category, Critical) == (category !in categoryEnabled || categoryEnabled[category])
  {
  }

  /** What one logging call emits: nothing when gated, else one entry. */
  function Emitted(currentLogLevel: LogLevel, categoryEnabled: map<LogCategory, bool>, text: string, category: LogCategory,
                   level: LogLevel, file: string, member: string, line: int, timeStamp: string): (e: seq<LogEntry>)
    ensures |e| <= 1
    ensures |e| == 1 <==> Passes(currentLogLevel, categoryEnabled, category, level)
    ensures |e| == 1 ==> e[0].channel == ChannelOf(level) && e[0].text == text
  {
    if !Passes(currentLogLevel, categoryEnabled, category, level) then []
    else [LogEntry(ChannelOf(level), ColoredLogInfo(LogInfo(timeStamp, category, level), level), file, member, line, text)]
  }

  /** The check LogOnce makes: whether the key is new, and the set after it is recorded. The
      key is recorded whether or not the message then passes the gate. */
  function OnceGate(loggedOnce: set<int>, key: int): (r: (bool, set<int>))
    ensures r.0 <==> key !in loggedOnce
    ensures r.1 == loggedOnce + {key}
  {
    if key in loggedOnce then (false, loggedOnce) else (true, loggedOnce + {key})
  }

  /** A second LogOnce with the same key, with no reset between, goes no further. */
  lemma OnceGateTwice(loggedOnce: set<int>, key: int)
    ensures !OnceGate(OnceGate(loggedOnce, key).1, key).0
    ensures OnceGate(OnceGate(loggedOnce, key).1, key).1 == OnceGate(loggedOnce, key).1
  {
  }

  /** The static state of ZMethodsDebug. */
  class Logger {
    var currentLogLevel: LogLevel
    var categoryEnabled: map<LogCategory, bool>
    var loggedOnce: set<int>
    /** Everything sent to the Unity console so far. */
    ghost var output: seq<LogEntry>

    /** The initial state: level Info, General switched on, no key logged. */
    constructor()
      ensures currentLogLevel == Info && categoryEnabled == map[General := true]
      ensures loggedOnce == {} && output == []
    {
      currentLogLevel := Info;
      categoryEnabled := map[General := true];
      loggedOnce := {};
      output := [];
    }

    /** The CurrentLogLevel setter. */
    method SetCurrentLogLevel(level: LogLevel)
      modifies this
      ensures currentLogLevel == level
      ensures categoryEnabled == old(categoryEnabled) && loggedOnce == old(loggedOnce) && output == old(output)
    {
      currentLogLevel := level;
    }

    /** CategorySetEnabled: only that category's switch changes. */
    method CategorySetEnabled(category: LogCategory, isEnabled: bool)
      modifies this
      ensures categoryEnabled == old(categoryEnabled)[category := isEnabled]
      ensures currentLogLevel == old(currentLogLevel) && loggedOnce == old(loggedOnce) && output == old(output)
    {
      categoryEnabled := categoryEnabled[category := isEnabled];
    }

    /** LogInternal (and Log, which calls it), with the clock reading as timeStamp. */
    method LogInternal(text: string, category: LogCategory, level: LogLevel, file: string, member: string, line: int, timeStamp: string)
      modifies this
      ensures output == old(output) + Emitted(old(currentLogLevel), old(categoryEnabled), text, category, level, file, member, line, timeStamp)
      ensures currentLogLevel == old(currentLogLevel) && categoryEnabled == old(categoryEnabled) && loggedOnce == old(loggedOnce)
    {
      if Rank(level) > Rank(currentLogLevel) {
        return;
      }
      if category in categoryEnabled && !categoryEnabled[category] {
        return;
      }
      var logInfo := LogInfo(timeStamp, category, level);
      var coloredLogInfo := ColoredLogInfo(logInfo, level);
      var channel;
      match level {
        case Critical => channel := LogErrorChannel;
        case Error => channel := LogErrorChannel;
        case Warning => channel := LogWarningChannel;
        case Info => channel := LogChannel;
        case Verbose => channel := LogChannel;
      }
      output := output + [LogEntry(channel, coloredLogInfo, file, member, line, text)];
    }

    /** LogOnce, with key the HashCode.Combine of file, member, line and the object. */
    method LogOnce(text: string, category: LogCategory, level: LogLevel, file: string, member: string, line: int, timeStamp: string, key: int)
      modifies this
      ensures key in old(loggedOnce) ==> loggedOnce == old(loggedOnce) && output == old(output)
      ensures key !in old(loggedOnce) ==>
        loggedOnce == old(loggedOnce) + {key} &&
        output == old(output) + Emitted(old(currentLogLevel), old(categoryEnabled), text, category, level, file, member, line, timeStamp)
      ensures currentLogLevel == old(currentLogLevel) && categoryEnabled == old(categoryEnabled)
    {
      if key in loggedOnce {
        return;
      }
      loggedOnce := loggedOnce + {key};
      LogInternal(text, category, level, file, member, line, timeStamp);
    }

    /** ResetLogOnce: every key may be logged again. */
    method ResetLogOnce()
      modifies this
      ensures loggedOnce == {}
      ensures currentLogLevel == old(currentLogLevel) && categoryEnabled == old(categoryEnabled) && output == old(output)
    {
      loggedOnce := {};
    }
  }

  // ---------------------------------------------------------------- PrintIEnumerable

  /** "entry" for exactly one element, "entries" otherwise. */
  function EntryNoun(count: int): (s: string)
    ensures s == "entry" <==> count == 1
    ensures s == "entries" <==> count != 1
  {
    if count == 1 then "entry" else "entries"
  }

  /** The name shown in the first line: "Enumerable" stands in for a null or empty name. */
  function DisplayName(name: Option<string>): (t: string)
    ensures t != ""
    ensures name.Some? && name.value != "" ==> t == name.value
  {
    if name.Some? && name.value != "" then name.value else "Enumerable"
  }

  /** The first line: the name (or "Enumerable" for a null or empty name) and the count. */
  function HeaderLine(name: Option<string>, count: nat): (s: string)
    ensures |s| >= 13
    ensures name.Some? && name.value != "" ==> |s| > |name.value| && s[..|name.value|] == name.value
    ensures (name.None? || name.value == "") ==> |s| > 10 && s[..10] == "Enumerable"
    ensures s[|s| - |EntryNoun(count)|..] == EntryNoun(count)
  {
    var title := DisplayName(name);
    var head := title + " has " + IntToString(count);
    var noun := EntryNoun(count);
    assert (head + " " + noun)[..|title|] == title by {
      assert head[..|title|] == title;
    }
    assert (head + " " + noun)[|head| + 1..] == noun;
    head + " " + noun
  }

  /** The first line reads, in order: the display name, " has ", the count in decimal
      digits, a space and the noun; so the count can be read back from it. */
  lemma HeaderLineReadsBack(name: Option<string>, count: nat)
    ensures var s, t, n := HeaderLine(name, count), DisplayName(name), |EntryNoun(count)|;
      |s| == |t| + 5 + |IntToString(count)| + 1 + n &&
      s[..|t|] == t && s[|t|..|t| + 5] == " has " && s[|s| - n - 1] == ' ' &&
      AllDigits(s[|t| + 5..|s| - n - 1]) && ParseInt(s[|t| + 5..|s| - n - 1]) == count
  {
    var s, t, n := HeaderLine(name, count), DisplayName(name), |EntryNoun(count)|;
    var digits := IntToString(count);
    assert s == t + " has " + digits + " " + EntryNoun(count);
    assert s[..|t|] == t;
    assert s[|t|..|t| + 5] == " has ";
    assert s[|t| + 5..|s| - n - 1] == digits;
    IntToStringRoundTrip(count);
  }

  function IndexLinePrefix(): string {
    "'--- Index "
  }

  /** The line printed for element i: the prefix, the index in decimal digits, ": " and
      the element's text, which ends the line unchanged. */
  function IndexLine(i: nat, entry: string): (s: string)
    ensures |s| == |IndexLinePrefix()| + |IntToString(i)| + 2 + |entry|
    ensures s[..|IndexLinePrefix()|] == IndexLinePrefix()
    ensures s[|IndexLinePrefix()| + |IntToString(i)|..|IndexLinePrefix()| + |IntToString(i)| + 2] == ": "
    ensures s[|IndexLinePrefix()| + |IntToString(i)| + 2..] == entry
  {
    var head := IndexLinePrefix() + IntToString(i) + ": ";
    assert (head + entry)[|head|..] == entry;
    assert head[|head| - 2..] == ": ";
    head + entry
  }

  /** The index can be read back from its line. */
  lemma IndexLineReadsBack(i: nat, entry: string)
    ensures var s := IndexLine(i, entry);
      AllDigits(s[|IndexLinePrefix()|..|IndexLinePrefix()| + |IntToString(i)|]) &&
      ParseInt(s[|IndexLinePrefix()|..|IndexLinePrefix()| + |IntToString(i)|]) == i
  {
    var s := IndexLine(i, entry);
    assert s[|IndexLinePrefix()|..|IndexLinePrefix()| + |IntToString(i)|] == IntToString(i);
    IntToStringRoundTrip(i);
  }

  /** PrintIEnumerable, with the elements' ToString texts: the lines sent to Debug.Log. */
  method PrintIEnumerable(entries: seq<string>, name: Option<string>) returns (lines: seq<string>)
    ensures |lines| == |entries| + 1
    ensures lines[0] == HeaderLine(name, |entries|)
    ensures forall i :: 0 <= i < |entries| ==> lines[i + 1] == IndexLine(i, entries[i])
  {
    var numberOfEntries := |entries|;
    var entryPluralizedString := if numberOfEntries == 1 then "entry" else "entries";
    var displayName := if name.Some? && name.value != "" then name.value else "Enumerable";
    var header := displayName + " has " + IntToString(numberOfEntries) + " " + entryPluralizedString;
    lines := [header];
    for i := 0 to numberOfEntries
      invariant |lines| == i + 1 && lines[0] == header
      invariant forall k :: 0 <= k < i ==> lines[k + 1] == IndexLine(k, entries[k])
    {
      var line := "'--- Index " + IntToString(i) + ": " + entries[i];
      assert line == IndexLine(i, entries[i]);
      lines := lines + [line];
    }
    assert header == HeaderLine(name, numberOfEntries);
  }

  /** Different elements' lines carry different indices, so no two lines are alike. */
  lemma IndexLinesDistinct(i: nat, j: nat, a: string, b: string)
    requires i != j
    ensures IndexLine(i, a) != IndexLine(j, b)
  {
    if |IntToString(i)| <= |IntToString(j)| {
      IndexLinesDiffer(i, j, a, b);
    } else {
      IndexLinesDiffer(j, i, b, a);
    }
  }

  lemma IndexLinesDiffer(i: nat, j: nat, a: string, b: string)
    requires i != j && |IntToString(i)| <= |IntToString(j)|
    ensures IndexLine(i, a) != IndexLine(j, b)
  {
    var p := |IndexLinePrefix()|;
    var x, y := IntToString(i), IntToString(j);
    var si, sj := IndexLine(i, a), IndexLine(j, b);
    assert si == IndexLinePrefix() + x + ": " + a;
    assert sj == IndexLinePrefix() + y + ": " + b;
    if |x| < |y| {
      assert si[p + |x|] == ':';
      assert sj[p + |x|] == y[|x|];
      assert IsDigit(y[|x|]);
    } else {
      assert si[p..p + |x|] == x;
      assert sj[p..p + |y|] == y;
      if si == sj {
        IntToStringInjective(i, j);
      }
    }
  }
}
