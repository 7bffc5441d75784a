/**
  Game-mode detection under the niri compositor: parsing the focused-window
  report, reading a process's parent from its stat line, scanning its
  environment for `IS_GAME=1`, walking up the process tree, and the final
  decision. The compositor's output and the files under /proc are inputs here.
 */
module Niri {
  import opened Text

  datatype WindowInfo = WindowInfo(appId: Option<string>, pid: Option<U32>)

  /**
    The per-process files the detector reads under /proc, already decoded to text:
    `environ`, `cmdline` and `stat`. A PID missing from a map is a read that failed.
   */
  datatype ProcFs = ProcFs(
    environ: map<U32, string>,
    cmdline: map<U32, string>,
    stat: map<U32, string>)

  const APP_ID_PREFIX: string := "App ID:"
  const PID_PREFIX: string := "PID:"
  const GAMESCOPE_APP_ID: string := "gamescope"
  const IS_GAME_VAR: string := "IS_GAME=1"
  /** At most this many processes are inspected on the way up the tree. */
  const MAX_DEPTH: nat := 10

  predicate IsQuote(c: char) {
    c == '"'
  }

  /** `trim_matches('"')`: drops the double quotes at both ends. */
  function TrimQuotes(s: string): string {
    TrimWhile(s, IsQuote)
  }

  // ---------------------------------------------------------------------------
  // The focused-window report

  /** The report's lines (line terminators are whitespace, removed by the trim below). */
  function Lines(text: string): seq<string> {
    Split(text, '\n')
  }

  /** The app id a report line gives: after `App ID:`, trimmed, with surrounding quotes removed. */
  function LineAppId(line: string): Option<string> {
    AppIdOfTrimmed(Trim(line))
  }

  /** The app id a line already stripped of surrounding whitespace gives. */
  function AppIdOfTrimmed(t: string): Option<string> {
    match StripPrefix(t, APP_ID_PREFIX)
    case Some(rest) => Some(TrimQuotes(Trim(rest)))
    case None => None
  }

  /** The PID a report line gives: after `PID:`, trimmed, if it parses as a `u32`. */
  function LinePid(line: string): Option<U32> {
    PidOfTrimmed(Trim(line))
  }

  /** The PID a line already stripped of surrounding whitespace gives. */
  function PidOfTrimmed(t: string): Option<U32> {
    if StripPrefix(t, APP_ID_PREFIX).Some? then None
    else
      match StripPrefix(t, PID_PREFIX)
      case Some(rest) => ParseU32(Trim(rest))
      case None => None
  }

  /** What the last line that gives a value (by `given`) gives; later lines overwrite earlier ones. */
  function LastReported<T>(lines: seq<string>, given: string -> Option<T>): Option<T>
    decreases |lines|
  {
    if lines == [] then None
    else
      match given(lines[|lines| - 1])
      case Some(v) => Some(v)
      case None => LastReported(lines[..|lines| - 1], given)
  }

  /** Reading one more line: it overrides what came before exactly when it gives a value. */
  lemma LastReportedExtend<T>(lines: seq<string>, n: nat, given: string -> Option<T>)
    requires n < |lines|
    ensures LastReported(lines[..n + 1], given)
            == if given(lines[n]).Some? then given(lines[n]) else LastReported(lines[..n], given)
  {
    assert lines[..n + 1][..n] == lines[..n];
  }

  /**
    The last-wins rule: nothing is reported exactly when no line gives a value, and
    otherwise the value comes from a line after which no line gives one.
   */
  lemma {:induction false} LastReportedIsLast<T>(lines: seq<string>, given: string -> Option<T>)
    ensures LastReported(lines, given).None? <==> forall i :: 0 <= i < |lines| ==> given(lines[i]).None?
    ensures LastReported(lines, given).Some? ==>
              exists i :: 0 <= i < |lines| && given(lines[i]) == LastReported(lines, given)
                          && forall j :: i < j < |lines| ==> given(lines[j]).None?
    decreases |lines|
  {
    if lines != [] {
      var init := lines[..|lines| - 1];
      LastReportedIsLast(init, given);
      assert forall i :: 0 <= i < |init| ==> init[i] == lines[i];
      if given(lines[|lines| - 1]).None? {
        if LastReported(lines, given).Some? {
          var i :| 0 <= i < |init| && given(init[i]) == LastReported(init, given)
                   && forall j :: i < j < |init| ==> given(init[j]).None?;
          assert given(lines[i]) == LastReported(lines, given);
        }
      } else {
        assert given(lines[|lines| - 1]) == LastReported(lines, given);
      }
    }
  }

  /** Quotes around an id that neither starts nor ends with a quote are exactly what is trimmed. */
  lemma TrimQuotesOfQuoted(id: string)
    requires id == [] || (!IsQuote(id[0]) && !IsQuote(id[|id| - 1]))
    ensures TrimQuotes("\"" + id + "\"") == id
  {
    if id == [] {
      assert AllSatisfy("\"" + id + "\"", IsQuote);
    } else {
      TrimWhileFramed("\"", id, "\"", IsQuote);
    }
  }

  /** Indentation in front of a report line changes nothing. */
  lemma IndentIgnored(indent: string, u: string)
    requires AllSatisfy(indent, IsWhitespace)
    ensures LineAppId(indent + u) == LineAppId(u)
    ensures LinePid(indent + u) == LinePid(u)
  {
    TrimIgnoresIndent(indent, u);
  }

  /** After `App ID:` and a blank, a quoted id is given back without its quotes. */
  lemma AppIdOfQuoted(id: string)
    requires id == [] || (!IsQuote(id[0]) && !IsQuote(id[|id| - 1]))
    ensures AppIdOfTrimmed(APP_ID_PREFIX + " \"" + id + "\"") == Some(id)
  {
    var quoted := "\"" + id + "\"";
    assert APP_ID_PREFIX + " \"" + id + "\"" == APP_ID_PREFIX + (" " + quoted);
    StripPrefixOf(APP_ID_PREFIX, " " + quoted);
    TrimIndented(" ", quoted);
    TrimQuotesOfQuoted(id);
  }

  /** A line `App ID: "<id>"` gives back the id. */
  lemma AppIdLineValue(id: string)
    requires id == [] || (!IsQuote(id[0]) && !IsQuote(id[|id| - 1]))
    ensures LineAppId(APP_ID_PREFIX + " \"" + id + "\"") == Some(id)
  {
    var u := APP_ID_PREFIX + " \"" + id + "\"";
    TrimUnpadded(u);
    AppIdOfQuoted(id);
  }

  /** An indented line `App ID: "<id>"`, as niri prints it, gives back the id. */
  lemma LineAppIdOfPrinted(indent: string, id: string)
    requires AllSatisfy(indent, IsWhitespace)
    requires id == [] || (!IsQuote(id[0]) && !IsQuote(id[|id| - 1]))
    ensures LineAppId(indent + APP_ID_PREFIX + " \"" + id + "\"") == Some(id)
  {
    var u := APP_ID_PREFIX + " \"" + id + "\"";
    assert indent + APP_ID_PREFIX + " \"" + id + "\"" == indent + u;
    IndentIgnored(indent, u);
    AppIdLineValue(id);
  }

  /** After `PID:` and a blank, the digits are parsed as a `u32`. */
  lemma PidOfDigits(digits: string)
    requires digits != [] && !IsWhitespace(digits[0]) && !IsWhitespace(digits[|digits| - 1])
    ensures PidOfTrimmed(PID_PREFIX + " " + digits) == ParseU32(digits)
  {
    var u := PID_PREFIX + " " + digits;
    assert u == PID_PREFIX + (" " + digits);
    assert !(APP_ID_PREFIX <= u) by {
      assert u[0] != APP_ID_PREFIX[0];
    }
    StripPrefixOf(PID_PREFIX, " " + digits);
    TrimIndented(" ", digits);
  }

  /** A line `PID: <digits>` gives whatever the digits parse to. */
  lemma PidLineValue(digits: string)
    requires digits != [] && !IsWhitespace(digits[0]) && !IsWhitespace(digits[|digits| - 1])
    ensures LinePid(PID_PREFIX + " " + digits) == ParseU32(digits)
  {
    TrimUnpadded(PID_PREFIX + " " + digits);
    PidOfDigits(digits);
  }

  /** An indented line `PID: <n>`, as niri prints it, gives back the number. */
  lemma LinePidOfPrinted(indent: string, n: U32)
    requires AllSatisfy(indent, IsWhitespace)
    ensures LinePid(indent + PID_PREFIX + " " + Decimal(n)) == Some(n)
  {
    var digits := Decimal(n);
    var u := PID_PREFIX + " " + digits;
    assert indent + PID_PREFIX + " " + digits == indent + u;
    DecimalUnpadded(n);
    IndentIgnored(indent, u);
    PidLineValue(digits);
    ParseU32Decimal(n);
  }

  /** One line of the report, read as the daemon reads it: an `App ID:` line or else a `PID:` line. */
  method ParseReportLine(line: string) returns (appId: Option<string>, pid: Option<U32>)
    ensures appId == LineAppId(line) && pid == LinePid(line)
    ensures appId.Some? ==> pid.None?
  {
    var trimmed := Trim(line);
    var appIdPart := StripPrefix(trimmed, APP_ID_PREFIX);
    if appIdPart.Some? {
      return Some(TrimQuotes(Trim(appIdPart.value))), None;
    }
    var pidPart := StripPrefix(trimmed, PID_PREFIX);
    if pidPart.Some? {
      return None, ParseU32(Trim(pidPart.value));
    }
    return None, None;
  }

  /**
    The focused window's app id and PID, from the output of `niri msg
    focused-window` (None when the command could not run, failed, or printed
    invalid UTF-8). For each field the last line that gives it wins; lines that
    give neither are ignored.
   */
  method FocusedWindowInfo(output: Option<string>) returns (info: WindowInfo)
    ensures output.None? ==> info == WindowInfo(None, None)
    ensures output.Some? ==> info.appId == LastReported(Lines(output.value), LineAppId)
    ensures output.Some? ==> info.pid == LastReported(Lines(output.value), LinePid)
  {
    if output.None? {
      return WindowInfo(None, None);
    }
    var lines := Lines(output.value);
    var appId: Option<string> := None;
    var pid: Option<U32> := None;
    var n := 0;
    while n < |lines|
      invariant 0 <= n <= |lines|
      invariant appId == LastReported(lines[..n], LineAppId)
      invariant pid == LastReported(lines[..n], LinePid)
    {
      var lineAppId, linePid := ParseReportLine(lines[n]);
      if lineAppId.Some? {
        appId := lineAppId;
      } else if linePid.Some? {
        pid := linePid;
      }
      LastReportedExtend(lines, n, LineAppId);
      LastReportedExtend(lines, n, LinePid);
      n := n + 1;
    }
    assert lines[..n] == lines;
    info := WindowInfo(appId, pid);
  }

  /** Empty output reports neither field. */
  lemma FocusedWindowInfoOfEmpty()
    ensures LastReported(Lines(""), LineAppId) == None
    ensures LastReported(Lines(""), LinePid) == None
  {
    assert Lines("") == [""];
    assert Trim("") == "";
  }

  // ---------------------------------------------------------------------------
  // The process environment

  /** The environment holds a variable that is exactly `IS_GAME=1`. */
  predicate IsGameEnv(proc: ProcFs, pid: U32) {
    pid in proc.environ && IS_GAME_VAR in Split(proc.environ[pid], '\0')
  }

  /** Scans the NUL-separated environment of `pid`, stopping at the first `IS_GAME=1`. */
  method CheckIsGameEnv(proc: ProcFs, pid: U32) returns (found: bool)
    ensures found <==> IsGameEnv(proc, pid)
  {
    if pid in proc.environ {
      var vars := Split(proc.environ[pid], '\0');
      var i := 0;
      while i < |vars|
        invariant 0 <= i <= |vars|
        invariant forall j :: 0 <= j < i ==> vars[j] != IS_GAME_VAR
      {
        if vars[i] == IS_GAME_VAR {
          return true;
        }
        i := i + 1;
      }
    }
    return false;
  }

  /**
    For an environment block as the kernel lays it out (every variable followed by
    a NUL), the check finds `IS_GAME=1` exactly when it is one of the variables.
   */
  lemma IsGameEnvOfBlock(proc: ProcFs, pid: U32, vars: seq<string>)
    requires forall i :: 0 <= i < |vars| ==> '\0' !in vars[i]
    requires pid in proc.environ && proc.environ[pid] == Join(vars + [[]], '\0')
    ensures IsGameEnv(proc, pid) <==> IS_GAME_VAR in vars
  {
    var parts := vars + [[]];
    assert forall i :: 0 <= i < |parts| ==> '\0' !in parts[i];
    SplitJoin(parts, '\0');
    assert IS_GAME_VAR != [];
  }

  // ---------------------------------------------------------------------------
  // The process tree

  /**
    The parent PID in a `/proc/<pid>/stat` line: the second whitespace-separated
    field after the last `)` (the command name in parentheses may itself contain
    spaces and parentheses).
   */
  function ParentPidOfStat(stat: string): Option<U32> {
    match LastIndexOf(stat, ')')
    case None => None
    case Some(i) =>
      var fields := Words(stat[i + 1..]);
      if |fields| >= 2 then ParseU32(fields[1]) else None
  }

  /** The fields after the command name start with the state and the parent PID. */
  lemma StatFields(state: string, ppid: U32, rest: string)
    requires IsWord(state)
    requires rest == [] || IsWhitespace(rest[0])
    ensures var fields := Words(" " + state + " " + Decimal(ppid) + rest);
            |fields| >= 2 && fields[0] == state && fields[1] == Decimal(ppid)
  {
    DecimalIsWord(ppid);
    WordsPair(state, Decimal(ppid), rest);
  }

  /** A stat line `pid (comm) state ppid ...` yields `ppid`, whatever characters `comm` holds. */
  lemma ParentPidOfStatLine(pid: U32, comm: string, state: string, ppid: U32, rest: string)
    requires IsWord(state) && ')' !in state
    requires ')' !in rest && (rest == [] || IsWhitespace(rest[0]))
    ensures ParentPidOfStat(Decimal(pid) + " (" + comm + ") " + state + " " + Decimal(ppid) + rest) == Some(ppid)
  {
    var digits := Decimal(ppid);
    DecimalDigits(ppid);
    var head := Decimal(pid) + " (" + comm;
    var after := " " + state + " " + digits + rest;
    var line := head + ")" + after;
    assert Decimal(pid) + " (" + comm + ") " + state + " " + digits + rest == line;
    assert ')' !in after by {
      assert forall k :: 0 <= k < |digits| ==> IsDigit(digits[k]);
    }
    LastIndexOfBefore(head, ')', after);
    assert line[|head| + 1..] == after;
    StatFields(state, ppid, rest);
    ParseU32Decimal(ppid);
  }

  /** A line without `)` has no parent PID. */
  lemma ParentPidOfStatNoParen(stat: string)
    requires ')' !in stat
    ensures ParentPidOfStat(stat) == None
  {
  }

  /**
    With the last `)` at `i`, the parse gives nothing when fewer than two fields
    follow it or when the second of them is not a `u32`.
   */
  lemma ParentPidOfStatRejects(stat: string, i: nat)
    requires LastIndexOf(stat, ')') == Some(i)
    ensures var fields := Words(stat[i + 1..]);
            (|fields| < 2 || ParseU32(fields[1]).None?) ==> ParentPidOfStat(stat) == None
  {
    var fields := Words(stat[i + 1..]);
    assert ParentPidOfStat(stat) == if |fields| >= 2 then ParseU32(fields[1]) else None;
  }

  /** Only the text after the last `)` matters: the pid and command name in front are never read. */
  lemma ParentPidOfStatTail(head: string, after: string)
    requires ')' !in after
    ensures ParentPidOfStat(head + ")" + after) == ParentPidOfStat(")" + after)
  {
    LastIndexOfBefore(head, ')', after);
    LastIndexOfBefore([], ')', after);
    var line := head + ")" + after;
    assert line[|head| + 1..] == after;
    assert ([] + ")" + after) == ")" + after;
    assert (")" + after)[1..] == after;
  }

  /** The parent the walk moves to from `pid`, if its stat file can be read and parsed. */
  function ParentPid(proc: ProcFs, pid: U32): Option<U32> {
    if pid in proc.stat then ParentPidOfStat(proc.stat[pid]) else None
  }

  function ParentLink(proc: ProcFs): U32 -> Option<U32> {
    pid => ParentPid(proc, pid)
  }

  /**
    The PIDs the tree walk inspects: `pid`, then its parent, and so on, for at most
    `budget` processes, stopping at a missing parent or at init (PID 1) and below.
   */
  function Walk(parentOf: U32 -> Option<U32>, pid: U32, budget: nat): seq<U32>
    decreases budget
  {
    if budget == 0 then []
    else
      match parentOf(pid)
      case Some(parent) => if parent > 1 then [pid] + Walk(parentOf, parent, budget - 1) else [pid]
      case None => [pid]
  }

  /**
    The walk starts at `pid`, inspects at most `budget` processes, follows parent
    links through PIDs above 1, and when it stops early the last process has no
    parent above 1.
   */
  lemma {:induction false} WalkFollowsParents(parentOf: U32 -> Option<U32>, pid: U32, budget: nat)
    requires budget >= 1
    ensures var w := Walk(parentOf, pid, budget);
            && 1 <= |w| <= budget && w[0] == pid
            && (forall i :: 0 < i < |w| ==> w[i] > 1 && parentOf(w[i - 1]) == Some(w[i]))
            && (|w| < budget ==> parentOf(w[|w| - 1]).None? || parentOf(w[|w| - 1]).value <= 1)
    decreases budget
  {
    var w := Walk(parentOf, pid, budget);
    var p := parentOf(pid);
    if budget > 1 && p.Some? && p.value > 1 {
      var tail := Walk(parentOf, p.value, budget - 1);
      WalkFollowsParents(parentOf, p.value, budget - 1);
      assert w == [pid] + tail;
      forall i | 0 < i < |w| ensures w[i] > 1 && parentOf(w[i - 1]) == Some(w[i]) {
        if i > 1 {
          assert w[i] == tail[i - 1] && w[i - 1] == tail[i - 2];
        }
      }
    }
  }

  /** The command line of `pid` mentions `needle`, ignoring ASCII case. */
  predicate CmdlineMentions(proc: ProcFs, pid: U32, needle: string) {
    pid in proc.cmdline && Contains(AsciiLowercase(proc.cmdline[pid]), needle)
  }

  predicate GamescopeIn(proc: ProcFs, pid: U32) {
    CmdlineMentions(proc, pid, "gamescope") || CmdlineMentions(proc, pid, "custom-gamescope")
  }

  predicate GamemodeIn(proc: ProcFs, pid: U32) {
    CmdlineMentions(proc, pid, "gamemode")
  }

  /** The `custom-gamescope` test adds nothing: such a command line already mentions `gamescope`. */
  lemma GamescopeCheckRedundant(proc: ProcFs, pid: U32)
    ensures GamescopeIn(proc, pid) <==> CmdlineMentions(proc, pid, "gamescope")
  {
    assert OccursAt("custom-gamescope", "gamescope", 7);
    if CmdlineMentions(proc, pid, "custom-gamescope") {
      ContainsTransitive(AsciiLowercase(proc.cmdline[pid]), "custom-gamescope", "gamescope");
    }
  }

  /** The command-line test is case-insensitive: some stretch of the command line lower-cases to the word. */
  lemma CmdlineMentionsIgnoresCase(proc: ProcFs, pid: U32, needle: string)
    requires pid in proc.cmdline
    ensures CmdlineMentions(proc, pid, needle) <==> exists i :: OccursIgnoringCaseAt(proc.cmdline[pid], needle, i)
  {
    ContainsIgnoringCase(proc.cmdline[pid], needle);
  }

  /** A command line spelled `GameScope` counts as running through gamescope. */
  lemma MixedCaseGamescope(proc: ProcFs, pid: U32)
    requires pid in proc.cmdline && proc.cmdline[pid] == "GameScope"
    ensures GamescopeIn(proc, pid)
  {
    var lower := AsciiLowercase(proc.cmdline[pid]);
    assert lower == "gamescope";
    assert OccursAt(lower, "gamescope", 0);
  }

  predicate AnyGamescope(proc: ProcFs, pids: seq<U32>) {
    exists i :: 0 <= i < |pids| && GamescopeIn(proc, pids[i])
  }

  predicate AnyGamemode(proc: ProcFs, pids: seq<U32>) {
    exists i :: 0 <= i < |pids| && GamemodeIn(proc, pids[i])
  }

  /** One more inspected process: the flags grow by that process's command line. */
  lemma AnyAppend(proc: ProcFs, pids: seq<U32>, pid: U32)
    ensures AnyGamescope(proc, pids + [pid]) <==> AnyGamescope(proc, pids) || GamescopeIn(proc, pid)
    ensures AnyGamemode(proc, pids + [pid]) <==> AnyGamemode(proc, pids) || GamemodeIn(proc, pid)
  {
    var next := pids + [pid];
    assert next[|pids|] == pid;
    assert forall i :: 0 <= i < |pids| ==> next[i] == pids[i];
  }

  lemma AppendAssociative(a: seq<U32>, b: seq<U32>, c: seq<U32>)
    ensures a + (b + c) == a + b + c
  {
  }

  /** One step of the walk, with the budget left. */
  lemma WalkStep(parentOf: U32 -> Option<U32>, pid: U32, budget: nat)
    requires budget >= 1
    ensures parentOf(pid).Some? && parentOf(pid).value > 1 ==>
              Walk(parentOf, pid, budget) == [pid] + Walk(parentOf, parentOf(pid).value, budget - 1)
    ensures !(parentOf(pid).Some? && parentOf(pid).value > 1) ==> Walk(parentOf, pid, budget) == [pid]
  {
  }

  /** Looks for gamescope (or custom-gamescope) and gamemode in the command line of `pid`. */
  method InspectCmdline(proc: ProcFs, pid: U32) returns (viaGamescope: bool, viaGamemode: bool)
    ensures viaGamescope == GamescopeIn(proc, pid) && viaGamemode == GamemodeIn(proc, pid)
  {
    viaGamescope, viaGamemode := false, false;
    if pid in proc.cmdline {
      var cmdLower := AsciiLowercase(proc.cmdline[pid]);
      if Contains(cmdLower, "gamescope") || Contains(cmdLower, "custom-gamescope") {
        viaGamescope := true;
      }
      if Contains(cmdLower, "gamemode") {
        viaGamemode := true;
      }
    }
  }

  /** `parentOf` is the parent relation that the stat files define. */
  ghost predicate ParentsFromStat(proc: ProcFs, parentOf: U32 -> Option<U32>) {
    forall pid {:trigger ParentPid(proc, pid)} :: parentOf(pid) == ParentPid(proc, pid)
  }

  /** Reads the parent of `pid` from its stat file, if the file can be read. */
  method ReadParentPid(proc: ProcFs, pid: U32, ghost parentOf: U32 -> Option<U32>) returns (parent: Option<U32>)
    requires ParentsFromStat(proc, parentOf)
    ensures parent == parentOf(pid)
  {
    if pid in proc.stat {
      parent := ParentPidOfStat(proc.stat[pid]);
    } else {
      parent := None;
    }
    assert parent == ParentPid(proc, pid);
  }

  /**
    Walks up from `processId`, inspecting at most `maxDepth` processes, and reports
    whether any inspected command line mentions gamescope (or custom-gamescope)
    and whether any mentions gamemode. `parentOf` names, for the proof only, the
    parent relation that the stat files define.
   */
  method CheckProcessTreeUpTo(proc: ProcFs, processId: U32, maxDepth: nat, ghost parentOf: U32 -> Option<U32>)
    returns (hasGamescope: bool, hasGamemode: bool)
    requires ParentsFromStat(proc, parentOf)
    ensures hasGamescope <==> AnyGamescope(proc, Walk(parentOf, processId, maxDepth))
    ensures hasGamemode <==> AnyGamemode(proc, Walk(parentOf, processId, maxDepth))
  {
    ghost var walk := Walk(parentOf, processId, maxDepth);
    hasGamescope := false;
    hasGamemode := false;
    var currentPid := processId;
    ghost var visited: seq<U32> := [];
    var remaining := maxDepth;
    assert visited + Walk(parentOf, currentPid, remaining) == walk;
    while remaining > 0
      invariant visited + Walk(parentOf, currentPid, remaining) == walk
      invariant hasGamescope <==> AnyGamescope(proc, visited)
      invariant hasGamemode <==> AnyGamemode(proc, visited)
    {
      var viaGamescope, viaGamemode := InspectCmdline(proc, currentPid);
      if viaGamescope {
        hasGamescope := true;
      }
      if viaGamemode {
        hasGamemode := true;
      }
      AnyAppend(proc, visited, currentPid);
      WalkStep(parentOf, currentPid, remaining);
      ghost var previous := visited;
      visited := visited + [currentPid];
      var parentPid := ReadParentPid(proc, currentPid, parentOf);
      if parentPid.Some? && parentPid.value > 1 {
        ghost var above := Walk(parentOf, parentPid.value, remaining - 1);
        AppendAssociative(previous, [currentPid], above);
        currentPid := parentPid.value;
      } else {
        assert visited == walk;
        break;
      }
      remaining := remaining - 1;
    }
    assert visited == walk by {
      if remaining == 0 {
        assert visited + [] == visited;
      }
    }
  }

  /** The daemon's walk: at most ten processes, from the window's process upwards. */
  method CheckProcessTree(proc: ProcFs, processId: U32) returns (hasGamescope: bool, hasGamemode: bool)
    ensures hasGamescope <==> AnyGamescope(proc, Walk(ParentLink(proc), processId, MAX_DEPTH))
    ensures hasGamemode <==> AnyGamemode(proc, Walk(ParentLink(proc), processId, MAX_DEPTH))
  {
    hasGamescope, hasGamemode := CheckProcessTreeUpTo(proc, processId, MAX_DEPTH, ParentLink(proc));
  }

  // ---------------------------------------------------------------------------
  // The decision

  /**
    Game mode is wanted for a window whose app id is exactly `gamescope`, or whose
    process has `IS_GAME=1` in its environment, or whose process tree runs through
    gamescope or gamemode.
   */
  predicate GameModeWanted(info: WindowInfo, proc: ProcFs) {
    || info.appId == Some(GAMESCOPE_APP_ID)
    || (info.pid.Some? &&
          var walk := Walk(ParentLink(proc), info.pid.value, MAX_DEPTH);
          || IsGameEnv(proc, info.pid.value)
          || AnyGamescope(proc, walk)
          || AnyGamemode(proc, walk))
  }

  /**
    Whether a newly focused window should switch game mode on. The app id is
    checked first; the environment and the process tree only when a PID is known.
   */
  method ShouldEnableGamemode(info: WindowInfo, proc: ProcFs) returns (enable: bool)
    ensures enable <==> GameModeWanted(info, proc)
    ensures info.appId == Some(GAMESCOPE_APP_ID) ==> enable
    ensures info.pid.None? && info.appId != Some(GAMESCOPE_APP_ID) ==> !enable
  {
    if info.appId == Some(GAMESCOPE_APP_ID) {
      return true;
    }
    if info.pid.Some? {
      var pid := info.pid.value;
      var isGame := CheckIsGameEnv(proc, pid);
      if isGame {
        return true;
      }
      var hasGamescope, hasGamemode := CheckProcessTree(proc, pid);
      if hasGamescope || hasGamemode {
        return true;
      }
    }
    return false;
  }
}
