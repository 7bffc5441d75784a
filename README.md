# keyboard-middleware, modelled in Dafny

A model of three parts of the keyboard-middleware daemon, with proofs about each.

- **The double-tap (tap dance) processor** (`doubletap.dfy`, module `DoubleTap`).
  - `DtProcessor` is a class. Its `tracked` field is the per-key table of `DtKey` records.
  - `OnPress`, `OnRelease` and `CheckTimeouts` update the table in place. `TrackedCount` reads its size.
  - Each method is proved against a function of the old table: `PressTable`/`PressResult`, `ReleaseTable` or `TimeoutTable`.
  - Lemmas state what those functions promise: the three-state machine, which entries are removed, the inclusive and exclusive window boundaries, and the table invariant. The invariant is that the release time is recorded exactly when an entry has left `FirstPress`.
  - The processor only compares key codes, so the model is generic in the key type. The daemon uses it with `Configuration.KeyCode`.
- **The configuration** (`config.dfy`, module `Configuration`).
  - The datatypes: `KeyCode`, `Action`, `Layer`, the override records and `Config`.
  - `Layer::base` and `Layer::is_base`.
  - `Config::for_keyboard` as a record update. It proves the field-by-field, replace-not-merge overlay, the frame conditions and idempotence.
  - The content rule of `Passwords::load`.
- **Game-mode detection under niri** (`niri.dfy`, module `Niri`).
  - The scanner of the output of `niri msg focused-window`. It is a loop in which the last `App ID:` or `PID:` line wins.
  - The parent-PID parse of a `/proc/<pid>/stat` line.
  - The NUL-separated scan of a process environment for `IS_GAME=1`.
  - The bounded walk up the process tree, which inspects at most ten processes.
  - The decision order of `should_enable_gamemode`.
  - The compositor's output and the files under `/proc` are inputs. `ProcFs` holds one map per file kind, and a PID missing from a map is a failed read.

`text.dfy` (module `Text`) states the Rust string operations these parsers use, over `seq<char>`:
- `str::trim` with Unicode `White_Space`, and `trim_matches`;
- `strip_prefix`, `split` and `split_whitespace`;
- `contains`;
- the last-occurrence search behind `rsplitn`;
- `parse::<u32>`, which accepts an optional `+`.

It also holds lemmas about these operations. `Split` and `Join` are mutually inverse.

## Model

| member | source | states |
|---|---|---|
| DoubleTap.DefaultDtConfig | src/event_processor/actions/doubletap.rs:85-91 | the default double-tap window is 250 ms |
| DoubleTap.DtProcessor.constructor | src/event_processor/actions/doubletap.rs:104-109 | a new processor keeps its configuration and tracks no keys |
| DoubleTap.DtProcessor.OnPress | src/event_processor/actions/doubletap.rs:112-140 | the result and the new table are the press transition of the old table, and the table invariant is kept |
| DoubleTap.DtProcessor.OnRelease | src/event_processor/actions/doubletap.rs:143-162 | a release always returns Undecided, the new table is the release transition, and the invariant is kept |
| DoubleTap.DtProcessor.CheckTimeouts | src/event_processor/actions/doubletap.rs:166-209 | every expired key is reported exactly once, paired with SingleTap of its stored tap key; nothing else is reported; the table loses exactly the expired entries |
| DoubleTap.PressUntracked | src/event_processor/actions/doubletap.rs:135-139 | pressing an untracked key returns Undecided and adds one FirstPress entry, with no release time and the new tap keys; every other entry is kept |
| DoubleTap.PressDoubleTap | src/event_processor/actions/doubletap.rs:118-126 | a press in WaitingSecondTap at most a window after the release returns DoubleTap of the stored double-tap key, sets DoubleTapDetected, and leaves every other entry unchanged |
| DoubleTap.PressRestarts | src/event_processor/actions/doubletap.rs:130-139 | any other press of a tracked key replaces its entry with a fresh FirstPress entry, returns Undecided, and keeps the tracked count |
| DoubleTap.PressDoubleTapIff | src/event_processor/actions/doubletap.rs:118-127 | a press yields DoubleTap exactly when the key waits for a second tap released at most a window ago; a press never yields SingleTap |
| DoubleTap.ReleaseFirstPress | src/event_processor/actions/doubletap.rs:146-150 | releasing a FirstPress entry moves it to WaitingSecondTap, records the release time, and changes nothing else |
| DoubleTap.ReleaseAfterDoubleTap | src/event_processor/actions/doubletap.rs:152-156 | releasing after a double tap removes that key and only that key |
| DoubleTap.ReleaseIgnored | src/event_processor/actions/doubletap.rs:157-161 | releasing an untracked key, or one in WaitingSecondTap, leaves the table unchanged |
| DoubleTap.TimeoutRemovesExactlyExpired | src/event_processor/actions/doubletap.rs:170-206 | the sweep keeps exactly the unexpired entries, unchanged |
| DoubleTap.TimeoutKeepsDoubleTapped | src/event_processor/actions/doubletap.rs:175-197 | a DoubleTapDetected entry never expires |
| DoubleTap.WindowBoundary | src/event_processor/actions/doubletap.rs:122-190 | exactly one window after the release, a press still counts as a double tap and the sweep does not fire; one millisecond later both are reversed |
| DoubleTap.HeldKeyBoundary | src/event_processor/actions/doubletap.rs:188-195 | a key still held is kept by the sweep exactly one window after its press and expires one millisecond later |
| DoubleTap.PressPreservesWellFormed | src/event_processor/actions/doubletap.rs:118-139 | the press transition keeps the table invariant |
| DoubleTap.ReleasePreservesWellFormed | src/event_processor/actions/doubletap.rs:144-158 | the release transition keeps the table invariant |
| DoubleTap.TimeoutPreservesWellFormed | src/event_processor/actions/doubletap.rs:202-206 | the sweep keeps the table invariant |
| Configuration.BaseLayer | src/config.rs:192-194 | `is_base` holds of the layer that `Layer::base` returns |
| Configuration.IsBaseExactlyBaseLayer | src/config.rs:196-199 | a layer is base exactly when it is the layer named "base" |
| Configuration.ApplySettings | src/config.rs:382-389 | a present tapping term or window replaces the old value, an absent one keeps it, and every other field is unchanged |
| Configuration.ApplyKeymap | src/config.rs:392-401 | a present base, layer or game-mode table replaces the old one wholesale, an absent one keeps it, and every other field is unchanged |
| Configuration.ForKeyboard | src/config.rs:377-406 | with no override entry the result is the global configuration. Otherwise each present override field replaces the global value and each absent one inherits it. A configured window is never cleared. The keyboard list and the overrides are unchanged |
| Configuration.ForKeyboardIdempotent | src/config.rs:377-405 | resolving a keyboard twice gives the same result as resolving it once |
| Configuration.ForKeyboardIgnoresOtherOverrides | src/config.rs:380 | only the keyboard's own override entry affects its resolution |
| Configuration.LoadPassword | src/config.rs:302-318 | a missing file gives no password and an unreadable one an error; otherwise the content is trimmed, blank content gives no password, and a password has no whitespace at either end |
| Configuration.LoadPasswordRoundTrip | src/config.rs:309-317 | a password surrounded by whitespace loads back unchanged |
| Niri.ParseReportLine | src/niri.rs:41-52 | one report line gives an app id or a PID, never both; the values are those of the line parsers |
| Niri.FocusedWindowInfo | src/niri.rs:21-56 | no output gives neither field; otherwise each field is the value of the last line that gives it |
| Niri.LastReportedIsLast | src/niri.rs:40-53 | a field is reported exactly when some line gives it, and then its value comes from a line after which no line gives one |
| Niri.FocusedWindowInfoOfEmpty | src/niri.rs:36-55 | empty output reports neither field |
| Niri.IndentIgnored | src/niri.rs:41 | indentation in front of any line changes neither parse |
| Niri.TrimQuotesOfQuoted | src/niri.rs:45 | quotes around an id are exactly what is stripped |
| Niri.AppIdOfQuoted | src/niri.rs:43-46 | after the `App ID:` prefix and a blank, a quoted id is given without its quotes |
| Niri.AppIdLineValue | src/niri.rs:41-46 | the line `App ID: "<id>"` gives the id |
| Niri.LineAppIdOfPrinted | src/niri.rs:41-46 | an indented `App ID: "<id>"` line gives the id |
| Niri.PidOfDigits | src/niri.rs:47-51 | after the `PID:` prefix and a blank, the digits are parsed as a u32 |
| Niri.PidLineValue | src/niri.rs:41-51 | the line `PID: <digits>` gives whatever the digits parse to |
| Niri.LinePidOfPrinted | src/niri.rs:41-51 | an indented `PID: <n>` line gives back any u32 n |
| Niri.CheckIsGameEnv | src/niri.rs:115-127 | the early-return scan finds IS_GAME=1 exactly when some NUL-separated segment equals it |
| Niri.IsGameEnvOfBlock | src/niri.rs:117-124 | for a NUL-terminated environment block, the check holds exactly when IS_GAME=1 is one of the variables |
| Niri.StatFields | src/niri.rs:162 | after the command name, the state is the first field and the parent PID the second |
| Niri.ParentPidOfStatLine | src/niri.rs:155-166 | a stat line `pid (comm) state ppid ...` yields ppid, whatever the command name contains, including `)` and blanks |
| Niri.ParentPidOfStatNoParen | src/niri.rs:160-165 | a stat line without `)` has no parent PID |
| Niri.ParentPidOfStatRejects | src/niri.rs:161-162 | after the last `)`, fewer than two fields, or a second field that is not a u32, gives no parent PID |
| Niri.ParentPidOfStatTail | src/niri.rs:158-162 | only the text after the last `)` decides the parent PID; the pid and command name in front are never read |
| Niri.ReadParentPid | src/niri.rs:153-166 | the parent read from the stat file is the parent relation's value |
| Niri.WalkFollowsParents | src/niri.rs:136-172 | the walk starts at the window's process, inspects at most the budget, follows parent links through PIDs above 1, and stops early only at a missing parent or one at most 1 |
| Niri.GamescopeCheckRedundant | src/niri.rs:145 | the custom-gamescope test adds nothing to the gamescope test |
| Niri.CmdlineMentionsIgnoresCase | src/niri.rs:141-148 | a command line mentions a word exactly when some stretch of it lower-cases to that word |
| Niri.MixedCaseGamescope | src/niri.rs:142-146 | a command line spelled `GameScope` counts as running through gamescope |
| Niri.InspectCmdline | src/niri.rs:139-151 | the two flags are exactly whether the command line, lower-cased, mentions gamescope and gamemode |
| Niri.CheckProcessTreeUpTo | src/niri.rs:131-175 | each flag holds exactly when some process on the walk mentions its word |
| Niri.CheckProcessTree | src/niri.rs:131-175 | the same, for the walk of at most ten processes from the given PID |
| Niri.ShouldEnableGamemode | src/niri.rs:182-206 | game mode is enabled exactly when the app id is `gamescope`, or a PID is known and its environment or process tree indicates a game. The gamescope id alone suffices; without a PID nothing else does |
| Text.TrimWhile | src/niri.rs:45 | the result has no trimmed character at either end, and it is empty exactly when every character would be trimmed |
| Text.TrimWhileFramed | src/config.rs:310 | trimming a core framed by trimmed characters gives back the core |
| Text.TrimIgnoresIndent | src/niri.rs:41 | leading whitespace never changes what `str::trim` returns |
| Text.StripPrefix | src/niri.rs:43-47 | the prefix is stripped exactly when present, and prefix plus remainder is the input |
| Text.Split | src/niri.rs:120 | there is at least one part, no part contains the separator, and joining the parts gives back the input |
| Text.SplitJoin | src/niri.rs:120 | splitting undoes joining |
| Text.Contains | src/niri.rs:145-148 | a substring test holds exactly when the pattern occurs at some index |
| Text.LastIndexOf | src/niri.rs:160 | finds the last occurrence of a character, or reports that it is absent |
| Text.LastIndexOfBefore | src/niri.rs:160 | the last `)` is the one followed by text without `)` |
| Text.WordsPair | src/niri.rs:162 | two blank-separated words are the first two whitespace-separated fields |
| Text.DecimalDigits | src/niri.rs:162 | a decimal rendering consists of digits and has the value it renders |
| Text.ParseU32Decimal | src/niri.rs:162 | every u32 in decimal, with or without `+`, parses back to itself |
| Text.ParseU32Rejects | src/niri.rs:49 | an empty string, a lone `+` and a negative number do not parse |
| Text.AsciiLowercaseFolds | src/niri.rs:142 | the lower-cased string has no ASCII capital, differs from the input only at ASCII capitals, and lower-casing it again changes nothing |
| Text.ContainsIgnoringCase | src/niri.rs:142-148 | a word occurs in the lower-cased string exactly when some stretch of the original lower-cases to it |

## Left out

- The mod-tap, one-shot and SOCD processors: `src/event_processor/actions/mod.rs` declares them, but their source is not part of this model.
- `src/cli.rs` and `src/main.rs`: these are user interface, IPC and process start-up.
- `Config::load`, `Config::save`, `Config::default_path`, `save_enabled_keyboards_only`, `Passwords::path_for_id` and `Passwords::default_path`: these are file I/O, RON serialisation and directory lookup.
  - `Passwords::load` is kept as its content rule over a `PasswordFile` value: missing, unreadable (which also covers a missing configuration directory), or present with its text.
- `GameMode::{auto_detect_enabled, detection_methods, process_tree_depth}` and `DetectionMethod`: these are constant getters that nothing in the model consumes. The walk's depth of ten is the constant `Niri.MAX_DEPTH`.
- `start_niri_monitor`: a thread, a channel, a spawned subprocess and a retry loop with sleeps.
- Subprocesses and files: running `niri msg focused-window` and reading `/proc` are replaced by parameters.
  - The command's output is `Option<string>`. `None` stands for a failed spawn, a failed exit status or invalid UTF-8.
  - The `/proc` files are the maps of `ProcFs`, already decoded to text. Lossy UTF-8 decoding is not modelled.
- `str::lines` is modelled as a split on `\n`. This differs from Rust in two ways: a final empty line after a trailing newline, and a `\r` kept before `\n`. Neither changes the result: a blank line gives neither field, and `\r` is removed by the trim of every line.
- Niri.InspectCmdline: `to_lowercase` is modelled as ASCII lower-casing. For the needles `gamescope`, `custom-gamescope` and `gamemode` this is exact: the only non-ASCII characters whose lower case is ASCII are the Kelvin sign (to `k`) and capital I with dot (to `i` plus a combining mark), and neither `k` nor `i` occurs in those needles.
- `Instant::now()` and `elapsed()`: these are replaced by an explicit millisecond timestamp `now` supplied by the caller. Elapsed time saturates at zero, as `Instant` subtraction does.
- DoubleTap.DtProcessor.CheckTimeouts: the order of the resolutions follows `HashMap` iteration, which is unspecified. The contract states the reported keys and values, and that no key is reported twice, but not their order.
- DoubleTap.DtProcessor.TrackedCount is the size of the table and carries no contract of its own. The lemmas state how each transition changes the table's size.
- Niri.CheckProcessTreeUpTo takes the walk depth as a parameter and, for the proof only, the parent relation that the stat files define. `Niri.CheckProcessTree` fixes the depth at ten and the relation at the one read from `/proc`.
- The steam game-id detection: the repository's tests (tests/niri_tests.rs:12-19 and 78-97) expect an app id starting with `steam_app_` to enable game mode. The code has only a TODO at that point (src/niri.rs:188-189) and returns false for such a window when it has no PID. The model follows the code, so `Niri.ShouldEnableGamemode` disables game mode for such a window.
