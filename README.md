# vim-tutorial continuous mode: goal tracking and sequential progression

This project models the decision logic of the tutorial's *continuous mode*:

- Goal definitions, loosely typed as `{type, target, description, hint}`, are compiled into typed goals (`convert_goal_definition`).
- A goal is decided against one snapshot of the editor (`GoalDetector::check_goal`, `VimMode::from_vim_mode`).
- The editor's status line `LINE:<n>,COL:<n>,MODE:<m>,DETAILED:<m>` is read back into a snapshot (`read_vim_state_from_file`).
- The session moves through an exercise's goals in order (`ContinuousVimSession`: `new`, `start_exercise`, the body of `monitor_progress`'s loop, `stop_exercise`).

Modules:

- `Wrappers` (wrappers.dfy): `Option` and `Result`.
- `VimState` (vim_state.dfy): modes, snapshots, goals, mode decoding and goal detection.
- `Json` (json.dfy): the part of `serde_json::Value` the compiler uses. Indexing by a missing index or key yields `Null`, which is the leniency the `unwrap_or` defaults describe.
- `GoalCompiler` (goal_compiler.dfy): goal compilation, both corrected and as written (see Findings).
- `StatusLine` (status_line.dfy): `str::lines`, `str::split`, `str::parse::<i32>`, `(n - 1) as usize` on a 64-bit target, and the status-line parser.
  - The parser is written as loops (`ParseStatusFields` and `ReadVimStateFromFile`) and proved against the function `StatusState`.
  - A round trip shows that what the editor's script writes is read back as intended.
- `ContinuousSession` (session.dfy): the session has three layers.
  - The class `Session` has the source's fields and methods.
  - `StepOn`, `Poll` and `MonitorAfter` are functions describing one pass of the loop and the loop after `n` polls. The methods are proved against them.
  - `Advance` is an independent reference definition of the sequential policy. `MonitorFollowsAdvance` shows that the loop follows it. `CompletesIffInOrder` and `MonitorCompletesIffInOrder` show that the loop completes exactly when the goals are satisfied in order by successive snapshots.

`MonitorProgress` takes the snapshots the status file is read as on successive polls; reading the file is modelled separately by `ReadVimStateFromFile`. The loop in the source ends only by returning, or when `monitoring_active` becomes false. In the model it also stops, still `Polling`, when the snapshots given run out, and `MonitorAfter` says where it then is.

Where the documented design and the code differ, the model follows the code:

- Each goal is compiled when it becomes current, on every poll, not once when the exercise is loaded. A goal that does not compile ends `monitor_progress` with that error only once the loop reaches it. The `?` at src/continuous_session.rs:382 does this.
- When the status file cannot be read, the snapshot has a buffer of one empty line (`[""]`), not an empty buffer. It is the default snapshot, not the last one seen. A status file that can be read always gives a buffer of `[""]` and no registers.
- A snapshot read from the status file has the buffer `[""]`, no registers and no operator (src/continuous_session.rs:545-554). So a text goal holds only for line 0 and the empty text, a register goal never holds, and an `operator_X` mode goal holds only when X is empty. The sample chapter's goals at src/continuous_content.rs:182-186, 215, 222-226 and 237-241 can therefore never be met, and the loop never completes those exercises. `StatusTextGoal`, `StatusRegisterGoal` and `StatusOperatorGoal` state this.
- `last_state` is stored only by passes that keep polling. The passes that return, on completion or on a compile error, leave it unchanged.

One exception: the loop compiles each goal with the corrected conversion, `GoalCompiler.ConvertGoalDefinition`, and not the one as written (see Findings). Where the program panics at src/continuous_session.rs:382 on a position array with fewer than two entries, or on a text or register object missing a key, the modelled loop uses the defaults 0 and "" instead.

## Model

| member | source | states |
|---|---|---|
| VimState.FromVimMode | src/vim_state.rs:25-36 | Each mode is decoded from exactly the codes that select it, as an if-and-only-if per mode. `("n","no")` gives operator-pending with the given operator or the empty string. A code containing Ctrl-V gives VisualBlock. `c` gives Command. Anything else gives Normal. |
| VimState.CheckGoal | src/vim_state.rs:62-89 | The detector itself. Its meaning is stated per goal kind by the lemmas below: exact cursor equality, whole-mode equality, line-exists-and-equals, register-present-and-equals, and always true for a buffer change. |
| VimState.PositionGoalExact | src/vim_state.rs:64-66 | A position goal holds exactly when both cursor coordinates are equal to its own. |
| VimState.ModeGoalPayloadSensitive | src/vim_state.rs:67 | A mode goal compares the whole mode, including the pending operator's name. |
| VimState.TextGoalOutOfRange | src/vim_state.rs:68-74 | A text goal on a line past the end of the buffer is false, not an error. |
| VimState.RegisterGoalAbsent | src/vim_state.rs:81-87 | A register goal on a register that is absent is false. |
| VimState.BufferChangeAlwaysHolds | src/vim_state.rs:75-80 | A buffer-change goal holds for every snapshot. |
| VimState.DescriptionIrrelevant | src/vim_state.rs:62-89 | Detection does not depend on the goal's description. |
| GoalCompiler.ModeFromName | src/continuous_session.rs:684-696 | An unknown name gives `UnknownMode` carrying that name. An operator-pending result is `operator_` followed by its operator. |
| GoalCompiler.ModeNameRoundTrip | src/continuous_session.rs:684-696 | Every mode has a name that compiles back to that mode. |
| GoalCompiler.ModeFromNameInverse | src/continuous_session.rs:684-696 | A name that compiles is the name of its mode, so accepted names and modes are in one-to-one correspondence. |
| GoalCompiler.ConvertGoalDefinition | src/continuous_session.rs:665-725 | The compiler, with a missing array entry or object key read as null (see Findings). Its meaning is stated by `ConvertGoalDefinitionErrors` (when it fails and with which error) and by the `Compile*` lemmas (what each well-shaped target compiles to, and how the result is then detected). |
| GoalCompiler.ConvertGoalDefinitionErrors | src/continuous_session.rs:665-725 | The exact error conditions of each goal type, as if-and-only-ifs, and the error each gives: `PositionTargetNotArray`, `ModeTargetNotString`, `UnknownMode` with the name, `TextTargetNotObject`, `RegisterTargetNotObject`, or `UnknownGoalType` with the type. A successful compilation keeps the description. |
| GoalCompiler.CompilePosition | src/continuous_session.rs:669-678 | An array of two or more naturals compiles to the position given by its first two entries. |
| GoalCompiler.CompilePositionArray | src/continuous_session.rs:669-678 | Every array target compiles to a position. Each of the line and the column is the entry when it is a 64-bit natural, and 0 when it is missing or not an integer. |
| GoalCompiler.CompilePositionRoundTrip | src/continuous_session.rs:669-678 | A compiled position goal is detected exactly at that cursor position. |
| GoalCompiler.CompileModeRoundTrip | src/continuous_session.rs:679-698 | A mode goal named after a mode compiles to that mode, and is detected exactly in that mode. |
| GoalCompiler.CompileUnknownMode | src/continuous_session.rs:695 | A name that is not known and does not start with `operator_` is an `UnknownMode` error. |
| GoalCompiler.CompileBareOperator | src/continuous_session.rs:691-694 | `operator_` alone means operator-pending on the empty operator. |
| GoalCompiler.CompileText | src/continuous_session.rs:699-707 | A text target compiles to a check of that line, with 0 and "" for missing fields. That check holds exactly when the line exists and is equal to the expected text. |
| GoalCompiler.CompileRegister | src/continuous_session.rs:708-716 | A register target compiles to a check of that register, with "" for missing fields. That check holds exactly when the register is present and is equal to the expected text. |
| GoalCompiler.ConvertGoalDefinitionAsWritten | src/continuous_session.rs:665-725 | The conversion as written panics exactly on a position array with fewer than two entries, or an object lacking one of its two keys. Otherwise it agrees with the corrected conversion. |
| GoalCompiler.MissingEntriesPanicAsWritten | src/continuous_session.rs:674-675 | `[3]` and `{"expected":"x"}` panic as written, but compile to the documented defaults when corrected. |
| StatusLine.Lines | src/continuous_session.rs:527 | `str::lines`: no line holds a newline, and there are no lines exactly when the text is empty. `LinesJoin` gives the content; `LinesOfOneLine` shows that one line ended by a newline gives that line alone. |
| StatusLine.LinesJoin | src/continuous_session.rs:527 | Joining the lines with newlines gives the text back, less one final newline (for text without carriage returns): the lines are exactly the text's pieces between newlines, in order. |
| StatusLine.Split | src/continuous_session.rs:529 | `str::split(',')`: at least one part, and no part holds the separator. |
| StatusLine.JoinSplit | src/continuous_session.rs:529 | Putting the separators back between the parts gives the text back, so nothing is lost by splitting. |
| StatusLine.SplitJoin | src/continuous_session.rs:529 | Splitting text joined from separator-free parts gives those parts back. |
| StatusLine.ParseI32 | src/continuous_session.rs:532-534 | A parsed coordinate is within the `i32` range. What is parsed and what is rejected is stated by `ParseDigits`, `ParseSigned`, `ParseI32RejectsNonDigit` and `ParseI32RejectsNoDigitsOrRange`. |
| StatusLine.ParseI32RejectsNonDigit | src/continuous_session.rs:532-534 | Text holding a non-digit anywhere other than a leading sign is not a number, so the coordinate read from it defaults to 1. |
| StatusLine.ParseI32RejectsNoDigitsOrRange | src/continuous_session.rs:532-534 | Empty text and a sign alone are not numbers, and neither is the decimal text of a number above `i32::MAX`. |
| StatusLine.ParseDigits | src/continuous_session.rs:532-534 | Decimal digits, with or without leading zeros, parse to their value exactly when it is at most `i32::MAX`, and are rejected otherwise. A `+` in front changes nothing. A `-` in front gives the negated value exactly when it is at least `i32::MIN`, and otherwise is rejected, so the coordinate defaults to 1. |
| StatusLine.ParseSigned | src/continuous_session.rs:532-534 | Every `i32` is parsed back from its decimal text, with `-` when negative, with `+` when not, and after any number of leading zeros. |
| StatusLine.CursorFromOneBased | src/continuous_session.rs:549-550 | A positive 1-based coordinate becomes 0-based. A non-positive one above `i32::MIN` is sign-extended to a huge `usize`, as `(n - 1) as usize` does. `i32::MIN` wraps to `i32::MAX`, as a release build does. |
| StatusLine.FieldsOf | src/continuous_session.rs:522-540 | The four fields of a status line; both coordinates are within the `i32` range. `ParseStatusFields` is proved equal to it, and `StatusFieldsRoundTrip` shows that it reads back what the script writes. |
| StatusLine.StatusState | src/continuous_session.rs:497-560 | The snapshot read from the file's content, as a function. The buffer is always one empty line, with no registers and no operator. A missing file gives Normal mode at (0, 0). `ReadVimStateFromFile` is proved equal to it. |
| StatusLine.ParseStatusFields | src/continuous_session.rs:529-540 | The loop over the comma-separated parts gives each key's value from its last occurrence. A value that is absent or unparsable defaults to 1, "n" or "n". |
| StatusLine.ReadVimStateFromFile | src/continuous_session.rs:497-560 | The scan for the first `LINE:` line gives exactly `StatusState`. That is the default snapshot when the file is missing. Otherwise the buffer is one empty line, there are no registers and there is no operator. |
| StatusLine.DecimalString | src/continuous_session.rs:297-301 | The decimal text of a line or column number is all digits, and denotes the number. |
| StatusLine.StatusFieldsRoundTrip | src/continuous_session.rs:301 | Splitting and parsing the line the script writes gives back the four values it wrote. |
| StatusLine.StatusRoundTrip | src/continuous_session.rs:301-302 | A status file the script wrote is read back as the 0-based cursor and the decoded mode. |
| StatusLine.StatusTextGoal | src/continuous_session.rs:545-554 | On any snapshot read from the status file, a text goal holds exactly when it asks for line 0 to be empty. |
| StatusLine.StatusRegisterGoal | src/continuous_session.rs:545-554 | On any snapshot read from the status file, no register goal holds. |
| StatusLine.StatusOperatorGoal | src/continuous_session.rs:545-554 | On any snapshot read from the status file, an operator-pending goal holds only for the empty operator. |
| ContinuousSession.Advance | src/continuous_session.rs:378-437 | The sequential policy as a reference function. It never advances past the goals or the snapshots. It stops on a compile error only at a goal that fails to compile. |
| ContinuousSession.CompletesIffInOrder | src/continuous_session.rs:380-397 | The policy gets through every goal exactly when the goals can be matched, in order, to strictly later snapshots. |
| ContinuousSession.AdvanceSnoc | src/continuous_session.rs:380-393 | One more snapshot is checked only against the goal the run stopped at. That goal is compiled at that moment. |
| ContinuousSession.StepOn | src/continuous_session.rs:378-437 | One pass moves the index by at most one. It signals exactly when it moves, and only finishes at the last goal. The signal is the new current goal's 1-based number. |
| ContinuousSession.Poll | src/continuous_session.rs:370-441 | One pass of the loop. The index only moves forward and stays within the goals. A loop that has already left is not changed. A pass that runs counts one poll and only appends to the signals written. |
| ContinuousSession.MonitorAfter | src/continuous_session.rs:370-443 | The loop after `n` polls stays within the goals. It is still polling only after using all `n` polls. It leaves only with `Completed` or an error. It keeps the snapshot of the last pass that went on polling. |
| ContinuousSession.StoppedStays | src/continuous_session.rs:413 | Once the loop has returned, later polls change nothing. |
| ContinuousSession.MonitorPublished | src/continuous_session.rs:397-423 | One progress signal is written per goal passed: the next goal's number, or `completed` after the last goal. |
| ContinuousSession.PollFollows | src/continuous_session.rs:378-440 | One pass keeps the loop in step with the reference policy given one more snapshot. |
| ContinuousSession.MonitorFollowsAdvance | src/continuous_session.rs:370-443 | The loop's index is the start plus how far `Advance` gets. The loop returns `Completed` exactly when it passes the last goal. It errs exactly when `Advance` stops on a compile error, and then with that error. |
| ContinuousSession.MonitorCompletesIffInOrder | src/continuous_session.rs:370-443 | From the first goal, the loop completes exactly when the goals are satisfied in order by successive snapshots. |
| ContinuousSession.Session.constructor | src/continuous_session.rs:71-82 | A new session has no exercise, index 0, no completed goals, no last state, and is not monitoring. |
| ContinuousSession.Session.StartExercise | src/continuous_session.rs:106-123 | If starting the editor failed (the tmux session at line 108, or Neovim at line 112), that error is returned and nothing changes. Otherwise all goals are marked not completed, the first goal is current, and monitoring is on. A launched exercise needs a goal, because line 123 indexes `goals[0]`. |
| ContinuousSession.Session.Step | src/continuous_session.rs:378-440 | One pass, as `StepOn` gives it. The completion flags change only at the goal just completed. The sequential progress invariant (completed exactly before the index) is kept. |
| ContinuousSession.Session.MonitorProgress | src/continuous_session.rs:363-444 | When not monitoring, it returns `Incomplete` with no change. Otherwise, the index, the signals written, the outcome and `last_state` are those of `MonitorAfter` after the polls used. |
| ContinuousSession.Session.StopExercise | src/continuous_session.rs:756-757 | Monitoring is turned off, and the progress is kept. |

## Left out

- tmux and pane set-up (`start_tmux_session`, `create_instruction_command`, `show_completion_message`): the terminal commands are not modelled. Whether starting the editor in `start_exercise` failed is the parameter `launch` of `Session.StartExercise`. When it failed, the error is returned before any progress field is set.
- `update_instruction_pane` is taken to succeed. Without tmux, the fallback at src/continuous_session.rs:109-113 leaves `instruction_pane_id` as `None`. The `?` at line 426 then makes `monitor_progress` return an error at the first goal passed that is not the last. The model does not capture that error: it goes on to the next goal.
- ContinuousSession.StepOn / Session.Step: the loop compiles each goal with the corrected `ConvertGoalDefinition`, so the panic at src/continuous_session.rs:382 on a short position array or a text or register object missing a key is not modelled. The loop instead uses the defaults 0 and "". `ConvertGoalDefinitionAsWritten` states exactly which inputs panic.
- The Vim script file and the editor it runs in (`create_vim_script`, src/vim_rpc.rs): only the status-line format the script writes is modelled, by `StatusLine.StatusText`.
- File I/O: the status file's contents are a parameter, `None` when it cannot be read. The writes to the progress file are the `published` sequence. The removal of temporary files in `stop_exercise` is not modelled.
- Sleeps, `println!` and `debug_log!`: timing and logging only.
- Cancellation from another thread while `monitor_progress` runs: the model is single-threaded, so `monitoring_active` changes only through `StopExercise` between calls.
- Session.MonitorProgress: it ends, still `Polling`, when the snapshots given run out, whereas the source keeps polling for ever.
- The AnyOrder and Parallel flows (src/continuous_session.rs:562-663): commented-out code. The flow type is carried but never consulted.
- `show_remaining_goals`, `send_keys` and `get_current_state`: commented out.
- `ExerciseResult::Failed` is never constructed by the source. It is kept in the datatype.
- The goal descriptions and hints shown to the learner: display only.
- `usize` is taken as 64 bits wide. `as_u64` values are naturals below 2^64.
- StatusLine.CursorFromOneBased: models a release build, where `i32::MIN - 1` at src/continuous_session.rs:549-550 wraps to `i32::MAX`. A debug build panics on that overflow instead.
- Session.StartExercise: an empty goal list makes the source panic at line 123 once the editor has started. The model requires a goal in that case instead of modelling the panic.
- src/game.rs, src/main.rs, src/continuous_content.rs and src/content.rs (the menu, the non-continuous mode and content loading) are not part of this model.

## Findings

| source | as written | input that shows it | evidently intended | confidence | as-written member | corrected member |
|---|---|---|---|---|---|---|
| src/continuous_session.rs:674-675, 704-705, 713-714 | `target[0]`/`target[1]` index the `Vec<Value>` returned by `as_array()`, and `target["line"]` etc. index the `Map` returned by `as_object()`. Both panic on a missing index or key. | position target `[3]`; text target `{"expected":"x"}` | A missing entry takes the `unwrap_or` default (0 or ""), as `Value` indexing would give | not executed | GoalCompiler.ConvertGoalDefinitionAsWritten | GoalCompiler.ConvertGoalDefinition |
