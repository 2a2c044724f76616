/**
 * The editor-state snapshot, the closed set of editor modes, the compiled goal
 * kinds and the goal detector of the tutorial's continuous mode
 * (src/vim_state.rs).
 */
module VimState {
  import opened Wrappers

  /** Rust's `usize` on a 64-bit target. */
  const USIZE_LIMIT: int := 0x1_0000_0000_0000_0000
  type usize = x: int | 0 <= x < USIZE_LIMIT

  /** Ctrl-V, the character Vim's `mode()` reports for visual-block mode. */
  const CTRL_V: char := '\U{16}'

  datatype VimMode =
    | Normal
    | Insert
    | Visual
    | VisualLine
    | VisualBlock
    | OperatorPending(operator: string)
    | Command

  /** One snapshot of the editor, produced fresh on every sample. */
  datatype State = State(
    mode: VimMode,
    cursorLine: usize,
    cursorCol: usize,
    operator: Option<string>,
    bufferContent: seq<string>,
    registers: map<string, string>)

  datatype GoalType =
    | Position(line: usize, col: usize)
    | Mode(mode: VimMode)
    | TextContent(line: usize, expected: string)
    | BufferChange
    | RegisterContent(register: string, expected: string)

  /** A compiled goal; the description is for display and plays no part in detection. */
  datatype Goal = Goal(goalType: GoalType, description: string)

  /**
   * Decodes Vim's `mode()` and `mode(1)` codes. The arms are tried in the
   * source's order: ("n", "no") first, then the single-letter codes, then any
   * code containing Ctrl-V, then "c", and Normal for everything else.
   */
  function FromVimMode(mode: string, detailed: string, operator: Option<string>): (r: VimMode)
    ensures r.OperatorPending? <==> mode == "n" && detailed == "no"
    ensures r.OperatorPending? ==> r.operator == operator.GetOr("")
    ensures r == Insert <==> mode == "i"
    ensures r == Visual <==> mode == "v"
    ensures r == VisualLine <==> mode == "V"
    ensures r == Command <==> mode == "c"
    ensures r == VisualBlock <==> CTRL_V in mode
    ensures r == Normal <==>
      (mode == "n" && detailed != "no") ||
      (mode !in ["n", "i", "v", "V", "c"] && CTRL_V !in mode)
  {
    if mode == "n" && detailed == "no" then OperatorPending(operator.GetOr(""))
    else if mode == "n" then Normal
    else if mode == "i" then Insert
    else if mode == "v" then Visual
    else if mode == "V" then VisualLine
    else if CTRL_V in mode then VisualBlock
    else if mode == "c" then Command
    else Normal
  }

  /** `GoalDetector::check_goal`: a pure, total decision with exact equality throughout. */
  function CheckGoal(goal: Goal, s: State): (r: bool)
  {
    match goal.goalType
    case Position(line, col) => s.cursorLine == line && s.cursorCol == col
    case Mode(expected) => s.mode == expected
    case TextContent(line, expected) =>
      if line < |s.bufferContent| then s.bufferContent[line] == expected else false
    case BufferChange => true
    case RegisterContent(register, expected) =>
      if register in s.registers then s.registers[register] == expected else false
  }

  /** A position goal holds exactly at its own cursor position. */
  lemma PositionGoalExact(line: usize, col: usize, description: string, s: State)
    ensures CheckGoal(Goal(Position(line, col), description), s) <==>
            s.cursorLine == line && s.cursorCol == col
    ensures s.cursorLine != line ==> !CheckGoal(Goal(Position(line, col), description), s)
    ensures s.cursorCol != col ==> !CheckGoal(Goal(Position(line, col), description), s)
  {
  }

  /** A mode goal compares the whole mode, the pending operator included. */
  lemma ModeGoalPayloadSensitive(expected: string, actual: string, description: string, s: State)
    requires s.mode == OperatorPending(actual)
    ensures CheckGoal(Goal(Mode(OperatorPending(expected)), description), s) <==> expected == actual
    ensures !CheckGoal(Goal(Mode(Normal), description), s)
  {
  }

  /** A text goal on a line past the end of the buffer is false, never an error. */
  lemma TextGoalOutOfRange(line: usize, expected: string, description: string, s: State)
    requires line >= |s.bufferContent|
    ensures !CheckGoal(Goal(TextContent(line, expected), description), s)
  {
  }

  /** A register goal on an absent register is false. */
  lemma RegisterGoalAbsent(register: string, expected: string, description: string, s: State)
    requires register !in s.registers
    ensures !CheckGoal(Goal(RegisterContent(register, expected), description), s)
  {
  }

  /** A buffer-change goal is satisfied by every snapshot: no earlier buffer is kept to compare with. */
  lemma BufferChangeAlwaysHolds(description: string, s: State)
    ensures CheckGoal(Goal(BufferChange, description), s)
  {
  }

  /** Detection ignores the description. */
  lemma DescriptionIrrelevant(t: GoalType, d1: string, d2: string, s: State)
    ensures CheckGoal(Goal(t, d1), s) == CheckGoal(Goal(t, d2), s)
  {
  }
}
