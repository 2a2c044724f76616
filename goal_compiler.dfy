/**
 * Compilation of a loosely-typed goal definition `{type, target}` into a
 * typed goal (`convert_goal_definition`, src/continuous_session.rs).
 */
module GoalCompiler {
  import opened Wrappers
  import opened Json
  import opened VimState

  /** A goal as an exercise file declares it; `target`'s shape depends on `goalType`. */
  datatype ExerciseGoal = ExerciseGoal(
    goalType: string,
    target: Json,
    description: string,
    hint: Option<string>)

  /** The errors `convert_goal_definition` returns (each an `anyhow` message in the source). */
  datatype GoalError =
    | PositionTargetNotArray
    | ModeTargetNotString
    | UnknownMode(mode: string)
    | TextTargetNotObject
    | RegisterTargetNotObject
    | UnknownGoalType(goalType: string)

  const GOAL_TYPES: set<string> := {"position", "mode", "text", "register", "buffer_change"}
  const OPERATOR_PREFIX: string := "operator_"

  /** `as_u64().unwrap_or(0) as usize` on a 64-bit target. */
  function U64Or0(v: Json): usize
  {
    AsU64(v).GetOr(0)
  }

  /** `as_str().unwrap_or("")`. */
  function StrOrEmpty(v: Json): string
  {
    AsStr(v).GetOr("")
  }

  /** The mode names a mode goal accepts; `operator_X` names operator-pending on X. */
  function ModeFromName(name: string): (r: Result<VimMode, GoalError>)
    ensures r.Err? ==> r.error == UnknownMode(name)
    ensures r.Ok? && r.value.OperatorPending? ==> name == OPERATOR_PREFIX + r.value.operator
  {
    if name == "normal" then Ok(Normal)
    else if name == "insert" then Ok(Insert)
    else if name == "visual" then Ok(Visual)
    else if name == "visual_line" then Ok(VisualLine)
    else if name == "visual_block" then Ok(VisualBlock)
    else if name == "command" then Ok(Command)
    else if OPERATOR_PREFIX <= name then Ok(OperatorPending(name[|OPERATOR_PREFIX|..]))
    else Err(UnknownMode(name))
  }

  /** The name an exercise file uses for each mode: the inverse of ModeFromName. */
  function ModeName(m: VimMode): string
  {
    match m
    case Normal => "normal"
    case Insert => "insert"
    case Visual => "visual"
    case VisualLine => "visual_line"
    case VisualBlock => "visual_block"
    case Command => "command"
    case OperatorPending(op) => OPERATOR_PREFIX + op
  }

  /** Every mode has a name that compiles back to it. */
  lemma {:induction false} ModeNameRoundTrip(m: VimMode)
    ensures ModeFromName(ModeName(m)) == Ok(m)
  {
    if m.OperatorPending? {
      var name := OPERATOR_PREFIX + m.operator;
      assert name[0] == 'o';
      assert name[..|OPERATOR_PREFIX|] == OPERATOR_PREFIX;
      assert name[|OPERATOR_PREFIX|..] == m.operator;
    }
  }

  /** A name that compiles is the name of the mode it compiles to, so distinct accepted names give distinct modes. */
  lemma {:induction false} ModeFromNameInverse(name: string)
    requires ModeFromName(name).Ok?
    ensures ModeName(ModeFromName(name).value) == name
  {
  }

  /**
   * `convert_goal_definition` with the leniency the error messages and the
   * `unwrap_or` defaults describe: a missing array entry or object field reads
   * as JSON null and takes the default (0 or ""). The session uses this one.
   */
  function ConvertGoalDefinition(def: ExerciseGoal): (r: Result<Goal, GoalError>)
  {
    var t := def.target;
    if def.goalType == "position" then
      if !t.Arr? then Err(PositionTargetNotArray)
      else Ok(Goal(Position(U64Or0(At(t, 0)), U64Or0(At(t, 1))), def.description))
    else if def.goalType == "mode" then
      if !t.Str? then Err(ModeTargetNotString)
      else
        match ModeFromName(t.s)
        case Ok(m) => Ok(Goal(Mode(m), def.description))
        case Err(e) => Err(e)
    else if def.goalType == "text" then
      if !t.Obj? then Err(TextTargetNotObject)
      else Ok(Goal(TextContent(U64Or0(Field(t, "line")), StrOrEmpty(Field(t, "expected"))), def.description))
    else if def.goalType == "register" then
      if !t.Obj? then Err(RegisterTargetNotObject)
      else Ok(Goal(RegisterContent(StrOrEmpty(Field(t, "register")), StrOrEmpty(Field(t, "expected"))), def.description))
    else if def.goalType == "buffer_change" then Ok(Goal(BufferChange, def.description))
    else Err(UnknownGoalType(def.goalType))
  }

  /**
   * Which definitions fail to compile, and with which error: an unknown type,
   * a position target that is not an array, a mode target that is not a string
   * or not a known mode name, a text or register target that is not an object.
   * Every other definition compiles and keeps its description.
   */
  lemma ConvertGoalDefinitionErrors(def: ExerciseGoal)
    ensures var r := ConvertGoalDefinition(def);
      && (r.Ok? ==> r.value.description == def.description)
      && (def.goalType !in GOAL_TYPES ==> r == Err(UnknownGoalType(def.goalType)))
      && (def.goalType == "position" ==> (r.Err? <==> !def.target.Arr?))
      && (def.goalType == "position" && r.Err? ==> r.error == PositionTargetNotArray)
      && (def.goalType == "mode" ==> (r.Err? <==> !def.target.Str? || ModeFromName(def.target.s).Err?))
      && (def.goalType == "mode" && !def.target.Str? ==> r == Err(ModeTargetNotString))
      && (def.goalType == "mode" && def.target.Str? && r.Err? ==> r.error == UnknownMode(def.target.s))
      && (def.goalType == "text" ==> (r.Err? <==> !def.target.Obj?))
      && (def.goalType == "text" && r.Err? ==> r.error == TextTargetNotObject)
      && (def.goalType == "register" ==> (r.Err? <==> !def.target.Obj?))
      && (def.goalType == "register" && r.Err? ==> r.error == RegisterTargetNotObject)
      && (def.goalType == "buffer_change" ==> r == Ok(Goal(BufferChange, def.description)))
  {
  }

  /** An array `[l, c, ...]` of 64-bit naturals compiles to the position (l, c). */
  lemma CompilePosition(l: usize, c: usize, rest: seq<Json>, description: string, hint: Option<string>)
    ensures ConvertGoalDefinition(ExerciseGoal("position", Arr([Int(l), Int(c)] + rest), description, hint))
            == Ok(Goal(Position(l, c), description))
  {
  }

  /**
   * Every array target compiles to a position: each of the first two entries
   * that is a 64-bit natural gives its coordinate, and a missing or
   * non-integer entry gives 0.
   */
  lemma CompilePositionArray(items: seq<Json>, description: string, hint: Option<string>)
    ensures var line := if |items| >= 1 && AsU64(items[0]).Some? then items[0].i else 0;
            var col := if |items| >= 2 && AsU64(items[1]).Some? then items[1].i else 0;
            ConvertGoalDefinition(ExerciseGoal("position", Arr(items), description, hint))
              == Ok(Goal(Position(line, col), description))
  {
  }

  /** A mode goal named by ModeName compiles to that mode, and is then detected exactly in that mode. */
  lemma {:induction false} CompileModeRoundTrip(m: VimMode, description: string, hint: Option<string>, s: State)
    ensures ConvertGoalDefinition(ExerciseGoal("mode", Str(ModeName(m)), description, hint)) == Ok(Goal(Mode(m), description))
    ensures CheckGoal(ConvertGoalDefinition(ExerciseGoal("mode", Str(ModeName(m)), description, hint)).value, s)
            <==> s.mode == m
  {
    ModeNameRoundTrip(m);
  }

  /** A mode name outside the known set and without the `operator_` prefix is an unknown-mode error. */
  lemma CompileUnknownMode(name: string, description: string, hint: Option<string>)
    requires name !in ["normal", "insert", "visual", "visual_line", "visual_block", "command"]
    requires !(OPERATOR_PREFIX <= name)
    ensures ConvertGoalDefinition(ExerciseGoal("mode", Str(name), description, hint)) == Err(UnknownMode(name))
  {
  }

  /** `operator_` with nothing after it is operator-pending on the empty operator. */
  lemma CompileBareOperator(description: string, hint: Option<string>)
    ensures ConvertGoalDefinition(ExerciseGoal("mode", Str("operator_"), description, hint))
            == Ok(Goal(Mode(OperatorPending("")), description))
  {
  }

  /** A text target `{line, expected}` compiles to a check of that line; missing fields default to 0 and "". */
  lemma CompileText(fields: map<string, Json>, description: string, hint: Option<string>, s: State)
    ensures var r := ConvertGoalDefinition(ExerciseGoal("text", Obj(fields), description, hint));
            var line := if "line" in fields && AsU64(fields["line"]).Some? then fields["line"].i else 0;
            var expected := if "expected" in fields && fields["expected"].Str? then fields["expected"].s else "";
            r.Ok? && r.value.goalType == TextContent(line, expected) &&
            (CheckGoal(r.value, s) <==> line < |s.bufferContent| && s.bufferContent[line] == expected)
  {
  }

  /** A register target `{register, expected}` compiles to a check of that register; missing fields default to "". */
  lemma CompileRegister(fields: map<string, Json>, description: string, hint: Option<string>, s: State)
    ensures var r := ConvertGoalDefinition(ExerciseGoal("register", Obj(fields), description, hint));
            var register := if "register" in fields && fields["register"].Str? then fields["register"].s else "";
            var expected := if "expected" in fields && fields["expected"].Str? then fields["expected"].s else "";
            r.Ok? && r.value.goalType == RegisterContent(register, expected) &&
            (CheckGoal(r.value, s) <==> register in s.registers && s.registers[register] == expected)
  {
  }

  /** A compiled position goal is detected exactly at that cursor position. */
  lemma CompilePositionRoundTrip(l: usize, c: usize, description: string, hint: Option<string>, s: State)
    ensures CheckGoal(ConvertGoalDefinition(ExerciseGoal("position", Arr([Int(l), Int(c)]), description, hint)).value, s)
            <==> s.cursorLine == l && s.cursorCol == c
  {
  }

  /** The outcome of the source's conversion, which can also panic. */
  datatype Conversion = Converted(result: Result<Goal, GoalError>) | Panicked

  /**
   * Where the source panics: indexing the `Vec` behind an array target, or
   * the `Map` behind an object target, with an index or key it lacks.
   */
  predicate PanicsAsWritten(def: ExerciseGoal)
  {
    var t := def.target;
    (def.goalType == "position" && t.Arr? && |t.items| < 2) ||
    (def.goalType == "text" && t.Obj? && ("line" !in t.fields || "expected" !in t.fields)) ||
    (def.goalType == "register" && t.Obj? && ("register" !in t.fields || "expected" !in t.fields))
  }

  /**
   * `convert_goal_definition` as written: `target[0]` indexes the array's
   * `Vec<Value>` and `target["line"]` the object's `Map<String, Value>`, both of
   * which panic instead of yielding null.
   */
  function ConvertGoalDefinitionAsWritten(def: ExerciseGoal): (r: Conversion)
    ensures r.Panicked? <==> PanicsAsWritten(def)
    ensures r.Converted? ==> r.result == ConvertGoalDefinition(def)
  {
    var t := def.target;
    if def.goalType == "position" then
      if !t.Arr? then Converted(Err(PositionTargetNotArray))
      else if |t.items| < 2 then Panicked
      else Converted(Ok(Goal(Position(U64Or0(t.items[0]), U64Or0(t.items[1])), def.description)))
    else if def.goalType == "mode" then
      if !t.Str? then Converted(Err(ModeTargetNotString))
      else
        match ModeFromName(t.s)
        case Ok(m) => Converted(Ok(Goal(Mode(m), def.description)))
        case Err(e) => Converted(Err(e))
    else if def.goalType == "text" then
      if !t.Obj? then Converted(Err(TextTargetNotObject))
      else if "line" !in t.fields || "expected" !in t.fields then Panicked
      else Converted(Ok(Goal(TextContent(U64Or0(t.fields["line"]), StrOrEmpty(t.fields["expected"])), def.description)))
    else if def.goalType == "register" then
      if !t.Obj? then Converted(Err(RegisterTargetNotObject))
      else if "register" !in t.fields || "expected" !in t.fields then Panicked
      else Converted(Ok(Goal(RegisterContent(StrOrEmpty(t.fields["register"]), StrOrEmpty(t.fields["expected"])), def.description)))
    else if def.goalType == "buffer_change" then Converted(Ok(Goal(BufferChange, def.description)))
    else Converted(Err(UnknownGoalType(def.goalType)))
  }

  /** A one-element position target and a text target without `line` panic as written, yet have the documented defaults. */
  lemma MissingEntriesPanicAsWritten()
    ensures ConvertGoalDefinitionAsWritten(ExerciseGoal("position", Arr([Int(3)]), "", None)).Panicked?
    ensures ConvertGoalDefinition(ExerciseGoal("position", Arr([Int(3)]), "", None)) == Ok(Goal(Position(3, 0), ""))
    ensures ConvertGoalDefinitionAsWritten(ExerciseGoal("text", Obj(map["expected" := Str("x")]), "", None)).Panicked?
    ensures ConvertGoalDefinition(ExerciseGoal("text", Obj(map["expected" := Str("x")]), "", None)) == Ok(Goal(TextContent(0, "x"), ""))
  {
  }
}
