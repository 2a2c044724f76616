/**
 * The status line the editor's script writes after every cursor move or mode
 * change, `LINE:<n>,COL:<n>,MODE:<m>,DETAILED:<m>`, and how the session reads
 * it back into a snapshot (`read_vim_state_from_file`,
 * src/continuous_session.rs).
 */
module StatusLine {
  import opened Wrappers
  import opened VimState

  const I32_MIN: int := -0x8000_0000
  const I32_MAX: int := 0x7fff_ffff

  const LINE_KEY: string := "LINE:"
  const COL_KEY: string := "COL:"
  const MODE_KEY: string := "MODE:"
  const DETAILED_KEY: string := "DETAILED:"

  /** The position of the first `c` in `s`, or |s| when there is none. */
  function IndexOf(s: string, c: char): (k: nat)
    ensures k <= |s|
    ensures k < |s| ==> s[k] == c
    ensures forall i :: 0 <= i < k ==> s[i] != c
  {
    if s == [] then 0 else if s[0] == c then 0 else 1 + IndexOf(s[1..], c)
  }

  /** A terminated line loses one carriage return before its newline. */
  function StripCr(line: string): string
  {
    if |line| > 0 && line[|line| - 1] == '\r' then line[..|line| - 1] else line
  }

  /**
   * `str::lines`: the text split at each newline, a carriage return before a
   * newline dropped, and no empty line after a final newline.
   */
  function Lines(s: string): (lines: seq<string>)
    ensures lines == [] <==> s == []
    ensures forall i :: 0 <= i < |lines| ==> '\n' !in lines[i]
    decreases |s|
  {
    if s == [] then []
    else
      var k := IndexOf(s, '\n');
      if k == |s| then [s]
      else
        var line := StripCr(s[..k]);
        assert forall j :: 0 <= j < |line| ==> line[j] == s[j];
        [line] + Lines(s[k + 1..])
  }

  /** `str::split(sep)`: every piece between separators, empty ones included. */
  function Split(s: string, sep: char): (parts: seq<string>)
    ensures |parts| >= 1
    ensures forall i :: 0 <= i < |parts| ==> sep !in parts[i]
    decreases |s|
  {
    var k := IndexOf(s, sep);
    if k == |s| then [s]
    else
      assert forall j :: 0 <= j < k ==> s[..k][j] == s[j];
      [s[..k]] + Split(s[k + 1..], sep)
  }

  predicate IsDigit(c: char)
  {
    '0' <= c <= '9'
  }

  predicate AllDigits(s: string)
  {
    forall i :: 0 <= i < |s| ==> IsDigit(s[i])
  }

  /** The number a string of decimal digits denotes. */
  function DecimalValue(digits: string): nat
    requires AllDigits(digits)
  {
    if digits == [] then 0
    else 10 * DecimalValue(digits[..|digits| - 1]) + (digits[|digits| - 1] as int - '0' as int)
  }

  /** `str::parse::<i32>`: an optional `+` or `-`, then one or more decimal digits, within range. */
  function ParseI32(s: string): (r: Option<int>)
    ensures r.Some? ==> I32_MIN <= r.value <= I32_MAX
  {
    var negative := |s| > 0 && s[0] == '-';
    var digits := if |s| > 0 && (s[0] == '-' || s[0] == '+') then s[1..] else s;
    if digits == [] || !AllDigits(digits) then None
    else
      var value: int := DecimalValue(digits);
      var n := if negative then -value else value;
      if I32_MIN <= n <= I32_MAX then Some(n) else None
  }

  /**
   * `(n - 1) as usize` for an `i32` n: the editor's 1-based coordinate made
   * 0-based. The subtraction wraps (a release build) and a negative result is
   * sign-extended to 64 bits.
   */
  function CursorFromOneBased(n: int): (r: usize)
    requires I32_MIN <= n <= I32_MAX
    ensures 1 <= n ==> r == n - 1
    ensures I32_MIN < n < 1 ==> r == n - 1 + USIZE_LIMIT
    ensures n == I32_MIN ==> r == I32_MAX
  {
    var d := if n == I32_MIN then I32_MAX else n - 1;
    if d >= 0 then d else d + USIZE_LIMIT
  }

  /** The index of the first line that starts with `LINE:`, or |lines| when there is none. */
  function FirstStatusIndex(lines: seq<string>): (k: nat)
    ensures k <= |lines|
    ensures k < |lines| ==> LINE_KEY <= lines[k]
    ensures forall j :: 0 <= j < k ==> !(LINE_KEY <= lines[j])
  {
    if lines == [] then 0
    else if LINE_KEY <= lines[0] then 0
    else 1 + FirstStatusIndex(lines[1..])
  }

  /** The text after `key` in the last part that starts with `key`. */
  function LastValue(parts: seq<string>, key: string): (r: Option<string>)
    ensures r.None? <==> forall i :: 0 <= i < |parts| ==> !(key <= parts[i])
  {
    if parts == [] then None
    else if key <= parts[|parts| - 1] then Some(parts[|parts| - 1][|key|..])
    else LastValue(parts[..|parts| - 1], key)
  }

  /** A coordinate: the parsed value, 1 when absent or unparsable. */
  function NumberOr1(v: Option<string>): (n: int)
    ensures I32_MIN <= n <= I32_MAX
  {
    match v
    case None => 1
    case Some(text) => ParseI32(text).GetOr(1)
  }

  datatype StatusFields = StatusFields(line: int, col: int, mode: string, detailed: string)

  /** The four fields of a status line; a later occurrence of a key wins over an earlier one. */
  function FieldsOf(line: string): (f: StatusFields)
    ensures I32_MIN <= f.line <= I32_MAX && I32_MIN <= f.col <= I32_MAX
  {
    var parts := Split(line, ',');
    StatusFields(
      NumberOr1(LastValue(parts, LINE_KEY)),
      NumberOr1(LastValue(parts, COL_KEY)),
      LastValue(parts, MODE_KEY).GetOr("n"),
      LastValue(parts, DETAILED_KEY).GetOr("n"))
  }

  /** The fields when no line of the file starts with `LINE:`. */
  const DEFAULT_FIELDS: StatusFields := StatusFields(1, 1, "n", "n")

  /** The snapshot when the status file cannot be read. */
  function MissingFileState(): State
  {
    State(Normal, 0, 0, None, [""], map[])
  }

  /**
   * The snapshot read from the status file: `content` is the file's text, or
   * None when it cannot be read. Only cursor and mode are filled in; the
   * buffer is always one empty line and there are no registers.
   */
  function StatusState(content: Option<string>): (s: State)
    ensures s.bufferContent == [""] && s.registers == map[] && s.operator == None
    ensures content.None? ==> s.mode == Normal && s.cursorLine == 0 && s.cursorCol == 0
  {
    match content
    case None => MissingFileState()
    case Some(text) =>
      var lines := Lines(text);
      var k := FirstStatusIndex(lines);
      var f := if k < |lines| then FieldsOf(lines[k]) else DEFAULT_FIELDS;
      State(FromVimMode(f.mode, f.detailed, None), CursorFromOneBased(f.line), CursorFromOneBased(f.col),
            None, [""], map[])
  }

  /** A part starts with at most one of the four keys. */
  lemma {:induction false} KeysExclusive(part: string)
    ensures LINE_KEY <= part ==> !(COL_KEY <= part) && !(MODE_KEY <= part) && !(DETAILED_KEY <= part)
    ensures COL_KEY <= part ==> !(MODE_KEY <= part) && !(DETAILED_KEY <= part)
    ensures MODE_KEY <= part ==> !(DETAILED_KEY <= part)
  {
    if |part| > 0 {
      assert LINE_KEY <= part ==> part[0] == 'L';
      assert COL_KEY <= part ==> part[0] == 'C';
      assert MODE_KEY <= part ==> part[0] == 'M';
      assert DETAILED_KEY <= part ==> part[0] == 'D';
    }
  }

  /**
   * The inner loop of `read_vim_state_from_file`: each comma-separated part
   * that starts with a key overwrites that key's field.
   */
  method ParseStatusFields(line: string) returns (f: StatusFields)
    ensures f == FieldsOf(line)
  {
    var lineNum, colNum, modeStr, modeDetailed := 1, 1, "n", "n";
    var parts := Split(line, ',');
    var j := 0;
    while j < |parts|
      invariant 0 <= j <= |parts|
      invariant lineNum == NumberOr1(LastValue(parts[..j], LINE_KEY))
      invariant colNum == NumberOr1(LastValue(parts[..j], COL_KEY))
      invariant modeStr == LastValue(parts[..j], MODE_KEY).GetOr("n")
      invariant modeDetailed == LastValue(parts[..j], DETAILED_KEY).GetOr("n")
    {
      var part := parts[j];
      assert parts[..j + 1][..j] == parts[..j];
      KeysExclusive(part);
      if LINE_KEY <= part {
        lineNum := ParseI32(part[|LINE_KEY|..]).GetOr(1);
      } else if COL_KEY <= part {
        colNum := ParseI32(part[|COL_KEY|..]).GetOr(1);
      } else if MODE_KEY <= part {
        modeStr := part[|MODE_KEY|..];
      } else if DETAILED_KEY <= part {
        modeDetailed := part[|DETAILED_KEY|..];
      }
      j := j + 1;
    }
    assert parts[..j] == parts;
    f := StatusFields(lineNum, colNum, modeStr, modeDetailed);
  }

  /**
   * `read_vim_state_from_file`: the missing-file default, or a scan of the
   * lines for the first status line, whose fields then give the snapshot.
   */
  method ReadVimStateFromFile(content: Option<string>) returns (s: State)
    ensures s == StatusState(content)
  {
    if content.None? {
      return MissingFileState();
    }
    var f := DEFAULT_FIELDS;
    var lines := Lines(content.value);
    var i := 0;
    while i < |lines|
      invariant 0 <= i <= |lines|
      invariant FirstStatusIndex(lines) == i + FirstStatusIndex(lines[i..])
    {
      if LINE_KEY <= lines[i] {
        f := ParseStatusFields(lines[i]);
        break;
      }
      assert lines[i..][1..] == lines[i + 1..];
      i := i + 1;
    }
    s := State(FromVimMode(f.mode, f.detailed, None), CursorFromOneBased(f.line), CursorFromOneBased(f.col),
               None, [""], map[]);
  }

  /** The decimal text the editor's script writes for a line or column number. */
  function DecimalString(n: nat): (s: string)
    ensures |s| >= 1 && AllDigits(s)
    ensures DecimalValue(s) == n
  {
    if n < 10 then [('0' as int + n) as char]
    else
      var prefix := DecimalString(n / 10);
      var s := prefix + [('0' as int + n % 10) as char];
      assert s[..|s| - 1] == prefix;
      s
  }

  /** The parts written one after the other with `sep` between them. */
  function Join(parts: seq<string>, sep: char): string
    requires |parts| >= 1
  {
    if |parts| == 1 then parts[0] else parts[0] + [sep] + Join(parts[1..], sep)
  }

  /**
   * The status line the editor's script writes (the function UpdateStatus of
   * the Vim script embedded in src/continuous_session.rs).
   */
  function StatusText(line: nat, col: nat, mode: string, detailed: string): string
  {
    Join([LINE_KEY + DecimalString(line), COL_KEY + DecimalString(col), MODE_KEY + mode, DETAILED_KEY + detailed], ',')
  }

  /** A digit string holds no character that is not a digit. */
  lemma DigitsExclude(s: string, c: char)
    requires AllDigits(s) && !IsDigit(c)
    ensures c !in s
  {
  }

  lemma {:induction false} ParseDecimal(n: nat)
    requires n <= I32_MAX
    ensures ParseI32(DecimalString(n)) == Some(n)
  {
    var s := DecimalString(n);
    assert IsDigit(s[0]);
  }

  /** Text with a character that is neither a digit nor a leading sign is not a number, so a coordinate given as it reads as 1. */
  lemma ParseI32RejectsNonDigit(s: string, i: nat)
    requires i < |s| && !IsDigit(s[i])
    requires !(i == 0 && (s[0] == '-' || s[0] == '+'))
    ensures ParseI32(s) == None
    ensures NumberOr1(Some(s)) == 1
  {
    var digits := if |s| > 0 && (s[0] == '-' || s[0] == '+') then s[1..] else s;
    if digits != s {
      assert digits[i - 1] == s[i];
    }
  }

  /** Empty text, a sign alone, and a number outside the `i32` range are not parsed either. */
  lemma ParseI32RejectsNoDigitsOrRange(n: nat)
    requires n > I32_MAX
    ensures ParseI32("") == None && ParseI32("-") == None && ParseI32("+") == None
    ensures ParseI32(DecimalString(n)) == None
  {
    assert "-"[1..] == [] && "+"[1..] == [];
    var s := DecimalString(n);
    assert IsDigit(s[0]);
  }

  /** A zero before the digits does not change the number they denote. */
  lemma {:induction false} DecimalLeadingZero(digits: string)
    requires AllDigits(digits)
    ensures AllDigits("0" + digits) && DecimalValue("0" + digits) == DecimalValue(digits)
    decreases |digits|
  {
    if digits != [] {
      var z := "0" + digits;
      assert z[..|z| - 1] == "0" + digits[..|digits| - 1];
      DecimalLeadingZero(digits[..|digits| - 1]);
    }
  }

  /** A run of zeros before the digits does not change the number they denote. */
  lemma {:induction false} LeadingZeros(zeros: nat, digits: string)
    requires AllDigits(digits)
    ensures AllDigits(seq(zeros, _ => '0') + digits)
    ensures DecimalValue(seq(zeros, _ => '0') + digits) == DecimalValue(digits)
    decreases zeros
  {
    if zeros > 0 {
      var shorter := seq(zeros - 1, _ => '0') + digits;
      LeadingZeros(zeros - 1, digits);
      assert seq(zeros, _ => '0') + digits == "0" + shorter;
      DecimalLeadingZero(shorter);
    } else {
      assert seq(zeros, _ => '0') + digits == digits;
    }
  }

  /**
   * Decimal digits, with or without leading zeros, parse to their value when it fits in an `i32`
   * and are rejected when it does not; a `+` changes nothing, and a `-` negates the value, which
   * may then reach `i32::MIN`.
   */
  lemma ParseDigits(digits: string)
    requires digits != [] && AllDigits(digits)
    ensures ParseI32(digits) == if DecimalValue(digits) <= I32_MAX then Some(DecimalValue(digits) as int) else None
    ensures ParseI32("+" + digits) == ParseI32(digits)
    ensures ParseI32("-" + digits) ==
      if DecimalValue(digits) <= -I32_MIN then Some(-(DecimalValue(digits) as int)) else None
  {
    assert IsDigit(digits[0]);
    assert ("+" + digits)[1..] == digits;
    assert ("-" + digits)[1..] == digits;
  }

  /** Every `i32` is parsed back from its decimal text, with a `-` when negative, a `+` when not, and leading zeros. */
  lemma ParseSigned(n: int, zeros: nat)
    requires I32_MIN <= n <= I32_MAX
    ensures var digits := seq(zeros, _ => '0') + DecimalString(if n < 0 then -n else n);
            ParseI32((if n < 0 then "-" else "") + digits) == Some(n) &&
            (n >= 0 ==> ParseI32("+" + digits) == Some(n))
  {
    var m := if n < 0 then -n else n;
    var digits := seq(zeros, _ => '0') + DecimalString(m);
    LeadingZeros(zeros, DecimalString(m));
    assert DecimalValue(digits) == m;
    ParseDigits(digits);
    assert "" + digits == digits;
  }

  lemma SplitWithout(s: string, sep: char)
    requires sep !in s
    ensures Split(s, sep) == [s]
  {
  }

  lemma {:induction false} SplitAfter(a: string, b: string, sep: char)
    requires sep !in a
    ensures Split(a + [sep] + b, sep) == [a] + Split(b, sep)
  {
    var s := a + [sep] + b;
    assert s[|a|] == sep;
    assert forall i :: 0 <= i < |a| ==> s[i] == a[i];
    assert IndexOf(s, sep) == |a|;
    assert s[..|a|] == a;
    assert s[|a| + 1..] == b;
  }

  /** Splitting undoes joining, when no part holds the separator. */
  lemma {:induction false} SplitJoin(parts: seq<string>, sep: char)
    requires |parts| >= 1
    requires forall i :: 0 <= i < |parts| ==> sep !in parts[i]
    ensures Split(Join(parts, sep), sep) == parts
  {
    if |parts| == 1 {
      SplitWithout(parts[0], sep);
    } else {
      SplitJoin(parts[1..], sep);
      SplitAfter(parts[0], Join(parts[1..], sep), sep);
    }
  }

  /** Joining undoes splitting: the pieces with the separators put back are the text. */
  lemma {:induction false} JoinSplit(s: string, sep: char)
    ensures Join(Split(s, sep), sep) == s
    decreases |s|
  {
    var k := IndexOf(s, sep);
    if k < |s| {
      var rest := s[k + 1..];
      assert Split(s, sep) == [s[..k]] + Split(rest, sep);
      JoinSplit(rest, sep);
      JoinCons(s[..k], Split(rest, sep), sep);
      assert s == s[..k] + [sep] + rest;
    }
  }

  lemma {:induction false} LinesOfOneLine(t: string)
    requires '\n' !in t && '\r' !in t
    ensures Lines(t + "\n") == [t]
  {
    var s := t + "\n";
    assert s[|t|] == '\n';
    assert forall i :: 0 <= i < |t| ==> s[i] == t[i];
    assert IndexOf(s, '\n') == |t|;
    assert s[..|t|] == t;
    assert s[|t| + 1..] == [];
  }

  /** A line without newline, and not ending in a carriage return, is the first line of itself plus a newline and more text. */
  lemma {:induction false} LinesAfter(a: string, b: string)
    requires '\n' !in a && (a == [] || a[|a| - 1] != '\r')
    ensures Lines(a + "\n" + b) == [a] + Lines(b)
  {
    var s := a + "\n" + b;
    assert s[|a|] == '\n';
    assert forall i :: 0 <= i < |a| ==> s[i] == a[i];
    assert IndexOf(s, '\n') == |a|;
    assert s[..|a|] == a;
    assert s[|a| + 1..] == b;
    assert StripCr(a) == a;
  }

  lemma JoinCons(part: string, rest: seq<string>, sep: char)
    requires |rest| >= 1
    ensures Join([part] + rest, sep) == part + [sep] + Join(rest, sep)
  {
    assert ([part] + rest)[1..] == rest;
  }

  /** The text after one more line and its newline still joins back from its lines. */
  lemma LinesJoinStep(s: string, line: string, rest: string)
    requires s == line + "\n" + rest
    requires '\n' !in line && (line == [] || line[|line| - 1] != '\r') && rest != []
    requires Join(Lines(rest), '\n') == if rest[|rest| - 1] == '\n' then rest[..|rest| - 1] else rest
    ensures Join(Lines(s), '\n') == if s[|s| - 1] == '\n' then s[..|s| - 1] else s
  {
    LinesAfter(line, rest);
    JoinCons(line, Lines(rest), '\n');
    assert Join(Lines(s), '\n') == line + "\n" + Join(Lines(rest), '\n');
    assert s[|s| - 1] == rest[|rest| - 1];
    if rest[|rest| - 1] == '\n' {
      DropLast(s, line + "\n", rest);
    } else {
      assert Join(Lines(s), '\n') == line + "\n" + rest == s;
    }
  }

  /** Dropping the last element of a concatenation drops it from the second part. */
  lemma DropLast(s: string, a: string, b: string)
    requires s == a + b && b != []
    ensures s[..|s| - 1] == a + b[..|b| - 1]
  {
  }

  /**
   * Joining the lines with newlines gives the text back, less one final
   * newline: the lines are exactly the text's pieces between newlines, in
   * order (for text without carriage returns).
   */
  lemma {:induction false} LinesJoin(s: string)
    requires s != [] && '\r' !in s
    ensures Join(Lines(s), '\n') == if s[|s| - 1] == '\n' then s[..|s| - 1] else s
    decreases |s|
  {
    var k := IndexOf(s, '\n');
    if k == |s| {
      assert Lines(s) == [s];
      assert s[|s| - 1] != '\n';
    } else {
      var line, rest := s[..k], s[k + 1..];
      assert s == line + "\n" + rest;
      assert forall j :: 0 <= j < |line| ==> line[j] == s[j];
      if rest == [] {
        LinesAfter(line, rest);
        assert Lines(s) == [line];
        assert s[..|s| - 1] == line;
      } else {
        assert forall j :: 0 <= j < |rest| ==> rest[j] == s[k + 1 + j];
        LinesJoin(rest);
        LinesJoinStep(s, line, rest);
      }
    }
  }

  /** A character that is neither the separator nor in any part is not in the joined text. */
  lemma {:induction false} JoinExcludes(parts: seq<string>, sep: char, c: char)
    requires |parts| >= 1 && c != sep
    requires forall i :: 0 <= i < |parts| ==> c !in parts[i]
    ensures c !in Join(parts, sep)
  {
    if |parts| > 1 {
      JoinExcludes(parts[1..], sep, c);
    }
  }

  /** The value of the only part, from some index on, that starts with `key`. */
  lemma {:induction false} LastValueAt(parts: seq<string>, key: string, i: nat)
    requires i < |parts| && key <= parts[i]
    requires forall j :: i < j < |parts| ==> !(key <= parts[j])
    ensures LastValue(parts, key) == Some(parts[i][|key|..])
  {
    if i < |parts| - 1 {
      LastValueAt(parts[..|parts| - 1], key, i);
    }
  }

  /** The four parts of a status line the editor writes. */
  function StatusParts(line: nat, col: nat, mode: string, detailed: string): seq<string>
  {
    [LINE_KEY + DecimalString(line), COL_KEY + DecimalString(col), MODE_KEY + mode, DETAILED_KEY + detailed]
  }

  lemma {:induction false} SplitStatusText(line: nat, col: nat, mode: string, detailed: string)
    requires ',' !in mode && ',' !in detailed
    ensures Split(StatusText(line, col, mode, detailed), ',') == StatusParts(line, col, mode, detailed)
  {
    DigitsExclude(DecimalString(line), ',');
    DigitsExclude(DecimalString(col), ',');
    SplitJoin(StatusParts(line, col, mode, detailed), ',');
  }

  /** Each key's value in a status line the editor writes is the value it wrote. */
  lemma {:induction false} StatusFieldsRoundTrip(line: nat, col: nat, mode: string, detailed: string)
    requires line <= I32_MAX && col <= I32_MAX
    requires ',' !in mode && ',' !in detailed
    ensures FieldsOf(StatusText(line, col, mode, detailed)) == StatusFields(line, col, mode, detailed)
  {
    var parts := StatusParts(line, col, mode, detailed);
    SplitStatusText(line, col, mode, detailed);
    KeysExclusive(parts[0]);
    KeysExclusive(parts[1]);
    KeysExclusive(parts[2]);
    KeysExclusive(parts[3]);
    LastValueAt(parts, LINE_KEY, 0);
    LastValueAt(parts, COL_KEY, 1);
    LastValueAt(parts, MODE_KEY, 2);
    LastValueAt(parts, DETAILED_KEY, 3);
    assert parts[0][|LINE_KEY|..] == DecimalString(line);
    assert parts[1][|COL_KEY|..] == DecimalString(col);
    assert parts[2][|MODE_KEY|..] == mode;
    assert parts[3][|DETAILED_KEY|..] == detailed;
    ParseDecimal(line);
    ParseDecimal(col);
  }

  /**
   * Reading back what the editor writes: the 1-based line and column come back
   * 0-based and the mode codes are decoded, for the codes and numbers the
   * editor produces (no comma, newline or carriage return in a mode code).
   */
  lemma {:induction false} StatusRoundTrip(line: nat, col: nat, mode: string, detailed: string)
    requires 1 <= line <= I32_MAX && 1 <= col <= I32_MAX
    requires ',' !in mode && '\n' !in mode && '\r' !in mode
    requires ',' !in detailed && '\n' !in detailed && '\r' !in detailed
    ensures var s := StatusState(Some(StatusText(line, col, mode, detailed) + "\n"));
            s.cursorLine == line - 1 && s.cursorCol == col - 1 && s.mode == FromVimMode(mode, detailed, None)
  {
    var text := StatusText(line, col, mode, detailed);
    var parts := StatusParts(line, col, mode, detailed);
    DigitsExclude(DecimalString(line), '\n');
    DigitsExclude(DecimalString(line), '\r');
    DigitsExclude(DecimalString(col), '\n');
    DigitsExclude(DecimalString(col), '\r');
    JoinExcludes(parts, ',', '\n');
    JoinExcludes(parts, ',', '\r');
    LinesOfOneLine(text);
    assert text == parts[0] + [','] + Join(parts[1..], ',');
    assert LINE_KEY <= text;
    assert FirstStatusIndex([text]) == 0;
    StatusFieldsRoundTrip(line, col, mode, detailed);
  }

  /**
   * A snapshot read from the status file has one empty line as its buffer, so
   * a text goal holds only for line 0 and the empty text.
   */
  lemma StatusTextGoal(line: usize, expected: string, description: string, content: Option<string>)
    ensures CheckGoal(Goal(TextContent(line, expected), description), StatusState(content)) <==>
            line == 0 && expected == ""
  {
  }

  /** A snapshot read from the status file has no registers, so no register goal ever holds. */
  lemma StatusRegisterGoal(register: string, expected: string, description: string, content: Option<string>)
    ensures !CheckGoal(Goal(RegisterContent(register, expected), description), StatusState(content))
  {
    var s := StatusState(content);
    assert register !in s.registers;
  }

  /**
   * The status file carries no operator, so an operator-pending goal holds only
   * for the empty operator.
   */
  lemma StatusOperatorGoal(operator: string, description: string, content: Option<string>)
    ensures CheckGoal(Goal(Mode(OperatorPending(operator)), description), StatusState(content)) ==> operator == ""
  {
  }
}
