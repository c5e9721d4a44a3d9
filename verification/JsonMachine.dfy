/** The character-driven state machine, as a function on its whole state. */
module JsonMachine {
  import opened Decimal
  import opened JsonDocument

  datatype State =
    | Start | KeyBegin | Key | KeyEnd | ValueBegin | ValueString | ValueNumber
    | ValueTrue | ValueFalse | ValueNull | ValueEnd | Done

  // A printed line. The text "%.2f" makes of a number with a point is not modelled.
  datatype Output = Line(entry: Entry) | FloatLine(key: string, digits: string)

  // `stack` is key_stack below key_depth; `failed` means main has returned 1.
  datatype Machine = Machine(
    state: State, key: string, val: string, literal: nat,
    stack: seq<string>, inArray: bool, index: nat,
    out: seq<Output>, failed: bool)

  const INITIAL := Machine(Start, "", "", 0, [], false, 0, [], false)

  function Name(m: Machine): string {
    if m.inArray then ItemKey(if m.stack == [] then "" else m.stack[|m.stack| - 1], m.index)
    else FullKey(m.stack, m.key)
  }

  function EmitLine(m: Machine, line: Output): Machine {
    m.(out := m.out + [line], index := if m.inArray then m.index + 1 else m.index, state := ValueEnd)
  }

  function Emit(m: Machine, value: string): Machine { EmitLine(m, Line(Entry(Name(m), value))) }

  /** One character of a literal, the first of which was matched on entry. */
  function StepWord(m: Machine, word: string, ch: char): Machine {
    if m.literal < |word| && ch == word[m.literal] then
      var next := m.(literal := m.literal + 1);
      if next.literal == |word| then Emit(next, word) else next
    else m.(failed := true)
  }

  function StepValueBegin(m: Machine, ch: char): Machine {
    if ch == '{' then m.(stack := m.stack + [m.key], state := KeyBegin)
    else if ch == '[' then m.(inArray := true, index := 0, stack := m.stack + [m.key], state := ValueBegin)
    else if ch == QUOTE then m.(val := "", state := ValueString)
    else if IsDigit(ch) || ch == '-' || ch == '.' then m.(val := [ch], state := ValueNumber)
    else if ch == 't' then m.(literal := 1, state := ValueTrue)
    else if ch == 'f' then m.(literal := 1, state := ValueFalse)
    else if ch == 'n' then m.(literal := 1, state := ValueNull)
    else m
  }

  function StepValueEnd(m: Machine, ch: char): Machine {
    var popped := if |m.stack| > 0 then m.stack[..|m.stack| - 1] else m.stack;
    if ch == ',' then m.(state := if m.inArray then ValueBegin else KeyBegin)
    else if ch == '}' then m.(stack := popped, state := if |m.stack| > 0 then ValueEnd else Done)
    else if ch == ']' then m.(stack := popped, inArray := false)
    else m
  }

  function EmitNumber(m: Machine): Machine {
    if '.' in m.val then EmitLine(m, FloatLine(Name(m), m.val)) else Emit(m, IntText(Atoi(m.val)))
  }

  predicate InNumber(ch: char) { IsDigit(ch) || ch == '.' }

  /** One pass through the switch. */
  function Step(m: Machine, ch: char): Machine {
    match m.state
    case Start => if ch == '{' then m.(state := KeyBegin) else m
    case KeyBegin => if ch == QUOTE then m.(key := "", state := Key) else m
    case Key => if ch == QUOTE then m.(state := KeyEnd) else m.(key := m.key + [ch])
    case KeyEnd => if ch == ':' then m.(state := ValueBegin) else m
    case ValueBegin => StepValueBegin(m, ch)
    case ValueString => if ch == QUOTE then Emit(m, m.val) else m.(val := m.val + [ch])
    case ValueNumber => if InNumber(ch) then m.(val := m.val + [ch]) else EmitNumber(m)
    case ValueTrue => StepWord(m, "true", ch)
    case ValueFalse => StepWord(m, "false", ch)
    case ValueNull => StepWord(m, "null", ch)
    case ValueEnd => StepValueEnd(m, ch)
    case Done => m
  }

  /** The character that ends a number is looked at again. */
  predicate PushesBack(m: Machine, ch: char) { m.state == ValueNumber && !InNumber(ch) }

  /** The whole text, until it ends or the machine gives up. */
  function Run(m: Machine, text: string): Machine
    decreases |text|, if m.state == ValueNumber then 1 else 0
  {
    if text == "" || m.failed then m
    else Run(Step(m, text[0]), if PushesBack(m, text[0]) then text else text[1..])
  }

  /** Reading in pieces makes no difference, wherever the text is cut. */
  lemma {:induction false} RunConcat(m: Machine, a: string, b: string)
    ensures Run(m, a + b) == Run(Run(m, a), b)
    decreases |a|, if m.state == ValueNumber then 1 else 0
  {
    if a == "" {
      assert a + b == b;
    } else if !m.failed {
      assert (a + b)[1..] == a[1..] + b;
      RunConcat(Step(m, a[0]), if PushesBack(m, a[0]) then a else a[1..], b);
    }
  }

  function Join(chunks: seq<string>): string { if chunks == [] then "" else chunks[0] + Join(chunks[1..]) }

  lemma {:induction false} JoinConcat(a: seq<string>, b: seq<string>)
    ensures Join(a + b) == Join(a) + Join(b) && (|a| == 1 ==> Join(a) == a[0])
    decreases |a|
  {
    if a == [] {
      assert a + b == b;
    } else {
      assert (a + b)[1..] == a[1..] + b;
      JoinConcat(a[1..], b);
      if |a| == 1 { assert a[1..] == []; }
    }
  }

  function RunChunks(m: Machine, chunks: seq<string>): Machine
    decreases |chunks|
  {
    if chunks == [] then m else RunChunks(Run(m, chunks[0]), chunks[1..])
  }

  /** The line-by-line loop computes what one pass over the whole text does, for any chunks. */
  lemma {:induction false} ChunksAreInvisible(m: Machine, chunks: seq<string>)
    ensures RunChunks(m, chunks) == Run(m, Join(chunks))
    decreases |chunks|
  {
    if chunks != [] {
      ChunksAreInvisible(Run(m, chunks[0]), chunks[1..]);
      RunConcat(m, chunks[0], Join(chunks[1..]));
    }
  }

  // ---------- the fixed buffers ----------

  predicate NameFits(m: Machine) { (m.inArray ==> m.stack != []) && |Name(m)| < NAME_BUFFER }

  /** Every index the step uses into key_buffer, val_buffer, key_stack and full_key is in range, and no
      name is cut short by snprintf. */
  predicate InRange(m: Machine, ch: char) {
    match m.state
    case Key => |m.key| < BUFFER
    case ValueBegin => ch == '{' || ch == '[' ==> |m.stack| < MAX_DEPTH && |m.key| < BUFFER
    case ValueString => |m.val| < BUFFER && (ch == QUOTE ==> NameFits(m))
    case ValueNumber => |m.val| < BUFFER && (!InNumber(ch) ==> NameFits(m))
    case ValueTrue => m.literal == 3 ==> NameFits(m)
    case ValueFalse => m.literal == 4 ==> NameFits(m)
    case ValueNull => m.literal == 3 ==> NameFits(m)
    case _ => true
  }

  /** No step of the run leaves a buffer. */
  predicate SafeRun(m: Machine, text: string)
    decreases |text|, if m.state == ValueNumber then 1 else 0
  {
    text == "" || m.failed || (
      InRange(m, text[0]) &&
      SafeRun(Step(m, text[0]), if PushesBack(m, text[0]) then text else text[1..]))
  }
}
