/** The parser with its global buffers, updated in place one character at a time. */
module JsonParser {
  import opened Decimal
  import opened JsonDocument
  import opened JsonMachine
  import opened JsonTheorems
  import opened JsonErrors

  lemma {:induction false} SafeRunConcat(m: Machine, a: string, b: string)
    requires SafeRun(m, a + b)
    ensures SafeRun(m, a) && SafeRun(Run(m, a), b)
    decreases |a|, if m.state == ValueNumber then 1 else 0
  {
    if a == "" {
      assert a + b == b;
    } else if !m.failed {
      assert (a + b)[1..] == a[1..] + b;
      SafeRunConcat(Step(m, a[0]), if PushesBack(m, a[0]) then a else a[1..], b);
    }
  }

  class Parser {
    var state: State
    const keyBuffer: array<char>
    var keyIndex: nat
    const valBuffer: array<char>
    var valIndex: nat
    var literalIndex: nat
    const keyStack: array<string>  // each row as the string it holds
    var keyDepth: nat
    var inArray: bool
    var arrayIndex: nat
    var printed: seq<Output>

    ghost predicate Valid()
      reads this
    {
      && keyBuffer.Length == valBuffer.Length == BUFFER && keyBuffer != valBuffer
      && keyStack.Length == MAX_DEPTH
      && keyIndex <= BUFFER && valIndex <= BUFFER && keyDepth <= MAX_DEPTH
    }

    /** The state the fields and buffers stand for. */
    ghost function Abs(failed: bool := false): Machine
      requires Valid()
      reads this, keyBuffer, valBuffer, keyStack
    {
      Machine(state, keyBuffer[..keyIndex], valBuffer[..valIndex], literalIndex, keyStack[..keyDepth], inArray, arrayIndex, printed, failed)
    }

    constructor ()
      ensures Valid() && Abs() == INITIAL
      ensures fresh(keyBuffer) && fresh(valBuffer) && fresh(keyStack)
    {
      state := Start;
      keyBuffer := new char[BUFFER];
      keyIndex := 0;
      valBuffer := new char[BUFFER];
      valIndex := 0;
      literalIndex := 0;
      keyStack := new string[MAX_DEPTH];
      keyDepth := 0;
      inArray := false;
      arrayIndex := 0;
      printed := [];
    }

    /** get_key */
    method GetKey() returns (parent: string)
      requires Valid()
      ensures parent == FullKey(keyStack[..keyDepth], keyBuffer[..keyIndex])
    {
      hide FullKey;
      parent := "";
      var i := 0;
      ghost var path, key := keyStack[..keyDepth], keyBuffer[..keyIndex];
      while i < keyDepth
        invariant 0 <= i <= keyDepth
        invariant parent + FullKey(path[i..], key) == FullKey(path, key)
      {
        assert path[i..][0] == keyStack[i] && path[i..][1..] == path[i + 1..];
        OuterKey(path[i..], key);
        parent := parent + keyStack[i];
        parent := parent + ".";
        i := i + 1;
      }
      OuterKey([], key);
      assert path[i..] == [];
      parent := parent + keyBuffer[..keyIndex];
    }

    /** Names the finished value, and numbers it when inside an array. */
    method FullName() returns (name: string)
      requires Valid() && NameFits(Abs())
      modifies `arrayIndex
      ensures name == old(Name(Abs()))
      ensures arrayIndex == if inArray then old(arrayIndex) + 1 else old(arrayIndex)
    {
      if inArray {
        name := keyStack[keyDepth - 1] + "[" + IntText(arrayIndex) + "]";
        arrayIndex := arrayIndex + 1;
      } else {
        name := GetKey();
      }
    }

    method EndValue(line: Output)
      requires Valid()
      modifies `printed, `state
      ensures Valid() && printed == old(printed) + [line] && state == ValueEnd
    {
      printed := printed + [line];
      state := ValueEnd;
    }

    method PutKey(ch: char)
      requires Valid() && keyIndex < BUFFER
      modifies `keyIndex, keyBuffer
      ensures Valid() && Abs() == old(Abs()).(key := old(Abs()).key + [ch])
    {
      keyBuffer[keyIndex] := ch;
      keyIndex := keyIndex + 1;
      assert keyBuffer[..keyIndex] == old(keyBuffer[..keyIndex]) + [ch];
    }

    method PutVal(ch: char)
      requires Valid() && valIndex < BUFFER
      modifies `valIndex, valBuffer
      ensures Valid() && Abs() == old(Abs()).(val := old(Abs()).val + [ch])
    {
      valBuffer[valIndex] := ch;
      valIndex := valIndex + 1;
      assert valBuffer[..valIndex] == old(valBuffer[..valIndex]) + [ch];
    }

    method Push()
      requires Valid() && keyDepth < MAX_DEPTH
      modifies `keyDepth, keyStack
      ensures Valid() && Abs() == old(Abs()).(stack := old(Abs()).stack + [old(Abs()).key])
    {
      keyStack[keyDepth] := keyBuffer[..keyIndex];
      keyDepth := keyDepth + 1;
      assert keyStack[..keyDepth] == old(keyStack[..keyDepth]) + [keyBuffer[..keyIndex]];
    }

    method FeedValueBegin(ch: char)
      requires Valid() && state == ValueBegin && InRange(Abs(), ch)
      modifies this, valBuffer, keyStack
      ensures Valid() && Abs() == StepValueBegin(old(Abs()), ch)
    {
      if ch == '{' {
        Push();
        state := KeyBegin;
      } else if ch == '[' {
        inArray := true;
        arrayIndex := 0;
        Push();
        state := ValueBegin;
      } else if ch == QUOTE {
        valIndex := 0;
        state := ValueString;
      } else if IsDigit(ch) || ch == '-' || ch == '.' {
        valIndex := 0;
        PutVal(ch);
        state := ValueNumber;
      } else if ch == 't' {
        literalIndex := 1;
        state := ValueTrue;
      } else if ch == 'f' {
        literalIndex := 1;
        state := ValueFalse;
      } else if ch == 'n' {
        literalIndex := 1;
        state := ValueNull;
      }
    }

    method FeedWord(word: string, ch: char) returns (error: bool)
      requires Valid() && word != "" && (literalIndex + 1 == |word| ==> NameFits(Abs()))
      modifies this
      ensures Valid() && Abs(error) == StepWord(old(Abs()), word, ch)
    {
      if literalIndex < |word| && ch == word[literalIndex] {
        literalIndex := literalIndex + 1;
        if literalIndex == |word| {
          var name := FullName();
          EndValue(Line(Entry(name, word)));
        }
        error := false;
      } else {
        error := true;
      }
    }

    method FeedValueEnd(ch: char)
      requires Valid() && state == ValueEnd
      modifies this
      ensures Valid() && Abs() == StepValueEnd(old(Abs()), ch)
    {
      ghost var stack := keyStack[..keyDepth];
      if ch == ',' {
        state := if inArray then ValueBegin else KeyBegin;
      } else if ch == '}' {
        if keyDepth > 0 {
          keyDepth := keyDepth - 1;
          state := ValueEnd;
        } else {
          state := Done;
        }
      } else if ch == ']' {
        if keyDepth > 0 { keyDepth := keyDepth - 1; }
        inArray := false;
        state := ValueEnd;
      }
      assert |stack| > 0 ==> stack[..|stack| - 1] == keyStack[..|stack| - 1];
    }

    method EmitPendingNumber()
      requires Valid() && NameFits(Abs())
      modifies this
      ensures Valid() && Abs() == EmitNumber(old(Abs()))
    {
      var text := valBuffer[..valIndex];
      var name := FullName();
      if '.' in text {
        EndValue(FloatLine(name, text));
      } else {
        EndValue(Line(Entry(name, IntText(Atoi(text)))));
      }
    }

    method FeedKey(ch: char)
      requires Valid() && state == Key && InRange(Abs(), ch)
      modifies this, keyBuffer
      ensures Valid() && Abs() == Step(old(Abs()), ch)
    {
      if ch == QUOTE {
        keyBuffer[keyIndex] := '\0';
        state := KeyEnd;
      } else {
        PutKey(ch);
      }
    }

    method FeedString(ch: char)
      requires Valid() && state == ValueString && InRange(Abs(), ch)
      modifies this, valBuffer
      ensures Valid() && Abs() == Step(old(Abs()), ch)
    {
      if ch == QUOTE {
        valBuffer[valIndex] := '\0';
        var text := valBuffer[..valIndex];
        var name := FullName();
        EndValue(Line(Entry(name, text)));
      } else {
        PutVal(ch);
      }
    }

    method FeedNumber(ch: char) returns (back: bool)
      requires Valid() && state == ValueNumber && InRange(Abs(), ch)
      modifies this, valBuffer
      ensures Valid() && Abs() == Step(old(Abs()), ch) && back == !InNumber(ch)
    {
      if IsDigit(ch) || ch == '.' {
        PutVal(ch);
        back := false;
      } else {
        valBuffer[valIndex] := '\0';
        EmitPendingNumber();
        back := true;
      }
    }

    /** The switch: one character, or `back` when it has to be looked at again. */
    method Feed(ch: char) returns (error: bool, back: bool)
      requires Valid() && InRange(Abs(), ch)
      modifies this, keyBuffer, valBuffer, keyStack
      ensures Valid() && Abs(error) == Step(old(Abs()), ch)
      ensures back == PushesBack(old(Abs()), ch)
    {
      error, back := false, false;
      match state {
        case Start =>
          if ch == '{' { state := KeyBegin; }
        case KeyBegin =>
          if ch == QUOTE {
            keyIndex := 0;
            state := Key;
          }
        case Key =>
          FeedKey(ch);
        case KeyEnd =>
          if ch == ':' { state := ValueBegin; }
        case ValueBegin =>
          FeedValueBegin(ch);
        case ValueString =>
          FeedString(ch);
        case ValueNumber =>
          back := FeedNumber(ch);
        case ValueTrue =>
          error := FeedWord("true", ch);
        case ValueFalse =>
          error := FeedWord("false", ch);
        case ValueNull =>
          error := FeedWord("null", ch);
        case ValueEnd =>
          FeedValueEnd(ch);
        case Done =>
      }
    }

    /** The inner loop over one chunk, whose index steps back onto the character that ended a number. */
    method FeedChunk(chunk: string) returns (error: bool)
      requires Valid() && SafeRun(Abs(), chunk)
      modifies this, keyBuffer, valBuffer, keyStack
      ensures Valid() && Abs(error) == Run(old(Abs()), chunk)
    {
      var i: int := 0;
      while i < |chunk|
        invariant 0 <= i <= |chunk| && Valid()
        invariant Run(Abs(), chunk[i..]) == Run(old(Abs()), chunk) && SafeRun(Abs(), chunk[i..])
        decreases |chunk| - i, if state == ValueNumber then 1 else 0
      {
        ghost var m, rest := Abs(), chunk[i..];
        assert rest[0] == chunk[i] && rest[1..] == chunk[i + 1..];
        var back;
        error, back := Feed(chunk[i]);
        if error { return; }
        if back { i := i - 1; }
        i := i + 1;
      }
      error := false;
    }

    /** The loop over the chunks fgets delivers; returns main's exit code. */
    method Parse(chunks: seq<string>) returns (code: int)
      requires Valid() && SafeRun(Abs(), Join(chunks))
      modifies this, keyBuffer, valBuffer, keyStack
      ensures Valid() && (code == 0 || code == 1)
      ensures Abs(code == 1) == Run(old(Abs()), Join(chunks))
      ensures old(Abs()) == INITIAL ==> (code == 1 <==> Departs(Join(chunks)))
    {
      FailsExactlyWhenDeparting(Join(chunks));
      var c := 0;
      while c < |chunks|
        invariant 0 <= c <= |chunks| && Valid()
        invariant Run(Abs(), Join(chunks[c..])) == Run(old(Abs()), Join(chunks)) && SafeRun(Abs(), Join(chunks[c..]))
      {
        ghost var later := Join(chunks[c + 1..]);
        assert chunks[c..][1..] == chunks[c + 1..];
        SafeRunConcat(Abs(), chunks[c], later);
        RunConcat(Abs(), chunks[c], later);
        var error := FeedChunk(chunks[c]);
        if error { return 1; }
        c := c + 1;
      }
      return 0;
    }

    /** A supported document, however laid out and cut up, is printed flattened. */
    method ParseDocument(chunks: seq<string>, ghost doc: Members, ghost ls: seq<Lexeme>) returns (code: int)
      requires Valid() && Abs() == INITIAL
      requires Parsable(doc) && SmallMembers([], doc) && IsLayout(ls, doc) && Join(chunks) == Render(ls)
      modifies this, keyBuffer, valBuffer, keyStack
      ensures Valid() && code == 0
      ensures printed == Lines(FlattenMembers([], doc)) && state == Done && keyDepth == 0 && !inArray
    {
      ParsesDocument(doc, ls, chunks);
      ChunksAreInvisible(INITIAL, chunks);
      code := Parse(chunks);
    }
  }
}
