/** The machine seen a token at a time, and the proof that characters, white space and buffer
    limits reduce to that view. */
module JsonTokens {
  import opened Decimal
  import opened JsonDocument
  import opened JsonMachine

  /** Between tokens the machine is in one of these states (a number may still be unfinished). */
  predicate Resting(m: Machine) {
    !m.failed && (m.state == Start || m.state == KeyBegin || m.state == KeyEnd || m.state == ValueBegin || m.state == ValueEnd || m.state == Done)
  }

  /** The token is one the machine can meet here. Where a key is due it ignores punctuation, which is
      all that it gets there after an empty object. */
  predicate Expects(m: Machine, t: Token) {
    Resting(m) && (t.Lit? ==> SupportedScalar(t.scalar)) &&
    match m.state
    case Start => t == Punct('{')
    case KeyBegin => if t.Lit? then t.scalar.Text? else t.c == ',' || t.c == '}'
    case KeyEnd => t == Punct(':')
    case ValueBegin => t.Punct? ==> t.c == '{' || t.c == '['
    case ValueEnd => t.Punct? && (t.c == ',' || t.c == '}' || (t.c == ']' && m.stack != []))
    case _ => false
  }

  /** None of its characters leaves a buffer. */
  predicate Fits(m: Machine, t: Token) {
    match m.state
    case KeyBegin => t.Lit? ==> |ScalarText(t.scalar)| < BUFFER
    case ValueBegin =>
      if t.Lit? then |ScalarText(t.scalar)| < BUFFER && NameFits(m) else |m.stack| < MAX_DEPTH && |m.key| < BUFFER
    case _ => true
  }

  function TokenStep(m: Machine, t: Token): Machine {
    match m.state
    case Start => m.(state := KeyBegin)
    case KeyBegin => if t.Lit? then m.(key := ScalarText(t.scalar), state := KeyEnd) else m
    case KeyEnd => m.(state := ValueBegin)
    case ValueBegin =>
      (match t
       case Punct(c) => StepValueBegin(m, c)
       case Lit(True) => Emit(m.(literal := 4), "true")
       case Lit(False) => Emit(m.(literal := 5), "false")
       case Lit(Null) => Emit(m.(literal := 4), "null")
       case Lit(s) => Emit(m.(val := ScalarText(s)), ScalarText(s)))
    case ValueEnd => if t.Punct? then StepValueEnd(m, t.c) else m
    case _ => m
  }

  function RunTokens(m: Machine, ts: seq<Token>): Machine
    decreases |ts|
  {
    if ts == [] then m else RunTokens(TokenStep(m, ts[0]), ts[1..])
  }

  predicate ExpectsAll(m: Machine, ts: seq<Token>)
    decreases |ts|
  {
    ts == [] || (Expects(m, ts[0]) && ExpectsAll(TokenStep(m, ts[0]), ts[1..]))
  }

  predicate FitsAll(m: Machine, ts: seq<Token>)
    decreases |ts|
  {
    ts == [] || (Fits(m, ts[0]) && FitsAll(TokenStep(m, ts[0]), ts[1..]))
  }

  // ---------- a token's characters ----------

  /** From `m` on `text`, the machine gets to `m'` with `rest` still to read; it stays within its
      buffers exactly if `safe` and the remainder does. */
  ghost predicate Reaches(m: Machine, text: string, m': Machine, rest: string, safe: bool) {
    Run(m, text) == Run(m', rest) && (SafeRun(m, text) <==> safe && SafeRun(m', rest))
  }

  lemma OneChar(m: Machine, text: string)
    requires text != "" && !m.failed && !PushesBack(m, text[0])
    ensures Reaches(m, text, Step(m, text[0]), text[1..], InRange(m, text[0]))
  {
  }

  lemma {:induction false} KeyChars(m: Machine, s: string, rest: string)
    requires m.state == Key && !m.failed && QUOTE !in s
    ensures Reaches(m, s + [QUOTE] + rest, m.(key := m.key + s, state := KeyEnd), rest, |m.key| + |s| < BUFFER)
    decreases |s|
  {
    var text := s + [QUOTE] + rest;
    OneChar(m, text);
    if s == "" {
      assert text[1..] == rest && m.key + s == m.key;
    } else {
      assert text[1..] == s[1..] + [QUOTE] + rest;
      assert m.key + [s[0]] + s[1..] == m.key + s;
      KeyChars(Step(m, s[0]), s[1..], rest);
    }
  }

  lemma {:induction false} StringChars(m: Machine, s: string, rest: string)
    requires m.state == ValueString && !m.failed && QUOTE !in s
    ensures Reaches(m, s + [QUOTE] + rest, Emit(m.(val := m.val + s), m.val + s), rest, |m.val| + |s| < BUFFER && NameFits(m))
    decreases |s|
  {
    var text := s + [QUOTE] + rest;
    OneChar(m, text);
    if s == "" {
      assert text[1..] == rest && m.val + s == m.val;
    } else {
      assert text[1..] == s[1..] + [QUOTE] + rest;
      assert m.val + [s[0]] + s[1..] == m.val + s;
      StringChars(Step(m, s[0]), s[1..], rest);
    }
  }

  predicate EndsNumber(rest: string) { rest != "" && !InNumber(rest[0]) }

  /** Digits are collected up to the first character that is not part of a number; that one is
      pushed back and read again in the next state. */
  lemma {:induction false} NumberChars(m: Machine, s: string, rest: string)
    requires m.state == ValueNumber && !m.failed && AllDigits(s) && EndsNumber(rest) && '.' !in m.val
    ensures Reaches(m, s + rest, Emit(m.(val := m.val + s), IntText(Atoi(m.val + s))), rest, |m.val| + |s| < BUFFER && NameFits(m))
    decreases |s|
  {
    if s == "" {
      assert s + rest == rest && m.val + s == m.val;
    } else {
      OneChar(m, s + rest);
      assert (s + rest)[1..] == s[1..] + rest;
      assert m.val + [s[0]] + s[1..] == m.val + s;
      NumberChars(Step(m, s[0]), s[1..], rest);
    }
  }

  lemma {:induction false} WordChars(m: Machine, word: string, rest: string)
    requires !m.failed && 0 < m.literal < |word|
    requires (m.state == ValueTrue && word == "true") || (m.state == ValueFalse && word == "false") || (m.state == ValueNull && word == "null")
    ensures Reaches(m, word[m.literal..] + rest, Emit(m.(literal := |word|), word), rest, NameFits(m))
    decreases |word| - m.literal
  {
    hide Run, SafeRun, Step, InRange, PushesBack;
    var text := word[m.literal..] + rest;
    WordChar(m, word);
    assert text[0] == word[m.literal] && text[1..] == word[m.literal + 1..] + rest;
    OneChar(m, text);
    if m.literal + 1 < |word| {
      WordChars(m.(literal := m.literal + 1), word, rest);
    } else {
      assert text[1..] == rest;
    }
  }

  /** The expected character of a literal: one further, or the end. */
  lemma WordChar(m: Machine, word: string)
    requires 0 < m.literal < |word|
    requires (m.state == ValueTrue && word == "true") || (m.state == ValueFalse && word == "false") || (m.state == ValueNull && word == "null")
    ensures var ch, last := word[m.literal], m.literal + 1 == |word|;
      && Step(m, ch) == (if last then Emit(m.(literal := |word|), word) else m.(literal := m.literal + 1))
      && (InRange(m, ch) <==> last ==> NameFits(m)) && !PushesBack(m, ch)
  {
    hide Name, NameFits;
  }

  lemma IntTextShape(n: int)
    ensures var s := IntText(n); s != "" && (IsDigit(s[0]) || s[0] == '-') && AllDigits(s[1..])
  {
    AtoiIntText(n);
    var s := IntText(n);
    if s[0] != '-' { assert forall i :: 0 <= i < |s[1..]| ==> s[1..][i] == s[i + 1]; }
  }

  lemma NumberToken(m: Machine, n: int, rest: string)
    requires Resting(m) && m.state == ValueBegin && EndsNumber(rest)
    ensures Reaches(m, IntText(n) + rest, Emit(m.(val := IntText(n)), IntText(n)), rest, |IntText(n)| < BUFFER && NameFits(m))
  {
    hide Run, SafeRun;
    IntTextShape(n);
    AtoiIntText(n);
    DigitsToken(m, IntText(n), rest);
  }

  lemma DigitsToken(m: Machine, s: string, rest: string)
    requires Resting(m) && m.state == ValueBegin && EndsNumber(rest)
    requires s != "" && (IsDigit(s[0]) || s[0] == '-') && AllDigits(s[1..])
    ensures Reaches(m, s + rest, Emit(m.(val := s), IntText(Atoi(s))), rest, |s| < BUFFER && NameFits(m))
  {
    hide Run, SafeRun;
    FirstDigit(m, s, rest);
    assert [s[0]] + s[1..] == s;
    NumberChars(m.(val := [s[0]], state := ValueNumber), s[1..], rest);
  }

  lemma FirstDigit(m: Machine, s: string, rest: string)
    requires Resting(m) && m.state == ValueBegin && s != "" && (IsDigit(s[0]) || s[0] == '-')
    ensures Reaches(m, s + rest, m.(val := [s[0]], state := ValueNumber), s[1..] + rest, true)
  {
    OneChar(m, s + rest);
    assert (s + rest)[1..] == s[1..] + rest;
  }

  function WordState(word: string): State { if word == "true" then ValueTrue else if word == "false" then ValueFalse else ValueNull }

  lemma FirstLetter(m: Machine, word: string, rest: string)
    requires Resting(m) && m.state == ValueBegin
    requires word == "true" || word == "false" || word == "null"
    ensures Reaches(m, word + rest, m.(literal := 1, state := WordState(word)), word[1..] + rest, true)
  {
    OneChar(m, word + rest);
    assert (word + rest)[1..] == word[1..] + rest;
  }

  lemma WordToken(m: Machine, word: string, rest: string)
    requires Resting(m) && m.state == ValueBegin
    requires word == "true" || word == "false" || word == "null"
    ensures Reaches(m, word + rest, Emit(m.(literal := |word|), word), rest, NameFits(m))
  {
    hide Run, SafeRun, Step, InRange, PushesBack;
    var n := m.(literal := 1, state := WordState(word));
    assert Emit(n.(literal := |word|), word) == Emit(m.(literal := |word|), word) && (NameFits(n) <==> NameFits(m));
    hide Emit, NameFits;
    FirstLetter(m, word, rest);
    WordChars(n, word, rest);
  }

  lemma PunctToken(m: Machine, c: char, rest: string)
    requires Expects(m, Punct(c))
    ensures Reaches(m, [c] + rest, TokenStep(m, Punct(c)), rest, Fits(m, Punct(c)))
    ensures Resting(TokenStep(m, Punct(c)))
  {
    OneChar(m, [c] + rest);
    assert ([c] + rest)[1..] == rest;
  }

  lemma OpeningQuote(m: Machine, s: string, rest: string)
    requires Resting(m) && (m.state == KeyBegin || m.state == ValueBegin)
    ensures Reaches(m, [QUOTE] + s + [QUOTE] + rest,
      if m.state == KeyBegin then m.(key := "", state := Key) else m.(val := "", state := ValueString), s + [QUOTE] + rest, true)
  {
    var text := [QUOTE] + s + [QUOTE] + rest;
    OneChar(m, text);
    assert text[1..] == s + [QUOTE] + rest;
  }

  lemma TextToken(m: Machine, s: string, rest: string)
    requires Expects(m, Lit(Text(s)))
    ensures Reaches(m, [QUOTE] + s + [QUOTE] + rest, TokenStep(m, Lit(Text(s))), rest, Fits(m, Lit(Text(s))))
  {
    hide Run, SafeRun;
    OpeningQuote(m, s, rest);
    assert "" + s == s;
    if m.state == KeyBegin {
      KeyChars(m.(key := "", state := Key), s, rest);
    } else {
      StringChars(m.(val := "", state := ValueString), s, rest);
    }
  }

  /** The characters of a token take the machine exactly one token step, and leave no buffer exactly
      when the token fits. */
  lemma TokenChars(m: Machine, t: Token, rest: string)
    requires Expects(m, t) && (t.Lit? && t.scalar.Number? ==> EndsNumber(rest))
    ensures Reaches(m, TokenText(t) + rest, TokenStep(m, t), rest, Fits(m, t))
    ensures Resting(TokenStep(m, t))
  {
    hide Run, SafeRun;
    match t {
      case Punct(c) => PunctToken(m, c, rest);
      case Lit(Text(s)) => TextToken(m, s, rest);
      case Lit(Number(n)) => NumberToken(m, n, rest);
      case Lit(True) => WordToken(m, "true", rest);
      case Lit(False) => WordToken(m, "false", rest);
      case Lit(Null) => WordToken(m, "null", rest);
    }
  }

  // ---------- layouts ----------

  /** Every number is followed by punctuation, as in any well-formed document. */
  ghost predicate Separated(ts: seq<Token>) {
    forall i :: 0 <= i < |ts| && ts[i].Lit? && ts[i].scalar.Number? ==> i + 1 < |ts| && ts[i + 1].Punct? && IsPunct(ts[i + 1].c)
  }

  lemma RenderStartsOutsideNumber(ls: seq<Lexeme>)
    requires SpacesOk(ls) && Strip(ls) != [] && Strip(ls)[0].Punct? && IsPunct(Strip(ls)[0].c)
    ensures EndsNumber(Render(ls))
  {
  }

  lemma SpaceSkipped(m: Machine, c: char, rest: string)
    requires Resting(m) && IsSpace(c)
    ensures Reaches(m, [c] + rest, m, rest, true)
  {
    OneChar(m, [c] + rest);
  }

  lemma LayoutTail(ls: seq<Lexeme>)
    requires ls != [] && SpacesOk(ls) && Separated(Strip(ls))
    ensures SpacesOk(ls[1..]) && Separated(Strip(ls[1..]))
    ensures ls[0].Tok? && ls[0].t.Lit? && ls[0].t.scalar.Number? ==> EndsNumber(Render(ls[1..]))
  {
    var rest, ts := ls[1..], Strip(ls);
    assert forall i :: 0 <= i < |rest| ==> rest[i] == ls[i + 1];
    if ls[0].Tok? {
      assert ts == [ls[0].t] + Strip(rest);
      assert forall i :: 0 <= i < |Strip(rest)| ==> Strip(rest)[i] == ts[i + 1];
      if ls[0].t.Lit? && ls[0].t.scalar.Number? {
        assert ts[0] == ls[0].t;
        RenderStartsOutsideNumber(rest);
      }
    } else {
      assert ts == Strip(rest);
    }
  }

  /** White space is skipped between tokens, and the run over any layout is the run over its tokens. */
  lemma {:induction false} LayoutRun(m: Machine, ls: seq<Lexeme>)
    requires Resting(m) && SpacesOk(ls) && ExpectsAll(m, Strip(ls)) && Separated(Strip(ls))
    ensures Run(m, Render(ls)) == RunTokens(m, Strip(ls))
    ensures SafeRun(m, Render(ls)) <==> FitsAll(m, Strip(ls))
    decreases |ls|
  {
    if ls != [] {
      LayoutTail(ls);
      match ls[0] {
        case Space(c) =>
          assert Strip(ls) == Strip(ls[1..]);
          SpaceSkipped(m, c, Render(ls[1..]));
          LayoutRun(m, ls[1..]);
        case Tok(t) =>
          assert Strip(ls)[0] == t && Strip(ls)[1..] == Strip(ls[1..]);
          TokenChars(m, t, Render(ls[1..]));
          LayoutRun(TokenStep(m, t), ls[1..]);
      }
    }
  }
}
