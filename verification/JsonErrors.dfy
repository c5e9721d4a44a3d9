/** Any text at all: what is ignored, how a number is read, and exactly when the parser gives up. */
module JsonErrors {
  import opened Decimal
  import opened JsonDocument
  import opened JsonMachine
  import opened JsonTokens

  // ---------- characters that mean nothing where they stand ----------

  /** The characters that the machine reacts to between tokens. */
  predicate Meant(state: State, ch: char) {
    match state
    case Start => ch == '{'
    case KeyBegin => ch == '"'
    case KeyEnd => ch == ':'
    case ValueBegin =>
      '0' <= ch <= '9' || ch == '-' || ch == '.' || ch == '"' || ch == '{' || ch == '[' || ch == 't' || ch == 'f' || ch == 'n'
    case ValueEnd => ch == ',' || ch == '}' || ch == ']'
    case _ => false
  }

  /** All others are skipped wherever they occur between tokens, not only white space. */
  lemma {:induction false} StrayCharacters(m: Machine, stray: string, rest: string)
    requires Resting(m) && forall i :: 0 <= i < |stray| ==> !Meant(m.state, stray[i])
    ensures Reaches(m, stray + rest, m, rest, true)
    decreases |stray|
  {
    if stray == "" {
      assert stray + rest == rest;
    } else {
      OneStray(m, stray[0]);
      OneChar(m, stray + rest);
      hide Step, InRange, Meant;
      assert (stray + rest)[1..] == stray[1..] + rest;
      StrayCharacters(m, stray[1..], rest);
    }
  }

  lemma OneStray(m: Machine, ch: char)
    requires Resting(m) && !Meant(m.state, ch)
    ensures Step(m, ch) == m && InRange(m, ch) && !PushesBack(m, ch)
  {
  }

  // ---------- numbers ----------

  /** A number is every digit and point that follows its first character. With a point it is printed as a
      float, otherwise as the int that atoi makes of it. */
  lemma NumberText(m: Machine, s: string, rest: string)
    requires Resting(m) && m.state == ValueBegin && EndsNumber(rest)
    requires s != "" && (s[0] == '-' || InNumber(s[0])) && forall i :: 0 < i < |s| ==> InNumber(s[i])
    ensures Reaches(m, s + rest,
      EmitLine(m.(val := s), if '.' in s then FloatLine(Name(m), s) else Line(Entry(Name(m), IntText(Atoi(s))))),
      rest, |s| < BUFFER && NameFits(m))
  {
    hide Run, SafeRun;
    NumberStart(m, s, rest);
    assert [s[0]] + s[1..] == s;
    NumberRest(m.(val := [s[0]], state := ValueNumber), s[1..], rest);
  }

  lemma NumberStart(m: Machine, s: string, rest: string)
    requires Resting(m) && m.state == ValueBegin && s != "" && (s[0] == '-' || InNumber(s[0]))
    ensures Reaches(m, s + rest, m.(val := [s[0]], state := ValueNumber), s[1..] + rest, true)
  {
    OneChar(m, s + rest);
    assert (s + rest)[1..] == s[1..] + rest;
  }

  lemma {:induction false} NumberRest(m: Machine, s: string, rest: string)
    requires m.state == ValueNumber && !m.failed && EndsNumber(rest) && forall i :: 0 <= i < |s| ==> InNumber(s[i])
    ensures var text := m.val + s;
      Reaches(m, s + rest,
        EmitLine(m.(val := text), if '.' in text then FloatLine(Name(m), text) else Line(Entry(Name(m), IntText(Atoi(text))))),
        rest, |text| < BUFFER && NameFits(m))
    decreases |s|
  {
    if s == "" {
      assert s + rest == rest && m.val + s == m.val;
    } else {
      OneChar(m, s + rest);
      assert (s + rest)[1..] == s[1..] + rest;
      assert m.val + [s[0]] + s[1..] == m.val + s;
      NumberRest(Step(m, s[0]), s[1..], rest);
    }
  }

  // ---------- the one error ----------

  /** The literal that a character begins. */
  function WordOf(ch: char): string { if ch == 't' then "true" else if ch == 'f' then "false" else if ch == 'n' then "null" else "" }

  /** One character, looked at twice where it ends a number. */
  function Look(m: Machine, ch: char): Machine {
    if m.failed then m else if PushesBack(m, ch) then Step(Step(m, ch), ch) else Step(m, ch)
  }

  function After(text: string, k: nat): Machine
    requires k <= |text|
  {
    Run(INITIAL, text[..k])
  }

  lemma AfterNext(text: string, k: nat)
    requires k < |text|
    ensures After(text, k + 1) == Look(After(text, k), text[k])
  {
    assert text[..k + 1] == text[..k] + [text[k]];
    RunConcat(INITIAL, text[..k], [text[k]]);
    LookIsRun(After(text, k), text[k]);
  }

  lemma LookIsRun(m: Machine, ch: char)
    ensures Run(m, [ch]) == Look(m, ch)
  {
    assert [ch][1..] == "";
    if !m.failed && PushesBack(m, ch) {
      var m1 := Step(m, ch);
      assert m1.state == ValueEnd && !m1.failed;
      assert Run(m1, [ch]) == Run(Step(m1, ch), "");
    }
  }

  /** At `i` a literal begins where a value is due, and `j` characters on, before its end, the text departs
      from it. */
  ghost predicate DepartsAt(text: string, i: int, j: int) {
    0 <= i < |text| && !After(text, i).failed && After(text, i).state == ValueBegin &&
    var word := WordOf(text[i]);
    0 < j < |word| && i + j < |text| && text[i..i + j] == word[..j] && text[i + j] != word[j]
  }

  ghost predicate Departs(text: string) { exists i, j :: DepartsAt(text, i, j) }

  function WordIn(state: State): string {
    match state
    case ValueTrue => "true"
    case ValueFalse => "false"
    case ValueNull => "null"
    case _ => ""
  }

  /** How many characters of a literal have been matched after `k` characters, and where it began. */
  ghost predicate Tracks(text: string, k: nat)
    requires k <= |text|
  {
    var m := After(text, k);
    var word, l := WordIn(m.state), m.literal;
    !m.failed && word != "" ==>
      && 0 < l < |word| && l <= k && text[k - l..k] == word[..l]
      && !After(text, k - l).failed && After(text, k - l).state == ValueBegin && WordOf(text[k - l]) == word
  }

  lemma LookTracks(m: Machine, ch: char)
    requires !m.failed && !Look(m, ch).failed && WordIn(Look(m, ch).state) != ""
    requires WordIn(m.state) != "" ==> 0 < m.literal < |WordIn(m.state)|
    ensures var m', word := Look(m, ch), WordIn(Look(m, ch).state);
      || (m.state == ValueBegin && m'.literal == 1 && WordOf(ch) == word && ch == word[0])
      || (WordIn(m.state) == word && m'.literal == m.literal + 1 < |word| && ch == word[m.literal])
  {
    hide Name, EmitNumber;
    if PushesBack(m, ch) { NumberEndsOutsideWord(m, ch); }
  }

  lemma NumberEndsOutsideWord(m: Machine, ch: char)
    requires !m.failed && PushesBack(m, ch)
    ensures WordIn(Look(m, ch).state) == ""
  {
    hide Name;
  }

  lemma {:induction false} AlwaysTracks(text: string, k: nat)
    requires k <= |text|
    ensures Tracks(text, k)
    decreases k
  {
    if k > 0 {
      AlwaysTracks(text, k - 1);
      TracksNext(text, k - 1);
    }
  }

  lemma TracksNext(text: string, k: nat)
    requires k < |text| && Tracks(text, k)
    ensures Tracks(text, k + 1)
  {
    var m, m' := After(text, k), After(text, k + 1);
    AfterNext(text, k);
    hide After, Look;
    if !m'.failed && WordIn(m'.state) != "" {
      FailedStays(m, text[k]);
      LookTracks(m, text[k]);
      var l, word := m'.literal, WordIn(m'.state);
      hide WordIn, WordOf;
      MatchesOneMore(text, k, l - 1, word);
    }
  }

  lemma MatchesOneMore(text: string, k: nat, l: nat, word: string)
    requires k < |text| && l <= k && l < |word| && text[k] == word[l]
    requires l > 0 ==> text[k - l..k] == word[..l]
    ensures text[k - l..k + 1] == word[..l + 1]
  {
    var from := k - l;
    assert text[from..k + 1] == text[from..k] + [text[k]];
    assert word[..l + 1] == word[..l] + [word[l]];
    assert l == 0 ==> text[from..k] == word[..l];
  }

  lemma FailedStays(m: Machine, ch: char)
    ensures m.failed ==> Look(m, ch).failed
  {
  }

  lemma LookFails(m: Machine, ch: char)
    requires !m.failed && (WordIn(m.state) != "" ==> 0 < m.literal < |WordIn(m.state)|)
    ensures Look(m, ch).failed <==> WordIn(m.state) != "" && ch != WordIn(m.state)[m.literal]
  {
  }

  /** Where the machine fails, the text departs. */
  lemma {:induction false} FailureDeparts(text: string, k: nat)
    requires k <= |text| && After(text, k).failed
    ensures Departs(text)
    decreases k
  {
    if k == 0 {
      assert false;
    } else {
      var m, ch := After(text, k - 1), text[k - 1];
      if m.failed {
        FailureDeparts(text, k - 1);
      } else {
        AfterNext(text, k - 1);
        AlwaysTracks(text, k - 1);
        LookFails(m, ch);
        assert DepartsAt(text, k - 1 - m.literal, m.literal);
      }
    }
  }

  lemma {:induction false} FailureLasts(text: string, k: nat, n: nat)
    requires k <= n <= |text| && After(text, k).failed
    ensures After(text, n).failed
    decreases n
  {
    if k < n {
      FailureLasts(text, k, n - 1);
      AfterNext(text, n - 1);
    }
  }

  lemma LookBegins(m: Machine, ch: char)
    requires !m.failed && m.state == ValueBegin && WordOf(ch) != ""
    ensures var m' := Look(m, ch); !m'.failed && WordIn(m'.state) == WordOf(ch) && m'.literal == 1
  {
  }

  lemma LookGoesOn(m: Machine, ch: char)
    requires !m.failed && WordIn(m.state) != "" && 0 < m.literal && m.literal + 1 < |WordIn(m.state)| && ch == WordIn(m.state)[m.literal]
    ensures Look(m, ch) == m.(literal := m.literal + 1)
  {
  }

  lemma MatchesOneLess(text: string, i: nat, l: nat, word: string)
    requires 0 < l <= |word| && i + l <= |text| && text[i..i + l] == word[..l]
    ensures text[i..i + l - 1] == word[..l - 1] && text[i + l - 1] == word[l - 1]
  {
    var piece, start := text[i..i + l], word[..l];
    assert piece[l - 1] == text[i + l - 1] && start[l - 1] == word[l - 1];
    assert piece[..l - 1] == text[i..i + l - 1];
    assert start[..l - 1] == word[..l - 1];
  }

  lemma {:induction false} WordProgress(text: string, i: nat, l: nat)
    requires i < |text| && !After(text, i).failed && After(text, i).state == ValueBegin
    requires var word := WordOf(text[i]); 0 < l < |word| && i + l <= |text| && text[i..i + l] == word[..l]
    ensures var m := After(text, i + l); !m.failed && WordIn(m.state) == WordOf(text[i]) && m.literal == l
    decreases l
  {
    var word := WordOf(text[i]);
    if l == 1 {
      AfterNext(text, i);
      LookBegins(After(text, i), text[i]);
    } else {
      MatchesOneLess(text, i, l, word);
      WordProgress(text, i, l - 1);
      AfterNext(text, i + l - 1);
      LookGoesOn(After(text, i + l - 1), text[i + l - 1]);
    }
  }

  /** The machine gives up on a text if and only if somewhere a literal begins where a value is due and the
      text departs from it before its end. */
  lemma FailsExactlyWhenDeparting(text: string)
    ensures Run(INITIAL, text).failed <==> Departs(text)
  {
    AfterAll(text);
    hide Run, After;
    if After(text, |text|).failed { FailureDeparts(text, |text|); }
    if Departs(text) {
      var i, j :| DepartsAt(text, i, j);
      assert i + j < |text|;
      DepartureFails(text, i, j);
      FailureLasts(text, i + j + 1, |text|);
    }
  }

  lemma AfterAll(text: string)
    ensures After(text, |text|) == Run(INITIAL, text)
  {
    assert text[..|text|] == text;
  }

  lemma DepartureFails(text: string, i: nat, j: nat)
    requires DepartsAt(text, i, j)
    ensures After(text, i + j + 1).failed
  {
    hide After, Look;
    WordProgress(text, i, j);
    AfterNext(text, i + j);
    LookFails(After(text, i + j), text[i + j]);
  }

  /** {"a":trxue} is such a text. */
  lemma MisspeltLiteral()
    ensures Run(INITIAL, "{\"a\":trxue}").failed
  {
    var text := "{\"a\":trxue}";
    assert text == "{\"a\":" + ("tr" + "xue}");
    var m := INITIAL.(key := "a", state := ValueBegin);
    assert Run(INITIAL, text) == Run(m, "tr" + "xue}") by { MemberName("tr" + "xue}"); }
    assert Run(m, "tr" + "xue}") == Run(m.(literal := 2, state := ValueTrue), "xue}") by {
      assert ("tr" + "xue}")[1..] == "r" + "xue}" && ("r" + "xue}")[1..] == "xue}";
    }
  }

  lemma MemberName(rest: string)
    ensures Run(INITIAL, "{\"a\":" + rest) == Run(INITIAL.(key := "a", state := ValueBegin), rest)
  {
    var m := INITIAL.(state := KeyBegin);
    assert ("{\"a\":" + rest)[1..] == "\"a\":" + rest;
    assert ("\"a\":" + rest)[1..] == "a\":" + rest;
    assert ("a\":" + rest)[1..] == "\":" + rest;
    assert ("\":" + rest)[1..] == ":" + rest;
    assert (":" + rest)[1..] == rest;
    assert "" + ['a'] == "a";
    assert Run(INITIAL, "{\"a\":" + rest) == Run(m, "\"a\":" + rest);
    assert Run(m, "\"a\":" + rest) == Run(m.(state := Key), "a\":" + rest);
    assert Run(m.(state := Key), "a\":" + rest) == Run(m.(state := Key, key := "a"), "\":" + rest);
    assert Run(m.(state := Key, key := "a"), "\":" + rest) == Run(m.(state := KeyEnd, key := "a"), ":" + rest);
  }
}
