/** The prompt: which command a typed line stands for, and what a typed session leaves in the file. */
module StoreCommand {
  import opened LineText
  import opened StoreText
  import opened StoreMap
  import opened StoreRuns

  /** What main does with a line. */
  datatype Action =
    | Quit
    | Idle
    | Perform(c: Command)
    | ListAll
    | Help
    | FormatError
    | Unknown(word: string)

  /** The two words PUT and UPDATE take after the command word, or None. */
  function TwoArguments(s: string): Option<Pair> {
    var (key, r1) := Strtok(s, ' ');
    var (value, r2) := Strtok(r1, ' ');
    if key.None? || value.None? || Strtok(r2, ' ').0.Some? then None else Some(Pair(key.value, value.value))
  }

  /** The one word GET and DELETE take. */
  function OneArgument(s: string): Option<string> {
    var (key, r) := Strtok(s, ' ');
    if key.None? || Strtok(r, ' ').0.Some? then None else key
  }

  /** The branches of main, for a line without its newline. */
  function Interpret(input: string): Action {
    if input == "exit" then Quit else
    var (word, rest) := Strtok(input, ' ');
    if word.None? then Idle
    else if word.value == "PUT" then
      var p := TwoArguments(rest);
      if p.None? then FormatError else Perform(CmdPut(p.value))
    else if word.value == "GET" then
      var key := OneArgument(rest);
      if key.None? then FormatError else Perform(CmdGet(key.value))
    else if word.value == "DELETE" then
      var key := OneArgument(rest);
      if key.None? then FormatError else Perform(CmdDelete(key.value))
    else if word.value == "LIST" then ListAll
    else if word.value == "UPDATE" then
      var p := TwoArguments(rest);
      if p.None? then FormatError else Perform(CmdUpdate(p.value))
    else if word.value == "help" || word.value == "HELP" then Help
    else Unknown(word.value)
  }

  // ---------- in words ----------

  lemma TokensStep(s: string, c: char)
    ensures var (token, rest) := Strtok(s, c); Tokens(s, c) == if token.None? then [] else [token.value] + Tokens(rest, c)
  {
  }

  lemma OneTokens(s: string)
    ensures var ws := Tokens(s, ' '); OneArgument(s) == if |ws| == 1 then Some(ws[0]) else None
  {
    hide Tokens, Strtok;
    var (_, r) := Strtok(s, ' ');
    TokensStep(s, ' ');
    TokensStep(r, ' ');
  }

  lemma TwoTokens(s: string)
    ensures var ws := Tokens(s, ' '); TwoArguments(s) == if |ws| == 2 then Some(Pair(ws[0], ws[1])) else None
  {
    hide Tokens, Strtok;
    var (_, r1) := Strtok(s, ' ');
    var (_, r2) := Strtok(r1, ' ');
    TokensStep(s, ' ');
    TokensStep(r1, ' ');
    TokensStep(r2, ' ');
    TokensStep("", ' ');
    NoTokenLeft();
  }

  lemma NoTokenLeft()
    ensures Strtok("", ' ') == (None, "")
  {
    assert Skip("", ' ') == "";
  }

  /** What the words of a line stand for: the second word is the key, the third the value, and a word
      too many or too few is a format error. */
  function Meaning(ws: seq<string>): Action {
    if ws == [] then Idle
    else if ws[0] == "PUT" then if |ws| == 3 then Perform(CmdPut(Pair(ws[1], ws[2]))) else FormatError
    else if ws[0] == "UPDATE" then if |ws| == 3 then Perform(CmdUpdate(Pair(ws[1], ws[2]))) else FormatError
    else if ws[0] == "GET" then if |ws| == 2 then Perform(CmdGet(ws[1])) else FormatError
    else if ws[0] == "DELETE" then if |ws| == 2 then Perform(CmdDelete(ws[1])) else FormatError
    else if ws[0] == "LIST" then ListAll
    else if ws[0] == "HELP" || ws[0] == "help" then Help
    else Unknown(ws[0])
  }

  lemma InterpretTokens(input: string)
    requires input != "exit"
    ensures Interpret(input) == Meaning(Tokens(input, ' '))
  {
    hide Tokens, Strtok, OneArgument, TwoArguments;
    var (word, rest) := Strtok(input, ' ');
    TokensStep(input, ' ');
    OneTokens(rest);
    TwoTokens(rest);
    if word.Some? { assert ([word.value] + Tokens(rest, ' '))[1..] == Tokens(rest, ' '); }
  }

  /** The line starts with one of these commands and does not have `n` words in all. */
  predicate WrongCount(ws: seq<string>, commands: seq<string>, n: nat) { ws != [] && ws[0] in commands && |ws| != n }

  /** Words typed with any runs of blanks before, between and behind them: the word after the command is the
      key, the next one the value, and a word too many or too few is a format error. */
  lemma TypedWords(n: nat, ws: seq<string>, gaps: seq<nat>)
    requires Spaceable(ws, gaps, ' ') && Times(n, ' ') + Spaced(ws, gaps, ' ') != "exit"
    ensures var action := Interpret(Times(n, ' ') + Spaced(ws, gaps, ' '));
      && (action == Idle <==> ws == [])
      && (|ws| == 3 && ws[0] == "PUT" ==> action == Perform(CmdPut(Pair(ws[1], ws[2]))))
      && (|ws| == 3 && ws[0] == "UPDATE" ==> action == Perform(CmdUpdate(Pair(ws[1], ws[2]))))
      && (|ws| == 2 && ws[0] == "GET" ==> action == Perform(CmdGet(ws[1])))
      && (|ws| == 2 && ws[0] == "DELETE" ==> action == Perform(CmdDelete(ws[1])))
      && (action == FormatError <==> WrongCount(ws, ["PUT", "UPDATE"], 3) || WrongCount(ws, ["GET", "DELETE"], 2))
      && (action == ListAll <==> ws != [] && ws[0] == "LIST")
      && (action == Help <==> ws != [] && (ws[0] == "HELP" || ws[0] == "help"))
      && (action.Unknown? <==> ws != [] && ws[0] !in ["PUT", "GET", "DELETE", "LIST", "UPDATE", "help", "HELP"])
      && action != Quit
  {
    hide Interpret, Spaced, Tokens;
    TokensOfSpaced(n, ws, gaps, ' ');
    InterpretTokens(Times(n, ' ') + Spaced(ws, gaps, ' '));
  }

  /** The session ends with the line `exit`, exactly as it is written. */
  lemma ExitQuits(input: string)
    ensures Interpret(input) == Quit <==> input == "exit"
  {
    hide Strtok, OneArgument, TwoArguments;
  }

  lemma ThreeWords(a: string, b: string, c: string)
    ensures Spaced([a, b, c], [1, 1, 0], ' ') == a + " " + b + " " + c
  {
    assert Times(1, ' ') == " " && Times(0, ' ') == "";
    assert [a, b, c][1..] == [b, c] && [b, c][1..] == [c] && [c][1..] == [];
    assert [1, 1, 0][1..] == [1, 0] && [1, 0][1..] == [0] && [0][1..] == [];
    assert Spaced([c], [0], ' ') == c + "" + Spaced([], [], ' ') == c;
    assert Spaced([b, c], [1, 0], ' ') == b + " " + c;
  }

  /** PUT k v stores v under k. */
  lemma TypedPut(k: string, v: string)
    requires k != "" && v != "" && ' ' !in k && ' ' !in v
    ensures Interpret("PUT " + k + " " + v) == Perform(CmdPut(Pair(k, v)))
    ensures Interpret("UPDATE " + k + " " + v) == Perform(CmdUpdate(Pair(k, v)))
  {
    hide Interpret, Spaced;
    ThreeWords("PUT", k, v);
    ThreeWords("UPDATE", k, v);
    assert Times(0, ' ') == "";
    assert "PUT" + " " + k + " " + v == "PUT " + k + " " + v;
    assert "UPDATE" + " " + k + " " + v == "UPDATE " + k + " " + v;
    TypedWords(0, ["PUT", k, v], [1, 1, 0]);
    TypedWords(0, ["UPDATE", k, v], [1, 1, 0]);
    assert Times(0, ' ') + ("PUT " + k + " " + v) == "PUT " + k + " " + v;
    assert Times(0, ' ') + ("UPDATE " + k + " " + v) == "UPDATE " + k + " " + v;
    assert ("PUT " + k + " " + v)[0] == 'P' && ("UPDATE " + k + " " + v)[0] == 'U';
  }

  // ---------- what a typed pair can be ----------

  lemma StrtokParts(s: string, c: char, x: char)
    requires x !in s
    ensures var (token, rest) := Strtok(s, c);
      && x !in rest
      && (token.Some? ==> x !in token.value && |token.value| + |rest| <= |s|)
      && (token.Some? && rest != "" ==> |token.value| + 1 + |rest| <= |s|)
  {
    SkipSplits(s, c);
  }

  /** Whatever is typed, a pair that reaches the store has non-empty words without blanks, and its
      line fits every buffer but GET's; the one character it must not contain is '='. */
  lemma TypedPairs(line: string)
    requires |line| < 700 && '\n' !in line && '\0' !in line
    requires Interpret(line).Perform? && (Interpret(line).c.CmdPut? || Interpret(line).c.CmdUpdate?)
    ensures var p := Interpret(line).c.p;
      && ' ' !in p.key && ' ' !in p.value
      && (Good(p) <==> '=' !in p.key && '=' !in p.value)
  {
    var (word, r1) := Strtok(line, ' ');
    var (key, r2) := Strtok(r1, ' ');
    StrtokParts(line, ' ', '\n');
    StrtokParts(r1, ' ', '\n');
    StrtokParts(r2, ' ', '\n');
    StrtokParts(line, ' ', '\0');
    StrtokParts(r1, ' ', '\0');
    StrtokParts(r2, ' ', '\0');
  }

  // ---------- a typed session ----------

  /** The store commands of the lines typed, up to the line that ends the session. */
  function Commands(lines: seq<string>): seq<Command> {
    if lines == [] || Interpret(lines[0]).Quit? then []
    else (if Interpret(lines[0]).Perform? then [Interpret(lines[0]).c] else []) + Commands(lines[1..])
  }

  predicate Typeable(line: string) { |line| < LINE && '\n' !in line && '\0' !in line }

  /** The line is no PUT or UPDATE of a word that holds the separator. */
  predicate Separable(line: string) {
    Interpret(line).Perform? && (Interpret(line).c.CmdPut? || Interpret(line).c.CmdUpdate?) ==>
      '=' !in Interpret(line).c.p.key && '=' !in Interpret(line).c.p.value
  }

  lemma {:induction false} CommandsStorable(lines: seq<string>)
    requires forall i :: 0 <= i < |lines| ==> Typeable(lines[i]) && Separable(lines[i])
    ensures forall i :: 0 <= i < |Commands(lines)| ==> Storable(Commands(lines)[i])
    decreases |lines|
  {
    hide Interpret;
    if lines != [] && !Interpret(lines[0]).Quit? {
      CommandsStorable(lines[1..]);
      LineStorable(lines[0]);
    }
  }

  lemma LineStorable(line: string)
    requires Typeable(line) && Separable(line)
    ensures Interpret(line).Perform? ==> Storable(Interpret(line).c)
  {
    hide Interpret;
    if Interpret(line).Perform? && (Interpret(line).c.CmdPut? || Interpret(line).c.CmdUpdate?) { TypedPairs(line); }
  }

  /** Whatever is typed at the prompt, as long as no '=' is stored, the file then consists of
      `key=value` lines with distinct keys that hold what the commands typed say. */
  lemma TypedSession(lines: seq<string>)
    requires forall i :: 0 <= i < |lines| ==> Typeable(lines[i]) && Separable(lines[i])
    ensures TellsHistory(Chars(Run(None, Commands(lines)).0), Commands(lines))
  {
    hide Commands, Run, History, Typeable, Separable;
    CommandsStorable(lines);
    SessionTellsHistory(Commands(lines));
  }

  lemma NextLine(line: string, lines: seq<string>)
    ensures Interpret(line).Perform? ==> Commands([line] + lines) == [Interpret(line).c] + Commands(lines)
    ensures Interpret(line).Quit? ==> Commands([line] + lines) == []
    ensures !Interpret(line).Perform? && !Interpret(line).Quit? ==> Commands([line] + lines) == Commands(lines)
  {
    assert ([line] + lines)[1..] == lines;
  }

  /** A session typed: PUT appends a new key and refuses a known one, UPDATE moves a known key to the end
      and inserts a new one. */
  lemma TypedExample()
    ensures var lines := ["PUT a 1", "PUT b 2", "PUT a 9", "UPDATE a 3", "UPDATE c 4"];
      Run(None, Commands(lines)).0 == Some("b=2\na=3\nc=4\n")
  {
    hide Interpret, Run, Commands;
    ExampleWords();
    var last := ["UPDATE c 4"] + [];
    var late := ["UPDATE a 3"] + last;
    var mid := ["PUT a 9"] + late;
    var most := ["PUT b 2"] + mid;
    NoLine();
    NextLine("UPDATE c 4", []);
    NextLine("UPDATE a 3", last);
    NextLine("PUT a 9", late);
    NextLine("PUT b 2", mid);
    NextLine("PUT a 1", most);
    assert ["PUT a 1", "PUT b 2", "PUT a 9", "UPDATE a 3", "UPDATE c 4"] == ["PUT a 1"] + most;
    ExampleFile();
  }

  lemma ExampleWords()
    ensures Interpret("PUT a 1") == Perform(CmdPut(Pair("a", "1"))) && Interpret("PUT b 2") == Perform(CmdPut(Pair("b", "2")))
    ensures Interpret("PUT a 9") == Perform(CmdPut(Pair("a", "9"))) && Interpret("UPDATE a 3") == Perform(CmdUpdate(Pair("a", "3")))
    ensures Interpret("UPDATE c 4") == Perform(CmdUpdate(Pair("c", "4")))
  {
    hide Interpret;
    TypedPut("a", "1");
    TypedPut("b", "2");
    TypedPut("a", "9");
    TypedPut("a", "3");
    TypedPut("c", "4");
    assert "PUT " + "a" + " " + "1" == "PUT a 1" && "PUT " + "b" + " " + "2" == "PUT b 2" && "PUT " + "a" + " " + "9" == "PUT a 9";
    assert "UPDATE " + "a" + " " + "3" == "UPDATE a 3" && "UPDATE " + "c" + " " + "4" == "UPDATE c 4";
  }

  lemma NoLine()
    ensures Commands([]) == []
  {
  }
}
