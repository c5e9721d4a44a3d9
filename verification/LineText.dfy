/** The C library calls the store is built from, on NUL-free text: fgets, strcspn and strtok. */
module LineText {
  datatype Option<+T> = None | Some(value: T)

  /** How many characters fgets with a buffer of `size` bytes takes: up to a newline, at most size - 1. */
  function FgetsLength(file: string, size: nat): (n: nat)
    ensures n <= |file| && (n < size || n == 0)
    ensures forall i :: 0 <= i < n - 1 ==> file[i] != '\n'
    ensures file != "" && size > 1 ==> n > 0
  {
    if file == "" || size <= 1 then 0
    else if file[0] == '\n' then 1
    else 1 + FgetsLength(file[1..], size - 1)
  }

  /** The part of `s` before the first `c`: what strcspn measures. */
  function Before(s: string, c: char): (r: string)
    ensures |r| <= |s| && r == s[..|r|] && c !in r
    ensures |r| < |s| ==> s[|r|] == c
  {
    if s == "" || s[0] == c then "" else [s[0]] + Before(s[1..], c)
  }

  function Skip(s: string, c: char): (r: string)
    ensures |r| <= |s| && (r != "" ==> r[0] != c)
  {
    if s != "" && s[0] == c then Skip(s[1..], c) else s
  }

  /** strtok with a one-character delimiter: the token, if any, and the text the next call goes on with. */
  function Strtok(s: string, c: char): (r: (Option<string>, string))
    ensures r.0.Some? ==> r.0.value != "" && c !in r.0.value && |r.0.value| <= |s|
  {
    var t := Skip(s, c);
    var token := Before(t, c);
    if t == "" then (None, "")
    else (Some(token), if |token| < |t| then t[|token| + 1..] else "")
  }

  lemma {:induction false} FgetsLine(line: string, rest: string, size: nat)
    requires '\n' !in line && |line| + 1 < size
    ensures FgetsLength(line + "\n" + rest, size) == |line| + 1
    decreases |line|
  {
    var s := line + "\n" + rest;
    if line != "" {
      assert s[1..] == line[1..] + "\n" + rest;
      FgetsLine(line[1..], rest, size - 1);
    }
  }

  lemma {:induction false} BeforeFirst(s: string, c: char, rest: string)
    requires c !in s
    ensures Before(s + [c] + rest, c) == s && Before(s, c) == s
    decreases |s|
  {
    if s != "" {
      assert (s + [c] + rest)[1..] == s[1..] + [c] + rest;
      BeforeFirst(s[1..], c, rest);
    }
  }

  // ---------- what the calls deliver ----------

  /** A chunk ends with the first newline, the buffer or the file, whichever comes first. */
  lemma {:induction false} FgetsEnds(file: string, size: nat)
    requires size > 1
    ensures var n := FgetsLength(file, size);
      && '\n' !in file[..if n > 0 then n - 1 else 0]
      && (n == |file| || n == size - 1 || (n > 0 && file[n - 1] == '\n'))
    decreases |file|
  {
    if file != "" && file[0] != '\n' && size > 2 { FgetsEnds(file[1..], size - 1); }
  }

  lemma {:induction false} SkipSplits(s: string, c: char)
    ensures var t := Skip(s, c); s[|s| - |t|..] == t && forall i :: 0 <= i < |s| - |t| ==> s[i] == c
    decreases |s|
  {
    if s != "" && s[0] == c { SkipSplits(s[1..], c); }
  }

  /** `n` delimiters, the token, and then the end of the text or one more delimiter before `rest`. */
  predicate IsFirstToken(s: string, c: char, n: nat, token: string, rest: string) {
    && n <= |s| && (forall i :: 0 <= i < n ==> s[i] == c)
    && (s[n..] == token + [c] + rest || (s[n..] == token && rest == ""))
  }

  /** Leading delimiters are skipped and the token runs to the next one, which is dropped; there is
      no token exactly when nothing but delimiters is left. */
  lemma StrtokSplits(s: string, c: char)
    ensures var (token, rest) := Strtok(s, c);
      && (token.None? <==> forall i :: 0 <= i < |s| ==> s[i] == c)
      && (token.Some? ==> exists n: nat :: IsFirstToken(s, c, n, token.value, rest))
  {
    SkipSplits(s, c);
    var t := Skip(s, c);
    if t != "" {
      assert s[|s| - |t|] == t[0];
      RestAfter(t, c);
      assert IsFirstToken(s, c, |s| - |t|, Strtok(s, c).0.value, Strtok(s, c).1);
    }
  }

  lemma RestAfter(t: string, c: char)
    ensures var token := Before(t, c); if |token| < |t| then t == token + [c] + t[|token| + 1..] else t == token
  {
  }

  // ---------- calling strtok until it returns NULL ----------

  /** All tokens of a text. */
  function Tokens(s: string, c: char): seq<string>
    decreases |s|
  {
    var (token, rest) := Strtok(s, c);
    StrtokShrinks(s, c);
    if token.None? then [] else [token.value] + Tokens(rest, c)
  }

  lemma StrtokShrinks(s: string, c: char)
    ensures Strtok(s, c).0.Some? ==> |Strtok(s, c).1| < |s|
  {
  }

  function Times(n: nat, c: char): string { seq(n, _ => c) }

  /** Words with a run of delimiters after each: gaps[i] of them after ws[i]. */
  function Spaced(ws: seq<string>, gaps: seq<nat>, c: char): string
    requires |gaps| == |ws|
  {
    if ws == [] then "" else ws[0] + Times(gaps[0], c) + Spaced(ws[1..], gaps[1..], c)
  }

  /** Non-empty words without delimiters, and at least one delimiter between any two. */
  predicate Spaceable(ws: seq<string>, gaps: seq<nat>, c: char) {
    && |gaps| == |ws|
    && (forall i :: 0 <= i < |ws| ==> ws[i] != "" && c !in ws[i])
    && (forall i :: 0 <= i < |ws| - 1 ==> gaps[i] > 0)
  }

  lemma {:induction false} SkipTimes(n: nat, c: char, rest: string)
    requires rest != "" ==> rest[0] != c
    ensures Skip(Times(n, c) + rest, c) == rest
    decreases n
  {
    var s := Times(n, c) + rest;
    if n == 0 {
      assert s == rest;
    } else {
      assert s[0] == c && s[1..] == Times(n - 1, c) + rest;
      SkipTimes(n - 1, c, rest);
    }
  }

  /** strtok on a word after any run of delimiters: the word, and the text behind one delimiter. */
  lemma StrtokWord(n: nat, c: char, word: string, gap: nat, rest: string)
    requires word != "" && c !in word && (gap == 0 ==> rest == "")
    ensures Strtok(Times(n, c) + (word + Times(gap, c) + rest), c) == (Some(word), if gap == 0 then "" else Times(gap - 1, c) + rest)
  {
    var t := word + Times(gap, c) + rest;
    SkipTimes(n, c, t);
    if gap == 0 {
      BeforeFirst(word, c, "");
      assert t == word;
    } else {
      var later := Times(gap - 1, c) + rest;
      BeforeFirst(word, c, later);
      assert t == word + [c] + later;
      assert t[|word| + 1..] == later;
    }
  }

  /** The tokens of words with delimiters around them are those words. */
  lemma {:induction false} TokensOfSpaced(n: nat, ws: seq<string>, gaps: seq<nat>, c: char)
    requires Spaceable(ws, gaps, c)
    ensures Tokens(Times(n, c) + Spaced(ws, gaps, c), c) == ws
    decreases |ws|
  {
    var s := Times(n, c) + Spaced(ws, gaps, c);
    if ws == [] {
      SkipTimes(n, c, "");
    } else {
      var rest := Spaced(ws[1..], gaps[1..], c);
      if gaps[0] == 0 { assert ws[1..] == []; }
      StrtokWord(n, c, ws[0], gaps[0], rest);
      assert s == Times(n, c) + (ws[0] + Times(gaps[0], c) + rest);
      assert Spaceable(ws[1..], gaps[1..], c);
      if gaps[0] > 0 {
        TokensOfSpaced(gaps[0] - 1, ws[1..], gaps[1..], c);
      } else {
        TokensOfSpaced(0, [], [], c);
        assert Times(0, c) + Spaced([], [], c) == "";
      }
    }
  }

  lemma OneWordMore(word: string, m: nat, ws: seq<string>, gaps: seq<nat>, c: char)
    requires word != "" && c !in word && Spaceable(ws, gaps, c)
    ensures Spaceable([word] + ws, [m + 1] + gaps, c)
    ensures Spaced([word] + ws, [m + 1] + gaps, c) == word + [c] + (Times(m, c) + Spaced(ws, gaps, c))
  {
    assert ([word] + ws)[1..] == ws && ([m + 1] + gaps)[1..] == gaps;
    assert Times(m + 1, c) == [c] + Times(m, c);
  }

  lemma OneWord(word: string, c: char)
    requires word != "" && c !in word
    ensures Spaceable([word], [0], c) && Spaced([word], [0], c) == word
  {
    assert Times(0, c) == "" && Spaced([word], [0], c) == word + "" + "";
  }

  /** And every text is its tokens with delimiters around them, so the two lemmas define `Tokens`. */
  lemma {:induction false} EveryTextIsSpaced(s: string, c: char) returns (n: nat, gaps: seq<nat>)
    ensures Spaceable(Tokens(s, c), gaps, c) && s == Times(n, c) + Spaced(Tokens(s, c), gaps, c)
    decreases |s|
  {
    SkipSplits(s, c);
    var t := Skip(s, c);
    var (token, rest) := Strtok(s, c);
    n := |s| - |t|;
    assert s == Times(n, c) + t;
    if t == "" {
      gaps := [];
    } else {
      RestAfter(t, c);
      StrtokShrinks(s, c);
      var word := token.value;
      var more := |word| < |t|;
      assert Tokens(s, c) == [word] + Tokens(rest, c);
      if more {
        var m, later := EveryTextIsSpaced(rest, c);
        OneWordMore(word, m, Tokens(rest, c), later, c);
        gaps := [m + 1] + later;
      } else {
        assert rest == "" && Tokens(rest, c) == [] && [word] + [] == [word];
        OneWord(word, c);
        gaps := [0];
      }
    }
  }
}
