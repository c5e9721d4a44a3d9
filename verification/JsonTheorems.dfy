/** The parser flattens: for every supported document, in every layout and in any chunks. */
module JsonTheorems {
  import opened JsonDocument
  import opened JsonMachine
  import opened JsonTokens

  function Lines(es: seq<Entry>): seq<Output> { seq(|es|, i requires 0 <= i < |es| => Line(es[i])) }

  lemma LinesConcat(es: seq<Entry>, fs: seq<Entry>)
    ensures Lines(es + fs) == Lines(es) + Lines(fs)
  {
  }

  /** A closing brace where a key is due is ignored: the machine misses the end of an object. */
  function Skips(m: Machine, t: Token): nat { if m.state == KeyBegin && t == Punct('}') then 1 else 0 }

  function Skipped(m: Machine, ts: seq<Token>): nat
    decreases |ts|
  {
    if ts == [] then 0 else Skips(m, ts[0]) + Skipped(TokenStep(m, ts[0]), ts[1..])
  }

  /** From `m` on the tokens `ts`, the machine gets to `m'` with `rest` still to come, ignoring `n`
      closing braces on the way; it stays within its buffers exactly if `safe` and the remainder does. */
  ghost predicate Advances(m: Machine, ts: seq<Token>, m': Machine, rest: seq<Token>, safe: bool, n: nat) {
    && RunTokens(m, ts) == RunTokens(m', rest)
    && (ExpectsAll(m', rest) ==> ExpectsAll(m, ts))
    && (FitsAll(m, ts) <==> safe && FitsAll(m', rest))
    && Skipped(m, ts) == n + Skipped(m', rest)
  }

  lemma OneToken(m: Machine, t: Token, rest: seq<Token>)
    requires Expects(m, t)
    ensures Advances(m, [t] + rest, TokenStep(m, t), rest, Fits(m, t), Skips(m, t))
  {
    assert ([t] + rest)[1..] == rest;
  }

  // ---------- arrays ----------

  /** The machine inside the array `key`. */
  ghost predicate InArray(m: Machine, key: string) {
    !m.failed && m.inArray && m.stack != [] && m.stack[|m.stack| - 1] == key
  }

  lemma FirstItem(m: Machine, key: string, items: seq<Scalar>, rest: seq<Token>)
    requires InArray(m, key) && m.state == ValueBegin && items != [] && SupportedItems(items)
    ensures var m1 := TokenStep(m, Lit(items[0]));
      && Advances(m, [Lit(items[0])] + rest, m1, rest, |ScalarText(items[0])| < BUFFER && |ItemKey(key, m.index)| < NAME_BUFFER, 0)
      && InArray(m1, key) && m1.state == ValueEnd && m1.stack == m.stack && m1.index == m.index + 1
      && m1.out == m.out + Lines([Entry(ItemKey(key, m.index), ScalarText(items[0]))])
  {
    hide RunTokens, ExpectsAll, FitsAll, Skipped, ItemKey;
    ItemStep(m, key, items[0]);
    hide TokenStep, Fits, Skips, Expects, InArray;
    OneToken(m, Lit(items[0]), rest);
  }

  lemma ItemStep(m: Machine, key: string, s: Scalar)
    requires InArray(m, key) && m.state == ValueBegin && SupportedScalar(s)
    ensures Expects(m, Lit(s)) && Skips(m, Lit(s)) == 0
    ensures Fits(m, Lit(s)) <==> |ScalarText(s)| < BUFFER && |ItemKey(key, m.index)| < NAME_BUFFER
    ensures var m1 := TokenStep(m, Lit(s));
      && InArray(m1, key) && m1.state == ValueEnd && m1.stack == m.stack && m1.index == m.index + 1
      && m1.out == m.out + Lines([Entry(ItemKey(key, m.index), ScalarText(s))])
  {
    hide ItemKey;
  }

  lemma Comma(m: Machine, rest: seq<Token>)
    requires !m.failed && m.state == ValueEnd && m.inArray
    ensures Advances(m, [Punct(',')] + rest, m.(state := ValueBegin), rest, true, 0)
  {
    OneToken(m, Punct(','), rest);
  }

  lemma ItemTokensShape(items: seq<Scalar>, rest: seq<Token>)
    requires items != []
    ensures ItemTokens(items) + rest ==
      [Lit(items[0])] + if |items| == 1 then rest else [Punct(',')] + (ItemTokens(items[1..]) + rest)
  {
    if |items| > 1 { TwoAhead(Lit(items[0]), Punct(','), ItemTokens(items[1..]), rest); }
  }

  lemma TwoAhead(t: Token, u: Token, ts: seq<Token>, rest: seq<Token>)
    ensures [t, u] + ts + rest == [t] + ([u] + (ts + rest))
  {
  }

  lemma {:induction false} ItemsRun(m: Machine, key: string, items: seq<Scalar>, rest: seq<Token>) returns (m': Machine)
    requires InArray(m, key) && m.state == ValueBegin && items != [] && SupportedItems(items)
    ensures Advances(m, ItemTokens(items) + rest, m', rest, SmallItems(key, items, m.index), 0)
    ensures InArray(m', key) && m'.state == ValueEnd && m'.stack == m.stack
    ensures m'.out == m.out + Lines(FlattenItems(key, items, m.index))
    decreases |items|
  {
    hide RunTokens, ExpectsAll, FitsAll, Skipped, TokenStep, ItemTokens, ItemKey;
    var first := [Entry(ItemKey(key, m.index), ScalarText(items[0]))];
    var m1 := TokenStep(m, Lit(items[0]));
    assert FlattenItems(key, items, m.index) == first + FlattenItems(key, items[1..], m.index + 1);
    LinesConcat(first, FlattenItems(key, items[1..], m.index + 1));
    ItemTokensShape(items, rest);
    if |items| == 1 {
      FirstItem(m, key, items, rest);
      m' := m1;
    } else {
      var more := ItemTokens(items[1..]) + rest;
      FirstItem(m, key, items, [Punct(',')] + more);
      Comma(m1, more);
      assert SupportedItems(items[1..]) by { assert forall i :: 0 <= i < |items[1..]| ==> items[1..][i] == items[i + 1]; }
      m' := ItemsRun(m1.(state := ValueBegin), key, items[1..], rest);
    }
  }

  // ---------- values ----------

  /** What reading a value leaves behind, when `n` closing braces were ignored: `n` keys too many on
      the stack, and if there are none, exactly the value's lines. */
  ghost predicate After(m: Machine, m': Machine, emitted: seq<Entry>, n: nat) {
    && !m'.failed && !m'.inArray && |m'.stack| == |m.stack| + n
    && (m'.state == ValueEnd || (m'.state == KeyBegin && n > 0))
    && (n == 0 ==> m'.stack == m.stack && m'.out == m.out + Lines(emitted))
  }

  lemma {:induction false} ValueRun(m: Machine, v: Value, rest: seq<Token>) returns (m': Machine, safe: bool, n: nat)
    requires !m.failed && m.state == ValueBegin && !m.inArray && Supported(v)
    ensures Advances(m, Tokens(v) + rest, m', rest, safe, n) && After(m, m', Flatten(m.stack, m.key, v), n)
    ensures n == 0 <==> NoEmptyObject(v)
    ensures n == 0 ==> (safe <==> Small(m.stack, m.key, v))
    decreases v, 1
  {
    hide RunTokens, ExpectsAll, FitsAll, Skipped;
    match v {
      case Leaf(s) =>
        OneToken(m, Lit(s), rest);
        m', safe, n := TokenStep(m, Lit(s)), Small(m.stack, m.key, v), 0;
      case Arr(items) =>
        m', safe, n := ArrayRun(m, items, rest);
      case Obj(ms) =>
        m', safe, n := ObjectRun(m, ms, rest);
    }
  }

  lemma {:induction false} ArrayRun(m: Machine, items: seq<Scalar>, rest: seq<Token>) returns (m': Machine, safe: bool, n: nat)
    requires !m.failed && m.state == ValueBegin && !m.inArray && Supported(Arr(items))
    ensures Advances(m, Tokens(Arr(items)) + rest, m', rest, safe, n) && After(m, m', FlattenItems(m.key, items, 0), n)
    ensures n == 0 && (safe <==> Small(m.stack, m.key, Arr(items)))
  {
    hide RunTokens, ExpectsAll, FitsAll, Skipped;
    var close := [Punct(']')] + rest;
    assert Tokens(Arr(items)) + rest == [Punct('[')] + (ItemTokens(items) + close);
    OneToken(m, Punct('['), ItemTokens(items) + close);
    var inner := ItemsRun(TokenStep(m, Punct('[')), m.key, items, close);
    OneToken(inner, Punct(']'), rest);
    m', safe, n := TokenStep(inner, Punct(']')), Small(m.stack, m.key, Arr(items)), 0;
  }

  lemma {:induction false} ObjectRun(m: Machine, ms: Members, rest: seq<Token>) returns (m': Machine, safe: bool, n: nat)
    requires !m.failed && m.state == ValueBegin && !m.inArray && SupportedMembers(ms)
    ensures Advances(m, Tokens(Obj(ms)) + rest, m', rest, safe, n) && After(m, m', FlattenMembers(m.stack + [m.key], ms), n)
    ensures n == 0 <==> NoEmptyObject(Obj(ms))
    ensures n == 0 ==> (safe <==> Small(m.stack, m.key, Obj(ms)))
    decreases ms, 2
  {
    hide RunTokens, ExpectsAll, FitsAll, Skipped;
    var close := [Punct('}')] + rest;
    assert Tokens(Obj(ms)) + rest == [Punct('{')] + (MemberTokens(ms) + close);
    OneToken(m, Punct('{'), MemberTokens(ms) + close);
    var inner, safeMembers, n1 := MembersRun(TokenStep(m, Punct('{')), ms, close);
    OneToken(inner, Punct('}'), rest);
    m' := TokenStep(inner, Punct('}'));
    safe := |m.stack| < MAX_DEPTH && |m.key| < BUFFER && safeMembers;
    n := n1 + Skips(inner, Punct('}'));
  }

  lemma MembersShape(ms: Members, rest: seq<Token>)
    requires ms.Member?
    ensures MemberTokens(ms) + rest == [Lit(Text(ms.key))] + ([Punct(':')] + (Tokens(ms.value) + (FurtherTokens(ms.rest) + rest)))
  {
    assert MemberTokens(ms) == [Lit(Text(ms.key)), Punct(':')] + Tokens(ms.value) + FurtherTokens(ms.rest);
    hide MemberTokens, Tokens, FurtherTokens;
    NameFirst(Lit(Text(ms.key)), Punct(':'), Tokens(ms.value), FurtherTokens(ms.rest), rest);
  }

  lemma NameFirst(t: Token, u: Token, ts: seq<Token>, after: seq<Token>, rest: seq<Token>)
    ensures [t, u] + ts + after + rest == [t] + ([u] + (ts + (after + rest)))
  {
    assert [t, u] + ts == [t] + ([u] + ts);
    assert ([t] + ([u] + ts)) + after + rest == [t] + (([u] + ts) + (after + rest));
  }

  lemma FurtherShape(ms: Members, rest: seq<Token>)
    ensures FurtherTokens(ms) + rest == if ms.Nil? then rest else [Punct(',')] + (MemberTokens(ms) + rest)
  {
    hide MemberTokens;
  }

  /** A member's name and colon. */
  lemma NameRun(m: Machine, key: string, rest: seq<Token>)
    requires !m.failed && m.state == KeyBegin && SupportedScalar(Text(key))
    ensures Advances(m, [Lit(Text(key))] + ([Punct(':')] + rest), m.(key := key, state := ValueBegin), rest, |key| < BUFFER, 0)
  {
    OneToken(m, Lit(Text(key)), [Punct(':')] + rest);
    OneToken(m.(key := key, state := KeyEnd), Punct(':'), rest);
  }

  /** Between members a comma leads to the next key, also where an unnoticed empty object ended. */
  lemma NextMember(m: Machine, rest: seq<Token>)
    requires !m.failed && !m.inArray && (m.state == ValueEnd || m.state == KeyBegin)
    ensures Advances(m, [Punct(',')] + rest, m.(state := KeyBegin), rest, true, 0)
  {
    OneToken(m, Punct(','), rest);
  }

  lemma {:induction false} MembersRun(m: Machine, ms: Members, rest: seq<Token>) returns (m': Machine, safe: bool, n: nat)
    requires !m.failed && m.state == KeyBegin && !m.inArray && SupportedMembers(ms)
    ensures Advances(m, MemberTokens(ms) + rest, m', rest, safe, n)
    ensures if ms.Nil? then m' == m && n == 0 && safe else After(m, m', FlattenMembers(m.stack, ms), n)
    ensures n == 0 <==> NoneEmpty(ms)
    ensures n == 0 ==> (safe <==> SmallMembers(m.stack, ms))
    decreases ms, 1
  {
    hide RunTokens, ExpectsAll, FitsAll, Skipped, MemberTokens, Tokens;
    if ms.Nil? {
      NoMembers(rest);
      m', safe, n := m, true, 0;
    } else {
      MembersShape(ms, rest);
      NameRun(m, ms.key, Tokens(ms.value) + (FurtherTokens(ms.rest) + rest));
      var m2, safeValue, n1 := ValueRun(m.(key := ms.key, state := ValueBegin), ms.value, FurtherTokens(ms.rest) + rest);
      m', safe, n := MembersEnd(m, ms, m2, n1, rest);
      safe := |ms.key| < BUFFER && safeValue && safe;
    }
  }

  lemma NoMembers(rest: seq<Token>)
    ensures MemberTokens(Nil) + rest == rest
  {
  }

  /** The members after the first, whose value has been read. */
  lemma {:induction false} MembersEnd(m: Machine, ms: Members, m2: Machine, n1: nat, rest: seq<Token>) returns (m': Machine, safe: bool, n: nat)
    requires ms.Member? && SupportedMembers(ms)
    requires After(m, m2, Flatten(m.stack, ms.key, ms.value), n1) && (n1 == 0 <==> NoEmptyObject(ms.value))
    ensures n >= n1 && Advances(m2, FurtherTokens(ms.rest) + rest, m', rest, safe, n - n1) && After(m, m', FlattenMembers(m.stack, ms), n)
    ensures n == 0 <==> NoneEmpty(ms)
    ensures n == 0 ==> (safe <==> SmallMembers(m.stack, ms.rest))
    decreases ms, 0
  {
    MembersNext(m.stack, ms);
    FurtherShape(ms.rest, rest);
    hide RunTokens, ExpectsAll, FitsAll, Skipped, MemberTokens, Tokens, FurtherTokens, FlattenMembers, Flatten, NoneEmpty, NoEmptyObject;
    if ms.rest.Nil? {
      m', safe, n := m2, true, n1;
    } else {
      NextMember(m2, MemberTokens(ms.rest) + rest);
      var n2;
      m', safe, n2 := MembersRun(m2.(state := KeyBegin), ms.rest, rest);
      n := n1 + n2;
      AfterBoth(m, m2, m', Flatten(m.stack, ms.key, ms.value), FlattenMembers(m2.stack, ms.rest), n1, n2);
    }
  }

  lemma MembersNext(path: seq<string>, ms: Members)
    requires ms.Member?
    ensures FlattenMembers(path, ms) == if ms.rest.Nil? then Flatten(path, ms.key, ms.value) else Flatten(path, ms.key, ms.value) + FlattenMembers(path, ms.rest)
    ensures NoneEmpty(ms) <==> NoEmptyObject(ms.value) && NoneEmpty(ms.rest)
    ensures ms.rest.Nil? ==> NoneEmpty(ms.rest) && SmallMembers(path, ms.rest)
  {
    if ms.rest.Nil? { assert FlattenMembers(path, ms) == Flatten(path, ms.key, ms.value) + []; }
  }

  lemma AfterBoth(m: Machine, m2: Machine, m': Machine, es: seq<Entry>, fs: seq<Entry>, n1: nat, n2: nat)
    requires After(m, m2, es, n1) && After(m2.(state := KeyBegin), m', fs, n2)
    ensures After(m, m', es + fs, n1 + n2)
  {
    LinesConcat(es, fs);
  }

  // ---------- numbers are always followed by punctuation ----------

  ghost predicate PunctNext(ts: seq<Token>) { ts != [] && ts[0].Punct? && IsPunct(ts[0].c) }

  lemma SeparatedCons(t: Token, rest: seq<Token>)
    requires Separated(rest) && (t.Lit? && t.scalar.Number? ==> PunctNext(rest))
    ensures Separated([t] + rest)
  {
    var ts := [t] + rest;
    assert forall i :: 0 < i < |ts| ==> ts[i] == rest[i - 1];
  }

  lemma {:induction false} ItemsSeparated(items: seq<Scalar>, rest: seq<Token>)
    requires items != [] && Separated(rest) && PunctNext(rest)
    ensures Separated(ItemTokens(items) + rest)
    decreases |items|
  {
    if |items| == 1 {
      SeparatedCons(Lit(items[0]), rest);
    } else {
      var more := ItemTokens(items[1..]) + rest;
      ItemsSeparated(items[1..], rest);
      ItemTokensShape(items, rest);
      hide ItemTokens, Separated;
      SeparatedCons(Punct(','), more);
      SeparatedCons(Lit(items[0]), [Punct(',')] + more);
    }
  }

  lemma {:induction false} ValueSeparated(v: Value, rest: seq<Token>)
    requires Supported(v) && Separated(rest) && (v.Leaf? ==> PunctNext(rest))
    ensures Separated(Tokens(v) + rest)
    decreases v
  {
    match v {
      case Leaf(s) => SeparatedCons(Lit(s), rest);
      case Arr(items) =>
        var close := [Punct(']')] + rest;
        SeparatedCons(Punct(']'), rest);
        ItemsSeparated(items, close);
        SeparatedCons(Punct('['), ItemTokens(items) + close);
        assert Tokens(v) + rest == [Punct('[')] + (ItemTokens(items) + close);
      case Obj(ms) =>
        var close := [Punct('}')] + rest;
        SeparatedCons(Punct('}'), rest);
        MembersSeparated(ms, close);
        SeparatedCons(Punct('{'), MemberTokens(ms) + close);
        assert Tokens(v) + rest == [Punct('{')] + (MemberTokens(ms) + close);
    }
  }

  lemma {:induction false} MembersSeparated(ms: Members, rest: seq<Token>)
    requires SupportedMembers(ms) && Separated(rest) && PunctNext(rest)
    ensures Separated(MemberTokens(ms) + rest)
    decreases ms
  {
    if ms.Nil? {
      NoMembers(rest);
    } else {
      var tail := FurtherTokens(ms.rest) + rest;
      MembersShape(ms, rest);
      FurtherShape(ms.rest, rest);
      if ms.rest.Member? {
        MembersSeparated(ms.rest, rest);
        SeparatedCons(Punct(','), MemberTokens(ms.rest) + rest);
      }
      ValueSeparated(ms.value, tail);
      SeparatedCons(Punct(':'), Tokens(ms.value) + tail);
      SeparatedCons(Lit(Text(ms.key)), [Punct(':')] + (Tokens(ms.value) + tail));
    }
  }

  // ---------- the theorems ----------

  ghost predicate Parsable(doc: Members) { SupportedMembers(doc) && NoEmptyObject(Obj(doc)) }

  lemma DocumentTokensRun(doc: Members)
    requires SupportedMembers(doc)
    ensures var ts := DocumentTokens(doc);
      var m := RunTokens(INITIAL, ts);
      && ExpectsAll(INITIAL, ts) && Separated(ts)
      && (m.state == Done <==> NoEmptyObject(Obj(doc)))
      && (Skipped(INITIAL, ts) == 0 <==> NoEmptyObject(Obj(doc)))
      && (NoEmptyObject(Obj(doc)) ==>
            && !m.failed && m.stack == [] && !m.inArray && m.out == Lines(FlattenMembers([], doc))
            && (FitsAll(INITIAL, ts) <==> SmallMembers([], doc)))
  {
    hide RunTokens, ExpectsAll, FitsAll, Skipped, MemberTokens, Separated, FlattenMembers, SmallMembers, NoneEmpty, Advances, After;
    var ts, close := DocumentTokens(doc), [Punct('}')];
    var first := INITIAL.(state := KeyBegin);
    DocumentShape(doc);
    OneToken(INITIAL, Punct('{'), MemberTokens(doc) + close);
    var m, safe, n := MembersRun(first, doc, close);
    DocumentEnd(doc, m, n);
    hide SupportedMembers, Tokens, TokenStep, Skips, Expects;
    AdvancesOn(INITIAL, ts, first, MemberTokens(doc) + close, true, 0, m, close, safe, n);
    AdvancesOn(INITIAL, ts, m, close, safe, n, TokenStep(m, Punct('}')), [], true, Skips(m, Punct('}')));
    AdvancedToEnd(INITIAL, ts, TokenStep(m, Punct('}')), safe, n + Skips(m, Punct('}')));
  }

  /** The closing brace of the document. */
  lemma DocumentEnd(doc: Members, m: Machine, n: nat)
    requires var first := INITIAL.(state := KeyBegin);
      if doc.Nil? then m == first && n == 0 else After(first, m, FlattenMembers([], doc), n)
    requires n == 0 <==> NoneEmpty(doc)
    ensures var m' := TokenStep(m, Punct('}'));
      && Advances(m, [Punct('}')], m', [], true, Skips(m, Punct('}')))
      && (m'.state == Done <==> NoEmptyObject(Obj(doc)))
      && (n + Skips(m, Punct('}')) == 0 <==> NoEmptyObject(Obj(doc)))
      && (NoEmptyObject(Obj(doc)) ==>
            !m'.failed && m'.stack == [] && !m'.inArray && m'.out == Lines(FlattenMembers([], doc)) && n == 0)
  {
    hide FlattenMembers, NoneEmpty, Advances;
    LastBrace(m);
    assert [] + Lines(FlattenMembers([], doc)) == Lines(FlattenMembers([], doc));
  }

  lemma AdvancesOn(m0: Machine, ts0: seq<Token>, m1: Machine, ts1: seq<Token>, safe1: bool, n1: nat, m2: Machine, ts2: seq<Token>, safe2: bool, n2: nat)
    requires Advances(m0, ts0, m1, ts1, safe1, n1) && Advances(m1, ts1, m2, ts2, safe2, n2)
    ensures Advances(m0, ts0, m2, ts2, safe1 && safe2, n1 + n2)
  {
  }

  lemma AdvancedToEnd(m: Machine, ts: seq<Token>, m': Machine, safe: bool, n: nat)
    requires Advances(m, ts, m', [], safe, n)
    ensures RunTokens(m, ts) == m' && ExpectsAll(m, ts) && (FitsAll(m, ts) <==> safe) && Skipped(m, ts) == n
  {
  }

  lemma DocumentShape(doc: Members)
    requires SupportedMembers(doc)
    ensures DocumentTokens(doc) == [Punct('{')] + (MemberTokens(doc) + [Punct('}')]) && Separated(DocumentTokens(doc))
  {
    ValueSeparated(Obj(doc), []);
    assert DocumentTokens(doc) + [] == DocumentTokens(doc);
  }

  lemma LastBrace(m: Machine)
    requires !m.failed && !m.inArray && (m.state == ValueEnd || m.state == KeyBegin)
    ensures Advances(m, [Punct('}')], TokenStep(m, Punct('}')), [], true, Skips(m, Punct('}')))
  {
    hide RunTokens, ExpectsAll, FitsAll, Skipped;
    OneToken(m, Punct('}'), []);
    assert [Punct('}')] + [] == [Punct('}')];
  }

  /** Parsing prints exactly the flattened document, in order, and ends in STATE_DONE with key_depth
      and in_array back at 0, whatever the white space and wherever the input is cut into chunks. All
      indices stay within the buffers if and only if the document is small enough for them. */
  lemma ParsesDocument(doc: Members, ls: seq<Lexeme>, chunks: seq<string>)
    requires Parsable(doc) && IsLayout(ls, doc) && Join(chunks) == Render(ls)
    ensures SafeRun(INITIAL, Render(ls)) <==> SmallMembers([], doc)
    ensures var m := RunChunks(INITIAL, chunks);
      !m.failed && m.state == Done && m.stack == [] && !m.inArray && m.out == Lines(FlattenMembers([], doc))
  {
    DocumentTokensRun(doc);
    LayoutRun(INITIAL, ls);
    ChunksAreInvisible(INITIAL, chunks);
  }

  /** Two layouts of one document leave the machine in the very same state. */
  lemma LayoutIsInvisible(doc: Members, ls: seq<Lexeme>, ls': seq<Lexeme>)
    requires SupportedMembers(doc) && IsLayout(ls, doc) && IsLayout(ls', doc)
    ensures Run(INITIAL, Render(ls)) == Run(INITIAL, Render(ls'))
  {
    DocumentTokensRun(doc);
    LayoutRun(INITIAL, ls);
    LayoutRun(INITIAL, ls');
  }

  // ---------- empty objects ----------

  /** Empty objects are never noticed to close: an otherwise supported document is read to STATE_DONE
      if and only if it holds no empty object, however it goes on after one. */
  lemma DoneIffNoEmptyObject(doc: Members, ls: seq<Lexeme>)
    requires SupportedMembers(doc) && IsLayout(ls, doc)
    ensures Run(INITIAL, Render(ls)).state == Done <==> NoEmptyObject(Obj(doc))
  {
    DocumentTokensRun(doc);
    LayoutRun(INITIAL, ls);
  }

  /** {"a":{}} is never read to its end. */
  lemma EmptyObjectUnfinished(ls: seq<Lexeme>)
    requires IsLayout(ls, Member("a", Obj(Nil), Nil))
    ensures Run(INITIAL, Render(ls)).state != Done
  {
    var doc := Member("a", Obj(Nil), Nil);
    assert SupportedMembers(Nil) && Supported(Obj(Nil)) && !NoEmptyObject(Obj(Nil));
    assert SupportedMembers(doc) && !NoneEmpty(doc);
    DoneIffNoEmptyObject(doc, ls);
  }

  // ---------- nesting ----------

  function Opens(t: Token): int {
    if t == Punct('{') || t == Punct('[') then 1 else if t == Punct('}') || t == Punct(']') then -1 else 0
  }

  /** Containers opened and not yet closed. */
  function Open(ts: seq<Token>): int { if ts == [] then 0 else Opens(ts[0]) + Open(ts[1..]) }

  /** key_depth is the number of containers the machine takes for open, not counting the root. */
  ghost predicate DepthIs(m: Machine, open: int) {
    if m.state == Start || m.state == Done then open == 0 && m.stack == [] else open == |m.stack| + 1
  }

  lemma DepthStep(m: Machine, t: Token, open: int)
    requires Expects(m, t) && DepthIs(m, open)
    ensures DepthIs(TokenStep(m, t), open + Opens(t) + Skips(m, t))
  {
  }

  lemma {:induction false} DepthTracksNesting(m: Machine, ts: seq<Token>, k: nat, open: int)
    requires ExpectsAll(m, ts) && k <= |ts| && DepthIs(m, open)
    ensures DepthIs(RunTokens(m, ts[..k]), open + Open(ts[..k]) + Skipped(m, ts[..k])) && Skipped(m, ts[..k]) <= Skipped(m, ts)
    decreases k
  {
    if k > 0 {
      assert ts[..k][1..] == ts[1..][..k - 1];
      DepthStep(m, ts[0], open);
      hide Expects, TokenStep, DepthIs, Opens, Skips;
      DepthTracksNesting(TokenStep(m, ts[0]), ts[1..], k - 1, open + Opens(ts[0]) + Skips(m, ts[0]));
    }
  }

  /** After any number of tokens of a document, key_depth counts its open non-root containers and the
      closing braces ignored so far, of which there are none in a document without empty objects. */
  lemma DocumentDepth(doc: Members, k: nat)
    requires SupportedMembers(doc) && k <= |DocumentTokens(doc)|
    ensures var ts := DocumentTokens(doc)[..k];
      && DepthIs(RunTokens(INITIAL, ts), Open(ts) + Skipped(INITIAL, ts))
      && (NoEmptyObject(Obj(doc)) ==> Skipped(INITIAL, ts) == 0)
  {
    DocumentTokensRun(doc);
    DepthTracksNesting(INITIAL, DocumentTokens(doc), k, 0);
  }

  // ---------- arrays ----------

  /** Whether the last square bracket opens an array; `before` if there is none. */
  function LastOpens(ts: seq<Token>, before: bool): bool {
    if ts == [] then before
    else if ts[|ts| - 1] == Punct('[') then true
    else if ts[|ts| - 1] == Punct(']') then false
    else LastOpens(ts[..|ts| - 1], before)
  }

  lemma {:induction false} LastOpensCons(t: Token, ts: seq<Token>, before: bool)
    ensures LastOpens([t] + ts, before) == LastOpens(ts, if t == Punct('[') then true else if t == Punct(']') then false else before)
    decreases |ts|
  {
    var all := [t] + ts;
    if ts == [] {
      assert all == [t] && all[..0] == [];
    } else {
      assert all[..|all| - 1] == [t] + ts[..|ts| - 1] && all[|all| - 1] == ts[|ts| - 1];
      LastOpensCons(t, ts[..|ts| - 1], before);
    }
  }

  /** in_array is a flag, not a count: after any tokens that can come where they do, it says whether the last
      square bracket was an opening one, whatever is still open. */
  lemma {:induction false} ArrayFlag(m: Machine, ts: seq<Token>)
    requires ExpectsAll(m, ts)
    ensures RunTokens(m, ts).inArray == LastOpens(ts, m.inArray)
    decreases |ts|
  {
    if ts != [] {
      assert ts == [ts[0]] + ts[1..];
      LastOpensCons(ts[0], ts[1..], m.inArray);
      ArrayFlag(TokenStep(m, ts[0]), ts[1..]);
    }
  }
}
