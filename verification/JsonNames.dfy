/** Fully qualified keys: which documents are printed with the names the documentation promises. */
module JsonNames {
  import opened Decimal
  import opened JsonDocument
  import opened JsonMachine
  import opened JsonTheorems

  /** The dotted name of an array element, as the documentation has it. */
  function QualifiedItemKey(path: seq<string>, key: string, i: nat): string { FullKey(path, key) + "[" + IntText(i) + "]" }

  function QualifiedItems(path: seq<string>, key: string, items: seq<Scalar>, i: nat): seq<Entry> {
    if items == [] then []
    else [Entry(QualifiedItemKey(path, key, i), ScalarText(items[0]))] + QualifiedItems(path, key, items[1..], i + 1)
  }

  /** Flattening with every name fully qualified. */
  function Qualified(path: seq<string>, key: string, v: Value): seq<Entry>
    decreases v
  {
    match v
    case Leaf(s) => [Entry(FullKey(path, key), ScalarText(s))]
    case Arr(items) => QualifiedItems(path, key, items, 0)
    case Obj(ms) => QualifiedMembers(path + [key], ms)
  }

  function QualifiedMembers(path: seq<string>, ms: Members): seq<Entry>
    decreases ms
  {
    match ms
    case Nil => []
    case Member(k, v, rest) => Qualified(path, k, v) + QualifiedMembers(path, rest)
  }

  /** No array lies below `v`, nor is `v` one. */
  predicate HasNoArray(v: Value)
    decreases v
  {
    match v
    case Leaf(_) => true
    case Arr(_) => false
    case Obj(ms) => HaveNoArray(ms)
  }

  predicate HaveNoArray(ms: Members)
    decreases ms
  {
    ms.Member? ==> HasNoArray(ms.value) && HaveNoArray(ms.rest)
  }

  /** All arrays of the document are members of its root. */
  predicate ArraysAtRoot(doc: Members)
    decreases doc
  {
    doc.Member? ==> (doc.value.Arr? || HasNoArray(doc.value)) && ArraysAtRoot(doc.rest)
  }

  lemma {:induction false} FullKeyLength(path: seq<string>, key: string)
    ensures |FullKey(path, key)| >= |path| + |key|
    decreases |path|
  {
    if path != [] { FullKeyLength(path[1..], key); }
  }

  // ---------- what the dotted names are ----------

  /** Where the i-th enclosing key starts in the name. */
  function StartOf(path: seq<string>, i: nat): nat
    requires i <= |path|
  {
    if i == 0 then 0 else StartOf(path, i - 1) + |path[i - 1]| + 1
  }

  lemma {:induction false} StartOfTail(path: seq<string>, i: nat)
    requires 0 < i <= |path|
    ensures StartOf(path, i) == |path[0]| + 1 + StartOf(path[1..], i - 1)
  {
    if i > 1 { StartOfTail(path, i - 1); }
  }

  lemma Behind(head: string, rest: string, from: nat, to: nat)
    requires from <= to <= |rest|
    ensures (head + rest)[|head| + from..|head| + to] == rest[from..to] && (head + rest)[|head| + from..] == rest[from..]
  {
  }

  lemma FirstStart(path: seq<string>)
    ensures StartOf(path, 0) == 0
  {
  }

  lemma {:induction false} KeyLength(path: seq<string>, key: string, i: nat)
    requires i <= |path|
    ensures |FullKey(path, key)| == StartOf(path, |path|) + |key| && StartOf(path, i) <= StartOf(path, |path|)
    decreases |path|
  {
    hide FullKey, StartOf;
    OuterKey(path, key);
    FirstStart(path);
    if path != [] {
      StartOfTail(path, |path|);
      if i > 0 { StartOfTail(path, i); }
      KeyLength(path[1..], key, if i > 0 then i - 1 else 0);
    }
  }

  lemma {:induction false} KeyBehind(path: seq<string>, key: string, i: nat)
    requires i <= |path|
    ensures StartOf(path, i) <= |FullKey(path, key)| && FullKey(path, key)[StartOf(path, i)..] == FullKey(path[i..], key)
    decreases i
  {
    hide FullKey, StartOf;
    KeyLength(path, key, i);
    FirstStart(path);
    if i == 0 {
      assert path[0..] == path;
    } else {
      var tail := path[1..];
      OuterKey(path, key);
      KeyBehind(tail, key, i - 1);
      StartOfTail(path, i);
      assert tail[i - 1..] == path[i..];
      Behind(path[0] + ".", FullKey(tail, key), StartOf(tail, i - 1), |FullKey(tail, key)|);
    }
  }

  /** The name consists of the enclosing keys, outermost first and each with a dot behind it, and then the
      key itself. */
  lemma KeyOfSegments(path: seq<string>, key: string, i: nat)
    requires i <= |path|
    ensures var name := FullKey(path, key);
      && |name| == StartOf(path, |path|) + |key|
      && (i < |path| ==> StartOf(path, i + 1) <= |name| && name[StartOf(path, i)..StartOf(path, i + 1)] == path[i] + ".")
      && (i == |path| ==> name[StartOf(path, i)..] == key)
  {
    KeyLength(path, key, i);
    KeyBehind(path, key, i);
    OuterKey(path[i..], key);
    assert i < |path| ==> StartOf(path, i + 1) == StartOf(path, i) + |path[i]| + 1;
    hide FullKey, StartOf;
    if i < |path| {
      KeyLength(path, key, i + 1);
      var name, from, head := FullKey(path, key), StartOf(path, i), path[i] + ".";
      assert name[from..] == head + FullKey(path[i..][1..], key);
      assert name[from..from + |head|] == name[from..][..|head|] == head;
    }
  }

  /** The parts of a text between its dots. */
  function DotParts(s: string): (ps: seq<string>)
    ensures ps != []
  {
    if s == "" then [""]
    else if s[0] == '.' then [""] + DotParts(s[1..])
    else [[s[0]] + DotParts(s[1..])[0]] + DotParts(s[1..])[1..]
  }

  lemma {:induction false} PartsOf(part: string, s: string)
    requires '.' !in part
    ensures DotParts(part) == [part] && DotParts(part + "." + s) == [part] + DotParts(s)
    decreases |part|
  {
    var t := part + "." + s;
    if part == "" {
      assert t[1..] == s;
    } else {
      PartsOf(part[1..], s);
      assert t[1..] == part[1..] + "." + s && part == [part[0]] + part[1..];
      assert ([part[1..]] + DotParts(s))[1..] == DotParts(s);
    }
  }

  /** Keys without dots can be read back from the printed name, in their order. */
  lemma {:induction false} NameSplits(path: seq<string>, key: string)
    requires '.' !in key && forall i :: 0 <= i < |path| ==> '.' !in path[i]
    ensures DotParts(FullKey(path, key)) == path + [key]
    decreases |path|
  {
    if path == [] {
      PartsOf(key, "");
      assert path + [key] == [key];
    } else {
      NameSplits(path[1..], key);
      PartsOf(path[0], FullKey(path[1..], key));
      assert path + [key] == [path[0]] + (path[1..] + [key]);
    }
  }

  /** The elements of an array are printed in order and numbered from 0. */
  lemma {:induction false} ItemsInOrder(key: string, items: seq<Scalar>, from: nat, j: nat)
    requires j < |items|
    ensures var es := FlattenItems(key, items, from);
      |es| == |items| && es[j] == Entry(key + "[" + IntText(from + j) + "]", ScalarText(items[j]))
    decreases |items|
  {
    if j > 0 {
      ItemsInOrder(key, items[1..], from + 1, j - 1);
    } else if |items| > 1 {
      ItemsInOrder(key, items[1..], from + 1, 0);
    } else {
      assert items[1..] == [];
    }
  }

  // ---------- qualified names ----------

  lemma {:induction false} ItemsQualified(path: seq<string>, key: string, items: seq<Scalar>, i: nat)
    ensures |FlattenItems(key, items, i)| == |QualifiedItems(path, key, items, i)|
    ensures items != [] ==> (FlattenItems(key, items, i) == QualifiedItems(path, key, items, i) <==> path == [])
    decreases |items|
  {
    if items != [] {
      var a, b := FlattenItems(key, items, i), QualifiedItems(path, key, items, i);
      ItemsQualified(path, key, items[1..], i + 1);
      FullKeyLength(path, key);
      assert a[0].key == ItemKey(key, i) && b[0].key == QualifiedItemKey(path, key, i);
      assert path != [] ==> |a[0].key| < |b[0].key|;
      assert |items| == 1 ==> items[1..] == [];
    }
  }

  lemma ConcatEqual(a: seq<Entry>, b: seq<Entry>, a': seq<Entry>, b': seq<Entry>)
    requires |a| == |a'|
    ensures a + b == a' + b' <==> a == a' && b == b'
  {
    if a + b == a' + b' {
      assert (a + b)[..|a|] == a && (a' + b')[..|a|] == a' && (a + b)[|a|..] == b && (a' + b')[|a|..] == b';
    }
  }

  lemma {:induction false} ValueQualified(path: seq<string>, key: string, v: Value)
    requires Supported(v)
    ensures |Flatten(path, key, v)| == |Qualified(path, key, v)|
    ensures Flatten(path, key, v) == Qualified(path, key, v) <==> HasNoArray(v) || (v.Arr? && path == [])
    decreases v
  {
    match v {
      case Leaf(_) =>
      case Arr(items) => ItemsQualified(path, key, items, 0);
      case Obj(ms) => MembersQualified(path + [key], ms);
    }
  }

  lemma {:induction false} MembersQualified(path: seq<string>, ms: Members)
    requires SupportedMembers(ms)
    ensures |FlattenMembers(path, ms)| == |QualifiedMembers(path, ms)|
    ensures FlattenMembers(path, ms) == QualifiedMembers(path, ms) <==> if path == [] then ArraysAtRoot(ms) else HaveNoArray(ms)
    decreases ms
  {
    if ms.Member? {
      ValueQualified(path, ms.key, ms.value);
      MembersQualified(path, ms.rest);
      ConcatEqual(Flatten(path, ms.key, ms.value), FlattenMembers(path, ms.rest), Qualified(path, ms.key, ms.value), QualifiedMembers(path, ms.rest));
    }
  }

  lemma LinesEqual(a: seq<Entry>, b: seq<Entry>)
    ensures Lines(a) == Lines(b) <==> a == b
  {
    if Lines(a) == Lines(b) {
      assert |a| == |Lines(a)| == |b|;
      forall i | 0 <= i < |a| ensures a[i] == b[i] { assert Lines(a)[i] == Lines(b)[i]; }
    }
  }

  /** The lines printed carry fully qualified keys if and only if all arrays of the document are
      members of its root. */
  lemma PrintsQualifiedKeys(doc: Members, ls: seq<Lexeme>, chunks: seq<string>)
    requires Parsable(doc) && IsLayout(ls, doc) && Join(chunks) == Render(ls)
    ensures RunChunks(INITIAL, chunks).out == Lines(QualifiedMembers([], doc)) <==> ArraysAtRoot(doc)
  {
    ParsesDocument(doc, ls, chunks);
    MembersQualified([], doc);
    LinesEqual(FlattenMembers([], doc), QualifiedMembers([], doc));
  }

  /** {"a": {"b": [1]}} is printed as b[0], not a.b[0]. */
  lemma NestedArrayMisnamed()
    ensures var doc := Member("a", Obj(Member("b", Arr([Number(1)]), Nil)), Nil);
      && Parsable(doc) && !ArraysAtRoot(doc)
      && FlattenMembers([], doc) == [Entry("b[0]", "1")]
      && QualifiedMembers([], doc) == [Entry("a.b[0]", "1")]
  {
    var inner := Member("b", Arr([Number(1)]), Nil);
    assert Supported(Arr([Number(1)])) && SupportedScalar(Text("a")) && SupportedScalar(Text("b"));
    assert SupportedMembers(inner) && NoneEmpty(inner);
    assert IntText(0) == "0" && IntText(1) == "1";
    assert [Number(1)][1..] == [];
    assert ItemKey("b", 0) == "b[0]" && ScalarText(Number(1)) == "1";
    assert FlattenItems("b", [Number(1)], 0) == [Entry("b[0]", "1")] + FlattenItems("b", [], 1);
    assert [] + ["a"] == ["a"] && ["a"][1..] == [];
    assert FullKey(["a"], "b") == "a.b" && QualifiedItemKey(["a"], "b", 0) == "a.b[0]";
    assert QualifiedItems(["a"], "b", [Number(1)], 0) == [Entry("a.b[0]", "1")] + QualifiedItems(["a"], "b", [], 1);
    assert FlattenMembers(["a"], inner) == [Entry("b[0]", "1")] + [];
    assert QualifiedMembers(["a"], inner) == [Entry("a.b[0]", "1")] + [];
  }

  /** {"a": {"b": {"c": true, "d": -12}}, "e": ["x", null], "f": false} */
  function Nested(): Members {
    var inner := Member("c", Leaf(True), Member("d", Leaf(Number(-12)), Nil));
    Member("a", Obj(Member("b", Obj(inner), Nil)),
      Member("e", Arr([Text("x"), Null]), Member("f", Leaf(False), Nil)))
  }

  /** However it is laid out and cut up, that document is printed as these five lines. */
  lemma NestedPrinted(ls: seq<Lexeme>, chunks: seq<string>)
    requires IsLayout(ls, Nested()) && Join(chunks) == Render(ls)
    ensures RunChunks(INITIAL, chunks).out ==
      [Line(Entry("a.b.c", "true")), Line(Entry("a.b.d", "-12")), Line(Entry("e[0]", "x")), Line(Entry("e[1]", "null")), Line(Entry("f", "false"))]
  {
    NestedParsable();
    NestedFlat();
    hide Nested;
    ParsesDocument(Nested(), ls, chunks);
    LinesOfFive(FlattenMembers([], Nested()));
  }

  lemma LinesOfFive(es: seq<Entry>)
    requires |es| == 5
    ensures Lines(es) == [Line(es[0]), Line(es[1]), Line(es[2]), Line(es[3]), Line(es[4])]
  {
  }

  lemma NestedParsable()
    ensures Parsable(Nested())
  {
    assert SupportedScalar(Text("x")) && SupportedScalar(Text("a")) && SupportedScalar(Text("b")) && SupportedScalar(Text("c"));
    assert SupportedScalar(Text("d")) && SupportedScalar(Text("e")) && SupportedScalar(Text("f"));
    var inner := Member("c", Leaf(True), Member("d", Leaf(Number(-12)), Nil));
    assert SupportedMembers(inner) && NoneEmpty(inner);
    assert SupportedMembers(Member("b", Obj(inner), Nil)) && NoneEmpty(Member("b", Obj(inner), Nil));
    assert Supported(Arr([Text("x"), Null]));
    var last := Member("e", Arr([Text("x"), Null]), Member("f", Leaf(False), Nil));
    assert SupportedMembers(last) && NoneEmpty(last);
  }

  lemma NestedNames()
    ensures FullKey(["a", "b"], "c") == "a.b.c" && FullKey(["a", "b"], "d") == "a.b.d" && FullKey([], "f") == "f"
    ensures ItemKey("e", 0) == "e[0]" && ItemKey("e", 1) == "e[1]" && IntText(-12) == "-12"
  {
    assert ["a", "b"][1..] == ["b"] && ["b"][1..] == [];
    assert IntText(0) == "0" && IntText(1) == "1" && NatText(12) == NatText(1) + "2";
  }

  lemma NestedFlat()
    ensures FlattenMembers([], Nested()) ==
      [Entry("a.b.c", "true"), Entry("a.b.d", "-12"), Entry("e[0]", "x"), Entry("e[1]", "null"), Entry("f", "false")]
  {
    hide FullKey, ItemKey, IntText;
    NestedNames();
    var inner := Member("c", Leaf(True), Member("d", Leaf(Number(-12)), Nil));
    assert FlattenMembers(["a", "b"], inner) == [Entry("a.b.c", "true")] + ([Entry("a.b.d", "-12")] + []);
    assert [] + ["a"] == ["a"] && ["a"] + ["b"] == ["a", "b"];
    assert FlattenMembers(["a"], Member("b", Obj(inner), Nil)) == FlattenMembers(["a", "b"], inner) + [];
    var items := [Text("x"), Null];
    assert items[1..] == [Null] && items[1..][1..] == [];
    assert FlattenItems("e", items, 0) == [Entry("e[0]", "x")] + ([Entry("e[1]", "null")] + FlattenItems("e", [], 2));
    var last := Member("f", Leaf(False), Nil);
    assert FlattenMembers([], last) == [Entry("f", "false")] + [];
    assert FlattenMembers([], Member("e", Arr(items), last)) == FlattenItems("e", items, 0) + FlattenMembers([], last);
  }

  lemma OneLexeme(l: Lexeme, ls: seq<Lexeme>)
    ensures Render([l] + ls) == (if l.Tok? then TokenText(l.t) else [l.c]) + Render(ls)
    ensures Strip([l] + ls) == (if l.Tok? then [l.t] else []) + Strip(ls)
  {
    assert ([l] + ls)[1..] == ls;
  }

  /** The document {"a":{"b": 7}} as it is typed there. */
  function Typed(): seq<Lexeme> {
    [Tok(Punct('{')), Tok(Lit(Text("a"))), Tok(Punct(':')), Tok(Punct('{'))] + TypedInner()
  }

  function TypedInner(): seq<Lexeme> {
    [Tok(Lit(Text("b"))), Tok(Punct(':')), Space(' '), Tok(Lit(Number(7))), Tok(Punct('}')), Tok(Punct('}'))]
  }

  /** This text prints this line. */
  lemma TypedDocument()
    ensures Run(INITIAL, "{\"a\":{\"b\": 7}}").out == [Line(Entry("a.b", "7"))]
  {
    var doc := Member("a", Obj(Member("b", Leaf(Number(7)), Nil)), Nil);
    var text := Render(Typed());
    TypedText();
    TypedTokens();
    TypedParsable();
    TypedFlat();
    hide Render, Strip, Typed, RunChunks, Join;
    OneChunk(text);
    ParsesDocument(doc, Typed(), [text]);
    ChunksAreInvisible(INITIAL, [text]);
  }

  lemma OneChunk(text: string)
    ensures Join([text]) == text
  {
    assert [text][1..] == [] && text + "" == text;
  }

  lemma TypedFlat()
    ensures FlattenMembers([], Member("a", Obj(Member("b", Leaf(Number(7)), Nil)), Nil)) == [Entry("a.b", "7")]
  {
    assert [] + ["a"] == ["a"] && ["a"][1..] == [] && FullKey(["a"], "b") == "a.b" && IntText(7) == "7";
    assert FlattenMembers(["a"], Member("b", Leaf(Number(7)), Nil)) == [Entry("a.b", "7")] + [];
  }

  lemma TypedParsable()
    ensures Parsable(Member("a", Obj(Member("b", Leaf(Number(7)), Nil)), Nil))
  {
    var inner := Member("b", Leaf(Number(7)), Nil);
    assert SupportedScalar(Text("a")) && SupportedScalar(Text("b")) && SupportedMembers(inner) && NoneEmpty(inner);
  }

  lemma TypedInnerText()
    ensures Render(TypedInner()) == "\"b\": 7}}"
    ensures Strip(TypedInner()) == [Lit(Text("b")), Punct(':'), Lit(Number(7)), Punct('}'), Punct('}')]
  {
    hide Render, Strip;
    var ls := TypedInner();
    OneLexeme(ls[5], []);
    OneLexeme(ls[4], ls[5..]);
    OneLexeme(ls[3], ls[4..]);
    OneLexeme(ls[2], ls[3..]);
    OneLexeme(ls[1], ls[2..]);
    OneLexeme(ls[0], ls[1..]);
    assert ls[5..] == [ls[5]] + [] && ls[4..] == [ls[4]] + ls[5..] && ls[3..] == [ls[3]] + ls[4..];
    assert ls[2..] == [ls[2]] + ls[3..] && ls[1..] == [ls[1]] + ls[2..] && ls == [ls[0]] + ls[1..];
    NoLexemes();
    assert IntText(7) == "7";
    assert Render(ls[4..]) == "}}" && Render(ls[2..]) == " 7}}" && Render(ls[1..]) == ": 7}}";
  }

  lemma TypedText()
    ensures Render(Typed()) == "{\"a\":{\"b\": 7}}"
    ensures Strip(Typed()) == [Punct('{'), Lit(Text("a")), Punct(':'), Punct('{')] + Strip(TypedInner())
  {
    TypedInnerText();
    hide Render, Strip, TypedInner;
    var ls := Typed();
    assert ls[4..] == TypedInner();
    LexemesAt(ls, 3);
    LexemesAt(ls, 2);
    assert Render(ls[2..]) == ":{\"b\": 7}}";
    LexemesAt(ls, 1);
    LexemesAt(ls, 0);
    assert ls[0..] == ls;
  }

  lemma LexemesAt(ls: seq<Lexeme>, i: nat)
    requires i < |ls|
    ensures Render(ls[i..]) == (if ls[i].Tok? then TokenText(ls[i].t) else [ls[i].c]) + Render(ls[i + 1..])
    ensures Strip(ls[i..]) == (if ls[i].Tok? then [ls[i].t] else []) + Strip(ls[i + 1..])
  {
    assert ls[i..] == [ls[i]] + ls[i + 1..];
    OneLexeme(ls[i], ls[i + 1..]);
  }

  lemma TypedTokens()
    ensures IsLayout(Typed(), Member("a", Obj(Member("b", Leaf(Number(7)), Nil)), Nil))
  {
    TypedText();
    TypedInnerText();
    hide Render, Strip;
    assert SpacesOk(Typed());
    var inner := Member("b", Leaf(Number(7)), Nil);
    assert MemberTokens(inner) == [Lit(Text("b")), Punct(':')] + [Lit(Number(7))] + [];
    assert MemberTokens(Member("a", Obj(inner), Nil)) == [Lit(Text("a")), Punct(':')] + ([Punct('{')] + MemberTokens(inner) + [Punct('}')]) + [];
  }

  lemma NoLexemes()
    ensures Render([]) == "" && Strip([]) == []
  {
  }

  // ---------- the largest documents ----------

  /** Keys and values may have 255 characters, and names of values 511. */
  lemma LargestTexts(a: string, b: string, c: string, t: string)
    ensures SmallMembers([], Member(a, Obj(Member(b, Obj(Member(c, Leaf(Text(t)), Nil)), Nil)), Nil)) <==>
      |a| <= 255 && |b| <= 255 && |c| <= 255 && |t| <= 255 && |a| + |b| + |c| + 2 <= 511
  {
    var inner := Member(c, Leaf(Text(t)), Nil);
    assert [] + [a] == [a] && [a] + [b] == [a, b] && [a, b][1..] == [b] && [b][1..] == [];
    assert FullKey([b], c) == b + "." + FullKey([], c) == b + "." + c;
    assert FullKey([a, b], c) == a + "." + (b + "." + c);
    assert SmallMembers([a, b], inner) <==> |c| <= 255 && |t| <= 255 && |a| + |b| + |c| + 2 <= 511;
    assert SmallMembers([a], Member(b, Obj(inner), Nil)) <==> |b| <= 255 && SmallMembers([a, b], inner);
  }

  /** {"k": {"k": ... true}} with `n` objects inside the root. */
  function Deep(n: nat): Members { if n == 0 then Member("k", Leaf(True), Nil) else Member("k", Obj(Deep(n - 1)), Nil) }

  lemma {:induction false} DeepSmall(path: seq<string>, n: nat)
    requires StartOf(path, |path|) == 2 * |path| <= 40
    ensures SmallMembers(path, Deep(n)) <==> n == 0 || |path| + n <= 10
    decreases n
  {
    KeyOfSegments(path, "k", |path|);
    if n > 0 && |path| < 10 {
      var deeper := path + ["k"];
      StartOfPrefix(path, ["k"], |path|);
      DeepSmall(deeper, n - 1);
    }
  }

  lemma {:induction false} StartOfPrefix(path: seq<string>, more: seq<string>, i: nat)
    requires i <= |path|
    ensures StartOf(path + more, i) == StartOf(path, i)
  {
    if i > 0 { StartOfPrefix(path, more, i - 1); }
  }

  /** Ten objects may be nested inside the root. */
  lemma DeepestObjects(n: nat)
    ensures SmallMembers([], Deep(n)) <==> n <= 10
  {
    DeepSmall([], n);
  }
}
