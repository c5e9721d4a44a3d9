/** The documents the parser supports, their tokens, their layouts, and what flattening means. */
module JsonDocument {
  import opened Decimal

  datatype Scalar = Text(s: string) | Number(n: int) | True | False | Null

  // Arrays hold scalars only; the root of a document is an object, given by its members.
  datatype Value = Leaf(scalar: Scalar) | Arr(items: seq<Scalar>) | Obj(members: Members)

  datatype Members = Nil | Member(key: string, value: Value, rest: Members)

  datatype Entry = Entry(key: string, value: string)

  // ---------- flattening ----------

  function ScalarText(s: Scalar): string {
    match s
    case Text(t) => t
    case Number(n) => IntText(n)
    case True => "true"
    case False => "false"
    case Null => "null"
  }

  /** The enclosing keys joined by dots, then the key itself. */
  function FullKey(path: seq<string>, key: string): string {
    if path == [] then key else path[0] + "." + FullKey(path[1..], key)
  }

  lemma OuterKey(path: seq<string>, key: string)
    ensures FullKey(path, key) == if path == [] then key else path[0] + "." + FullKey(path[1..], key)
  {
  }

  /** Array elements are named after the array's own key alone, whatever encloses it. */
  function ItemKey(key: string, i: nat): string { key + "[" + IntText(i) + "]" }

  function FlattenItems(key: string, items: seq<Scalar>, i: nat): seq<Entry> {
    if items == [] then [] else [Entry(ItemKey(key, i), ScalarText(items[0]))] + FlattenItems(key, items[1..], i + 1)
  }

  function Flatten(path: seq<string>, key: string, v: Value): seq<Entry>
    decreases v
  {
    match v
    case Leaf(s) => [Entry(FullKey(path, key), ScalarText(s))]
    case Arr(items) => FlattenItems(key, items, 0)
    case Obj(ms) => FlattenMembers(path + [key], ms)
  }

  function FlattenMembers(path: seq<string>, ms: Members): seq<Entry>
    decreases ms
  {
    match ms
    case Nil => []
    case Member(k, v, rest) => Flatten(path, k, v) + FlattenMembers(path, rest)
  }

  // ---------- tokens ----------

  datatype Token = Punct(c: char) | Lit(scalar: Scalar)

  predicate IsPunct(c: char) { c == '{' || c == '}' || c == '[' || c == ']' || c == ':' || c == ',' }

  function ItemTokens(items: seq<Scalar>): seq<Token> {
    if items == [] then []
    else if |items| == 1 then [Lit(items[0])]
    else [Lit(items[0]), Punct(',')] + ItemTokens(items[1..])
  }

  function Tokens(v: Value): seq<Token>
    decreases v
  {
    match v
    case Leaf(s) => [Lit(s)]
    case Arr(items) => [Punct('[')] + ItemTokens(items) + [Punct(']')]
    case Obj(ms) => [Punct('{')] + MemberTokens(ms) + [Punct('}')]
  }

  function MemberTokens(ms: Members): seq<Token>
    decreases ms, 0
  {
    match ms
    case Nil => []
    case Member(k, v, rest) => [Lit(Text(k)), Punct(':')] + Tokens(v) + FurtherTokens(rest)
  }

  function FurtherTokens(ms: Members): seq<Token>
    decreases ms, 1
  {
    if ms.Nil? then [] else [Punct(',')] + MemberTokens(ms)
  }

  function DocumentTokens(doc: Members): seq<Token> { Tokens(Obj(doc)) }

  // ---------- text ----------

  const QUOTE := '"'

  function TokenText(t: Token): string {
    match t
    case Punct(c) => [c]
    case Lit(Text(s)) => [QUOTE] + s + [QUOTE]
    case Lit(s) => ScalarText(s)
  }

  // A laid-out document: its tokens with white space (RFC 8259 section 2) anywhere between them.
  datatype Lexeme = Tok(t: Token) | Space(c: char)

  predicate IsSpace(c: char) { c == ' ' || c == '\t' || c == '\n' || c == '\r' }

  predicate SpacesOk(ls: seq<Lexeme>) { forall i :: 0 <= i < |ls| && ls[i].Space? ==> IsSpace(ls[i].c) }

  function Strip(ls: seq<Lexeme>): seq<Token> {
    if ls == [] then [] else (if ls[0].Tok? then [ls[0].t] else []) + Strip(ls[1..])
  }

  function Render(ls: seq<Lexeme>): string {
    if ls == [] then "" else (if ls[0].Tok? then TokenText(ls[0].t) else [ls[0].c]) + Render(ls[1..])
  }

  /** `text` is the document `doc` in some layout. */
  ghost predicate IsLayout(ls: seq<Lexeme>, doc: Members) { SpacesOk(ls) && Strip(ls) == DocumentTokens(doc) }

  // ---------- the supported fragment and the fixed buffers ----------

  const BUFFER := 256      // key_buffer, val_buffer and each row of key_stack
  const MAX_DEPTH := 10    // rows of key_stack
  const NAME_BUFFER := 512 // full_key

  predicate SupportedScalar(s: Scalar) {
    match s
    case Text(t) => QUOTE !in t && '\0' !in t
    case Number(n) => -0x8000_0000 <= n < 0x8000_0000
    case _ => true
  }

  /** Arrays are non-empty; texts and keys hold no quote; numbers are ints. */
  predicate Supported(v: Value)
    decreases v
  {
    match v
    case Leaf(s) => SupportedScalar(s)
    case Arr(items) => items != [] && SupportedItems(items)
    case Obj(ms) => SupportedMembers(ms)
  }

  predicate SupportedItems(items: seq<Scalar>) { forall i :: 0 <= i < |items| ==> SupportedScalar(items[i]) }

  predicate SupportedMembers(ms: Members)
    decreases ms
  {
    ms.Member? ==> SupportedScalar(Text(ms.key)) && Supported(ms.value) && SupportedMembers(ms.rest)
  }

  /** No object in `v`, itself included, is empty. */
  predicate NoEmptyObject(v: Value)
    decreases v
  {
    v.Obj? ==> v.members.Member? && NoneEmpty(v.members)
  }

  predicate NoneEmpty(ms: Members)
    decreases ms
  {
    ms.Member? ==> NoEmptyObject(ms.value) && NoneEmpty(ms.rest)
  }

  /** Keys and values are under 256 characters, at most 10 containers are nested below the root, and
      full names are under 512 characters. */
  predicate Small(path: seq<string>, key: string, v: Value)
    decreases v
  {
    match v
    case Leaf(s) => |ScalarText(s)| < BUFFER && |FullKey(path, key)| < NAME_BUFFER
    case Arr(items) => |key| < BUFFER && |path| < MAX_DEPTH && SmallItems(key, items, 0)
    case Obj(ms) => |key| < BUFFER && |path| < MAX_DEPTH && SmallMembers(path + [key], ms)
  }

  predicate SmallItems(key: string, items: seq<Scalar>, from: nat) {
    items != [] ==> |ScalarText(items[0])| < BUFFER && |ItemKey(key, from)| < NAME_BUFFER && SmallItems(key, items[1..], from + 1)
  }

  predicate SmallMembers(path: seq<string>, ms: Members)
    decreases ms
  {
    ms.Member? ==> |ms.key| < BUFFER && Small(path, ms.key, ms.value) && SmallMembers(path, ms.rest)
  }
}
