/** Whole sessions: any sequence of commands, on the characters and on the ordered map. */
module StoreRuns {
  import opened LineText
  import opened StoreText
  import opened StoreMap

  datatype Command = CmdPut(p: Pair) | CmdGet(key: string) | CmdDelete(key: string) | CmdUpdate(p: Pair)

  datatype Reply =
    | PutReply(stored: bool)
    | GetReply(result: GetResult)
    | DeleteReply(present: bool, found: bool)
    | UpdateReply(present: bool, found: bool, stored: bool)

  // The store does not exist until the first PUT or UPDATE creates it.
  type Text = Option<string>

  function Chars(store: Text): string { if store.Some? then store.value else "" }

  /** What a command does to store.txt, and what it reports. */
  function Exec(store: Text, c: Command): (Text, Reply)
    decreases c.CmdUpdate?
  {
    match c
    case CmdPut(p) => (Some(PutText(Chars(store), p.key, p.value)), PutReply(!HasKey(Chars(store), p.key)))
    case CmdGet(key) => (store, GetReply(if store.None? then NoFile else GetText(store.value, key)))
    case CmdDelete(key) =>
      if store.None? then (None, DeleteReply(false, false))
      else (Some(DeleteText(store.value, key)), DeleteReply(true, HasLineFor(store.value, key)))
    case CmdUpdate(p) =>
      var (left, deleted) := Exec(store, CmdDelete(p.key));
      var (final, put) := Exec(left, CmdPut(p));
      (final, UpdateReply(deleted.present, deleted.found, put.stored))
  }

  lemma GetChangesNothing(store: Text, key: string)
    ensures Exec(store, CmdGet(key)).0 == store && Exec(store, CmdGet(key)).1.GetReply?
  {
  }

  function Run(store: Text, cs: seq<Command>): (Text, seq<Reply>)
    decreases |cs|
  {
    if cs == [] then (store, []) else
    var (next, reply) := Exec(store, cs[0]);
    var (final, replies) := Run(next, cs[1..]);
    (final, [reply] + replies)
  }

  // ---------- the same on entries ----------

  type Map = Option<Entries>

  function Held(m: Map): Entries { if m.Some? then m.value else [] }

  /** PUT refuses a key it has, UPDATE moves it to the end or inserts it. */
  ghost function Model(m: Map, c: Command): (Map, Reply) {
    match c
    case CmdPut(p) => (Some(Put(Held(m), p)), PutReply(!Has(Held(m), p.key)))
    case CmdGet(key) => (m, GetReply(if m.None? then NoFile else Lookup(m.value, key)))
    case CmdDelete(key) =>
      if m.None? then (None, DeleteReply(false, false))
      else (Some(Remove(m.value, key)), DeleteReply(true, Has(m.value, key)))
    case CmdUpdate(p) => (Some(Remove(Held(m), p.key) + [p]), UpdateReply(m.Some?, Has(Held(m), p.key), true))
  }

  ghost function ModelRun(m: Map, cs: seq<Command>): (Map, seq<Reply>)
    decreases |cs|
  {
    if cs == [] then (m, []) else
    var (next, reply) := Model(m, cs[0]);
    var (final, replies) := ModelRun(next, cs[1..]);
    (final, [reply] + replies)
  }

  function EncodeMap(m: Map): Text { if m.Some? then Some(Encode(m.value)) else None }

  /** The pair to be stored has the shape the line format can carry. */
  predicate Storable(c: Command) { c.CmdPut? || c.CmdUpdate? ==> Good(c.p) }

  lemma EncodedChars(m: Map)
    ensures Chars(EncodeMap(m)) == Encode(Held(m))
  {
    assert Encode([]) == "";
  }

  lemma NothingToRemove(key: string)
    ensures Remove([], key) == [] && Encode([]) == "" && !Has([], key)
  {
  }

  /** What UPDATE does, with or without a file to delete from. */
  lemma UpdateRefines(es: Entries, p: Pair)
    requires WellFormed(es) && Good(p)
    ensures var left := Remove(es, p.key);
      && DeleteText(Encode(es), p.key) == Encode(left) && (HasLineFor(Encode(es), p.key) <==> Has(es, p.key))
      && !HasKey(Encode(left), p.key) && PutText(Encode(left), p.key, p.value) == Encode(left + [p])
      && WellFormed(left + [p])
  {
    hide HasKey, DeleteText, HasLineFor, PutText, Encode, Has, Remove, WellFormed;
    var left := Remove(es, p.key);
    DeleteRefines(es, p.key);
    RemoveKeys(es, p.key);
    ScanFinds(es, p.key);
    PutRefines(left, p);
    ScanFinds(left, p.key);
  }

  /** The file always changes as the map does; replies agree too, GET's while all lines are short. */
  lemma ExecRefines(m: Map, c: Command)
    requires WellFormed(Held(m)) && Storable(c)
    ensures Exec(EncodeMap(m), c).0 == EncodeMap(Model(m, c).0)
    ensures !c.CmdGet? || AllShort(Held(m)) ==> Exec(EncodeMap(m), c).1 == Model(m, c).1
    ensures WellFormed(Held(Model(m, c).0))
  {
    hide HasKey, GetText, DeleteText, HasLineFor, PutText, Encode, Has, Remove, Lookup, WellFormed;
    var es := Held(m);
    EncodedChars(m);
    match c {
      case CmdPut(p) => PutRefines(es, p); ScanFinds(es, p.key);
      case CmdGet(key) => if AllShort(es) { GetRefines(es, key); }
      case CmdDelete(key) => DeleteRefines(es, key); RemoveKeys(es, key); ScanFinds(es, key);
      case CmdUpdate(p) => UpdateRefines(es, p); NothingToRemove(p.key);
    }
  }

  predicate ShortCommand(c: Command) { c.CmdPut? || c.CmdUpdate? ==> Short(c.p) }

  lemma {:induction false} RemoveShort(es: Entries, key: string)
    requires AllShort(es)
    ensures AllShort(Remove(es, key))
    decreases |es|
  {
    if es != [] { RemoveShort(es[1..], key); }
  }

  lemma ModelShort(m: Map, c: Command)
    requires AllShort(Held(m)) && ShortCommand(c)
    ensures AllShort(Held(Model(m, c).0))
  {
    match c {
      case CmdPut(_) =>
      case CmdGet(_) =>
      case CmdDelete(key) => RemoveShort(Held(m), key);
      case CmdUpdate(p) => RemoveShort(Held(m), p.key);
    }
  }

  lemma {:induction false} RunRefines(m: Map, cs: seq<Command>)
    requires WellFormed(Held(m)) && forall i :: 0 <= i < |cs| ==> Storable(cs[i])
    ensures Run(EncodeMap(m), cs).0 == EncodeMap(ModelRun(m, cs).0)
    ensures WellFormed(Held(ModelRun(m, cs).0))
    decreases |cs|
  {
    if cs != [] {
      ExecRefines(m, cs[0]);
      assert forall i :: 0 <= i < |cs[1..]| ==> cs[1..][i] == cs[i + 1];
      RunRefines(Model(m, cs[0]).0, cs[1..]);
    }
  }

  lemma {:induction false} RepliesRefine(m: Map, cs: seq<Command>)
    requires WellFormed(Held(m)) && AllShort(Held(m))
    requires forall i :: 0 <= i < |cs| ==> Storable(cs[i]) && ShortCommand(cs[i])
    ensures Run(EncodeMap(m), cs).1 == ModelRun(m, cs).1 && AllShort(Held(ModelRun(m, cs).0))
    decreases |cs|
  {
    if cs != [] {
      ExecRefines(m, cs[0]);
      ModelShort(m, cs[0]);
      assert forall i :: 0 <= i < |cs[1..]| ==> cs[1..][i] == cs[i + 1];
      RepliesRefine(Model(m, cs[0]).0, cs[1..]);
    }
  }

  // ---------- what a key holds, told from the commands alone ----------

  /** The value a key has after one more command, given the one it had. */
  function Tell(key: string, before: GetResult, c: Command): GetResult {
    match c
    case CmdPut(p) => if p.key == key && before == NotFound then Found(p.value) else before
    case CmdGet(_) => before
    case CmdDelete(k) => if k == key then NotFound else before
    case CmdUpdate(p) => if p.key == key then Found(p.value) else before
  }

  function History(key: string, cs: seq<Command>): GetResult {
    if cs == [] then NotFound else Tell(key, History(key, cs[..|cs| - 1]), cs[|cs| - 1])
  }

  lemma {:induction false} LookupHas(es: Entries, key: string)
    ensures Lookup(es, key) == NotFound <==> !Has(es, key)
    ensures Lookup(es, key) != NotFound ==> Lookup(es, key).Found?
    decreases |es|
  {
    if es != [] {
      HasTail(es, key);
      LookupHas(es[1..], key);
    }
  }

  lemma {:induction false} LookupConcat(es: Entries, p: Pair, key: string)
    ensures Lookup(es + [p], key) == if Lookup(es, key) == NotFound && p.key == key then Found(p.value) else Lookup(es, key)
    decreases |es|
  {
    if es == [] {
      assert es + [p] == [p];
    } else {
      assert (es + [p])[1..] == es[1..] + [p];
      LookupConcat(es[1..], p, key);
      LookupHas(es[1..], key);
    }
  }

  lemma {:induction false} LookupRemove(es: Entries, removed: string, key: string)
    ensures Lookup(Remove(es, removed), key) == if removed == key then NotFound else Lookup(es, key)
    decreases |es|
  {
    if es != [] {
      var rest := Remove(es[1..], removed);
      assert Remove(es, removed) == if es[0].key == removed then rest else [es[0]] + rest;
      assert ([es[0]] + rest)[1..] == rest;
      LookupRemove(es[1..], removed, key);
    }
  }

  lemma ModelTells(m: Map, c: Command, key: string)
    ensures Lookup(Held(Model(m, c).0), key) == Tell(key, Lookup(Held(m), key), c)
  {
    var es := Held(m);
    LookupHas(es, key);
    match c {
      case CmdPut(p) => LookupConcat(es, p, key);
      case CmdGet(_) =>
      case CmdDelete(k) => LookupRemove(es, k, key);
      case CmdUpdate(p) => LookupRemove(es, p.key, key); LookupConcat(Remove(es, p.key), p, key);
    }
  }

  lemma {:induction false} ModelRunSnoc(m: Map, cs: seq<Command>, c: Command)
    ensures ModelRun(m, cs + [c]).0 == Model(ModelRun(m, cs).0, c).0
    decreases |cs|
  {
    if cs == [] {
      assert (cs + [c])[1..] == [];
    } else {
      assert (cs + [c])[1..] == cs[1..] + [c];
      ModelRunSnoc(Model(m, cs[0]).0, cs[1..], c);
    }
  }

  lemma {:induction false} HistoryIsLookup(cs: seq<Command>, key: string)
    ensures Lookup(Held(ModelRun(None, cs).0), key) == History(key, cs)
    decreases |cs|
  {
    if cs != [] {
      var init, c := cs[..|cs| - 1], cs[|cs| - 1];
      assert cs == init + [c];
      HistoryIsLookup(init, key);
      ModelRunSnoc(None, init, c);
      ModelTells(ModelRun(None, init).0, c, key);
    }
  }

  predicate DistinctKeys(es: Entries) { forall i, j :: 0 <= i < j < |es| ==> es[i].key != es[j].key }

  /** `key=value` lines with distinct keys that hold, for each key, what the history of commands says. */
  ghost predicate TellsHistory(file: string, cs: seq<Command>) {
    exists es :: WellFormed(es) && DistinctKeys(es) && file == Encode(es) && forall key :: Lookup(es, key) == History(key, cs)
  }

  /** After any session of storable commands on a fresh store that is what the file consists of: the
      value of a key is the one last stored under it and not deleted since. */
  lemma SessionTellsHistory(cs: seq<Command>)
    requires forall i :: 0 <= i < |cs| ==> Storable(cs[i])
    ensures TellsHistory(Chars(Run(None, cs).0), cs)
  {
    RunRefines(None, cs);
    var es := Held(ModelRun(None, cs).0);
    forall key ensures Lookup(es, key) == History(key, cs) { HistoryIsLookup(cs, key); }
    assert Chars(Run(None, cs).0) == Encode(es);
  }

  /** While all lines are short, a GET at the end of the session answers exactly that. */
  lemma SessionGet(cs: seq<Command>, key: string)
    requires forall i :: 0 <= i < |cs| ==> Storable(cs[i]) && ShortCommand(cs[i])
    requires Run(None, cs).0.Some?
    ensures Exec(Run(None, cs).0, CmdGet(key)).1 == GetReply(History(key, cs))
  {
    RunRefines(None, cs);
    RepliesRefine(None, cs);
    GetRefines(Held(ModelRun(None, cs).0), key);
    HistoryIsLookup(cs, key);
  }

  // ---------- what GET prints ----------

  lemma FoundIsPrinted(value: string, buffer: seq<char>)
    requires GoodWord(value) && |value| < |buffer|
    ensures Printed(AfterGet(Found(value), buffer)) == value
  {
    BeforeFirst(value, '\0', seq(|buffer| - |value| - 1, _ => '\0'));
    assert value[..|value|] == value;
    assert AfterGet(Found(value), buffer) == value + ['\0'] + seq(|buffer| - |value| - 1, _ => '\0');
  }

  lemma {:induction false} LookupGood(es: Entries, key: string)
    requires WellFormed(es) && AllShort(es) && Lookup(es, key).Found?
    ensures GoodWord(Lookup(es, key).value) && |Lookup(es, key).value| < GET_LINE
    decreases |es|
  {
    TailWellFormed(es);
    assert Good(es[0]) && Short(es[0]);
    if es[0].key != key { LookupGood(es[1..], key); }
  }

  /** What should be printed as the value: nothing for a key without one. */
  function ValueText(r: GetResult): string { if r.Found? then r.value else "" }

  /** After any session of short lines, main prints the value the history tells for the key if and
      only if there is one, or the buffer it passes happens to hold an empty string: for a key without
      a value it prints whatever the buffer held before, since GET leaves it unwritten. */
  lemma SessionPrints(cs: seq<Command>, key: string, buffer: seq<char>)
    requires forall i :: 0 <= i < |cs| ==> Storable(cs[i]) && ShortCommand(cs[i])
    requires |buffer| == GET_LINE
    ensures var told := History(key, cs);
      var shown := Printed(AfterGet(Exec(Run(None, cs).0, CmdGet(key)).1.result, buffer));
      && (shown == ValueText(told) <==> told.Found? || Printed(buffer) == "")
      && (!told.Found? ==> shown == Printed(buffer))
  {
    RunRefines(None, cs);
    RepliesRefine(None, cs);
    HistoryIsLookup(cs, key);
    var es := Held(ModelRun(None, cs).0);
    if Run(None, cs).0.Some? { SessionGet(cs, key); }
    LookupHas(es, key);
    if History(key, cs).Found? {
      LookupGood(es, key);
      FoundIsPrinted(History(key, cs).value, buffer);
    }
  }

  /** A session that shows it: after PUT of one pair and GET of its key, GET of any other key with the
      same buffer prints the first key's value, although nothing was ever stored under it. */
  lemma StaleValuePrinted(p: Pair, other: string, buffer: seq<char>)
    requires Good(p) && Short(p) && other != p.key && |buffer| == GET_LINE
    ensures var store := Run(None, [CmdPut(p)]).0;
      var first := AfterGet(Exec(store, CmdGet(p.key)).1.result, buffer);
      var second := AfterGet(Exec(store, CmdGet(other)).1.result, first);
      History(other, [CmdPut(p)]) == NotFound && Printed(first) == p.value && Printed(second) == p.value
  {
    var cs := [CmdPut(p)];
    assert cs[..0] == [] && History(p.key, []) == NotFound && History(other, []) == NotFound;
    assert History(p.key, cs) == Found(p.value) && History(other, cs) == NotFound;
    SessionPrints(cs, p.key, buffer);
    SessionPrints(cs, other, AfterGet(Exec(Run(None, cs).0, CmdGet(p.key)).1.result, buffer));
  }

  lemma RunNext(m: Map, c: Command, cs: seq<Command>)
    ensures ModelRun(m, [c] + cs).0 == ModelRun(Model(m, c).0, cs).0
  {
    assert ([c] + cs)[1..] == cs;
  }

  /** PUT appends a new key and refuses a known one; UPDATE moves a known key to the end and inserts a
      new one. */
  lemma ExampleFile()
    ensures var cs := [CmdPut(Pair("a", "1"))] + ([CmdPut(Pair("b", "2"))] + ([CmdPut(Pair("a", "9"))] +
                      ([CmdUpdate(Pair("a", "3"))] + ([CmdUpdate(Pair("c", "4"))] + []))));
      Run(None, cs).0 == Some("b=2\na=3\nc=4\n")
  {
    hide Run, ModelRun, Has;
    var a, b, a9, a3, c4 := Pair("a", "1"), Pair("b", "2"), Pair("a", "9"), Pair("a", "3"), Pair("c", "4");
    var last := [CmdUpdate(c4)] + [];
    var late := [CmdUpdate(a3)] + last;
    var mid := [CmdPut(a9)] + late;
    var most := [CmdPut(b)] + mid;
    ExampleEntries();
    RunNext(Some([b, a3]), CmdUpdate(c4), []);
    RunNext(Some([a, b]), CmdUpdate(a3), last);
    RunNext(Some([a, b]), CmdPut(a9), late);
    RunNext(Some([a]), CmdPut(b), mid);
    RunNext(None, CmdPut(a), most);
    EmptyRun(Some([b, a3, c4]));
    RunRefines(None, [CmdPut(a)] + most);
  }

  lemma EmptyRun(m: Map)
    ensures ModelRun(m, []).0 == m
  {
  }

  lemma ExampleEntries()
    ensures var a, b, a9, a3, c4 := Pair("a", "1"), Pair("b", "2"), Pair("a", "9"), Pair("a", "3"), Pair("c", "4");
      && Put([], a) == [a] && Put([a], b) == [a, b] && Put([a, b], a9) == [a, b]
      && Remove([a, b], "a") + [a3] == [b, a3] && Remove([b, a3], "c") + [c4] == [b, a3, c4]
      && Encode([b, a3, c4]) == "b=2\na=3\nc=4\n"
  {
    ExamplePuts();
    ExampleText();
    hide Encode, Put;
    var a, b, a3 := Pair("a", "1"), Pair("b", "2"), Pair("a", "3");
    assert Remove([b], "a") == [b] + Remove([], "a") && [a, b][1..] == [b];
    RemoveAbsent([b, a3], "c");
  }

  lemma ExamplePuts()
    ensures var a, b, a9 := Pair("a", "1"), Pair("b", "2"), Pair("a", "9");
      Put([], a) == [a] && Put([a], b) == [a, b] && Put([a, b], a9) == [a, b]
  {
    assert [Pair("a", "1"), Pair("b", "2")][0].key == "a";
  }

  lemma ExampleText()
    ensures Encode([Pair("b", "2"), Pair("a", "3"), Pair("c", "4")]) == "b=2\na=3\nc=4\n"
  {
    var b, a3, c4 := Pair("b", "2"), Pair("a", "3"), Pair("c", "4");
    assert [b, a3, c4][1..] == [a3, c4] && [a3, c4][1..] == [c4] && [c4][1..] == [];
    assert Encode([c4]) == "c=4\n" + Encode([]);
    assert Encode([a3, c4]) == "a=3\n" + Encode([c4]);
  }
}
