/** The file as an ordered map: what the characters of a well-formed store stand for. */
module StoreMap {
  import opened LineText
  import opened StoreText

  datatype Pair = Pair(key: string, value: string)

  type Entries = seq<Pair>

  predicate GoodWord(s: string) { s != "" && '=' !in s && '\n' !in s && '\0' !in s }

  function Line(p: Pair): string { p.key + "=" + p.value + "\n" }

  /** A pair the line format can carry; every pair that fits on a command line is short enough. */
  predicate Good(p: Pair) { GoodWord(p.key) && GoodWord(p.value) && |Line(p)| < LINE }

  /** Its line, newline included, also fits the smaller buffer GET reads into. */
  predicate Short(p: Pair) { |Line(p)| < GET_LINE }

  predicate AllShort(es: Entries) { forall i :: 0 <= i < |es| ==> Short(es[i]) }

  function Encode(es: Entries): string { if es == [] then "" else Line(es[0]) + Encode(es[1..]) }

  predicate Has(es: Entries, key: string) { exists i :: 0 <= i < |es| && es[i].key == key }

  /** Distinct keys, and every pair storable. */
  ghost predicate WellFormed(es: Entries) {
    && (forall i :: 0 <= i < |es| ==> Good(es[i]))
    && (forall i, j :: 0 <= i < j < |es| ==> es[i].key != es[j].key)
  }

  // ---------- the abstract commands ----------

  function Put(es: Entries, p: Pair): Entries { if Has(es, p.key) then es else es + [p] }

  function Remove(es: Entries, key: string): Entries {
    if es == [] then [] else (if es[0].key == key then [] else [es[0]]) + Remove(es[1..], key)
  }

  function Lookup(es: Entries, key: string): GetResult {
    if es == [] then NotFound else if es[0].key == key then Found(es[0].value) else Lookup(es[1..], key)
  }

  // ---------- reading one line back ----------

  lemma FirstLine(es: Entries, size: nat)
    requires es != [] && Good(es[0]) && |Line(es[0])| < size
    ensures var file := Encode(es);
      && FgetsLength(file, size) == |Line(es[0])|
      && file[..|Line(es[0])|] == Line(es[0]) && file[|Line(es[0])|..] == Encode(es[1..])
      && LineOf(Line(es[0])) == es[0].key + "=" + es[0].value
      && KeyValue(LineOf(Line(es[0]))) == (Some(es[0].key), Some(es[0].value))
  {
    var line := es[0].key + "=" + es[0].value;
    FgetsLine(line, Encode(es[1..]), size);
    assert Encode(es) == line + "\n" + Encode(es[1..]);
    BeforeFirst(line, '\n', "");
    assert line + ['\n'] + "" == Line(es[0]);
    TokensOfLine(es[0].key, es[0].value);
  }

  lemma TailWellFormed(es: Entries)
    requires es != [] && WellFormed(es)
    ensures WellFormed(es[1..]) && !Has(es[1..], es[0].key)
    ensures AllShort(es) <==> Short(es[0]) && AllShort(es[1..])
  {
    assert forall i :: 0 <= i < |es[1..]| ==> es[1..][i] == es[i + 1];
    assert forall i :: 0 < i < |es| ==> es[i] == es[1..][i - 1];
  }

  lemma HasTail(es: Entries, key: string)
    requires es != []
    ensures Has(es, key) <==> es[0].key == key || Has(es[1..], key)
  {
    if Has(es[1..], key) {
      var i :| 0 <= i < |es[1..]| && es[1..][i].key == key;
      assert es[i + 1].key == key;
    }
    if Has(es, key) && es[0].key != key {
      var i :| 0 <= i < |es| && es[i].key == key;
      assert es[1..][i - 1].key == key;
    }
  }

  // ---------- each command on characters is the command on entries ----------

  lemma {:induction false} ScanFinds(es: Entries, key: string)
    requires WellFormed(es)
    ensures HasKey(Encode(es), key) <==> Has(es, key)
    ensures HasLineFor(Encode(es), key) <==> Has(es, key)
    ensures BrokenChunks(Encode(es)) == 0
    decreases |es|
  {
    if es != [] {
      FirstLine(es, LINE);
      HasTail(es, key);
      TailWellFormed(es);
      ScanFinds(es[1..], key);
    }
  }

  lemma {:induction false} EncodeConcat(es: Entries, fs: Entries)
    ensures Encode(es + fs) == Encode(es) + Encode(fs)
    decreases |es|
  {
    if es == [] {
      assert es + fs == fs;
    } else {
      assert (es + fs)[1..] == es[1..] + fs;
      EncodeConcat(es[1..], fs);
    }
  }

  lemma PutRefines(es: Entries, p: Pair)
    requires WellFormed(es) && Good(p)
    ensures PutText(Encode(es), p.key, p.value) == Encode(Put(es, p)) && WellFormed(Put(es, p))
  {
    hide HasKey, Encode, NewLine;
    ScanFinds(es, p.key);
    EncodeConcat(es, [p]);
    NewLineIsLine(p);
  }

  lemma NewLineIsLine(p: Pair)
    requires Good(p)
    ensures NewLine(p.key, p.value) == Line(p) == Encode([p])
  {
    var kv := p.key + "=" + p.value;
    assert kv[..|kv|] == kv;
    assert Encode([p]) == Line(p) + "";
  }

  lemma {:induction false} GetRefines(es: Entries, key: string)
    requires WellFormed(es) && AllShort(es)
    ensures GetText(Encode(es), key) == Lookup(es, key)
    decreases |es|
  {
    if es != [] {
      FirstLine(es, GET_LINE);
      TailWellFormed(es);
      GetRefines(es[1..], key);
    }
  }

  lemma {:induction false} LongKeyNotFound(file: string, key: string)
    requires |key| >= GET_LINE
    ensures !GetText(file, key).Found?
    decreases |file|
  {
    if file != "" { LongKeyNotFound(file[FgetsLength(file, GET_LINE)..], key); }
  }

  lemma {:induction false} FgetsCuts(line: string, rest: string, size: nat)
    requires '\n' !in line && 0 < size <= |line| + 1
    ensures FgetsLength(line + rest, size) == size - 1
    decreases size
  {
    if size > 1 {
      assert (line + rest)[1..] == line[1..] + rest;
      FgetsCuts(line[1..], rest, size - 1);
    }
  }

  // ---------- GET on lines that are too long for it ----------

  function Xs(n: nat): string { seq(n, _ => 'x') }

  /** Some row of x's, no longer than the store has lines and one more, is not one of its keys. */
  lemma {:induction false} FreshKey(es: Entries) returns (n: nat)
    ensures 0 < n <= |es| + 1 && !Has(es, Xs(n)) && GoodWord(Xs(n))
    decreases |es|
  {
    n := |es| + 1;
    assert Xs(n)[0] == 'x';
    if Has(es, Xs(n)) {
      var i :| 0 <= i < |es| && es[i].key == Xs(n);
      var rest := es[..i] + es[i + 1..];
      var k := FreshKey(rest);
      forall j | 0 <= j < |es| ensures es[j].key != Xs(k) {
        if j < i { assert rest[j].key != Xs(k); }
        else if j > i { assert rest[j - 1].key != Xs(k); }
        else { assert |Xs(n)| == n && |Xs(k)| == k; }
      }
      n := k;
    }
  }

  /** A line that leaves only its newline for the next read makes GET stop there: every other key from
      there on is answered with a NULL dereference. */
  lemma NewlineLeftOver(es: Entries, key: string)
    requires es != [] && WellFormed(es) && |Line(es[0])| == 512 && key != es[0].key
    ensures GetText(Encode(es), key) == Undefined
  {
    var p, file := es[0], Encode(es);
    var kv := p.key + "=" + p.value;
    FgetsCuts(kv, "\n" + Encode(es[1..]), GET_LINE);
    assert file == kv + ("\n" + Encode(es[1..]));
    assert file[..GET_LINE - 1] == kv && file[GET_LINE - 1..] == "\n" + Encode(es[1..]);
    BeforeFirst(kv, '\n', "");
    TokensOfLine(p.key, p.value);
    BlankLine(Encode(es[1..]), key);
  }

  lemma BlankLine(rest: string, key: string)
    ensures GetText("\n" + rest, key) == Undefined
  {
    var file := "\n" + rest;
    assert FgetsLength(file, GET_LINE) == 1 && file[..1] == "\n";
    assert LineOf("\n") == "";
  }

  /** A longer line is cut inside, and its own key gets less than its value or nothing. */
  lemma LineCut(es: Entries)
    requires es != [] && WellFormed(es) && |Line(es[0])| > 512
    ensures GetText(Encode(es), es[0].key) != Found(es[0].value)
  {
    var p, file := es[0], Encode(es);
    var kv := p.key + "=" + p.value;
    FgetsCuts(kv, "\n" + Encode(es[1..]), GET_LINE);
    assert file == kv + ("\n" + Encode(es[1..]));
    var piece := kv[..GET_LINE - 1];
    assert file[..GET_LINE - 1] == piece;
    BeforeFirst(piece, '\n', "");
    PieceTokens(p);
    hide KeyValue, Encode;
    if |p.key| >= GET_LINE { LongKeyNotFound(file[GET_LINE - 1..], p.key); }
  }

  /** The first piece of an overlong line holds less than the pair. */
  lemma PieceTokens(p: Pair)
    requires Good(p) && |Line(p)| > GET_LINE
    ensures var (k, v) := KeyValue((p.key + "=" + p.value)[..GET_LINE - 1]);
      && k.Some? && (|p.key| < GET_LINE ==> k.value == p.key && v != Some(p.value)) && (|p.key| >= GET_LINE ==> k.value != p.key)
  {
    var piece := (p.key + "=" + p.value)[..GET_LINE - 1];
    if |p.key| < GET_LINE - 2 {
      var part := p.value[..GET_LINE - 2 - |p.key|];
      assert piece == p.key + "=" + part;
      TokensOfLine(p.key, part);
    } else {
      KeyOnly(piece, p.key[..Min(|p.key|, GET_LINE - 1)]);
    }
  }

  lemma KeyOnly(piece: string, key: string)
    requires key != "" && '=' !in key && (piece == key || piece == key + "=")
    ensures KeyValue(piece) == (Some(key), None)
  {
    BeforeFirst(key, '=', "");
    assert key + "=" == key + ['='] + "";
    assert Skip(piece, '=') == piece;
  }

  /** With a line that is too long, GET answers some key wrongly: one that is stored, or `other`. */
  lemma {:induction false} TooLongForGet(es: Entries, other: string) returns (key: string)
    requires WellFormed(es) && !AllShort(es) && !Has(es, other)
    ensures key == other || Has(es, key)
    ensures GetText(Encode(es), key) != Lookup(es, key)
    decreases |es|
  {
    TailWellFormed(es);
    HasTail(es, other);
    if Short(es[0]) {
      key := TooLongForGet(es[1..], other);
      HasTail(es, key);
      assert Good(es[0]);
      FirstLine(es, GET_LINE);
    } else if |Line(es[0])| == GET_LINE {
      key := other;
      NewlineLeftOver(es, key);
      LookupDefined(es, key);
    } else {
      key := es[0].key;
      HasTail(es, key);
      LineCut(es);
    }
  }

  lemma {:induction false} LookupDefined(es: Entries, key: string)
    ensures Lookup(es, key).Found? || Lookup(es, key) == NotFound
    decreases |es|
  {
    if es != [] { LookupDefined(es[1..], key); }
  }

  /** GET answers every well-formed key correctly if and only if every line fits its 512-byte buffer. */
  lemma GetExactlyWhenShort(es: Entries)
    requires WellFormed(es)
    ensures (forall key :: GoodWord(key) ==> GetText(Encode(es), key) == Lookup(es, key)) <==> forall i :: 0 <= i < |es| ==> |Line(es[i])| < 512
  {
    if AllShort(es) {
      forall key ensures GetText(Encode(es), key) == Lookup(es, key) { GetRefines(es, key); }
    } else {
      var n := FreshKey(es);
      var key := TooLongForGet(es, Xs(n));
      if Has(es, key) { assert exists i :: 0 <= i < |es| && Good(es[i]) && es[i].key == key; }
    }
  }

  lemma ConsWellFormed(p: Pair, es: Entries)
    requires Good(p) && WellFormed(es) && !Has(es, p.key)
    ensures WellFormed([p] + es)
  {
    var ps := [p] + es;
    assert forall i :: 0 < i < |ps| ==> ps[i] == es[i - 1];
  }

  /** Removing takes out that key and nothing else. */
  lemma {:induction false} RemoveKeys(es: Entries, key: string)
    requires WellFormed(es)
    ensures WellFormed(Remove(es, key))
    ensures forall k :: Has(Remove(es, key), k) <==> Has(es, k) && k != key
    decreases |es|
  {
    if es != [] {
      var rest := Remove(es[1..], key);
      TailWellFormed(es);
      RemoveKeys(es[1..], key);
      assert Remove(es, key) == if es[0].key == key then rest else [es[0]] + rest;
      if es[0].key != key { ConsWellFormed(es[0], rest); }
      forall k ensures Has(Remove(es, key), k) <==> Has(es, k) && k != key {
        HasTail(es, k);
        HasTail([es[0]] + rest, k);
        assert ([es[0]] + rest)[1..] == rest;
      }
    }
  }

  lemma {:induction false} DeleteRefines(es: Entries, key: string)
    requires WellFormed(es)
    ensures DeleteText(Encode(es), key) == Encode(Remove(es, key))
    decreases |es|
  {
    if es != [] {
      TailWellFormed(es);
      DeleteRefines(es[1..], key);
      DeleteFirst(es, key);
      var rest := Remove(es[1..], key);
      assert Remove(es, key) == if es[0].key == key then rest else [es[0]] + rest;
      assert ([es[0]] + rest)[1..] == rest;
    }
  }

  lemma DeleteFirst(es: Entries, key: string)
    requires es != [] && Good(es[0])
    ensures DeleteText(Encode(es), key) == (if es[0].key == key then "" else Line(es[0])) + DeleteText(Encode(es[1..]), key)
  {
    FirstLine(es, LINE);
    hide Encode, DeleteText, HasLineFor, BrokenChunks, LineOf, KeyValue;
    FirstChunk(Encode(es), key);
    assert Line(es[0]) == LineOf(Line(es[0])) + "\n";
  }

  lemma ListFirst(es: Entries)
    requires es != [] && Good(es[0])
    ensures ListText(Encode(es)) == [(es[0].key, es[0].value + "\n")] + ListText(Encode(es[1..]))
  {
    hide Encode, KeyValue, FgetsLength;
    FirstLine(es, LINE);
    TokensOfLine(es[0].key, es[0].value + "\n");
    assert Line(es[0]) == es[0].key + "=" + (es[0].value + "\n");
  }

  /** LIST shows every pair in file order, with the newline still attached to the value. */
  lemma {:induction false} ListRefines(es: Entries)
    requires WellFormed(es)
    ensures ListText(Encode(es)) == seq(|es|, i requires 0 <= i < |es| => (es[i].key, es[i].value + "\n"))
    decreases |es|
  {
    hide ListText, Encode;
    if es == [] {
      NothingListed();
    } else {
      ListFirst(es);
      TailWellFormed(es);
      ListRefines(es[1..]);
    }
  }

  lemma NothingListed()
    ensures ListText(Encode([])) == []
  {
  }

  // ---------- undo ----------

  lemma {:induction false} RemoveAbsent(es: Entries, key: string)
    requires !Has(es, key)
    ensures Remove(es, key) == es
    decreases |es|
  {
    if es != [] {
      HasTail(es, key);
      RemoveAbsent(es[1..], key);
    }
  }

  lemma {:induction false} RemoveConcat(es: Entries, fs: Entries, key: string)
    ensures Remove(es + fs, key) == Remove(es, key) + Remove(fs, key)
    decreases |es|
  {
    if es == [] {
      assert es + fs == fs;
    } else {
      assert (es + fs)[1..] == es[1..] + fs;
      RemoveConcat(es[1..], fs, key);
    }
  }

  lemma RemoveAppended(es: Entries, p: Pair)
    requires !Has(es, p.key)
    ensures Remove(es + [p], p.key) == es
  {
    RemoveConcat(es, [p], p.key);
    RemoveAbsent(es, p.key);
    assert Remove([p], p.key) == [];
  }

  /** Byte for byte: PUT of a new key followed by DELETE restores the file, and a refused PUT or a
      DELETE of an unknown key leaves it as it is. */
  lemma PutThenDelete(es: Entries, p: Pair)
    requires WellFormed(es) && Good(p)
    ensures !Has(es, p.key) ==> DeleteText(PutText(Encode(es), p.key, p.value), p.key) == Encode(es)
    ensures !Has(es, p.key) ==> DeleteText(Encode(es), p.key) == Encode(es)
    ensures Has(es, p.key) ==> PutText(Encode(es), p.key, p.value) == Encode(es)
  {
    PutRefines(es, p);
    if !Has(es, p.key) {
      DeleteRefines(es + [p], p.key);
      RemoveAppended(es, p);
      RemoveAbsent(es, p.key);
      DeleteRefines(es, p.key);
    }
  }
}
