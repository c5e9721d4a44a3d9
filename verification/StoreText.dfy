/** The store's commands as functions on the characters of store.txt. */
module StoreText {
  import opened LineText

  const LINE := 700      // line buffer of PUT, DELETE and LIST, and the buffer a new line is built in
  const GET_LINE := 512  // line and value buffers of GET

  datatype GetResult = Found(value: string) | NotFound | NoFile | Undefined

  function Min(a: int, b: int): int { if a < b then a else b }

  /** First and second token of a line. */
  function KeyValue(line: string): (Option<string>, Option<string>) {
    var (k, rest) := Strtok(line, '=');
    (k, Strtok(rest, '=').0)
  }

  function LineOf(chunk: string): string { Before(chunk, '\n') }

  /** PUT's scan for an existing line with this key. */
  predicate HasKey(file: string, key: string)
    decreases |file|
  {
    file != "" &&
    var n := FgetsLength(file, LINE);
    (KeyValue(LineOf(file[..n])).0 == Some(key) || HasKey(file[n..], key))
  }

  function NewLine(key: string, value: string): string {
    var kv := key + "=" + value;
    kv[..Min(|kv|, LINE - 1)] + "\n"
  }

  function PutText(file: string, key: string, value: string): string {
    if HasKey(file, key) then file else file + NewLine(key, value)
  }

  /** GET: a line without key stops it in strcmp(NULL, ...), a matching line without value in
      strncpy(..., NULL, ...). */
  function GetText(file: string, key: string): GetResult
    decreases |file|
  {
    if file == "" then NotFound else
    var n := FgetsLength(file, GET_LINE);
    var (k, v) := KeyValue(LineOf(file[..n]));
    if k.None? then Undefined
    else if k.value == key then
      if v.None? then Undefined else Found(v.value)
    else GetText(file[n..], key)
  }

  /** The caller's buffer after GET: strncpy pads a value that was found with NULs and the last byte
      is always one; a buffer for which nothing was found is not written at all. */
  function AfterGet(r: GetResult, buffer: seq<char>): seq<char> {
    if r.Found? && buffer != [] then
      var n := Min(|r.value|, |buffer| - 1);
      r.value[..n] + seq(|buffer| - n, _ => '\0')
    else buffer
  }

  /** The C string in a buffer: what main prints as the value. */
  function Printed(buffer: seq<char>): string { Before(buffer, '\0') }

  /** DELETE drops a line only if it has a value too. */
  predicate Deletes(line: string, key: string) { KeyValue(line).0 == Some(key) && KeyValue(line).1.Some? }

  function DeleteText(file: string, key: string): string
    decreases |file|
  {
    if file == "" then "" else
    var n := FgetsLength(file, LINE);
    var line := LineOf(file[..n]);
    (if Deletes(line, key) then "" else line + "\n") + DeleteText(file[n..], key)
  }

  predicate HasLineFor(file: string, key: string)
    decreases |file|
  {
    file != "" &&
    var n := FgetsLength(file, LINE);
    (Deletes(LineOf(file[..n]), key) || HasLineFor(file[n..], key))
  }

  /** LIST does not cut the newline off, so it ends up in the value. */
  function ListText(file: string): seq<(string, string)>
    decreases |file|
  {
    if file == "" then [] else
    var n := FgetsLength(file, LINE);
    var (k, v) := KeyValue(file[..n]);
    (if k.Some? && v.Some? then [(k.value, v.value)] else []) + ListText(file[n..])
  }

  // ---------- rewriting without a match ----------

  /** Chunks that do not end in a newline: an overlong line or an unterminated last one. */
  function BrokenChunks(file: string): nat
    decreases |file|
  {
    if file == "" then 0 else
    var n := FgetsLength(file, LINE);
    (if '\n' in file[..n] then 0 else 1) + BrokenChunks(file[n..])
  }

  /** A chunk has at most one newline, at its end. */
  lemma FgetsNewlineLast(file: string, size: nat)
    ensures var chunk := file[..FgetsLength(file, size)];
      chunk == if '\n' in chunk then LineOf(chunk) + "\n" else LineOf(chunk)
  {
    var n := FgetsLength(file, size);
    var chunk := file[..n];
    if n > 0 && chunk[n - 1] == '\n' {
      BeforeFirst(chunk[..n - 1], '\n', "");
      assert chunk == chunk[..n - 1] + ['\n'] + "";
    } else {
      BeforeFirst(chunk, '\n', "");
    }
  }

  lemma {:induction false} DeleteWithoutMatchLength(file: string, key: string)
    requires !HasLineFor(file, key)
    ensures |DeleteText(file, key)| == |file| + BrokenChunks(file)
    decreases |file|
  {
    if file != "" {
      FgetsNewlineLast(file, LINE);
      DeleteWithoutMatchLength(file[FgetsLength(file, LINE)..], key);
    }
  }

  lemma EmptyFile(key: string)
    ensures DeleteText("", key) == "" && !HasLineFor("", key)
  {
  }

  lemma FirstChunk(file: string, key: string)
    requires file != ""
    ensures var n := FgetsLength(file, LINE);
      var line := LineOf(file[..n]);
      && DeleteText(file, key) == (if Deletes(line, key) then "" else line + "\n") + DeleteText(file[n..], key)
      && (HasLineFor(file, key) <==> Deletes(line, key) || HasLineFor(file[n..], key))
      && BrokenChunks(file) == (if '\n' in file[..n] then 0 else 1) + BrokenChunks(file[n..])
  {
    hide Deletes, LineOf, FgetsLength;
  }

  lemma CleanChunk(file: string, key: string)
    requires file != "" && !HasLineFor(file, key) && BrokenChunks(file) == 0
    ensures var n := FgetsLength(file, LINE);
      && DeleteText(file, key) == file[..n] + DeleteText(file[n..], key)
      && !HasLineFor(file[n..], key) && BrokenChunks(file[n..]) == 0
      && file == file[..n] + file[n..]
  {
    hide Deletes, LineOf, FgetsLength, DeleteText, HasLineFor, BrokenChunks;
    FirstChunk(file, key);
    FgetsNewlineLast(file, LINE);
  }

  /** A DELETE that matches nothing copies the file, adding a newline to every chunk that lacks one;
      so it leaves the file alone exactly when every line ends in a newline within the buffer. */
  lemma {:induction false} DeleteWithoutMatch(file: string, key: string)
    requires !HasLineFor(file, key)
    ensures DeleteText(file, key) == file <==> BrokenChunks(file) == 0
    decreases |file|
  {
    hide DeleteText, BrokenChunks, HasLineFor;
    DeleteWithoutMatchLength(file, key);
    if file == "" {
      EmptyFile(key);
    } else if BrokenChunks(file) == 0 {
      CleanChunk(file, key);
      DeleteWithoutMatch(file[FgetsLength(file, LINE)..], key);
    }
  }

  // ---------- which pairs survive the line format ----------

  lemma {:induction false} TokensOfLine(key: string, value: string)
    requires key != "" && value != "" && '=' !in key && '=' !in value
    ensures KeyValue(key + "=" + value) == (Some(key), Some(value))
  {
    BeforeFirst(key, '=', value);
    BeforeFirst(value, '=', "");
    var line := key + "=" + value;
    assert line == key + ['='] + value;
    assert Skip(line, '=') == line;
    assert line[|key| + 1..] == value;
  }

  /** A stored pair reads back as itself if and only if neither part contains the separator. */
  lemma PairSurvives(key: string, value: string)
    requires key != "" && value != ""
    ensures KeyValue(key + "=" + value) == (Some(key), Some(value)) <==> '=' !in key && '=' !in value
  {
    if '=' !in key && '=' !in value { TokensOfLine(key, value); }
  }

  // ---------- the scans, told over all lines of the file ----------

  /** The pieces fgets delivers one after the other. */
  function Chunks(file: string, size: nat): seq<string>
    requires size > 1
    decreases |file|
  {
    if file == "" then [] else
    var n := FgetsLength(file, size);
    [file[..n]] + Chunks(file[n..], size)
  }

  function Flat(ss: seq<string>): string { if ss == [] then "" else ss[0] + Flat(ss[1..]) }

  lemma {:induction false} ChunksAreTheFile(file: string, size: nat)
    requires size > 1
    ensures Flat(Chunks(file, size)) == file
    decreases |file|
  {
    if file != "" {
      var n := FgetsLength(file, size);
      ChunksAreTheFile(file[n..], size);
      assert file == file[..n] + file[n..];
    }
  }

  /** The tokens of a line, its newline cut off. */
  function Fields(chunk: string): seq<string> { Tokens(LineOf(chunk), '=') }

  lemma FirstTwoTokens(line: string)
    ensures var ts := Tokens(line, '=');
      KeyValue(line) == (if |ts| > 0 then Some(ts[0]) else None, if |ts| > 1 then Some(ts[1]) else None)
  {
    var (k, rest) := Strtok(line, '=');
    if k.Some? {
      assert Tokens(line, '=') == [k.value] + Tokens(rest, '=');
    } else {
      assert Skip("", '=') == "";
    }
  }

  /** The line starts with this key, whether or not it has a value. */
  predicate KeyedBy(chunk: string, key: string) { |Fields(chunk)| > 0 && Fields(chunk)[0] == key }

  /** PUT refuses the key exactly when some line starts with it, with or without a value. */
  lemma {:induction false} PutScans(file: string, key: string)
    ensures HasKey(file, key) <==> exists i :: 0 <= i < |Chunks(file, LINE)| && KeyedBy(Chunks(file, LINE)[i], key)
    decreases |file|
  {
    if file != "" {
      var n, cs := FgetsLength(file, LINE), Chunks(file, LINE);
      PutScans(file[n..], key);
      FirstTwoTokens(LineOf(cs[0]));
      hide LineOf, Fields, KeyValue;
      assert forall i :: 0 < i < |cs| ==> cs[i] == Chunks(file[n..], LINE)[i - 1];
      if HasKey(file[n..], key) {
        var i :| 0 <= i < |cs[1..]| && KeyedBy(cs[1..][i], key);
        assert KeyedBy(cs[i + 1], key);
      }
    }
  }

  /** What DELETE writes for a line: nothing if it has this key and a value, else the line. */
  function Rewritten(chunk: string, key: string): string {
    if |Fields(chunk)| > 1 && Fields(chunk)[0] == key then "" else LineOf(chunk) + "\n"
  }

  function RewrittenAll(cs: seq<string>, key: string): seq<string> { seq(|cs|, i requires 0 <= i < |cs| => Rewritten(cs[i], key)) }

  lemma ChunksCons(file: string, size: nat)
    requires file != "" && size > 1
    ensures var n := FgetsLength(file, size); Chunks(file, size) == [file[..n]] + Chunks(file[n..], size)
  {
  }

  /** The line of the first chunk. */
  lemma DeletesFirst(file: string, key: string)
    requires file != ""
    ensures var n := FgetsLength(file, LINE);
      && DeleteText(file, key) == Rewritten(file[..n], key) + DeleteText(file[n..], key)
      && (HasLineFor(file, key) <==> (KeyedBy(file[..n], key) && |Fields(file[..n])| > 1) || HasLineFor(file[n..], key))
  {
    var n := FgetsLength(file, LINE);
    FirstTwoTokens(LineOf(file[..n]));
    FirstChunk(file, key);
    hide LineOf, KeyValue, DeleteText, HasLineFor, Tokens;
  }

  lemma NothingRewritten(key: string)
    ensures Flat(RewrittenAll([], key)) == ""
  {
  }

  lemma FlatCons(chunk: string, cs: seq<string>, key: string)
    ensures Flat(RewrittenAll([chunk] + cs, key)) == Rewritten(chunk, key) + Flat(RewrittenAll(cs, key))
  {
    hide Rewritten;
    assert RewrittenAll([chunk] + cs, key) == [Rewritten(chunk, key)] + RewrittenAll(cs, key);
    assert ([Rewritten(chunk, key)] + RewrittenAll(cs, key))[1..] == RewrittenAll(cs, key);
  }

  /** DELETE drops exactly the lines that have both this key and a value, and copies all others. */
  lemma {:induction false} DeleteScans(file: string, key: string)
    ensures DeleteText(file, key) == Flat(RewrittenAll(Chunks(file, LINE), key))
    decreases |file|
  {
    hide DeleteText, Chunks, Rewritten, RewrittenAll;
    if file != "" {
      var n := FgetsLength(file, LINE);
      var first, rest := file[..n], Chunks(file[n..], LINE);
      DeleteScans(file[n..], key);
      DeletesFirst(file, key);
      ChunksCons(file, LINE);
      FlatCons(first, rest, key);
    } else {
      EmptyFile(key);
      NoChunks(LINE);
      NothingRewritten(key);
    }
  }

  /** It says it found the key exactly when it dropped a line. */
  lemma {:induction false} DeleteFinds(file: string, key: string)
    ensures HasLineFor(file, key) <==>
      exists i :: 0 <= i < |Chunks(file, LINE)| && KeyedBy(Chunks(file, LINE)[i], key) && |Fields(Chunks(file, LINE)[i])| > 1
    decreases |file|
  {
    hide HasLineFor, Chunks, Fields, KeyedBy;
    if file != "" {
      var n := FgetsLength(file, LINE);
      var first, rest := file[..n], Chunks(file[n..], LINE);
      DeleteFinds(file[n..], key);
      DeletesFirst(file, key);
      ChunksCons(file, LINE);
      var cs := [first] + rest;
      if HasLineFor(file[n..], key) {
        var i :| 0 <= i < |rest| && KeyedBy(rest[i], key) && |Fields(rest[i])| > 1;
        assert KeyedBy(cs[i + 1], key);
      }
      assert KeyedBy(first, key) ==> KeyedBy(cs[0], key);
    } else {
      EmptyFile(key);
      NoChunks(LINE);
    }
  }

  lemma NoChunks(size: nat)
    requires size > 1
    ensures Chunks("", size) == []
  {
  }

  /** GET stops at a line that starts with the key, or at one that holds nothing to compare. */
  predicate StopsGet(chunk: string, key: string) { Fields(chunk) == [] || Fields(chunk)[0] == key }

  lemma GetsFirst(file: string, key: string)
    requires file != ""
    ensures var n := FgetsLength(file, GET_LINE);
      GetText(file, key) ==
        if !StopsGet(file[..n], key) then GetText(file[n..], key)
        else if |Fields(file[..n])| < 2 then Undefined else Found(Fields(file[..n])[1])
  {
    FirstTwoTokens(LineOf(file[..FgetsLength(file, GET_LINE)]));
    hide LineOf, KeyValue, Tokens;
  }

  /** GET answers from the first such line: its value, a NULL dereference where the key or the value is
      missing, and NotFound when there is no such line. */
  lemma {:induction false} GetScans(file: string, key: string, k: nat)
    requires k <= |Chunks(file, GET_LINE)| && forall i :: 0 <= i < k ==> !StopsGet(Chunks(file, GET_LINE)[i], key)
    requires k < |Chunks(file, GET_LINE)| ==> StopsGet(Chunks(file, GET_LINE)[k], key)
    ensures GetText(file, key) ==
      if k == |Chunks(file, GET_LINE)| then NotFound
      else if |Fields(Chunks(file, GET_LINE)[k])| < 2 then Undefined else Found(Fields(Chunks(file, GET_LINE)[k])[1])
    decreases |file|
  {
    hide GetText, Chunks, Fields, StopsGet;
    if file == "" {
      NoChunks(GET_LINE);
      NothingToGet(key);
    } else {
      var n, cs := FgetsLength(file, GET_LINE), Chunks(file, GET_LINE);
      var rest := Chunks(file[n..], GET_LINE);
      ChunksCons(file, GET_LINE);
      assert cs[1..] == rest;
      GetsFirst(file, key);
      if k > 0 {
        assert !StopsGet(cs[0], key);
        forall i | 0 <= i < k - 1 ensures !StopsGet(rest[i], key) { assert !StopsGet(cs[i + 1], key); }
        GetScans(file[n..], key, k - 1);
      }
    }
  }

  lemma NothingToGet(key: string)
    ensures GetText("", key) == NotFound
  {
  }

  /** What LIST shows for a line, newline and all: its first two tokens, or nothing. */
  function Shown(chunk: string): seq<(string, string)> {
    var ts := Tokens(chunk, '=');
    if |ts| > 1 then [(ts[0], ts[1])] else []
  }

  function ShownAll(cs: seq<string>): seq<(string, string)> { if cs == [] then [] else Shown(cs[0]) + ShownAll(cs[1..]) }

  lemma {:induction false} ListScans(file: string)
    ensures ListText(file) == ShownAll(Chunks(file, LINE))
    decreases |file|
  {
    if file != "" {
      var n := FgetsLength(file, LINE);
      FirstTwoTokens(file[..n]);
      ListScans(file[n..]);
      hide KeyValue;
      assert Chunks(file, LINE)[1..] == Chunks(file[n..], LINE);
    }
  }

  /** The line `a==`, which PUT a = leaves behind: PUT refuses the key, GET a follows a NULL pointer, and
      DELETE a keeps the line, since there is no value token. */
  lemma KeyWithoutValue()
    ensures var file := PutText("", "a", "=");
      && file == "a==\n" && HasKey(file, "a") && GetText(file, "a") == Undefined
      && DeleteText(file, "a") == file && !HasLineFor(file, "a")
  {
    var file := "a==\n";
    NewLineWithoutValue();
    LineWithoutValue();
    hide NewLine, FgetsLength, LineOf, KeyValue;
    assert file[4..] == "" && file[..4] == file;
    EmptyFile("a");
  }

  lemma NewLineWithoutValue()
    ensures NewLine("a", "=") == "a==\n"
  {
    var kv := "a" + "=" + "=";
    assert kv == "a==" && kv[..3] == kv;
  }

  lemma LineWithoutValue()
    ensures FgetsLength("a==\n", LINE) == 4 && FgetsLength("a==\n", GET_LINE) == 4
    ensures LineOf("a==\n") == "a==" && KeyValue("a==") == (Some("a"), None)
  {
    FgetsLine("a==", "", LINE);
    FgetsLine("a==", "", GET_LINE);
    assert "a==" + "\n" + "" == "a==\n";
    BeforeFirst("a==", '\n', "");
    BeforeFirst("a", '=', "=");
    assert "a" + ['='] + "=" == "a==";
    assert Skip("=", '=') == "";
  }
}
