/** The handlers, scanning and rewriting the files on disk line by line. */
module Store {
  import opened LineText
  import opened StoreText
  import opened StoreMap
  import opened StoreRuns
  import opened StoreCommand

  class Disk {
    var store: Text  // store.txt
    var temp: Text   // temp.txt

    constructor ()
      ensures store == None && temp == None
    {
      store, temp := None, None;
    }

    method HandlePut(key: string, value: string) returns (stored: bool)
      modifies `store
      ensures store == Exec(old(store), CmdPut(Pair(key, value))).0
      ensures stored == Exec(old(store), CmdPut(Pair(key, value))).1.stored
      ensures var kv := key + "=" + value;
        store == Some(Chars(old(store)) + if stored then kv[..if |kv| < 700 then |kv| else 699] + "\n" else "")
    {
      var file := Chars(store);
      store := Some(file);
      var rest := file;
      while rest != ""
        invariant store == Some(file) && HasKey(file, key) == HasKey(rest, key)
        decreases |rest|
      {
        var n := FgetsLength(rest, LINE);
        var line := LineOf(rest[..n]);
        var currentKey := Strtok(line, '=').0;
        if currentKey == Some(key) {
          assert file + "" == file;
          return false;
        }
        rest := rest[n..];
      }
      var kv := key + "=" + value;
      assert kv[..|kv|] == kv;
      if |kv| > LINE - 1 { kv := kv[..LINE - 1]; }
      store := Some(file + (kv + "\n"));
      stored := true;
    }

    /** Fills the caller's buffer when the key is found, and only then. The error message depends on
        what the buffer held before. */
    method HandleGet(key: string, valueOut: array<char>) returns (r: GetResult, complained: bool)
      requires valueOut.Length > 0
      modifies valueOut
      ensures GetReply(r) == Exec(store, CmdGet(key)).1
      ensures r == if store.None? then NoFile else GetText(store.value, key)
      ensures valueOut[..] == AfterGet(r, old(valueOut[..])) && (!r.Found? ==> valueOut[..] == old(valueOut[..]))
      ensures complained <==> r == NotFound && Printed(old(valueOut[..])) == ""
    {
      if store.None? { return NoFile, false; }
      r := FindValue(store.value, key);
      if r.Found? {
        Strncpy(valueOut, r.value);
        complained := false;
      } else {
        complained := r == NotFound && valueOut[0] == '\0';
      }
    }

    static method FindValue(file: string, key: string) returns (r: GetResult)
      ensures r == GetText(file, key)
    {
      var rest := file;
      while rest != ""
        invariant GetText(rest, key) == GetText(file, key)
        decreases |rest|
      {
        var n := FgetsLength(rest, GET_LINE);
        var line := LineOf(rest[..n]);
        var (currentKey, more) := Strtok(line, '=');
        if currentKey.None? { return Undefined; }
        if currentKey.value == key {
          var currentValue := Strtok(more, '=').0;
          return if currentValue.None? then Undefined else Found(currentValue.value);
        }
        rest := rest[n..];
      }
      r := NotFound;
    }

    /** strncpy of one byte less than the buffer holds, and a final NUL. */
    static method Strncpy(valueOut: array<char>, value: string)
      requires valueOut.Length > 0
      modifies valueOut
      ensures valueOut[..] == AfterGet(Found(value), old(valueOut[..]))
      ensures forall j :: 0 <= j < valueOut.Length ==>
        valueOut[j] == if j < |value| && j < valueOut.Length - 1 then value[j] else '\0'
    {
      var size := valueOut.Length - 1;
      var i := 0;
      while i < size
        invariant 0 <= i <= size
        invariant forall j :: 0 <= j < i ==> valueOut[j] == if j < |value| then value[j] else '\0'
      {
        valueOut[i] := if i < |value| then value[i] else '\0';
        i := i + 1;
      }
      valueOut[size] := '\0';
    }

    /** Replaces store.txt by a copy without the key's lines, written to temp.txt first. Without a
        store.txt only an empty temp.txt is left behind. */
    method HandleDelete(key: string) returns (present: bool, found: bool)
      modifies this
      ensures store == Exec(old(store), CmdDelete(key)).0
      ensures DeleteReply(present, found) == Exec(old(store), CmdDelete(key)).1
      ensures temp == if old(store).None? then Some("") else None
      ensures present == old(store).Some? && found == (present && HasLineFor(old(store).value, key))
      ensures store == if old(store).None? then None else Some(DeleteText(old(store).value, key))
    {
      temp := Some("");
      if store.None? { return false, false; }
      var written;
      written, found := CopyWithout(store.value, key);
      temp := Some(written);
      store, temp := temp, None;
      present := true;
    }

    static method CopyWithout(from: string, key: string) returns (to: string, found: bool)
      ensures to == DeleteText(from, key) && found == HasLineFor(from, key)
    {
      hide DeleteText, HasLineFor, BrokenChunks, LineOf, FgetsLength, Strtok;
      EmptyFile(key);
      to, found := "", false;
      var rest := from;
      while rest != ""
        invariant to + DeleteText(rest, key) == DeleteText(from, key)
        invariant HasLineFor(from, key) == (found || HasLineFor(rest, key))
        decreases |rest|
      {
        var n := FgetsLength(rest, LINE);
        var line := LineOf(rest[..n]);
        var (currentKey, more) := Strtok(line, '=');
        var currentValue := Strtok(more, '=').0;
        assert KeyValue(line) == (currentKey, currentValue);
        FirstChunk(rest, key);
        ghost var later := DeleteText(rest[n..], key);
        if currentKey.Some? && currentValue.Some? && currentKey.value == key {
          found := true;
          assert DeleteText(rest, key) == "" + later == later;
        } else {
          assert DeleteText(rest, key) == (line + "\n") + later;
          assert to + ((line + "\n") + later) == (to + (line + "\n")) + later;
          to := to + (line + "\n");
        }
        rest := rest[n..];
      }
    }

    /** Delete, then put: a key that was not there is inserted. */
    method HandleUpdate(key: string, value: string) returns (present: bool, found: bool, stored: bool)
      modifies this
      ensures store == Exec(old(store), CmdUpdate(Pair(key, value))).0
      ensures UpdateReply(present, found, stored) == Exec(old(store), CmdUpdate(Pair(key, value))).1
      ensures store == Some(PutText(if old(store).None? then "" else DeleteText(old(store).value, key), key, value))
    {
      hide PutText, HasKey, DeleteText, HasLineFor;
      present, found := HandleDelete(key);
      stored := HandlePut(key, value);
    }

    /** Without a store.txt the first read goes through a NULL stream. */
    method HandleList() returns (present: bool, shown: seq<(string, string)>)
      ensures present == store.Some?
      ensures present ==> shown == ListText(store.value)
    {
      present, shown := store.Some?, [];
      if !present { return; }
      var rest := store.value;
      while rest != ""
        invariant shown + ListText(rest) == ListText(store.value)
        decreases |rest|
      {
        var n := FgetsLength(rest, LINE);
        var (key, more) := Strtok(rest[..n], '=');
        var value := Strtok(more, '=').0;
        assert KeyValue(rest[..n]) == (key, value);
        ghost var later := ListText(rest[n..]);
        if key.Some? && value.Some? {
          assert ListText(rest) == [(key.value, value.value)] + later;
          assert shown + ([(key.value, value.value)] + later) == (shown + [(key.value, value.value)]) + later;
          shown := shown + [(key.value, value.value)];
        } else {
          assert ListText(rest) == [] + later == later;
        }
        rest := rest[n..];
      }
    }

    /** strtok for the arguments of PUT and UPDATE, and the check that nothing follows them. */
    static method ReadPair(rest: string) returns (p: Option<Pair>)
      ensures p == TwoArguments(rest)
    {
      var (key, r1) := Strtok(rest, ' ');
      var (value, r2) := Strtok(r1, ' ');
      var overflow := Strtok(r2, ' ').0;
      if key.None? || value.None? || overflow.Some? { return None; }
      p := Some(Pair(key.value, value.value));
    }

    static method ReadKey(rest: string) returns (key: Option<string>)
      ensures key == OneArgument(rest)
    {
      var r;
      key, r := Strtok(rest, ' ').0, Strtok(rest, ' ').1;
      if Strtok(r, ' ').0.Some? { return None; }
    }

    /** One round of main's loop. GET fills `value`, which main then prints; LIST reports whether there
        was a store to read. */
    method HandleLine(input: string, value: array<char>) returns (action: Action)
      requires value.Length == GET_LINE
      modifies this, value
      ensures action == Interpret(input)
      ensures store == if action.Perform? then Exec(old(store), action.c).0 else old(store)
      ensures action.Perform? && action.c.CmdGet? ==>
        value[..] == AfterGet(Exec(old(store), action.c).1.result, old(value[..]))
      ensures !(action.Perform? && action.c.CmdGet?) ==> value[..] == old(value[..])
    {
      hide Exec, AfterGet, TwoArguments, OneArgument, Strtok;
      if input == "exit" { return Quit; }
      var (word, rest) := Strtok(input, ' ');
      if word.None? { return Idle; }
      if word.value == "PUT" {
        var p := ReadPair(rest);
        if p.None? { return FormatError; }
        var _ := HandlePut(p.value.key, p.value.value);
        return Perform(CmdPut(p.value));
      } else if word.value == "GET" {
        var key := ReadKey(rest);
        if key.None? { return FormatError; }
        var r, _ := HandleGet(key.value, value);
        GetChangesNothing(store, key.value);
        return Perform(CmdGet(key.value));
      } else if word.value == "DELETE" {
        var key := ReadKey(rest);
        if key.None? { return FormatError; }
        var _, _ := HandleDelete(key.value);
        return Perform(CmdDelete(key.value));
      } else if word.value == "LIST" {
        var _, _ := HandleList();
        return ListAll;
      } else if word.value == "UPDATE" {
        var p := ReadPair(rest);
        if p.None? { return FormatError; }
        var _, _, _ := HandleUpdate(p.value.key, p.value.value);
        return Perform(CmdUpdate(p.value));
      } else if word.value == "help" || word.value == "HELP" {
        return Help;
      }
      return Unknown(word.value);
    }

    /** main: one line after the other until `exit` or the end of the input. */
    method Prompt(lines: seq<string>)
      modifies this
      ensures store == Run(old(store), Commands(lines)).0
    {
      hide Interpret, Exec;
      var i := 0;
      while i < |lines|
        invariant 0 <= i <= |lines|
        invariant Run(store, Commands(lines[i..])).0 == Run(old(store), Commands(lines)).0
      {
        assert lines[i..][0] == lines[i] && lines[i..][1..] == lines[i + 1..];
        ghost var before, rest := store, Commands(lines[i + 1..]);
        var value := new char[GET_LINE];
        var action := HandleLine(lines[i], value);
        if action.Quit? { break; }
        assert action.Perform? ==> ([action.c] + rest)[1..] == rest;
        assert [] + rest == rest;
        i := i + 1;
      }
    }
  }
}
