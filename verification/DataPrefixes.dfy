/** What is read from the front of a stream: more behind it makes no difference, and what is cut off is missed. */
module DataPrefixes {
  import opened Decimal
  import opened DataSerializer
  import opened DataRoundTrips
  import opened TaskMessage

  // ---- more behind ---------------------------------------------------------------------------------

  lemma TakeMore(s: string, t: string, n: int)
    requires n <= |s|
    ensures Take(s + t, n) == Take(s, n) && (s + t)[|Take(s, n)|..] == s[|Take(s, n)|..] + t
  {
  }

  /** The result of a read, with more behind what it left. */
  function More<T>(p: Parsed<T>, t: string): Parsed<T> { p.(rest := p.rest + t) }

  lemma StringMore(s: string, t: string)
    requires ParsedString(s).ok
    ensures ParsedString(s + t) == More(ParsedString(s), t)
  {
    hide Atoi;
    TakeMore(s, t, 9);
    TakeMore(s[9..], t, Atoi(Take(s, 9)));
  }

  lemma IntMore(s: string, t: string)
    requires ParsedInt(s).ok
    ensures ParsedInt(s + t) == More(ParsedInt(s), t)
  {
    StringMore(s, t);
    hide ParsedString, Stoi;
  }

  lemma {:induction false} ItemsMore(n: int, s: string, t: string, v: seq<string>)
    requires ParsedItems(n, s, v).ok
    ensures ParsedItems(n, s + t, v) == More(ParsedItems(n, s, v), t)
    decreases n
  {
    hide ParsedString;
    if n > 0 {
      var p := ParsedString(s);
      StringMore(s, t);
      ItemsMore(n - 1, p.rest, t, v + [p.value]);
    }
  }

  lemma VectorMore(s: string, t: string, v: seq<string>)
    requires ParsedVector(s, v).ok
    ensures ParsedVector(s + t, v) == More(ParsedVector(s, v), t)
  {
    hide Atoi, ParsedItems;
    TakeMore(s, t, 3);
    ItemsMore(Atoi(Take(s, 3)), s[3..], t, v);
  }

  lemma EntryMore(s: string, t: string)
    requires ParsedEntry(s).ok
    ensures ParsedEntry(s + t) == More(ParsedEntry(s), t)
  {
    hide Atoi, KeyOf, CString;
    var head := Take(s, 18);
    var nameLen, valueLen := Atoi(head[..9]), Atoi(head[9..]);
    TakeMore(s, t, 18);
    TakeMore(s[18..], t, nameLen);
    TakeMore(s[18..][|Take(s[18..], nameLen)|..], t, valueLen);
    hide Take;
  }

  lemma {:induction false} EntriesMore(n: int, s: string, t: string, m: map<string, string>)
    requires ParsedEntries(n, s, m).ok
    ensures ParsedEntries(n, s + t, m) == More(ParsedEntries(n, s, m), t)
    decreases n
  {
    hide ParsedEntry;
    if n > 0 {
      var p := ParsedEntry(s);
      EntryMore(s, t);
      EntriesMore(n - 1, p.rest, t, m[p.value.0 := p.value.1]);
    }
  }

  lemma MapMore(s: string, t: string, m: map<string, string>)
    requires ParsedMap(s, m).ok
    ensures ParsedMap(s + t, m) == More(ParsedMap(s, m), t)
  {
    hide Atoi, ParsedEntries;
    TakeMore(s, t, 3);
    EntriesMore(Atoi(Take(s, 3)), s[3..], t, m);
  }

  // ---- what is cut off -----------------------------------------------------------------------------

  /** If more would have made a string readable, the reader has taken all there was. */
  lemma StringCut(s: string, t: string)
    requires ParsedString(s + t).ok && !ParsedString(s).ok
    ensures ParsedString(s).rest == []
  {
    hide Atoi;
    if |s| >= 9 { TakeMore(s, t, 9); }
  }

  lemma {:induction false} ItemsCut(n: int, s: string, t: string, v: seq<string>)
    requires ParsedItems(n, s + t, v).ok && !ParsedItems(n, s, v).ok
    ensures ParsedItems(n, s, v).rest == []
    decreases n
  {
    hide ParsedString;
    if ParsedString(s).ok {
      StringMore(s, t);
      ItemsCut(n - 1, ParsedString(s).rest, t, v + [ParsedString(s).value]);
    } else {
      StringCut(s, t);
    }
  }

  lemma VectorCut(s: string, t: string, v: seq<string>)
    requires ParsedVector(s + t, v).ok && !ParsedVector(s, v).ok
    ensures ParsedVector(s, v).rest == []
  {
    hide Atoi, ParsedItems;
    if |s| >= 3 {
      TakeMore(s, t, 3);
      ItemsCut(Atoi(Take(s, 3)), s[3..], t, v);
    }
  }

  /** No proper front of a written string is read. */
  lemma CutString(s: string, k: nat)
    requires |s| < BILLION && k < |SerializedString(s)|
    ensures !ParsedString(SerializedString(s)[..k]).ok
  {
    var front, back := SerializedString(s)[..k], SerializedString(s)[k..];
    assert front + back == SerializedString(s) == SerializedString(s) + [];
    ReadString(s, []);
    if ParsedString(front).ok { StringMore(front, back); }
  }

  /** What can be read of a written vector from a proper front of it is a failure at its end. */
  lemma CutVector(v: seq<string>, k: nat)
    requires Fits(v) && k < |SerializedVector(v)|
    ensures !ParsedVector(SerializedVector(v)[..k], []).ok && ParsedVector(SerializedVector(v)[..k], []).rest == []
  {
    hide ParsedVector, SerializedVector, Fits;
    var front, back := SerializedVector(v)[..k], SerializedVector(v)[k..];
    assert front + back == SerializedVector(v) == SerializedVector(v) + [];
    ReadVector(v, []);
    if ParsedVector(front, []).ok { VectorMore(front, back, []); }
    VectorCut(front, back, []);
  }

  lemma CutMap(m: map<string, string>, data: string, k: nat)
    requires MapFits(m) && IsSerializedMap(m, data) && k < |data|
    ensures !ParsedMap(data[..k], map[]).ok
  {
    hide ParsedMap, IsSerializedMap, MapFits;
    assert data[..k] + data[k..] == data == data + [];
    ReadMap(m, data, []);
    if ParsedMap(data[..k], map[]).ok { MapMore(data[..k], data[k..], map[]); }
  }

  // ---- messages ------------------------------------------------------------------------------------

  lemma NoMap()
    ensures !ParsedMap([], map[]).ok
  {
  }

  /** A message that is read from a front of the stream, with its arguments, is the message. */
  lemma MessageMore(s: string, t: string)
    requires ParsedMessage(s).ok && ArgumentsRead(s + t)
    ensures ParsedMessage(s + t) == More(ParsedMessage(s), t)
  {
    hide ParsedString, ParsedInt, ParsedVector, ParsedMap, IsScript;
    var f := ParsedString(s);
    StringMore(s, t);
    var n := ParsedInt(f.rest);
    IntMore(f.rest, t);
    var a := ParsedVector(n.rest, []);
    if !a.ok {
      VectorCut(n.rest, t, []);
      NoMap();
    }
    VectorMore(n.rest, t, []);
    var c := ParsedMap(a.rest, map[]);
    MapMore(a.rest, t, map[]);
    var e := ParsedMap(c.rest, map[]);
    MapMore(c.rest, t, map[]);
    if IsScript(c.value) { StringMore(e.rest, t); }
    StringMore(if IsScript(c.value) then ParsedString(e.rest).rest else e.rest, t);
  }

  /** The filename, the id and the arguments can be read from the stream. */
  predicate ArgumentsRead(s: string) {
    var f := ParsedString(s);
    f.ok && ParsedInt(f.rest).ok && ParsedVector(ParsedInt(f.rest).rest, []).ok
  }

  lemma WrittenArguments(m: Message, config: string, env: string)
    requires |m.filename| < BILLION && IsInt32(m.tid) && Fits(m.arguments)
    ensures ArgumentsRead(Written(m, config, env))
  {
    hide SerializedString, SerializedInt, SerializedVector, ParsedString, ParsedInt, ParsedVector, Fits;
    var r3 := config + (env
      + ((if IsScript(m.config) then SerializedString(m.script) else []) + SerializedString(m.input)));
    var r2 := SerializedVector(m.arguments) + r3;
    ReadString(m.filename, SerializedInt(m.tid) + r2);
    ReadTid(m.tid, r2);
    ReadVector(m.arguments, r3);
  }

  /** A message of a task that is cut off anywhere is not read: the monitor does not start the task. */
  lemma CutMessage(task: Task, tid: int, directory: string, data: string, k: nat)
    requires IsInt32(tid) && IsWritten(MessageOf(task, tid, directory), data)
    requires MessageFits(MessageOf(task, tid, directory)) && k < |data|
    ensures !ParsedMessage(data[..k]).ok
  {
    hide ParsedMessage, IsSerializedMap, Written, Fits, MapFits, ArgumentsRead;
    var m := MessageOf(task, tid, directory);
    assert data[..k] + data[k..] == data == data + [];
    MessageExactly(task, tid, directory, data);
    var config, env :| IsSerializedMap(m.config, config) && IsSerializedMap(m.env, env)
                       && data == Written(m, config, env);
    WrittenArguments(m, config, env);
    if ParsedMessage(data[..k]).ok { MessageMore(data[..k], data[k..]); }
  }
}
