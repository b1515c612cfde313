/** The length-prefixed data between engine, monitor and agent (src/Process/DataSerializer.cpp). */
module DataSerializer {
  import opened Decimal
  import opened NameOrder

  // ---- the stream ----------------------------------------------------------------------------------

  /** What a read of n bytes gives in the end. */
  function Take(s: string, n: int): (r: string)
    ensures r <= s && (|r| == n <==> 0 <= n <= |s|)
  {
    if n <= 0 then [] else if n <= |s| then s[..n] else s
  }

  class Stream {
    /** What is still to come until the other side closes. */
    var data: string

    constructor (data: string)
      ensures this.data == data
    {
      this.data := data;
    }

    /** read(): some of the bytes asked for, and none only at the end. */
    method Read(n: nat) returns (chunk: string)
      requires n > 0
      modifies this
      ensures old(data) == chunk + data && |chunk| <= n && (chunk == [] <==> old(data) == [])
    {
      if data == [] {
        return [];
      }
      var k :| 1 <= k <= n && k <= |data|;
      chunk, data := data[..k], data[k..];
    }

    /** Short reads are made up for. */
    method ReadLen(valueLen: int) returns (value: string)
      modifies this
      ensures value == Take(old(data), valueLen) && data == old(data)[|value|..]
    {
      value := [];
      if valueLen <= 0 {
        return;
      }
      while |value| < valueLen
        invariant old(data) == value + data && |value| <= valueLen
        decreases valueLen - |value|
      {
        var chunk := Read(valueLen - |value|);
        if chunk == [] {
          break;
        }
        assert old(data) == value + chunk + data;
        value := value + chunk;
      }
    }
  }

  // ---- writing -------------------------------------------------------------------------------------

  function SerializedString(s: string): string { Padded(|s|, 9) + s }

  function SerializedItems(v: seq<string>): string {
    if v == [] then [] else SerializedString(v[0]) + SerializedItems(v[1..])
  }

  function SerializedVector(v: seq<string>): string { Padded(|v|, 3) + SerializedItems(v) }

  function Entry(name: string, value: string): string { Padded(|name|, 9) + Padded(|value|, 9) + name + value }

  function SerializedEntries(names: seq<string>, m: map<string, string>): string
    requires forall n :: n in names ==> n in m
  {
    if names == [] then [] else Entry(names[0], m[names[0]]) + SerializedEntries(names[1..], m)
  }

  /** The keys of a map in the order in which they are walked. */
  ghost predicate InOrder(names: seq<string>, keys: set<string>) {
    && (forall i, j :: 0 <= i < j < |names| ==> names[i] != names[j] && NameLeq(names[i], names[j]))
    && (forall n :: n in names <==> n in keys)
    && |names| == |keys|
  }

  ghost predicate IsSerializedMap(m: map<string, string>, data: string) {
    exists names :: InOrder(names, m.Keys) && data == Padded(|m|, 3) + SerializedEntries(names, m)
  }

  /** to_string. */
  function Text(n: int): string { if n < 0 then ['-'] + Numeral(-n) else Numeral(n) }

  function SerializedInt(n: int): string { SerializedString(Text(n)) }

  method SerializeString(str: string) returns (data: string)
    ensures data == SerializedString(str)
  {
    data := Padded(|str|, 9);
    data := data + str;
  }

  method SerializeInt(n: int) returns (data: string)
    ensures data == SerializedInt(n)
  {
    data := SerializeString(Text(n));
  }

  lemma {:induction false} ItemsAppend(v: seq<string>, s: string)
    ensures SerializedItems(v + [s]) == SerializedItems(v) + SerializedString(s)
  {
    hide SerializedString;
    if v == [] {
      assert [] + [s] == [s];
    } else {
      ItemsAppend(v[1..], s);
      assert (v + [s])[1..] == v[1..] + [s];
    }
  }

  method SerializeVector(vector: seq<string>) returns (data: string)
    ensures data == SerializedVector(vector)
  {
    hide SerializedItems, SerializedString;
    data := Padded(|vector|, 3);
    ghost var head := data;
    NoItems();
    for i := 0 to |vector|
      invariant data == head + SerializedItems(vector[..i])
    {
      var item := SerializeString(vector[i]);
      data := data + item;
      ItemsAppend(vector[..i], vector[i]);
      assert vector[..i + 1] == vector[..i] + [vector[i]];
    }
    assert vector[..|vector|] == vector;
  }

  lemma NoItems()
    ensures SerializedItems([]) == []
  {
  }

  lemma {:induction false} EntriesAppend(names: seq<string>, n: string, m: map<string, string>)
    requires n in m && forall k :: k in names ==> k in m
    ensures SerializedEntries(names + [n], m) == SerializedEntries(names, m) + Entry(n, m[n])
  {
    hide Entry;
    if names == [] {
      assert [] + [n] == [n];
    } else {
      EntriesAppend(names[1..], n, m);
      assert (names + [n])[1..] == names[1..] + [n];
    }
  }

  lemma InOrderGrows(names: seq<string>, keys: set<string>, n: string)
    requires InOrder(names, keys) && n !in keys && forall k :: k in names ==> NameLeq(k, n)
    ensures InOrder(names + [n], keys + {n})
  {
  }

  /** The walk over a map: the least key first. */
  method Names(keys: set<string>) returns (names: seq<string>)
    ensures InOrder(names, keys)
  {
    hide InOrder, NameLeq;
    names := [];
    var left := keys;
    NoNames(keys - left);
    while left != {}
      invariant left <= keys && InOrder(names, keys - left)
      invariant forall n, k :: n in names && k in left ==> NameLeq(n, k)
      decreases |left|
    {
      ghost var least := LeastExists(left);
      var n :| n in left && forall k :: k in left ==> NameLeq(n, k);
      InOrderGrows(names, keys - left, n);
      assert keys - left + {n} == keys - (left - {n});
      names := names + [n];
      left := left - {n};
    }
    assert keys - left == keys;
  }

  lemma NoNames(keys: set<string>)
    requires keys == {}
    ensures InOrder([], keys)
  {
  }

  method SerializeEntry(name: string, value: string) returns (data: string)
    ensures data == Entry(name, value)
  {
    data := Padded(|name|, 9) + Padded(|value|, 9);
    data := data + (name + value);
  }

  method SerializeEntries(head: string, names: seq<string>, m: map<string, string>) returns (data: string)
    requires forall n :: n in names ==> n in m
    ensures data == head + SerializedEntries(names, m)
  {
    hide SerializedEntries, Entry;
    data := head;
    NoEntries(m);
    for i := 0 to |names|
      invariant data == head + SerializedEntries(names[..i], m)
    {
      ghost var before := SerializedEntries(names[..i], m);
      var entry := SerializeEntry(names[i], m[names[i]]);
      EntriesAppend(names[..i], names[i], m);
      assert names[..i + 1] == names[..i] + [names[i]];
      assert head + before + entry == head + (before + entry);
      data := data + entry;
    }
    assert names[..|names|] == names;
  }

  method SerializeMap(m: map<string, string>) returns (data: string)
    ensures IsSerializedMap(m, data)
  {
    hide SerializedEntries, InOrder, Padded;
    var names := Names(m.Keys);
    NamesAre(names, m.Keys);
    data := SerializeEntries(Padded(|m|, 3), names, m);
    assert InOrder(names, m.Keys) && data == Padded(|m|, 3) + SerializedEntries(names, m);
  }

  lemma NamesAre(names: seq<string>, keys: set<string>)
    requires InOrder(names, keys)
    ensures forall n :: n in names ==> n in keys
  {
  }

  lemma NoEntries(m: map<string, string>)
    ensures SerializedEntries([], m) == []
  {
  }

  // ---- reading -------------------------------------------------------------------------------------

  /** The outcome of a read: what it gives, even if it fails halfway, and what it leaves. */
  datatype Parsed<T> = Parsed(ok: bool, value: T, rest: string)

  function ParsedString(s: string): Parsed<string> {
    var head := Take(s, 9);
    var s1 := s[|head|..];
    if |head| != 9 then Parsed(false, [], s1)
    else
      var n := Atoi(head);
      var value := Take(s1, n);
      if |value| != n then Parsed(false, [], s1[|value|..]) else Parsed(true, value, s1[|value|..])
  }

  /** The next n strings, behind those there are. */
  function ParsedItems(n: int, s: string, v: seq<string>): Parsed<seq<string>>
    decreases n
  {
    if n <= 0 then Parsed(true, v, s)
    else
      var p := ParsedString(s);
      if !p.ok then Parsed(false, v, p.rest) else ParsedItems(n - 1, p.rest, v + [p.value])
  }

  function ParsedVector(s: string, v: seq<string>): Parsed<seq<string>> {
    var head := Take(s, 3);
    if |head| != 3 then Parsed(false, v, s[|head|..]) else ParsedItems(Atoi(head), s[3..], v)
  }

  /** A C string ends before its first NUL. */
  function CString(s: string): (r: string)
    ensures |r| <= |s| && '\0' !in r && ('\0' !in s ==> r == s)
  {
    if s == [] || s[0] == '\0' then [] else [s[0]] + CString(s[1..])
  }

  const DEFAULT_NAME := "DEFAULT_PARAMETER_NAME"

  function KeyOf(name: string): string { if CString(name) == [] then DEFAULT_NAME else CString(name) }

  function ParsedEntry(s: string): Parsed<(string, string)> {
    var head := Take(s, 18);
    var s1 := s[|head|..];
    if |head| != 18 then Parsed(false, ([], []), s1)
    else
      var valueLen, nameLen := Atoi(head[9..]), Atoi(head[..9]);
      if valueLen > 4096 || nameLen > 4096 then Parsed(false, ([], []), s1)
      else
        var name := Take(s1, nameLen);
        var s2 := s1[|name|..];
        if |name| != nameLen then Parsed(false, ([], []), s2)
        else
          var value := Take(s2, valueLen);
          if |value| != valueLen then Parsed(false, ([], []), s2[|value|..])
          else Parsed(true, (KeyOf(name), CString(value)), s2[|value|..])
  }

  function ParsedEntries(n: int, s: string, m: map<string, string>): Parsed<map<string, string>>
    decreases n
  {
    if n <= 0 then Parsed(true, m, s)
    else
      var p := ParsedEntry(s);
      if !p.ok then Parsed(false, m, p.rest) else ParsedEntries(n - 1, p.rest, m[p.value.0 := p.value.1])
  }

  function ParsedMap(s: string, m: map<string, string>): Parsed<map<string, string>> {
    var head := Take(s, 3);
    if |head| != 3 then Parsed(false, m, s[|head|..]) else ParsedEntries(Atoi(head), s[3..], m)
  }

  datatype Option<T> = None | Some(value: T)

  /** stoi into 32 bits; None is the exception. */
  function Stoi(s: string): Option<int> {
    match Strtol(s, 0)
    case NoNumber => None
    case Scanned(n, _) => if -0x8000_0000 <= n < 0x8000_0000 then Some(n) else None
  }

  function ParsedInt(s: string): Parsed<int> {
    var p := ParsedString(s);
    if p.ok && Stoi(p.value).Some? then Parsed(true, Stoi(p.value).value, p.rest) else Parsed(false, 0, p.rest)
  }

  method UnserializeString(fd: Stream) returns (ok: bool, str: string)
    modifies fd
    ensures Parsed(ok, str, fd.data) == ParsedString(old(fd.data))
  {
    hide Atoi;
    var buf := fd.ReadLen(9);
    if |buf| != 9 {
      return false, [];
    }
    var valueLen := Atoi(buf);
    var value := fd.ReadLen(valueLen);
    if |value| != valueLen {
      return false, [];
    }
    return true, value;
  }

  method UnserializeInt(fd: Stream) returns (ok: bool, n: int)
    modifies fd
    ensures Parsed(ok, n, fd.data) == ParsedInt(old(fd.data))
  {
    hide ParsedString, Stoi;
    var str;
    ok, str := UnserializeString(fd);
    if !ok {
      return false, 0;
    }
    match Stoi(str) {
      case Some(v) => return true, v;
      case None => return false, 0;
    }
  }

  method UnserializeVector(fd: Stream, before: seq<string>) returns (ok: bool, vector: seq<string>)
    modifies fd
    ensures Parsed(ok, vector, fd.data) == ParsedVector(old(fd.data), before)
  {
    hide Atoi, ParsedString;
    vector := before;
    var buf := fd.ReadLen(3);
    if |buf| != 3 {
      return false, vector;
    }
    var nparameters := Atoi(buf);
    var i := 0;
    while i < nparameters
      invariant 0 <= i && (i <= nparameters || i == 0)
      invariant ParsedItems(nparameters - i, fd.data, vector) == ParsedVector(old(fd.data), before)
    {
      var read, str := UnserializeString(fd);
      if !read {
        return false, vector;
      }
      vector := vector + [str];
      i := i + 1;
    }
    ok := true;
  }

  method UnserializeEntry(fd: Stream) returns (ok: bool, name: string, value: string)
    modifies fd
    ensures Parsed(ok, (name, value), fd.data) == ParsedEntry(old(fd.data))
  {
    hide Atoi, CString;
    var buf := fd.ReadLen(18);
    if |buf| != 18 {
      return false, [], [];
    }
    var valueLen := Atoi(buf[9..]);
    var nameLen := Atoi(buf[..9]);
    if valueLen > 4096 || nameLen > 4096 {
      return false, [], [];
    }
    name := fd.ReadLen(nameLen);
    if |name| != nameLen {
      return false, [], [];
    }
    value := fd.ReadLen(valueLen);
    if |value| != valueLen {
      return false, [], [];
    }
    return true, KeyOf(name), CString(value);
  }

  method UnserializeMap(fd: Stream, before: map<string, string>) returns (ok: bool, m: map<string, string>)
    modifies fd
    ensures Parsed(ok, m, fd.data) == ParsedMap(old(fd.data), before)
  {
    hide Atoi, ParsedEntry;
    m := before;
    var buf := fd.ReadLen(3);
    if |buf| != 3 {
      return false, m;
    }
    var nparameters := Atoi(buf);
    var i := 0;
    while i < nparameters
      invariant 0 <= i && (i <= nparameters || i == 0)
      invariant ParsedEntries(nparameters - i, fd.data, m) == ParsedMap(old(fd.data), before)
    {
      var read, name, value := UnserializeEntry(fd);
      if !read {
        return false, m;
      }
      m := m[name := value];
      i := i + 1;
    }
    ok := true;
  }
}
