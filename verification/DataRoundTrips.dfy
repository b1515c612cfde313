/** What of the written data is read back, and exactly when. */
module DataRoundTrips {
  import opened Decimal
  import opened NameOrder
  import opened DataSerializer

  const BILLION := 1_000_000_000

  lemma Powers()
    ensures Power10(3) == 1000 && Power10(9) == BILLION && Power10(10) == 10 * BILLION
  {
    assert Power10(3) == 1000;
    assert Power10(6) == 1000 * Power10(3);
    assert Power10(9) == 1000 * Power10(6);
    assert Power10(10) == 10 * Power10(9);
  }

  lemma TakeFront(s: string, t: string)
    ensures Take(s + t, |s|) == s && (s + t)[|s|..] == t
  {
  }

  /** A number of at most w digits is read back from its field. */
  lemma ReadField(n: nat, w: nat)
    requires w > 0 && n < Power10(w)
    ensures |Padded(n, w)| == w && Atoi(Padded(n, w)) == n
  {
    PaddedNumber(n, w);
    AtoiDigits(Padded(n, w));
  }

  // ---- strings -------------------------------------------------------------------------------------

  lemma ReadString(s: string, rest: string)
    requires |s| < BILLION
    ensures ParsedString(SerializedString(s) + rest) == Parsed(true, s, rest)
  {
    hide Atoi, Padded, Take;
    Powers();
    var head := Padded(|s|, 9);
    ReadField(|s|, 9);
    assert SerializedString(s) + rest == head + (s + rest);
    TakeFront(head, s + rest);
    TakeFront(s, rest);
  }

  /** A string is written as nine digits of its length, and itself. */
  lemma StringForm(s: string)
    requires |s| < BILLION
    ensures var data := SerializedString(s);
            |data| == 9 + |s| && AllDigits(data[..9]) && Number(data[..9]) == |s| && data[9..] == s
  {
    Powers();
    PaddedNumber(|s|, 9);
    assert SerializedString(s)[..9] == Padded(|s|, 9);
  }

  /** An entry of a map is written as nine digits for the length of its name, nine for that of its value, and both. */
  lemma EntryForm(name: string, value: string)
    requires |name| < BILLION && |value| < BILLION
    ensures var data := Entry(name, value);
            && |data| == 18 + |name| + |value| && AllDigits(data[..9]) && AllDigits(data[9..18])
            && Number(data[..9]) == |name| && Number(data[9..18]) == |value|
            && data[18..] == name + value
  {
    Powers();
    PaddedNumber(|name|, 9);
    PaddedNumber(|value|, 9);
    var a, b := Padded(|name|, 9), Padded(|value|, 9);
    hide Padded, Number;
    assert Entry(name, value) == a + b + name + value;
    assert Entry(name, value)[..9] == a && Entry(name, value)[9..18] == b;
  }

  /** A vector is written as three digits for the number of its strings, and them. */
  lemma VectorForm(v: seq<string>)
    requires |v| < 1000
    ensures var data := SerializedVector(v);
            |data| >= 3 && AllDigits(data[..3]) && Number(data[..3]) == |v| && data[3..] == SerializedItems(v)
  {
    Powers();
    PaddedNumber(|v|, 3);
    hide Padded, Number, SerializedItems;
    assert SerializedVector(v)[..3] == Padded(|v|, 3);
  }

  lemma StringBound(data: string)
    ensures ParsedString(data).ok ==> |ParsedString(data).value| < BILLION
  {
    Powers();
    AtoiBound(Take(data, 9));
  }

  /** A string comes back, with what is behind it untouched, exactly if its length fits its field. */
  lemma StringExactly(s: string)
    ensures (forall rest :: ParsedString(SerializedString(s) + rest) == Parsed(true, s, rest)) <==> |s| < BILLION
  {
    hide ParsedString, SerializedString;
    if |s| < BILLION {
      forall rest
        ensures ParsedString(SerializedString(s) + rest) == Parsed(true, s, rest)
      {
        ReadString(s, rest);
      }
    } else {
      StringBound(SerializedString(s) + []);
    }
  }

  // ---- integers ------------------------------------------------------------------------------------

  predicate IsInt32(n: int) { -0x8000_0000 <= n < 0x8000_0000 }

  lemma StoiText(n: int)
    ensures Strtol(Text(n), 0) == Scanned(n, |Text(n)|)
  {
    var s := Text(n);
    if n >= 0 {
      assert s[0..|s|] == s;
      StrtolDigits(s, 0, |s|);
    } else {
      assert s[1..|s|] == Numeral(-n);
      SkipDigitsTo(s, 1, |s|);
    }
  }

  /** An integer comes back exactly if it is one of 32 bits. */
  lemma IntExactly(n: int, rest: string)
    requires |Text(n)| < BILLION
    ensures ParsedInt(SerializedInt(n) + rest) == Parsed(true, n, rest) <==> IsInt32(n)
  {
    hide Text, ParsedString, SerializedString, Strtol;
    ReadString(Text(n), rest);
    StoiText(n);
  }

  lemma TextLength(n: int)
    requires IsInt32(n)
    ensures |Text(n)| < BILLION
  {
    Powers();
    NumeralLength(if n < 0 then -n else n, 10);
  }

  // ---- vectors -------------------------------------------------------------------------------------

  predicate Fits(v: seq<string>) {
    |v| <= 999 && forall s :: s in v ==> |s| < BILLION
  }

  lemma {:induction false} ReadItems(v: seq<string>, rest: string, before: seq<string>)
    requires forall s :: s in v ==> |s| < BILLION
    ensures ParsedItems(|v|, SerializedItems(v) + rest, before) == Parsed(true, before + v, rest)
  {
    hide ParsedString, SerializedString;
    if v == [] {
      assert before + v == before;
    } else {
      var others := SerializedItems(v[1..]) + rest;
      ReadString(v[0], others);
      assert SerializedItems(v) + rest == SerializedString(v[0]) + others;
      ReadItems(v[1..], rest, before + [v[0]]);
      assert before + [v[0]] + v[1..] == before + v;
    }
  }

  lemma {:induction false} ItemsBound(n: int, data: string, before: seq<string>)
    requires forall s :: s in before ==> |s| < BILLION
    ensures var p := ParsedItems(n, data, before);
            (forall s :: s in p.value ==> |s| < BILLION) && |p.value| <= |before| + if n > 0 then n else 0
    decreases n
  {
    hide ParsedString;
    if n > 0 && ParsedString(data).ok {
      StringBound(data);
      ItemsBound(n - 1, ParsedString(data).rest, before + [ParsedString(data).value]);
    }
  }

  lemma VectorBound(data: string)
    ensures Fits(ParsedVector(data, []).value)
  {
    Powers();
    AtoiBound(Take(data, 3));
    if |Take(data, 3)| == 3 { ItemsBound(Atoi(Take(data, 3)), data[3..], []); }
  }

  lemma ReadVector(v: seq<string>, rest: string)
    requires Fits(v)
    ensures ParsedVector(SerializedVector(v) + rest, []) == Parsed(true, v, rest)
  {
    hide Atoi, Padded, Take, SerializedItems, ParsedItems;
    Powers();
    var head := Padded(|v|, 3);
    ReadField(|v|, 3);
    assert SerializedVector(v) + rest == head + (SerializedItems(v) + rest);
    TakeFront(head, SerializedItems(v) + rest);
    ReadItems(v, rest, []);
    assert [] + v == v;
  }

  /** A vector comes back exactly if it has at most 999 items, each of a length that fits. */
  lemma VectorExactly(v: seq<string>)
    ensures (forall rest :: ParsedVector(SerializedVector(v) + rest, []) == Parsed(true, v, rest)) <==> Fits(v)
  {
    hide ParsedVector, SerializedVector, Fits;
    if Fits(v) {
      forall rest
        ensures ParsedVector(SerializedVector(v) + rest, []) == Parsed(true, v, rest)
      {
        ReadVector(v, rest);
      }
    } else {
      VectorBound(SerializedVector(v) + []);
    }
  }

  // ---- maps ----------------------------------------------------------------------------------------

  predicate EntryFits(name: string, value: string) {
    0 < |name| <= 4096 && |value| <= 4096 && '\0' !in name && '\0' !in value
  }

  predicate MapFits(m: map<string, string>) {
    |m| <= 999 && forall n :: n in m ==> EntryFits(n, m[n])
  }

  /** What a head of two lengths announces is what follows it. */
  lemma ParsedBehindHead(s: string, head: string, name: string, value: string, rest: string)
    requires s == head + (name + (value + rest)) && |head| == 18
    requires Atoi(head[..9]) == |name| <= 4096 && Atoi(head[9..]) == |value| <= 4096
    ensures ParsedEntry(s) == Parsed(true, (KeyOf(name), CString(value)), rest)
  {
    hide Atoi, Take, CString, KeyOf;
    TakeFront(head, name + (value + rest));
    TakeFront(name, value + rest);
    TakeFront(value, rest);
  }

  lemma EntryHead(name: string, value: string, rest: string) returns (head: string)
    requires |name| <= 4096 && |value| <= 4096
    ensures Entry(name, value) + rest == head + (name + (value + rest)) && |head| == 18
    ensures Atoi(head[..9]) == |name| && Atoi(head[9..]) == |value|
  {
    hide Atoi, Padded;
    Powers();
    ReadField(|name|, 9);
    ReadField(|value|, 9);
    var first, second := Padded(|name|, 9), Padded(|value|, 9);
    head := first + second;
    assert head[..9] == first && head[9..] == second;
    Associate(head, name, value, rest);
  }

  lemma Associate(head: string, name: string, value: string, rest: string)
    ensures head + name + value + rest == head + (name + (value + rest))
  {
    assert head + name + value + rest == head + (name + value + rest);
    assert name + value + rest == name + (value + rest);
  }

  /** An entry of short strings comes back as C strings, and one without a name gets the default one. */
  lemma ReadEntry(name: string, value: string, rest: string)
    requires |name| <= 4096 && |value| <= 4096
    ensures ParsedEntry(Entry(name, value) + rest) == Parsed(true, (KeyOf(name), CString(value)), rest)
  {
    hide Atoi, Entry, ParsedEntry, CString, KeyOf;
    var head := EntryHead(name, value, rest);
    ParsedBehindHead(Entry(name, value) + rest, head, name, value, rest);
  }

  lemma EntryBound(data: string)
    ensures var p := ParsedEntry(data); p.ok ==> EntryFits(p.value.0, p.value.1)
  {
    hide Atoi, Take, CString;
  }

  lemma NothingMore(names: seq<string>, m: map<string, string>, before: map<string, string>)
    requires forall n :: n in names ==> n in m
    ensures before + (map n | n in names :: m[n]) == before || names != []
  {
  }

  lemma {:induction false} ReadEntries(names: seq<string>, m: map<string, string>, rest: string,
                                       before: map<string, string>)
    requires forall n :: n in names ==> n in m && EntryFits(n, m[n])
    ensures ParsedEntries(|names|, SerializedEntries(names, m) + rest, before)
         == Parsed(true, before + (map n | n in names :: m[n]), rest)
  {
    hide ParsedEntry, Entry, CString;
    if names == [] {
      NothingMore(names, m, before);
    } else {
      var name := names[0];
      var others := SerializedEntries(names[1..], m) + rest;
      ReadEntry(name, m[name], others);
      assert SerializedEntries(names, m) + rest == Entry(name, m[name]) + others;
      ReadEntries(names[1..], m, rest, before[name := m[name]]);
      MapOf(names, m, before);
    }
  }

  lemma MapOf(names: seq<string>, m: map<string, string>, before: map<string, string>)
    requires names != [] && forall n :: n in names ==> n in m
    ensures before[names[0] := m[names[0]]] + (map n | n in names[1..] :: m[n]) == before + (map n | n in names :: m[n])
  {
    assert names == [names[0]] + names[1..];
  }

  lemma OneEntryMore(m: map<string, string>, name: string, value: string)
    ensures |m[name := value]| <= |m| + 1
  {
    assert m[name := value].Keys == m.Keys + {name};
  }

  lemma {:induction false} EntriesBound(n: int, data: string, before: map<string, string>)
    requires forall k :: k in before ==> EntryFits(k, before[k])
    ensures var p := ParsedEntries(n, data, before);
            (forall k :: k in p.value ==> EntryFits(k, p.value[k])) && |p.value| <= |before| + if n > 0 then n else 0
    decreases n
  {
    hide ParsedEntry, EntryFits;
    if n > 0 && ParsedEntry(data).ok {
      EntryBound(data);
      var (name, value) := ParsedEntry(data).value;
      OneEntryMore(before, name, value);
      EntriesBound(n - 1, ParsedEntry(data).rest, before[name := value]);
    }
  }

  lemma MapBound(data: string)
    ensures ParsedMap(data, map[]).ok ==> MapFits(ParsedMap(data, map[]).value)
  {
    hide EntryFits;
    Powers();
    AtoiBound(Take(data, 3));
    if |Take(data, 3)| == 3 { EntriesBound(Atoi(Take(data, 3)), data[3..], map[]); }
  }

  lemma ReadMapOf(names: seq<string>, m: map<string, string>, rest: string)
    requires InOrder(names, m.Keys) && MapFits(m)
    ensures ParsedMap(Padded(|m|, 3) + (SerializedEntries(names, m) + rest), map[]) == Parsed(true, m, rest)
  {
    hide Atoi, Padded, Take, SerializedEntries, ParsedEntries, EntryFits, NameLeq;
    Powers();
    var head := Padded(|m|, 3);
    ReadField(|m|, 3);
    TakeFront(head, SerializedEntries(names, m) + rest);
    ReadEntries(names, m, rest, map[]);
    assert map[] + (map n | n in names :: m[n]) == m;
  }

  lemma ReadMap(m: map<string, string>, data: string, rest: string)
    requires IsSerializedMap(m, data) && MapFits(m)
    ensures ParsedMap(data + rest, map[]) == Parsed(true, m, rest)
  {
    hide Padded, SerializedEntries, ParsedMap, MapFits;
    var names :| InOrder(names, m.Keys) && data == Padded(|m|, 3) + SerializedEntries(names, m);
    ReadMapOf(names, m, rest);
    assert data + rest == Padded(|m|, 3) + (SerializedEntries(names, m) + rest);
  }

  /** A map comes back exactly if it has at most 999 entries of names and texts that fit. */
  lemma MapExactly(m: map<string, string>, data: string)
    requires IsSerializedMap(m, data)
    ensures (forall rest :: ParsedMap(data + rest, map[]) == Parsed(true, m, rest)) <==> MapFits(m)
  {
    hide ParsedMap, MapFits, IsSerializedMap;
    if MapFits(m) {
      forall rest
        ensures ParsedMap(data + rest, map[]) == Parsed(true, m, rest)
      {
        ReadMap(m, data, rest);
      }
    } else {
      MapBound(data + []);
    }
  }

  /** There is one way to write a map. */
  lemma SerializedMapUnique(m: map<string, string>, data: string, data': string)
    requires IsSerializedMap(m, data) && IsSerializedMap(m, data')
    ensures data == data'
  {
    var names :| InOrder(names, m.Keys) && data == Padded(|m|, 3) + SerializedEntries(names, m);
    var names' :| InOrder(names', m.Keys) && data' == Padded(|m|, 3) + SerializedEntries(names', m);
    OrderUnique(names, names', m.Keys);
  }

  lemma {:induction false} OrderUnique(names: seq<string>, names': seq<string>, keys: set<string>)
    requires InOrder(names, keys) && InOrder(names', keys)
    ensures names == names'
  {
    if names != [] {
      assert names[0] in names && names[0] in names' && names'[0] in names;
      FirstIsLeast(names, keys);
      FirstIsLeast(names', keys);
      LeastUnique(names[0], names'[0], keys);
      InOrderTail(names, keys);
      InOrderTail(names', keys);
      OrderUnique(names[1..], names'[1..], keys - {names[0]});
    } else {
      assert names' == [];
    }
  }

  lemma FirstIsLeast(names: seq<string>, keys: set<string>)
    requires InOrder(names, keys) && names != []
    ensures IsLeast(names[0], keys)
  {
    NameTotal(names[0], names[0]);
  }

  lemma InOrderTail(names: seq<string>, keys: set<string>)
    requires InOrder(names, keys) && names != []
    ensures InOrder(names[1..], keys - {names[0]})
  {
    assert names == [names[0]] + names[1..];
    assert names[0] in names;
  }
}
