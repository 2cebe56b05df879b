/** The `key1=value1;key2=value2` text of `KLKVMap` and what it means. */
module KvText {
  import opened Seqs

  type Entry = (string, string)

  // ---------- Text ----------

  function Split(s: string, c: char): (parts: seq<string>)
    ensures |parts| > 0
  {
    if |s| == 0 then [""]
    else
      var parts := Split(s[1..], c);
      if s[0] == c then [""] + parts else [[s[0]] + parts[0]] + parts[1..]
  }

  function Join(parts: seq<string>, c: char): string {
    if |parts| == 0 then ""
    else if |parts| == 1 then parts[0]
    else Join(parts[..|parts| - 1], c) + [c] + parts[|parts| - 1]
  }

  /** Where `c` first occurs, or the length. */
  function IndexOf(s: string, c: char): (i: nat)
    ensures i <= |s| && (i < |s| ==> s[i] == c) && c !in s[..i]
  {
    if |s| == 0 || s[0] == c then 0 else
      assert s[..1 + IndexOf(s[1..], c)] == [s[0]] + s[1..][..IndexOf(s[1..], c)];
      1 + IndexOf(s[1..], c)
  }

  function Text(e: Entry): string {
    e.0 + "=" + e.1
  }

  function Texts(items: seq<Entry>): seq<string> {
    if |items| == 0 then [] else Texts(items[..|items| - 1]) + [Text(items[|items| - 1])]
  }

  /** The text for entries met in a given order. */
  function Serialize(items: seq<Entry>): string {
    Join(Texts(items), ';')
  }

  /** The segments that hold a `=`, cut at the first one. */
  function Pairs(parts: seq<string>): seq<Entry> {
    if |parts| == 0 then [] else Pairs(parts[..|parts| - 1]) + Pair(parts[|parts| - 1])
  }

  function Pair(part: string): seq<Entry> {
    var i := IndexOf(part, '=');
    if i == |part| then [] else [(part[..i], part[i + 1..])]
  }

  // ---------- Dictionaries in insertion order ----------

  function KeyIndex(items: seq<Entry>, key: string): (i: nat)
    ensures i <= |items| && (i < |items| ==> items[i].0 == key)
    ensures forall j | 0 <= j < i :: items[j].0 != key
  {
    if |items| == 0 || items[0].0 == key then 0 else 1 + KeyIndex(items[1..], key)
  }

  /** `d[key] = value`: a known key keeps its place, a new one goes to the end. */
  function Assign(items: seq<Entry>, e: Entry): seq<Entry> {
    var i := KeyIndex(items, e.0);
    if i < |items| then items[i := e] else items + [e]
  }

  function Load(pairs: seq<Entry>): seq<Entry> {
    if |pairs| == 0 then [] else Assign(Load(pairs[..|pairs| - 1]), pairs[|pairs| - 1])
  }

  /** What reading one more segment does. */
  function Store(items: seq<Entry>, part: string): seq<Entry> {
    var i := IndexOf(part, '=');
    if i < |part| then Assign(items, (part[..i], part[i + 1..])) else items
  }

  function Deserialize(s: string): seq<Entry> {
    Load(Pairs(Split(s, ';')))
  }

  predicate DistinctKeys(items: seq<Entry>) {
    forall i, j | 0 <= i < j < |items| :: items[i].0 != items[j].0
  }

  /** The entries that the text can carry. */
  predicate Clean(e: Entry) {
    '=' !in e.0 && ';' !in e.0 && ';' !in e.1
  }

  predicate AllClean(items: seq<Entry>) {
    forall i | 0 <= i < |items| :: Clean(items[i])
  }

  // ---------- Splitting and joining ----------

  lemma {:induction false} SplitWhole(a: string, c: char)
    requires c !in a
    ensures Split(a, c) == [a]
  {
    if |a| > 0 {
      SplitWhole(a[1..], c);
      HeadTail(a);
    }
  }

  lemma {:induction false} SplitFirst(a: string, t: string, c: char)
    requires c !in a
    ensures Split(a + [c] + t, c) == [a] + Split(t, c)
  {
    if |a| == 0 {
      assert (a + [c] + t)[1..] == t;
    } else {
      assert (a + [c] + t)[1..] == a[1..] + [c] + t;
      SplitFirst(a[1..], t, c);
      HeadTail(a);
    }
  }

  lemma {:induction false} SplitLast(x: string, a: string, c: char)
    requires c !in a
    ensures Split(x + [c] + a, c) == Split(x, c) + [a]
  {
    if |x| == 0 {
      assert (x + [c] + a)[1..] == a;
      SplitWhole(a, c);
    } else {
      assert (x + [c] + a)[1..] == x[1..] + [c] + a;
      SplitLast(x[1..], a, c);
    }
  }

  lemma {:induction false} SplitJoin(parts: seq<string>, c: char)
    requires |parts| > 0 && forall i | 0 <= i < |parts| :: c !in parts[i]
    ensures Split(Join(parts, c), c) == parts
  {
    if |parts| == 1 {
      SplitWhole(parts[0], c);
    } else {
      SplitJoin(parts[..|parts| - 1], c);
      SplitLast(Join(parts[..|parts| - 1], c), parts[|parts| - 1], c);
      InitLast(parts);
    }
  }

  lemma {:induction false} PartsHoldNoDelimiter(s: string, c: char)
    ensures forall i | 0 <= i < |Split(s, c)| :: c !in Split(s, c)[i]
  {
    if |s| > 0 {
      PartsHoldNoDelimiter(s[1..], c);
    }
  }

  lemma {:induction false} JoinFirst(a: string, parts: seq<string>, c: char)
    requires |parts| > 0
    ensures Join([a] + parts, c) == a + [c] + Join(parts, c)
  {
    if |parts| > 1 {
      var n := |parts| - 1;
      JoinFirst(a, parts[..n], c);
      assert ([a] + parts)[..n + 1] == [a] + parts[..n];
    } else {
      assert ([a] + parts)[..1] == [a] && [a] + parts == [a, parts[0]];
    }
  }

  lemma {:induction false} JoinSplit(s: string, c: char)
    ensures Join(Split(s, c), c) == s
  {
    if |s| > 0 {
      var parts := Split(s[1..], c);
      JoinSplit(s[1..], c);
      if s[0] == c {
        JoinFirst("", parts, c);
      } else if |parts| > 1 {
        assert [parts[0]] + parts[1..] == parts;
        JoinFirst(parts[0], parts[1..], c);
        JoinFirst([s[0]] + parts[0], parts[1..], c);
      }
      HeadTail(s);
    }
  }

  /** Exactly how a text splits: into the segments without the delimiter that join to it. */
  lemma SplitExactly(s: string, c: char, parts: seq<string>)
    ensures Split(s, c) == parts <==>
            |parts| > 0 && (forall i | 0 <= i < |parts| :: c !in parts[i]) && Join(parts, c) == s
  {
    JoinSplit(s, c);
    PartsHoldNoDelimiter(s, c);
    if |parts| > 0 && (forall i | 0 <= i < |parts| :: c !in parts[i]) {
      SplitJoin(parts, c);
    }
  }

  /** Exactly what a segment gives: nothing without a `=`, and otherwise the entry that it is the text
      of, cut at the first one. */
  lemma PairExactly(part: string, e: Entry)
    ensures Pair(part) == [e] <==> part == e.0 + "=" + e.1 && '=' !in e.0
    ensures Pair(part) == [] <==> '=' !in part
  {
    var i := IndexOf(part, '=');
    if i < |part| {
      assert part == part[..i] + "=" + part[i + 1..];
    } else {
      assert part[..i] == part;
    }
    if part == e.0 + "=" + e.1 && '=' !in e.0 {
      PairOfText(e);
      assert part[|e.0|] == '=';
    }
  }

  /** The text of a dictionary, entry by entry. */
  lemma SerializeExactly(items: seq<Entry>, e: Entry)
    ensures Serialize([]) == ""
    ensures Serialize([e]) == e.0 + "=" + e.1
    ensures |items| > 0 ==> Serialize(items + [e]) == Serialize(items) + ";" + (e.0 + "=" + e.1)
  {
    InitOfAppend(items, e);
    assert [e][..0] == [];
    EmptyLeft([Text(e)]);
    TextsLength(items);
    InitOfAppend(Texts(items), Text(e));
  }

  lemma TextsLength(items: seq<Entry>)
    ensures |Texts(items)| == |items|
  {
  }

  lemma {:induction false} PairsAppend(a: seq<string>, b: seq<string>)
    ensures Pairs(a + b) == Pairs(a) + Pairs(b)
  {
    if |b| == 0 {
      EmptyRight(a);
      EmptyRight(Pairs(a));
    } else {
      var n := |b| - 1;
      assert (a + b)[..|a| + n] == a + b[..n];
      PairsAppend(a, b[..n]);
      Assoc(Pairs(a), Pairs(b[..n]), Pair(b[n]));
    }
  }

  lemma PairsOne(part: string)
    ensures Pairs([part]) == Pair(part)
  {
    assert [part][..0] == [];
    EmptyLeft(Pair(part));
  }

  lemma LoadPair(read: seq<Entry>, part: string)
    ensures Load(read + Pair(part)) == Store(Load(read), part)
  {
    var i := IndexOf(part, '=');
    if i < |part| {
      InitOfAppend(read, (part[..i], part[i + 1..]));
    } else {
      EmptyRight(read);
    }
  }

  lemma LoadNext(parts: seq<string>, i: nat)
    requires i < |parts|
    ensures Load(Pairs(parts[..i + 1])) == Store(Load(Pairs(parts[..i])), parts[i])
  {
    TakeNext(parts, i);
    LoadPair(Pairs(parts[..i]), parts[i]);
  }

  // ---------- Round trip ----------

  lemma PairOfText(e: Entry)
    requires '=' !in e.0
    ensures Pair(Text(e)) == [e]
  {
    var t := Text(e);
    var i := IndexOf(t, '=');
    assert t[|e.0|] == '=';
    assert t[..|e.0|] == e.0 && t[|e.0| + 1..] == e.1;
  }

  lemma {:induction false} TextsOfClean(items: seq<Entry>)
    requires AllClean(items)
    ensures |Texts(items)| == |items| && forall i | 0 <= i < |items| :: ';' !in Texts(items)[i]
    ensures Pairs(Texts(items)) == items
  {
    if |items| > 0 {
      var before, e := items[..|items| - 1], items[|items| - 1];
      assert Clean(e);
      TextsOfClean(before);
      PairsAppend(Texts(before), [Text(e)]);
      PairsOne(Text(e));
      PairOfText(e);
      InitLast(items);
    }
  }

  lemma {:induction false} LoadDistinct(items: seq<Entry>)
    requires DistinctKeys(items)
    ensures Load(items) == items
  {
    if |items| > 0 {
      LoadDistinct(items[..|items| - 1]);
      InitLast(items);
    }
  }

  lemma PairsOfSerialized(items: seq<Entry>)
    requires AllClean(items)
    ensures Pairs(Split(Serialize(items), ';')) == items
  {
    TextsOfClean(items);
    if |items| > 0 {
      SplitJoin(Texts(items), ';');
    } else {
      PairsOne("");
    }
  }

  lemma {:induction false} LoadKeeps(pairs: seq<Entry>)
    requires AllClean(pairs)
    ensures AllClean(Load(pairs))
  {
    if |pairs| > 0 {
      LoadKeeps(pairs[..|pairs| - 1]);
    }
  }

  lemma {:induction false} PairsAreClean(parts: seq<string>)
    requires forall i | 0 <= i < |parts| :: ';' !in parts[i]
    ensures AllClean(Pairs(parts))
  {
    if |parts| > 0 {
      PairsAreClean(parts[..|parts| - 1]);
    }
  }

  /** Every dictionary read from a text has distinct keys and clean entries. */
  lemma DeserializedIsClean(s: string)
    ensures AllClean(Deserialize(s)) && DistinctKeys(Deserialize(s))
  {
    PartsHoldNoDelimiter(s, ';');
    PairsAreClean(Split(s, ';'));
    LoadKeeps(Pairs(Split(s, ';')));
    LoadHasDistinctKeys(Pairs(Split(s, ';')));
  }

  /** Exact round trip, order included: a dictionary survives if and only if no key holds `=` or
      `;` and no value holds `;`. */
  lemma RoundTrip(items: seq<Entry>)
    requires DistinctKeys(items)
    ensures Deserialize(Serialize(items)) == items <==> AllClean(items)
  {
    DeserializedIsClean(Serialize(items));
    if AllClean(items) {
      PairsOfSerialized(items);
      LoadDistinct(items);
    }
  }

  /** Those dictionaries are exactly the range of `deserialize`. */
  lemma RangeOfDeserialize(items: seq<Entry>)
    ensures (exists s :: Deserialize(s) == items) <==> DistinctKeys(items) && AllClean(items)
  {
    if DistinctKeys(items) && AllClean(items) {
      RoundTrip(items);
    } else {
      forall s ensures Deserialize(s) != items {
        DeserializedIsClean(s);
      }
    }
  }

  /** Reading and writing once brings any text to a normal form. */
  lemma NormalForm(s: string)
    ensures Deserialize(Serialize(Deserialize(s))) == Deserialize(s)
  {
    DeserializedIsClean(s);
    RoundTrip(Deserialize(s));
  }

  // ---------- Duplicate keys ----------

  /** The last segment with a key, or -1; `KeyIndex` is the first. */
  function LastIndex(pairs: seq<Entry>, key: string): (j: int)
    ensures -1 <= j < |pairs| && (j >= 0 ==> pairs[j].0 == key)
    ensures forall l | j < l < |pairs| :: pairs[l].0 != key
  {
    if |pairs| == 0 || pairs[|pairs| - 1].0 == key then |pairs| - 1 else LastIndex(pairs[..|pairs| - 1], key)
  }

  lemma KeyIndexOfPrefix(pairs: seq<Entry>, key: string)
    requires |pairs| > 0
    ensures var before := pairs[..|pairs| - 1];
            KeyIndex(before, key) < |before| ==> KeyIndex(pairs, key) == KeyIndex(before, key)
    ensures var before := pairs[..|pairs| - 1];
            KeyIndex(before, key) == |before| && pairs[|pairs| - 1].0 == key ==> KeyIndex(pairs, key) == |before|
  {
    var before := pairs[..|pairs| - 1];
    var i, j := KeyIndex(before, key), KeyIndex(pairs, key);
    if i < |before| {
      assert pairs[i].0 == key;
    }
    if j < |before| {
      assert before[j].0 == key;
    }
  }

  ghost predicate HasKeysOf(d: seq<Entry>, pairs: seq<Entry>) {
    forall j | 0 <= j < |pairs| :: KeyIndex(d, pairs[j].0) < |d|
  }

  ghost predicate HasLastValues(d: seq<Entry>, pairs: seq<Entry>) {
    forall i | 0 <= i < |d| :: LastIndex(pairs, d[i].0) >= 0 && d[i] == pairs[LastIndex(pairs, d[i].0)]
  }

  ghost predicate InFirstOrder(d: seq<Entry>, pairs: seq<Entry>) {
    forall i, j | 0 <= i < j < |d| :: KeyIndex(pairs, d[i].0) < KeyIndex(pairs, d[j].0)
  }

  lemma AssignKeys(d: seq<Entry>, e: Entry)
    ensures forall i | 0 <= i < |d| :: Assign(d, e)[i].0 == d[i].0
    ensures forall key | KeyIndex(d, key) < |d| :: KeyIndex(Assign(d, e), key) < |Assign(d, e)|
    ensures KeyIndex(Assign(d, e), e.0) < |Assign(d, e)|
  {
    var d', k := Assign(d, e), KeyIndex(d, e.0);
    assert d'[k] == e;
    forall key | KeyIndex(d, key) < |d| ensures KeyIndex(d', key) < |d'| {
      assert d'[KeyIndex(d, key)].0 == key;
    }
  }

  lemma KeysStep(d: seq<Entry>, before: seq<Entry>, e: Entry)
    requires HasKeysOf(d, before)
    ensures HasKeysOf(Assign(d, e), before + [e])
  {
    AssignKeys(d, e);
  }

  lemma ValuesStep(d: seq<Entry>, before: seq<Entry>, e: Entry)
    requires DistinctKeys(d) && HasLastValues(d, before)
    ensures HasLastValues(Assign(d, e), before + [e])
  {
    InitOfAppend(before, e);
  }

  lemma OldKeyKeepsIndex(d: seq<Entry>, before: seq<Entry>, e: Entry, i: int)
    requires HasLastValues(d, before) && 0 <= i < |d|
    ensures KeyIndex(before + [e], d[i].0) == KeyIndex(before, d[i].0) < |before|
  {
    InitOfAppend(before, e);
    assert before[LastIndex(before, d[i].0)].0 == d[i].0;
    KeyIndexOfPrefix(before + [e], d[i].0);
  }

  lemma NewKeyIsLast(d: seq<Entry>, before: seq<Entry>, e: Entry)
    requires HasKeysOf(d, before) && KeyIndex(d, e.0) == |d|
    ensures KeyIndex(before + [e], e.0) == |before|
  {
    InitOfAppend(before, e);
    KeyIndexOfPrefix(before + [e], e.0);
  }

  lemma OrderStep(d: seq<Entry>, before: seq<Entry>, e: Entry)
    requires HasKeysOf(d, before) && HasLastValues(d, before) && InFirstOrder(d, before)
    ensures InFirstOrder(Assign(d, e), before + [e])
  {
    AssignKeys(d, e);
    hide KeyIndex, LastIndex;
    forall i | 0 <= i < |d| ensures KeyIndex(before + [e], d[i].0) == KeyIndex(before, d[i].0) < |before| {
      OldKeyKeepsIndex(d, before, e, i);
    }
    if KeyIndex(d, e.0) == |d| {
      NewKeyIsLast(d, before, e);
    }
  }

  lemma {:induction false} LoadHasDistinctKeys(pairs: seq<Entry>)
    ensures DistinctKeys(Load(pairs))
  {
    if |pairs| > 0 {
      LoadHasDistinctKeys(pairs[..|pairs| - 1]);
    }
  }

  /** How duplicate keys resolve when a text is read: the keys are those of the segments, each has
      the value of its last segment, and they stand in the order of their first segments. */
  lemma {:induction false} DuplicatesResolve(pairs: seq<Entry>)
    ensures HasKeysOf(Load(pairs), pairs)
    ensures HasLastValues(Load(pairs), pairs)
    ensures InFirstOrder(Load(pairs), pairs)
  {
    if |pairs| > 0 {
      var before, e := pairs[..|pairs| - 1], pairs[|pairs| - 1];
      DuplicatesResolve(before);
      KeysStep(Load(before), before, e);
      LoadHasDistinctKeys(before);
      ValuesStep(Load(before), before, e);
      OrderStep(Load(before), before, e);
      InitLast(pairs);
    }
  }

  // ---------- Unordered maps ----------

  function ToMap(items: seq<Entry>): map<string, string> {
    if |items| == 0 then map[] else ToMap(items[..|items| - 1])[items[|items| - 1].0 := items[|items| - 1].1]
  }

  predicate CleanMap(m: map<string, string>) {
    forall k | k in m :: Clean((k, m[k]))
  }

  lemma {:induction false} ToMapHolds(items: seq<Entry>)
    requires DistinctKeys(items)
    ensures forall i | 0 <= i < |items| :: items[i].0 in ToMap(items) && ToMap(items)[items[i].0] == items[i].1
    ensures forall k | k in ToMap(items) :: exists i :: 0 <= i < |items| && items[i] == (k, ToMap(items)[k])
  {
    if |items| > 0 {
      ToMapHolds(items[..|items| - 1]);
    }
  }

  /** The exact round trip of an unordered map, for every order its entries may be written in. */
  lemma RoundTripAnyOrder(m: map<string, string>, order: seq<Entry>)
    requires DistinctKeys(order) && ToMap(order) == m
    ensures ToMap(Deserialize(Serialize(order))) == m <==> CleanMap(m)
  {
    ToMapHolds(order);
    if CleanMap(m) {
      RoundTrip(order);
    } else if ToMap(Deserialize(Serialize(order))) == m {
      DeserializedIsClean(Serialize(order));
      ToMapHolds(Deserialize(Serialize(order)));
    }
  }

  lemma {:induction false} ReplaceIsUpdate(items: seq<Entry>, i: nat, e: Entry)
    requires DistinctKeys(items) && i < |items| && items[i].0 == e.0
    ensures ToMap(items[i := e]) == ToMap(items)[e.0 := e.1]
  {
    var n := |items| - 1;
    if i < n {
      ReplaceIsUpdate(items[..n], i, e);
      assert items[i := e][..n] == items[..n][i := e];
    } else {
      assert items[i := e][..n] == items[..n];
    }
  }

  lemma AssignIsUpdate(items: seq<Entry>, e: Entry)
    requires DistinctKeys(items)
    ensures ToMap(Assign(items, e)) == ToMap(items)[e.0 := e.1]
  {
    if KeyIndex(items, e.0) < |items| {
      ReplaceIsUpdate(items, KeyIndex(items, e.0), e);
    } else {
      InitOfAppend(items, e);
    }
  }

  /** Loading segments into an unordered map gives the map of the dictionary. */
  lemma {:induction false} LoadIsUpdates(pairs: seq<Entry>)
    ensures ToMap(Load(pairs)) == ToMap(pairs)
  {
    if |pairs| > 0 {
      LoadHasDistinctKeys(pairs[..|pairs| - 1]);
      LoadIsUpdates(pairs[..|pairs| - 1]);
      AssignIsUpdate(Load(pairs[..|pairs| - 1]), pairs[|pairs| - 1]);
    }
  }
}
