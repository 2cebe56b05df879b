/** The Python `KLKVMap`: a dictionary that keeps its insertion order. */
module PythonKvMap {
  import opened Seqs
  import opened KvText

  class KLKVMap {
    var items: seq<Entry>

    ghost predicate Valid()
      reads this
    {
      DistinctKeys(items)
    }

    constructor ()
      ensures Valid() && items == []
    {
      items := [];
    }

    method Set(key: string, value: string)
      requires Valid()
      modifies this
      ensures Valid() && items == Assign(old(items), (key, value))
      ensures ToMap(items) == ToMap(old(items))[key := value]
    {
      AssignIsUpdate(items, (key, value));
      items := Assign(items, (key, value));
    }

    /** The text determines the dictionary, its order included, exactly when every entry is clean. */
    method ToText() returns (s: string)
      requires Valid()
      ensures s == Serialize(items)
      ensures Deserialize(s) == items <==> AllClean(items)
    {
      s := Join(Texts(items), ';');
      RoundTrip(items);
    }

    method SetPair(pair: string)
      requires Valid()
      modifies this
      ensures Valid() && items == Store(old(items), pair)
    {
      var eq := IndexOf(pair, '=');
      if eq < |pair| {
        Set(pair[..eq], pair[eq + 1..]);
      }
    }

    method FromText(keyValueString: string)
      modifies this
      ensures Valid() && items == Deserialize(keyValueString) && AllClean(items)
    {
      items := [];
      var pairs := Split(keyValueString, ';');
      DeserializedIsClean(keyValueString);
      TakeAll(pairs);
      assert Load(Pairs(pairs[..0])) == [];
      hide Split, Pairs, Load, Store;
      for i := 0 to |pairs|
        invariant Valid() && items == Load(Pairs(pairs[..i]))
      {
        LoadNext(pairs, i);
        SetPair(pairs[i]);
      }
    }

    method Get(key: string, defaultVal: string) returns (value: string)
      requires Valid()
      ensures value == if key in ToMap(items) then ToMap(items)[key] else defaultVal
    {
      ToMapHolds(items);
      var i := KeyIndex(items, key);
      value := if i < |items| then items[i].1 else defaultVal;
    }
  }
}
