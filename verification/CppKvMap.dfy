/** The C++ `KLKVMap`: an unordered map, written in whatever order it is iterated and read with a
    `getline` cursor. */
module CppKvMap {
  import opened Seqs
  import opened KvText

  class KLKVMap {
    var entries: map<string, string>

    constructor ()
      ensures entries == map[]
    {
      entries := map[];
    }

    /** `order` is the order in which the map is iterated. */
    method ToText(order: seq<Entry>) returns (result: string)
      requires DistinctKeys(order) && ToMap(order) == entries
      ensures result == Serialize(order)
      ensures ToMap(Deserialize(result)) == entries <==> CleanMap(entries)
    {
      result := "";
      var first := true;
      RoundTripAnyOrder(entries, order);
      assert order[..0] == [] && Serialize([]) == "";
      hide Serialize, ToMap, Deserialize;
      for i := 0 to |order|
        invariant result == Serialize(order[..i]) && first == (i == 0)
      {
        SerializeStep(order, i);
        if !first {
          result := result + ";";
        }
        result := result + (order[i].0 + "=" + order[i].1);
        first := false;
      }
      assert order[..|order|] == order;
    }

    /** The cursor parser reads the map that the split parsers read. */
    method FromText(kvString: string)
      modifies this
      ensures entries == ToMap(Deserialize(kvString))
    {
      ghost var read: seq<Entry> := [];
      LoadIsUpdates(Unread(kvString, 0));
      EmptyLeft(Unread(kvString, 0));
      AllIsUnread(kvString);
      assert ToMap(read) == map[];
      hide Unread, ToMap, Load, Pair, IndexOf;
      entries := map[];
      if kvString == "" {
        EmptyRight(read);
        return;
      }
      var pos := 0;
      while pos < |kvString|
        invariant pos <= |kvString| && entries == ToMap(read)
        invariant read + Unread(kvString, pos) == Unread(kvString, 0)
      {
        var pair, next := GetLine(kvString, pos);
        Assoc(read, Pair(pair), Unread(kvString, next));
        StorePair(read, pair);
        pos, read := next, read + Pair(pair);
        if pair == "" {
          continue;
        }
        var eqPos := IndexOf(pair, '=');
        if eqPos < |pair| {
          entries := entries[pair[..eqPos] := pair[eqPos + 1..]];
        }
      }
      EmptyRight(read);
    }
  }

  /** The entries in the part of the text that the stream has not read. */
  function Unread(s: string, pos: nat): seq<Entry>
    requires pos <= |s|
  {
    Pairs(Split(s[pos..], ';'))
  }

  lemma AllIsUnread(s: string)
    ensures Deserialize(s) == Load(Unread(s, 0))
    ensures Unread(s, |s|) == []
  {
    assert s[0..] == s && s[|s|..] == "";
    PairsOne("");
  }

  /** `std::getline(ss, pair, ';')`: the segment up to the next delimiter, which a last one need not
      have. */
  method GetLine(s: string, pos: nat) returns (pair: string, next: nat)
    requires pos < |s|
    ensures pos < next <= |s| && ';' !in pair
    ensures Unread(s, pos) == Pair(pair) + Unread(s, next)
  {
    hide Split, Pairs, Pair, IndexOf;
    var rest := s[pos..];
    var end := IndexOf(rest, ';');
    pair := rest[..end];
    FirstSegment(rest, end);
    if end < |rest| {
      DropDrop(s, pos, end + 1);
      next := pos + end + 1;
    } else {
      AllIsUnread(s);
      EmptyRight(Pair(pair));
      next := |s|;
    }
  }

  lemma SerializeStep(order: seq<Entry>, i: nat)
    requires i < |order|
    ensures Serialize(order[..i + 1]) == (if i == 0 then "" else Serialize(order[..i]) + ";") + Text(order[i])
  {
    assert order[..i + 1][..i] == order[..i];
    TextsLength(order[..i]);
    InitOfAppend(Texts(order[..i]), Text(order[i]));
    EmptyLeft(Text(order[i]));
  }

  /** Storing what a segment holds. */
  lemma StorePair(read: seq<Entry>, part: string)
    ensures var i := IndexOf(part, '=');
            ToMap(read + Pair(part)) == if i < |part| then ToMap(read)[part[..i] := part[i + 1..]] else ToMap(read)
  {
    var i := IndexOf(part, '=');
    if i < |part| {
      InitOfAppend(read, (part[..i], part[i + 1..]));
    } else {
      EmptyRight(read);
    }
  }

  lemma FirstSegment(rest: string, end: nat)
    requires end == IndexOf(rest, ';')
    ensures Pairs(Split(rest, ';')) == Pair(rest[..end]) + (if end < |rest| then Pairs(Split(rest[end + 1..], ';')) else [])
  {
    var segment := rest[..end];
    PairsOne(segment);
    if end < |rest| {
      CutAt(rest, end);
      SplitFirst(segment, rest[end + 1..], ';');
      PairsAppend([segment], Split(rest[end + 1..], ';'));
    } else {
      TakeAll(rest);
      SplitWhole(rest, ';');
      EmptyRight(Pair(segment));
    }
  }

  lemma CutAt(s: string, i: nat)
    requires i < |s|
    ensures s == s[..i] + [s[i]] + s[i + 1..]
  {
  }
}
