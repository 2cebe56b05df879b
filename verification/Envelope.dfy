/** The `key&*&payload` envelope. Its delimiter overlaps itself: `&*&*&` holds two occurrences. */
module Envelope {
  import opened Options
  import opened Framing

  const AND: byte := 0x26   // '&'
  const STAR: byte := 0x2A  // '*'
  const DELIMITER: seq<byte> := [AND, STAR, AND]

  /** The delimiter is the text `&*&`. */
  lemma DelimiterIsText()
    ensures |DELIMITER| == |"&*&"| && forall i | 0 <= i < |DELIMITER| :: DELIMITER[i] as int == "&*&"[i] as int
  {
  }

  datatype Request = Request(key: seq<byte>, payload: seq<byte>)

  predicate At(s: seq<byte>, i: nat) {
    i + 3 <= |s| && s[i] == AND && s[i + 1] == STAR && s[i + 2] == AND
  }

  /** Where the delimiter first occurs: `bytes.index`, `std::string::find`. */
  function Find(s: seq<byte>): Option<nat> {
    if |s| < 3 then None
    else if At(s, 0) then Some(0)
    else
      match Find(s[1..])
      case None => None
      case Some(i) => Some(i + 1)
  }

  /** Python and C++: split at the first delimiter. */
  function Split(data: seq<byte>): Option<Request>
  {
    FindSplits(data);
    match Find(data)
    case None => None
    case Some(i) => Some(Request(data[..i], data[i + 3..]))
  }

  function Join(key: seq<byte>, payload: seq<byte>): seq<byte> {
    key + DELIMITER + payload
  }

  /** `QString::split` and `String.prototype.split`: cut at every delimiter, left to right. */
  function SplitAll(s: seq<byte>): (parts: seq<seq<byte>>)
    ensures |parts| > 0
  {
    FindSplits(s);
    match Find(s)
    case None => [s]
    case Some(i) => [s[..i]] + SplitAll(s[i + 3..])
  }

  /** Qt: cut at every delimiter, then take everything behind the first part and delimiter. */
  function QtParse(data: seq<byte>): Option<Request> {
    var parts := SplitAll(data);
    if |parts| < 2 then None
    else
      var n := |parts[0]| + |DELIMITER|;
      Some(Request(parts[0], if n <= |data| then data[n..] else []))
  }

  /** JavaScript: exactly two parts or an error. */
  function JsParse(data: seq<byte>): Option<Request> {
    var parts := SplitAll(data);
    if |parts| != 2 then None else Some(Request(parts[0], parts[1]))
  }

  // ---------- The first occurrence ----------

  lemma {:induction false} FindSplits(s: seq<byte>)
    ensures Find(s).None? <==> forall j: nat :: !At(s, j)
    ensures Find(s).Some? ==> At(s, Find(s).value) && forall j: nat | j < Find(s).value :: !At(s, j)
  {
    if |s| >= 3 && !At(s, 0) {
      FindSplits(s[1..]);
      assert forall j: nat :: At(s[1..], j) == At(s, j + 1);
      forall j: nat | At(s, j) ensures j > 0 && At(s[1..], j - 1) {
      }
    }
  }

  lemma FindIs(s: seq<byte>, i: nat)
    requires At(s, i) && forall j: nat | j < i :: !At(s, j)
    ensures Find(s) == Some(i)
  {
    FindSplits(s);
  }

  // ---------- Round trip ----------

  predicate EndsInHalf(k: seq<byte>) {
    |k| >= 2 && k[|k| - 2] == AND && k[|k| - 1] == STAR
  }

  /** The keys that an envelope carries faithfully. */
  predicate KeyFits(k: seq<byte>) {
    Find(k) == None && !EndsInHalf(k)
  }

  /** The first delimiter of an envelope is the one behind its key if and only if the key neither
      contains a delimiter nor ends in `&*`. */
  lemma FirstDelimiter(k: seq<byte>, p: seq<byte>)
    ensures Find(Join(k, p)) == Some(|k|) <==> KeyFits(k)
  {
    var s := Join(k, p);
    FindSplits(s);
    FindSplits(k);
    assert At(s, |k|);
    if EndsInHalf(k) {
      assert At(s, |k| - 2);
    } else if Find(k).Some? {
      assert At(s, Find(k).value);
    } else {
      forall j: nat | j < |k| ensures !At(s, j) {
        assert j + 3 <= |k| ==> (At(k, j) <==> At(s, j));
      }
      FindIs(s, |k|);
    }
  }

  lemma RoundTrip(k: seq<byte>, p: seq<byte>)
    ensures Split(Join(k, p)) == Some(Request(k, p)) <==> KeyFits(k)
  {
    var s := Join(k, p);
    FirstDelimiter(k, p);
    FindSplits(s);
    assert s[..|k|] == k && s[|k| + 3..] == p;
    if Find(s).Some? {
      assert |s[..Find(s).value]| == Find(s).value;
    }
  }

  /** Any key that was extracted comes back unchanged from any reply sent with it. */
  lemma ExtractedKeyIsRecovered(data: seq<byte>, reply: seq<byte>)
    requires Split(data).Some?
    ensures var q := Split(data).value;
            && data == Join(q.key, q.payload)
            && KeyFits(q.key)
            && Split(Join(q.key, reply)) == Some(Request(q.key, reply))
  {
    var q := Split(data).value;
    FindSplits(data);
    assert data == Join(q.key, q.payload);
    FirstDelimiter(q.key, q.payload);
    RoundTrip(q.key, reply);
  }

  // ---------- The other parsers ----------

  /** Qt's split-all-then-`mid` is the first-occurrence split, on every input. */
  lemma QtAgrees(data: seq<byte>)
    ensures QtParse(data) == Split(data)
  {
    FindSplits(data);
  }

  /** JavaScript accepts exactly the envelopes whose payload has no delimiter, and then agrees. */
  lemma JsAcceptsExactly(data: seq<byte>)
    ensures JsParse(data).Some? <==> Split(data).Some? && Find(Split(data).value.payload) == None
    ensures JsParse(data).Some? ==> JsParse(data) == Split(data)
  {
    FindSplits(data);
    if Find(data).Some? {
      var rest := data[Find(data).value + 3..];
      FindSplits(rest);
      assert SplitAll(data) == [data[..Find(data).value]] + SplitAll(rest);
    }
  }
}
