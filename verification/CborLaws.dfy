/** The codec's round trip, its shortest heads, and what they imply. */
module CborLaws {
  import opened Orders
  import opened Bytes
  import opened Outcomes
  import opened Cbor

  /** A head followed by anything parses back to its argument. */
  lemma HeadRoundTrip(major: nat, n: nat, rest: Bytes)
    requires major < 8 && n <= MAX_SAFE_INTEGER
    ensures var b := Head(major, n) + rest;
      && b[0] / 32 == major
      && ParseLength(b[0] % 32, b[1..]) == Ok(Parsed(n, rest))
  {
    hide Be, FromBe, Pow;
    Widths();
    var h := Head(major, n);
    if n < 24 {
      assert (h + rest)[1..] == rest;
    } else {
      var w := if n < 0x100 then 1 else if n < 0x1_0000 then 2 else if n < 0x1_0000_0000 then 4 else 8;
      BeInverse(n, w);
      assert (h + rest)[1..] == Be(n, w) + rest;
      BeParses(n, w, rest);
    }
  }

  /** The head of RFC 8949, section 3: the major type in three bits, then the argument in the
      other five, or in the 1, 2, 4 or 8 bytes they announce, most significant first. */
  lemma HeadLayout(major: nat, n: nat)
    requires major < 8 && n <= MAX_SAFE_INTEGER
    ensures var h := Head(major, n);
      && h[0] / 32 == major
      && |h| == (if n < 24 then 1 else if n < 0x100 then 2 else if n < 0x1_0000 then 3 else if n < 0x1_0000_0000 then 5 else 9)
      && h[0] % 32 == (match |h| case 1 => n case 2 => 24 case 3 => 25 case 5 => 26 case _ => 27)
      && (|h| == 2 ==> n == h[1])
      && (|h| == 3 ==> n == (h[2] as int) + 0x100 * (h[1] as int))
      && (|h| == 5 ==> n == (h[4] as int) + 0x100 * (h[3] as int) + 0x1_0000 * (h[2] as int) + 0x100_0000 * (h[1] as int))
      && (|h| == 9 ==>
           n == (h[8] as int) + 0x100 * (h[7] as int) + 0x1_0000 * (h[6] as int) + 0x100_0000 * (h[5] as int)
              + 0x1_0000_0000 * ((h[4] as int) + 0x100 * (h[3] as int) + 0x1_0000 * (h[2] as int) + 0x100_0000 * (h[1] as int)))
  {
    BigEndian(n);
    OneByte(n);
    hide Be;
  }

  lemma OneByte(n: nat)
    ensures n < 0x100 ==> Be(n, 1) == [n]
  {
    assert Be(n / 0x100, 0) == [];
  }

  /** Major types and simple values of RFC 8949, section 3.1. */
  lemma EncodingStarts(v: Value)
    requires Encodable(v)
    ensures v.Null? || v.Bool? ==> Encode(v) == [if v.Null? then 0xf6 else if v.b then 0xf5 else 0xf4]
    ensures Encode(v) != [] && Encode(v)[0] / 32 ==
      match v
      case Null => 7
      case Bool(_) => 7
      case Int(n) => if n >= 0 then 0 else 1
      case Blob(_) => 2
      case Text(_) => 3
      case Arr(_) => 4
      case Map(_) => 5
  {
    match v
    case Null =>
    case Bool(_) =>
    case Int(n) => HeadLayout(if n >= 0 then 0 else 1, if n >= 0 then n else -n - 1);
    case Blob(b) => HeadLayout(2, |b|);
    case Text(u) => HeadLayout(3, |u|);
    case Arr(items) => HeadLayout(4, |items|);
    case Map(es) => HeadLayout(5, |es|);
  }

  lemma BeParses(n: nat, w: nat, rest: Bytes)
    requires n < Pow(0x100, w)
    ensures ParseBe(Be(n, w) + rest, w) == Ok(Parsed(n, rest))
  {
    BeInverse(n, w);
    assert (Be(n, w) + rest)[..w] == Be(n, w) && (Be(n, w) + rest)[w..] == rest;
  }

  /** No head that parses to an argument is shorter than the one the encoder writes. */
  lemma ShortestHead(info: nat, b: Bytes)
    requires info < 32 && ParseLength(info, b).Ok?
    ensures var r := ParseLength(info, b).value;
      r.value <= MAX_SAFE_INTEGER && |Head(0, r.value)| <= 1 + |b| - |r.rest|
  {
    Widths();
    if info >= 24 {
      var w := if info == 24 then 1 else if info == 25 then 2 else if info == 26 then 4 else 8;
      FromBeInverse(b[..w]);
    }
  }

  lemma ParseHead(major: nat, n: nat, rest: Bytes)
    requires major < 6 && n <= MAX_SAFE_INTEGER
    ensures var b := Head(major, n) + rest;
      Parse(b) ==
        if major == 0 then Ok(Parsed(Int(n), rest))
        else if major == 1 then Ok(Parsed(Int(-1 - (n as int)), rest))
        else if major == 2 || major == 3 then
          match ParseTake(rest, n)
          case Err(e) => Err(e)
          case Ok(Parsed(bytes, rest')) => Ok(Parsed(if major == 2 then Blob(bytes) else Text(bytes), rest'))
        else if major == 4 then AsArr(ParseItems(rest, n))
        else AsMap(ParseEntries(rest, n))
  {
    hide Head, ParseLength;
    HeadRoundTrip(major, n, rest);
    assert Head(major, n) + rest != [];
  }

  /** Decoding the encoding of any value, followed by any bytes, gives back the value and
      leaves exactly those bytes. */
  lemma {:induction false} RoundTrip(v: Value, rest: Bytes)
    requires Encodable(v)
    ensures Parse(Encode(v) + rest) == Ok(Parsed(v, rest))
    decreases v, 0
  {
    match v
    case Null =>
      SimpleRoundTrip(v, rest);
    case Bool(b) =>
      SimpleRoundTrip(v, rest);
    case Int(n) =>
      hide Head, Parse;
      if n >= 0 { ParseHead(0, n, rest); } else { ParseHead(1, -n - 1, rest); }
    case Text(u) =>
      StringRoundTrip(3, u, rest);
    case Blob(b) =>
      StringRoundTrip(2, b, rest);
    case Arr(items) =>
      ArrRoundTrip(items, rest);
    case Map(es) =>
      MapRoundTrip(es, rest);
  }

  lemma SimpleRoundTrip(v: Value, rest: Bytes)
    requires v.Null? || v.Bool?
    ensures Parse(Encode(v) + rest) == Ok(Parsed(v, rest))
  {
    assert (Encode(v) + rest)[1..] == rest;
  }

  lemma StringRoundTrip(major: nat, u: Bytes, rest: Bytes)
    requires (major == 2 || major == 3) && |u| <= MAX_SAFE_INTEGER
    ensures Parse(Head(major, |u|) + u + rest) == Ok(Parsed(if major == 2 then Blob(u) else Text(u), rest))
  {
    hide Head, Parse, ParseTake;
    ParseHead(major, |u|, u + rest);
    TakeAll(u, rest);
    assert Head(major, |u|) + u + rest == Head(major, |u|) + (u + rest);
  }

  lemma {:induction false} ArrRoundTrip(items: seq<Value>, rest: Bytes)
    requires |items| <= MAX_SAFE_INTEGER && forall j | 0 <= j < |items| :: Encodable(items[j])
    ensures Parse(Head(4, |items|) + EncodeItems(items, |items|) + rest) == Ok(Parsed(Arr(items), rest))
    decreases items, |items| + 1
  {
    hide Head, Parse, ParseItems, EncodeItems, Encodable;
    var body := EncodeItems(items, |items|);
    ParseHead(4, |items|, body + rest);
    ItemsRoundTrip(items, |items|, rest);
    ItemsDone(items, rest);
    assert Head(4, |items|) + body + rest == Head(4, |items|) + (body + rest);
  }

  lemma {:induction false} MapRoundTrip(es: seq<Entry>, rest: Bytes)
    requires |es| <= MAX_SAFE_INTEGER && forall j | 0 <= j < |es| :: Encodable(es[j].key) && Encodable(es[j].value)
    ensures Parse(Head(5, |es|) + EncodeEntries(es, |es|) + rest) == Ok(Parsed(Map(es), rest))
    decreases es, |es| + 1
  {
    hide Head, Parse, ParseEntries, EncodeEntries, Encodable;
    var body := EncodeEntries(es, |es|);
    ParseHead(5, |es|, body + rest);
    EntriesRoundTrip(es, |es|, rest);
    EntriesDone(es, rest);
    assert Head(5, |es|) + body + rest == Head(5, |es|) + (body + rest);
  }

  lemma TakeAll(u: Bytes, rest: Bytes)
    ensures ParseTake(u + rest, |u|) == Ok(Parsed(u, rest))
  {
    assert (u + rest)[..|u|] == u && (u + rest)[|u|..] == rest;
  }

  /** Parsing the first k items, then more, is having the first k items and parsing the rest. */
  lemma {:induction false} ItemsRoundTrip(items: seq<Value>, k: nat, rest: Bytes)
    requires k <= |items| && forall j | 0 <= j < k :: Encodable(items[j])
    ensures forall m: nat :: ParseItems(EncodeItems(items, k) + rest, k + m) == After(items[..k], ParseItems(rest, m))
    decreases items, k
  {
    hide Parse, Encode, ParseItems, Encodable;
    if k == 0 {
      assert EncodeItems(items, 0) + rest == rest && items[..0] == [];
      forall m: nat
        ensures ParseItems(rest, m) == After(items[..0], ParseItems(rest, m))
      {
        AfterNone(ParseItems(rest, m));
      }
    } else {
      var last := items[k - 1];
      RoundTrip(last, rest);
      ItemsRoundTrip(items, k - 1, Encode(last) + rest);
      assert EncodeItems(items, k) + rest == EncodeItems(items, k - 1) + (Encode(last) + rest);
      assert items[..k] == items[..k - 1] + [last];
      forall m: nat
        ensures ParseItems(EncodeItems(items, k) + rest, k + m) == After(items[..k], ParseItems(rest, m))
      {
        assert k + m == (k - 1) + (m + 1);
        ParseItemsStep(Encode(last) + rest, m + 1);
        AfterStep(items[..k - 1], last, ParseItems(rest, m));
      }
    }
  }

  lemma ItemsDone(items: seq<Value>, rest: Bytes)
    ensures After(items[..|items|], ParseItems(rest, 0)) == Ok(Parsed(items, rest))
    ensures |items| + 0 == |items|
  {
    assert items[..|items|] == items;
    AfterAll(items, rest);
  }

  lemma {:induction false} EntriesRoundTrip(es: seq<Entry>, k: nat, rest: Bytes)
    requires k <= |es| && forall j | 0 <= j < k :: Encodable(es[j].key) && Encodable(es[j].value)
    ensures forall m: nat :: ParseEntries(EncodeEntries(es, k) + rest, k + m) == After(es[..k], ParseEntries(rest, m))
    decreases es, k
  {
    hide Parse, Encode, ParseEntries, Encodable;
    if k == 0 {
      assert EncodeEntries(es, 0) + rest == rest && es[..0] == [];
      forall m: nat
        ensures ParseEntries(rest, m) == After(es[..0], ParseEntries(rest, m))
      {
        AfterNone(ParseEntries(rest, m));
      }
    } else {
      var last := es[k - 1];
      EntryRoundTrip(last, rest);
      EntriesRoundTrip(es, k - 1, EncodeEntry(last) + rest);
      assert EncodeEntries(es, k) + rest == EncodeEntries(es, k - 1) + (EncodeEntry(last) + rest);
      assert es[..k] == es[..k - 1] + [last];
      forall m: nat
        ensures ParseEntries(EncodeEntries(es, k) + rest, k + m) == After(es[..k], ParseEntries(rest, m))
      {
        assert k + m == (k - 1) + (m + 1);
        ParseEntriesStep(EncodeEntry(last) + rest, m + 1);
        AfterStep(es[..k - 1], last, ParseEntries(rest, m));
      }
    }
  }

  lemma {:induction false} EntryRoundTrip(e: Entry, rest: Bytes)
    requires Encodable(e.key) && Encodable(e.value)
    ensures Parse(EncodeEntry(e) + rest) == Ok(Parsed(e.key, Encode(e.value) + rest))
    ensures Parse(Encode(e.value) + rest) == Ok(Parsed(e.value, rest))
    decreases e, 0
  {
    hide Parse, Encode, Encodable;
    RoundTrip(e.key, Encode(e.value) + rest);
    RoundTrip(e.value, rest);
    assert EncodeEntry(e) + rest == Encode(e.key) + (Encode(e.value) + rest);
  }

  lemma EntriesDone(es: seq<Entry>, rest: Bytes)
    ensures After(es[..|es|], ParseEntries(rest, 0)) == Ok(Parsed(es, rest))
    ensures |es| + 0 == |es|
  {
    assert es[..|es|] == es;
    AfterAll(es, rest);
  }

  /** cborDecode inverts cborEncode. */
  lemma DecodeInverts(v: Value)
    requires Encodable(v)
    ensures Decode(Encode(v)) == Ok(v)
  {
    hide Parse, Encode, Encodable;
    RoundTrip(v, []);
    assert Encode(v) + [] == Encode(v);
  }

  /** Encodings are prefix-free: two values followed by anything are never confused. */
  lemma PrefixFree(v: Value, w: Value, s: Bytes, t: Bytes)
    requires Encodable(v) && Encodable(w) && Encode(v) + s == Encode(w) + t
    ensures v == w && s == t
  {
    hide Parse, Encode, Encodable;
    RoundTrip(v, s);
    RoundTrip(w, t);
  }

  // ---- What the decoder can yield ------------------------------------------------------------------

  /** Every number in the value is one an argument of at most 2^53 - 1 stands for. */
  predicate Bounded(v: Value) {
    match v
    case Int(n) => -9007199254740992 <= n <= 9007199254740991
    case Arr(items) => forall i | 0 <= i < |items| :: Bounded(items[i])
    case Map(es) => forall i | 0 <= i < |es| :: Bounded(es[i].key) && Bounded(es[i].value)
    case _ => true
  }

  lemma LengthBounded(info: nat, b: Bytes)
    ensures ParseLength(info, b).Ok? ==> ParseLength(info, b).value.value <= MAX_SAFE_INTEGER
  {
    Widths();
    hide Pow;
    if info == 24 && |b| >= 1 { FromBeInverse(b[..1]); }
    if info == 25 && |b| >= 2 { FromBeInverse(b[..2]); }
    if info == 26 && |b| >= 4 { FromBeInverse(b[..4]); }
  }

  /** The decoder refuses larger arguments, so no value it returns holds one. */
  lemma {:induction false} ParseBounded(b: Bytes)
    ensures Parse(b).Ok? ==> Bounded(Parse(b).value.value)
    decreases |b|, 0, 0
  {
    if b != [] {
      hide ParseLength, ParseTake, ParseItems, ParseEntries, Bounded;
      var major, info := b[0] / 32, b[0] % 32;
      LengthBounded(info, b[1..]);
      FlatBounded();
      var length := ParseLength(info, b[1..]);
      if length.Ok? && major == 4 {
        ItemsBounded(length.value.rest, length.value.value);
      }
      if length.Ok? && major == 5 {
        EntriesBounded(length.value.rest, length.value.value);
      }
    }
  }

  lemma FlatBounded()
    ensures Bounded(Null) && (forall x :: Bounded(Bool(x))) && (forall u :: Bounded(Text(u)) && Bounded(Blob(u)))
    ensures forall n: int | -1 - (MAX_SAFE_INTEGER as int) <= n <= MAX_SAFE_INTEGER :: Bounded(Int(n))
  {
  }

  lemma {:induction false} ItemsBounded(b: Bytes, n: nat)
    ensures ParseItems(b, n).Ok? ==> Bounded(Arr(ParseItems(b, n).value.value))
    decreases |b|, 1, n
  {
    if n > 0 {
      hide Parse;
      ParseBounded(b);
      if Parse(b).Ok? { ItemsBounded(Parse(b).value.rest, n - 1); }
    }
  }

  lemma {:induction false} EntriesBounded(b: Bytes, n: nat)
    ensures ParseEntries(b, n).Ok? ==> Bounded(Map(ParseEntries(b, n).value.value))
    decreases |b|, 1, n
  {
    if n > 0 {
      hide Parse;
      ParseBounded(b);
      if Parse(b).Ok? {
        var rest := Parse(b).value.rest;
        ParseBounded(rest);
        if Parse(rest).Ok? { EntriesBounded(Parse(rest).value.rest, n - 1); }
      }
    }
  }

  lemma DecodeBounded(b: Bytes)
    ensures Decode(b).Ok? ==> Bounded(Decode(b).value)
  {
    hide Parse, Bounded;
    ParseBounded(b);
  }
}
