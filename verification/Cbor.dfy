/** The client's CBOR codec (web/src/cbor.ts). Text is carried as its UTF-8 bytes and a
    decoded map as the list of its entries. Sections 3.1 and 4.1 of RFC 8949. */
module Cbor {
  import opened Orders
  import opened Bytes
  import opened Outcomes

  datatype Value =
    | Null
    | Bool(b: bool)
    | Int(n: int)
    | Text(utf8: Bytes)
    | Blob(bytes: Bytes)
    | Arr(items: seq<Value>)
    | Map(entries: seq<Entry>)

  datatype Entry = Entry(key: Value, value: Value)

  datatype Error = UnexpectedEnd | OutOfSafeRange | Unsupported | TrailingBytes

  predicate SafeInteger(n: int) { 0 - (MAX_SAFE_INTEGER as int) <= n <= MAX_SAFE_INTEGER }

  // ---- Encoding ------------------------------------------------------------------------------

  /** The shortest head for a major type and an argument. */
  function Head(major: nat, n: nat): (h: Bytes)
    requires major < 8 && n <= MAX_SAFE_INTEGER
    ensures 1 <= |h| <= 9
  {
    var m := major * 32;
    if n < 24 then [m + n]
    else if n < 0x100 then [m + 24] + Be(n, 1)
    else if n < 0x1_0000 then [m + 25] + Be(n, 2)
    else if n < 0x1_0000_0000 then [m + 26] + Be(n, 4)
    else [m + 27] + Be(n, 8)
  }

  /** What the encoder accepts: safe integers and lengths throughout. */
  predicate Encodable(v: Value) {
    match v
    case Null => true
    case Bool(_) => true
    case Int(n) => SafeInteger(n)
    case Text(u) => |u| <= MAX_SAFE_INTEGER
    case Blob(b) => |b| <= MAX_SAFE_INTEGER
    case Arr(items) => |items| <= MAX_SAFE_INTEGER && forall i | 0 <= i < |items| :: Encodable(items[i])
    case Map(es) => |es| <= MAX_SAFE_INTEGER && forall i | 0 <= i < |es| :: Encodable(es[i].key) && Encodable(es[i].value)
  }

  function Encode(v: Value): Bytes
    requires Encodable(v)
    decreases v
  {
    match v
    case Null => [0xf6]
    case Bool(b) => [if b then 0xf5 else 0xf4]
    case Int(n) => if n >= 0 then Head(0, n) else Head(1, -n - 1)
    case Text(u) => Head(3, |u|) + u
    case Blob(b) => Head(2, |b|) + b
    case Arr(items) => Head(4, |items|) + EncodeItems(items, |items|)
    case Map(es) => Head(5, |es|) + EncodeEntries(es, |es|)
  }

  /** The first k items of an array, one after another. */
  function EncodeItems(items: seq<Value>, k: nat): Bytes
    requires k <= |items| && forall j | 0 <= j < k :: Encodable(items[j])
    decreases items, k
  {
    if k == 0 then [] else EncodeItems(items, k - 1) + Encode(items[k - 1])
  }

  function EncodeEntries(es: seq<Entry>, k: nat): Bytes
    requires k <= |es| && forall j | 0 <= j < k :: Encodable(es[j].key) && Encodable(es[j].value)
    decreases es, k
  {
    if k == 0 then []
    else EncodeEntries(es, k - 1) + EncodeEntry(es[k - 1])
  }

  function EncodeEntry(e: Entry): Bytes
    requires Encodable(e.key) && Encodable(e.value)
    decreases e
  {
    Encode(e.key) + Encode(e.value)
  }

  /** The shared output array. */
  class Sink {
    var out: Bytes

    constructor ()
      ensures out == []
    {
      out := [];
    }

    method Push(bytes: Bytes)
      modifies this
      ensures out == old(out) + bytes
    {
      out := out + bytes;
    }
  }

  method WriteHead(sink: Sink, major: nat, length: nat) returns (error: Option<Error>)
    requires major < 8
    modifies sink
    ensures error == None <==> length <= 9007199254740991
    ensures error == None ==> sink.out == old(sink.out) + Head(major, length)
  {
    hide Be, Head;
    if length <= MAX_SAFE_INTEGER { HeadBytes(major, length); }
    var m := major * 32;
    if length < 24 {
      sink.Push([m + length]);
    } else if length < 0x100 {
      sink.Push([m + 24, length]);
    } else if length < 0x1_0000 {
      sink.Push([m + 25, length / 0x100, length % 0x100]);
    } else if length < 0x1_0000_0000 {
      sink.Push([m + 26, length / 0x100_0000 % 0x100, length / 0x1_0000 % 0x100, length / 0x100 % 0x100, length % 0x100]);
    } else {
      if length > MAX_SAFE_INTEGER {
        return Some(OutOfSafeRange);
      }
      var hi, lo := length / 0x1_0000_0000, length % 0x1_0000_0000;
      sink.Push([m + 27, hi / 0x100_0000 % 0x100, hi / 0x1_0000 % 0x100, hi / 0x100 % 0x100, hi % 0x100,
                 lo / 0x100_0000 % 0x100, lo / 0x1_0000 % 0x100, lo / 0x100 % 0x100, lo % 0x100]);
    }
    error := None;
  }

  lemma HeadBytes(major: nat, length: nat)
    requires major < 8 && length <= MAX_SAFE_INTEGER
    ensures Head(major, length) ==
      var m, hi, lo := major * 32, length / 0x1_0000_0000, length % 0x1_0000_0000;
      if length < 24 then [m + length]
      else if length < 0x100 then [m + 24, length]
      else if length < 0x1_0000 then [m + 25, length / 0x100, length % 0x100]
      else if length < 0x1_0000_0000 then
        [m + 26, length / 0x100_0000 % 0x100, length / 0x1_0000 % 0x100, length / 0x100 % 0x100, length % 0x100]
      else
        [m + 27, hi / 0x100_0000 % 0x100, hi / 0x1_0000 % 0x100, hi / 0x100 % 0x100, hi % 0x100,
         lo / 0x100_0000 % 0x100, lo / 0x1_0000 % 0x100, lo / 0x100 % 0x100, lo % 0x100]
  {
    hide Be;
    if length < 24 {
    } else if length < 0x100 {
      BeBytes1(length);
    } else if length < 0x1_0000 {
      BeBytes2(length);
    } else if length < 0x1_0000_0000 {
      BeBytes4(length);
    } else {
      BeBytes8(length);
    }
  }

  lemma BeBytes1(n: nat)
    requires n < 0x100
    ensures Be(n, 1) == [n]
  {
    assert Be(n / 0x100, 0) == [];
  }

  lemma BeBytes2(n: nat)
    requires n < 0x1_0000
    ensures Be(n, 2) == [n / 0x100, n % 0x100]
  {
    BeBytes1(n / 0x100);
  }

  lemma BeTwo(n: nat, w: nat)
    ensures Be(n, w + 2) == Be(n / 0x1_0000, w) + [n / 0x100 % 0x100, n % 0x100]
  {
    assert n / 0x100 / 0x100 == n / 0x1_0000;
    assert Be(n / 0x100, w + 1) == Be(n / 0x100 / 0x100, w) + [n / 0x100 % 0x100];
    assert Be(n, w + 2) == Be(n / 0x100, w + 1) + [n % 0x100];
  }

  lemma Digits4(n: nat)
    ensures n / 0x1_0000 / 0x100 == n / 0x100_0000
  {
  }

  lemma BeBytes4(n: nat)
    requires n < 0x1_0000_0000
    ensures Be(n, 4) == [n / 0x100_0000 % 0x100, n / 0x1_0000 % 0x100, n / 0x100 % 0x100, n % 0x100]
  {
    hide Be;
    BeTwo(n, 2);
    BeTwo(n / 0x1_0000, 0);
    BeNone(n / 0x1_0000 / 0x1_0000);
    Digits4(n);
  }

  lemma BeNone(n: nat)
    ensures Be(n, 0) == []
  {
  }

  lemma Shift8(hi: nat, lo: nat)
    ensures (hi * 0x1_0000_0000 + lo) / 0x100 == hi * 0x100_0000 + lo / 0x100
  {
  }

  lemma Shift16(hi: nat, lo: nat)
    ensures (hi * 0x1_0000_0000 + lo) / 0x1_0000 == hi * 0x1_0000 + lo / 0x1_0000
  {
  }

  lemma Shift24(hi: nat, lo: nat)
    ensures (hi * 0x1_0000_0000 + lo) / 0x100_0000 == hi * 0x100 + lo / 0x100_0000
  {
  }

  lemma DropHigh(hi: nat, x: nat)
    ensures (hi * 0x1_0000_0000 + x) % 0x100 == x % 0x100
    ensures (hi * 0x100_0000 + x) % 0x100 == x % 0x100
    ensures (hi * 0x1_0000 + x) % 0x100 == x % 0x100
    ensures (hi * 0x100 + x) % 0x100 == x % 0x100
  {
    DropMultiple(hi * 0x100_0000, x);
    DropMultiple(hi * 0x1_0000, x);
    DropMultiple(hi * 0x100, x);
    DropMultiple(hi, x);
  }

  lemma DropMultiple(k: nat, x: nat)
    ensures (k * 0x100 + x) % 0x100 == x % 0x100
  {
    assert (k * 0x100 + x) / 0x100 == k + x / 0x100;
  }

  lemma HighHalf(hi: nat, lo: nat)
    requires lo < 0x1_0000_0000
    ensures (hi * 0x1_0000_0000 + lo) / 0x1_0000 / 0x1_0000 == hi
  {
    Shift16(hi, lo);
  }

  lemma LowHalf(n: nat, hi: nat, lo: nat)
    requires lo < 0x1_0000_0000 && n == hi * 0x1_0000_0000 + lo
    ensures n / 0x1_0000 / 0x1_0000 == hi
    ensures n % 0x100 == lo % 0x100
    ensures n / 0x100 % 0x100 == lo / 0x100 % 0x100
    ensures n / 0x1_0000 % 0x100 == lo / 0x1_0000 % 0x100
    ensures n / 0x100_0000 % 0x100 == lo / 0x100_0000 % 0x100
  {
    HighHalf(hi, lo);
    Shift8(hi, lo);
    Shift16(hi, lo);
    Shift24(hi, lo);
    DropHigh(hi, lo);
    DropHigh(hi, lo / 0x100);
    DropHigh(hi, lo / 0x1_0000);
    DropHigh(hi, lo / 0x100_0000);
  }

  lemma BeBytes8(n: nat)
    requires n <= MAX_SAFE_INTEGER
    ensures var hi, lo := n / 0x1_0000_0000, n % 0x1_0000_0000;
      Be(n, 8) == [hi / 0x100_0000 % 0x100, hi / 0x1_0000 % 0x100, hi / 0x100 % 0x100, hi % 0x100,
                   lo / 0x100_0000 % 0x100, lo / 0x1_0000 % 0x100, lo / 0x100 % 0x100, lo % 0x100]
  {
    hide Be;
    var hi, lo := n / 0x1_0000_0000, n % 0x1_0000_0000;
    BeTwo(n, 6);
    BeTwo(n / 0x1_0000, 4);
    assert n == hi * 0x1_0000_0000 + lo;
    LowHalf(n, hi, lo);
    Digits4(n);
    BeBytes4(hi);
  }

  /** An exception leaves the output abandoned; success appends exactly the encoding. */
  method WriteValue(sink: Sink, v: Value) returns (error: Option<Error>)
    modifies sink
    ensures error == None <==> Encodable(v)
    ensures error == None ==> sink.out == old(sink.out) + Encode(v)
    decreases v, 1
  {
    hide Head, EncodeItems, EncodeEntries;
    error := None;
    match v
    case Null =>
      sink.Push([0xf6]);
    case Bool(b) =>
      sink.Push([if b then 0xf5 else 0xf4]);
    case Int(n) =>
      if !SafeInteger(n) {
        return Some(OutOfSafeRange);
      }
      if n >= 0 {
        error := WriteHead(sink, 0, n);
      } else {
        error := WriteHead(sink, 1, -n - 1);
      }
    case Text(u) =>
      error := WriteHead(sink, 3, |u|);
      sink.Push(u);
    case Blob(b) =>
      error := WriteHead(sink, 2, |b|);
      sink.Push(b);
    case Arr(items) =>
      error := WriteHead(sink, 4, |items|);
      if error == None {
        error := WriteItems(sink, items);
      }
    case Map(es) =>
      error := WriteHead(sink, 5, |es|);
      if error == None {
        error := WriteEntries(sink, es);
      }
  }

  method WriteItems(sink: Sink, items: seq<Value>) returns (error: Option<Error>)
    modifies sink
    ensures error == None <==> forall i | 0 <= i < |items| :: Encodable(items[i])
    ensures error == None ==> sink.out == old(sink.out) + EncodeItems(items, |items|)
    decreases items, 0
  {
    hide Encode, Encodable;
    var i := 0;
    ghost var start := sink.out;
    while i < |items|
      invariant 0 <= i <= |items|
      invariant forall j | 0 <= j < i :: Encodable(items[j])
      invariant sink.out == start + EncodeItems(items, i)
    {
      error := WriteValue(sink, items[i]);
      if error != None {
        return;
      }
      i := i + 1;
    }
    error := None;
  }

  method WriteEntries(sink: Sink, es: seq<Entry>) returns (error: Option<Error>)
    modifies sink
    ensures error == None <==> forall i | 0 <= i < |es| :: Encodable(es[i].key) && Encodable(es[i].value)
    ensures error == None ==> sink.out == old(sink.out) + EncodeEntries(es, |es|)
    decreases es, 0
  {
    hide Encode, Encodable;
    var i := 0;
    ghost var start := sink.out;
    while i < |es|
      invariant 0 <= i <= |es|
      invariant forall j | 0 <= j < i :: Encodable(es[j].key) && Encodable(es[j].value)
      invariant sink.out == start + EncodeEntries(es, i)
    {
      error := WriteEntry(sink, es[i]);
      if error != None {
        return;
      }
      i := i + 1;
    }
    error := None;
  }

  method WriteEntry(sink: Sink, e: Entry) returns (error: Option<Error>)
    modifies sink
    ensures error == None <==> Encodable(e.key) && Encodable(e.value)
    ensures error == None ==> sink.out == old(sink.out) + EncodeEntry(e)
    decreases e, 0
  {
    hide Encode, Encodable;
    error := WriteValue(sink, e.key);
    if error == None {
      error := WriteValue(sink, e.value);
    }
  }

  // ---- Decoding ------------------------------------------------------------------------------

  datatype Parsed<+T> = Parsed(value: T, rest: Bytes)

  /** A big-endian integer of w bytes. */
  function ParseBe(b: Bytes, w: nat): (r: Result<Parsed<nat>, Error>)
    ensures r.Ok? ==> |r.value.rest| + w == |b|
  {
    if |b| < w then Err(UnexpectedEnd) else Ok(Parsed(FromBe(b[..w]), b[w..]))
  }

  /** The argument of a head with the given additional information. */
  function ParseLength(info: nat, b: Bytes): (r: Result<Parsed<nat>, Error>)
    ensures r.Ok? ==> |r.value.rest| <= |b|
  {
    if info < 24 then Ok(Parsed(info, b))
    else if info == 24 then ParseBe(b, 1)
    else if info == 25 then ParseBe(b, 2)
    else if info == 26 then ParseBe(b, 4)
    else if info == 27 then
      var r := ParseBe(b, 8);
      if r.Ok? && r.value.value > MAX_SAFE_INTEGER then Err(OutOfSafeRange) else r
    else Err(Unsupported)
  }

  function ParseTake(b: Bytes, n: nat): (r: Result<Parsed<Bytes>, Error>)
    ensures r.Ok? ==> |r.value.rest| <= |b|
  {
    if n > |b| then Err(UnexpectedEnd) else Ok(Parsed(b[..n], b[n..]))
  }

  /** One value from the front of b; a value takes at least one byte. */
  function Parse(b: Bytes): (r: Result<Parsed<Value>, Error>)
    ensures r.Ok? ==> |r.value.rest| < |b|
    decreases |b|, 0, 0
  {
    if b == [] then Err(UnexpectedEnd)
    else
      var major, info := b[0] / 32, b[0] % 32;
      if major == 7 then
        if info == 20 then Ok(Parsed(Bool(false), b[1..]))
        else if info == 21 then Ok(Parsed(Bool(true), b[1..]))
        else if info == 22 then Ok(Parsed(Null, b[1..]))
        else Err(Unsupported)
      else if major == 6 then Err(Unsupported)
      else
        match ParseLength(info, b[1..])
        case Err(e) => Err(e)
        case Ok(Parsed(n, rest)) =>
          if major == 0 then Ok(Parsed(Int(n), rest))
          else if major == 1 then Ok(Parsed(Int(-1 - (n as int)), rest))
          else if major == 2 || major == 3 then
            match ParseTake(rest, n)
            case Err(e) => Err(e)
            case Ok(Parsed(bytes, rest')) => Ok(Parsed(if major == 2 then Blob(bytes) else Text(bytes), rest'))
          else if major == 4 then
            match ParseItems(rest, n)
            case Err(e) => Err(e)
            case Ok(Parsed(items, rest')) => Ok(Parsed(Arr(items), rest'))
          else
            match ParseEntries(rest, n)
            case Err(e) => Err(e)
            case Ok(Parsed(es, rest')) => Ok(Parsed(Map(es), rest'))
  }

  function ParseItems(b: Bytes, n: nat): (r: Result<Parsed<seq<Value>>, Error>)
    ensures r.Ok? ==> |r.value.rest| <= |b|
    decreases |b|, 1, n
  {
    if n == 0 then Ok(Parsed([], b))
    else
      match Parse(b)
      case Err(e) => Err(e)
      case Ok(Parsed(v, rest)) =>
        match ParseItems(rest, n - 1)
        case Err(e) => Err(e)
        case Ok(Parsed(vs, rest')) => Ok(Parsed([v] + vs, rest'))
  }

  function ParseEntries(b: Bytes, n: nat): (r: Result<Parsed<seq<Entry>>, Error>)
    ensures r.Ok? ==> |r.value.rest| <= |b|
    decreases |b|, 1, n
  {
    if n == 0 then Ok(Parsed([], b))
    else
      match Parse(b)
      case Err(e) => Err(e)
      case Ok(Parsed(k, rest)) =>
        match Parse(rest)
        case Err(e) => Err(e)
        case Ok(Parsed(v, rest')) =>
          match ParseEntries(rest', n - 1)
          case Err(e) => Err(e)
          case Ok(Parsed(es, rest'')) => Ok(Parsed([Entry(k, v)] + es, rest''))
  }

  /** cborDecode: one value and nothing after it. */
  function Decode(b: Bytes): Result<Value, Error> {
    match Parse(b)
    case Err(e) => Err(e)
    case Ok(Parsed(v, rest)) => if rest == [] then Ok(v) else Err(TrailingBytes)
  }

  class Reader {
    const bytes: Bytes
    var pos: nat

    constructor (bytes: Bytes)
      ensures this.bytes == bytes && pos == 0
    {
      this.bytes := bytes;
      pos := 0;
    }

    ghost predicate Valid()
      reads this
    {
      pos <= |bytes|
    }

    ghost function Left(): Bytes
      requires Valid()
      reads this
    {
      bytes[pos..]
    }

    method Byte() returns (r: Result<byte, Error>)
      requires Valid()
      modifies this
      ensures Valid()
      ensures r.Ok? <==> old(Left()) != []
      ensures r.Ok? ==> r.value == old(Left())[0] && Left() == old(Left())[1..] && pos == old(pos) + 1
      ensures r.Err? ==> r.error == UnexpectedEnd && pos == old(pos)
    {
      if pos >= |bytes| {
        return Err(UnexpectedEnd);
      }
      pos := pos + 1;
      return Ok(bytes[pos - 1]);
    }

    method Take(n: nat) returns (r: Result<Bytes, Error>)
      requires Valid()
      modifies this
      ensures Valid() && pos >= old(pos)
      ensures Matches(r, ParseTake(old(Left()), n), Left())
    {
      if pos + n > |bytes| {
        return Err(UnexpectedEnd);
      }
      var slice := bytes[pos..pos + n];
      pos := pos + n;
      assert slice == old(Left())[..n] && Left() == old(Left())[n..];
      return Ok(slice);
    }

    /** A big-endian integer read byte by byte. */
    method Big(w: nat) returns (r: Result<nat, Error>)
      requires Valid()
      modifies this
      ensures Valid() && pos >= old(pos)
      ensures Matches(r, ParseBe(old(Left()), w), Left())
    {
      var n: nat, i: nat := 0, 0;
      ghost var start := Left();
      assert start[..0] == [];
      while i < w
        invariant 0 <= i <= w && i <= |start| && Valid() && pos == old(pos) + i
        invariant Left() == start[i..]
        invariant n == FromBe(start[..i])
      {
        var b := Byte();
        if b.Err? {
          return Err(b.error);
        }
        assert start[..i + 1][..i] == start[..i] && start[..i + 1][i] == b.value;
        n := (n as int) * 256 + b.value;
        i := i + 1;
      }
      return Ok(n);
    }

    method Length(info: nat) returns (r: Result<nat, Error>)
      requires Valid()
      modifies this
      ensures Valid() && pos >= old(pos)
      ensures Matches(r, ParseLength(info, old(Left())), Left())
    {
      if info < 24 {
        return Ok(info);
      } else if info == 24 {
        r := Big(1);
      } else if info == 25 {
        r := Big(2);
      } else if info == 26 {
        r := Big(4);
      } else if info == 27 {
        r := Big(8);
        if r.Ok? && r.value > MAX_SAFE_INTEGER {
          return Err(OutOfSafeRange);
        }
      } else {
        return Err(Unsupported);
      }
    }
  }

  /** A step's outcome agrees with its specification: same value and remainder, or same error. */
  ghost predicate Matches<T(!new)>(r: Result<T, Error>, spec: Result<Parsed<T>, Error>, left: Bytes) {
    match spec
    case Err(e) => r == Err(e)
    case Ok(Parsed(v, rest)) => r == Ok(v) && left == rest
  }

  method ReadValue(r: Reader) returns (result: Result<Value, Error>)
    requires r.Valid()
    modifies r
    ensures r.Valid() && r.pos >= old(r.pos)
    ensures Matches(result, Parse(old(r.Left())), r.Left())
    decreases |r.bytes| - r.pos, 0
  {
    var head := r.Byte();
    if head.Err? {
      return Err(head.error);
    }
    var major, info := head.value / 32, head.value % 32;
    if major == 7 {
      return if info == 20 then Ok(Bool(false)) else if info == 21 then Ok(Bool(true))
             else if info == 22 then Ok(Null) else Err(Unsupported);
    }
    if major == 6 {
      return Err(Unsupported);
    }
    var n := r.Length(info);
    if n.Err? {
      return Err(n.error);
    }
    if major == 0 {
      result := Ok(Int(n.value));
    } else if major == 1 {
      result := Ok(Int(-1 - (n.value as int)));
    } else if major == 2 || major == 3 {
      var bytes := r.Take(n.value);
      if bytes.Err? {
        return Err(bytes.error);
      }
      result := Ok(if major == 2 then Blob(bytes.value) else Text(bytes.value));
    } else if major == 4 {
      result := ReadItems(r, n.value);
    } else {
      result := ReadEntries(r, n.value);
    }
  }

  ghost function AsArr(spec: Result<Parsed<seq<Value>>, Error>): Result<Parsed<Value>, Error> {
    match spec
    case Err(e) => Err(e)
    case Ok(Parsed(items, rest)) => Ok(Parsed(Arr(items), rest))
  }

  ghost function AsMap(spec: Result<Parsed<seq<Entry>>, Error>): Result<Parsed<Value>, Error> {
    match spec
    case Err(e) => Err(e)
    case Ok(Parsed(es, rest)) => Ok(Parsed(Map(es), rest))
  }

  /** Putting already read items in front of what parsing the rest gives. */
  ghost function After<T>(done: seq<T>, spec: Result<Parsed<seq<T>>, Error>): Result<Parsed<seq<T>>, Error> {
    match spec
    case Err(e) => Err(e)
    case Ok(Parsed(items, rest)) => Ok(Parsed(done + items, rest))
  }

  lemma ParseItemsStep(b: Bytes, n: nat)
    ensures n == 0 ==> ParseItems(b, n) == Ok(Parsed([], b))
    ensures n > 0 ==> (ParseItems(b, n) == match Parse(b)
      case Err(e) => Err(e)
      case Ok(Parsed(v, rest)) => After([v], ParseItems(rest, n - 1)))
  {
  }

  lemma ParseEntriesStep(b: Bytes, n: nat)
    ensures n == 0 ==> ParseEntries(b, n) == Ok(Parsed([], b))
    ensures n > 0 ==> (ParseEntries(b, n) == match Parse(b)
      case Err(e) => Err(e)
      case Ok(Parsed(k, rest)) =>
        match Parse(rest)
        case Err(e) => Err(e)
        case Ok(Parsed(v, rest')) => After([Entry(k, v)], ParseEntries(rest', n - 1)))
  {
  }

  method ReadItems(r: Reader, n: nat) returns (result: Result<Value, Error>)
    requires r.Valid()
    modifies r
    ensures r.Valid() && r.pos >= old(r.pos)
    ensures Matches(result, AsArr(ParseItems(old(r.Left()), n)), r.Left())
    decreases |r.bytes| - r.pos, 1
  {
    hide Parse, ParseItems, After;
    var arr: seq<Value> := [];
    var i := 0;
    ghost var spec := ParseItems(r.Left(), n);
    AfterNone(spec);
    while i < n
      invariant 0 <= i <= n && r.Valid() && r.pos >= old(r.pos)
      invariant spec == After(arr, ParseItems(r.Left(), n - i))
    {
      ParseItemsStep(r.Left(), n - i);
      ghost var before := arr;
      AfterErr(before, ParseItems(r.Left(), n - i));
      var item := ReadValue(r);
      if item.Err? {
        return Err(item.error);
      }
      arr := arr + [item.value];
      AfterStep(before, item.value, ParseItems(r.Left(), n - i - 1));
      i := i + 1;
    }
    ParseItemsStep(r.Left(), n - i);
    AfterAll(arr, r.Left());
    result := Ok(Arr(arr));
  }

  lemma AfterNone<T>(spec: Result<Parsed<seq<T>>, Error>)
    ensures After([], spec) == spec
  {
    if spec.Ok? { assert [] + spec.value.value == spec.value.value; }
  }

  lemma AfterErr<T>(done: seq<T>, spec: Result<Parsed<seq<T>>, Error>)
    ensures spec.Err? ==> After(done, spec) == spec
  {
  }

  lemma AfterAll<T>(done: seq<T>, rest: Bytes)
    ensures After(done, Ok(Parsed([], rest))) == Ok(Parsed(done, rest))
  {
    assert done + [] == done;
  }

  lemma AfterStep<T>(done: seq<T>, item: T, spec: Result<Parsed<seq<T>>, Error>)
    ensures After(done, After([item], spec)) == After(done + [item], spec)
  {
    if spec.Ok? {
      assert done + ([item] + spec.value.value) == done + [item] + spec.value.value;
    }
  }

  method ReadEntries(r: Reader, n: nat) returns (result: Result<Value, Error>)
    requires r.Valid()
    modifies r
    ensures r.Valid() && r.pos >= old(r.pos)
    ensures Matches(result, AsMap(ParseEntries(old(r.Left()), n)), r.Left())
    decreases |r.bytes| - r.pos, 1
  {
    hide Parse, ParseEntries, After;
    var es: seq<Entry> := [];
    var i := 0;
    ghost var spec := ParseEntries(r.Left(), n);
    AfterNone(spec);
    while i < n
      invariant 0 <= i <= n && r.Valid() && r.pos >= old(r.pos)
      invariant spec == After(es, ParseEntries(r.Left(), n - i))
    {
      ParseEntriesStep(r.Left(), n - i);
      ghost var before := es;
      AfterErr(before, ParseEntries(r.Left(), n - i));
      var key := ReadValue(r);
      if key.Err? {
        return Err(key.error);
      }
      var value := ReadValue(r);
      if value.Err? {
        return Err(value.error);
      }
      es := es + [Entry(key.value, value.value)];
      AfterStep(before, Entry(key.value, value.value), ParseEntries(r.Left(), n - i - 1));
      i := i + 1;
    }
    ParseEntriesStep(r.Left(), n - i);
    AfterAll(es, r.Left());
    result := Ok(Map(es));
  }

  /** cborEncode. */
  method CborEncode(v: Value) returns (r: Result<Bytes, Error>)
    ensures r.Ok? <==> Encodable(v)
    ensures r.Ok? ==> r.value == Encode(v)
  {
    var sink := new Sink();
    var error := WriteValue(sink, v);
    r := if error.Some? then Err(error.value) else Ok(sink.out);
  }

  /** cborDecode. */
  method CborDecode(bytes: Bytes) returns (r: Result<Value, Error>)
    ensures r == Decode(bytes)
  {
    var reader := new Reader(bytes);
    assert reader.Left() == bytes;
    r := ReadValue(reader);
    if r.Ok? && reader.pos != |bytes| {
      r := Err(TrailingBytes);
    }
  }
}
