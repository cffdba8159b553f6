/** The framed format of the facade and web containers (common/src/facade.rs):
    u64 big-endian length, metadata, u64 big-endian length, web archive. Offsets are
    usize values; every sum goes through a checked or a proved-safe addition. */
module Facade {
  import opened Bytes
  import opened Outcomes

  datatype FrameError = NoHeader | LengthOverflow | TooShort | Trailing

  datatype Slots = Slots(meta: Bytes, web: Bytes)

  /** What a frame is, independently of offsets. */
  ghost predicate Frames(b: Bytes, s: Slots) {
    |s.meta| <= MAX_U64 && |s.web| <= MAX_U64 && b == Be(|s.meta|, 8) + s.meta + Be(|s.web|, 8) + s.web
  }

  /** encode_facade_frame. */
  method EncodeFacadeFrame(meta: Bytes, web: Bytes) returns (out: Bytes)
    requires |meta| <= MAX_U64 && |web| <= MAX_U64
    ensures Frames(out, Slots(meta, web))
  {
    out := [];
    out := out + Be(|meta|, 8);
    out := out + meta;
    out := out + Be(|web|, 8);
    out := out + web;
  }

  /** An addition of usize values the program does not check. */
  function Plus(a: nat, b: nat, usizeMax: nat): nat
    requires a + b <= usizeMax
  {
    a + b
  }

  /** A length header: the big-endian encoding of the length it announces. */
  function TakeLen(bytes: Bytes, at: nat, usizeMax: nat): (r: Result<nat, FrameError>)
    requires at + 8 <= usizeMax
    ensures r.Ok? <==> exists n: nat :: n <= usizeMax && n <= MAX_U64 && at + 8 <= |bytes| && bytes[at..at + 8] == Be(n, 8)
    ensures r.Ok? ==> r.value <= usizeMax && bytes[at..at + 8] == Be(r.value, 8)
    ensures r.Err? ==> r.error == if at + 8 <= |bytes| then LengthOverflow else NoHeader
  {
    var end := Plus(at, 8, usizeMax);
    if end > |bytes| then Err(NoHeader)
    else
      HeaderValue(bytes[at..end]);
      if FromBe(bytes[at..end]) > usizeMax then Err(LengthOverflow)
      else Ok(FromBe(bytes[at..end]))
  }

  lemma HeaderValue(h: Bytes)
    requires |h| == 8
    ensures FromBe(h) <= MAX_U64 && Be(FromBe(h), 8) == h
    ensures forall n: nat | n <= MAX_U64 && h == Be(n, 8) :: n == FromBe(h)
  {
    Widths();
    hide Be, FromBe, Pow;
    FromBeInverse(h);
    forall n: nat | n <= MAX_U64 && h == Be(n, 8)
      ensures n == FromBe(h)
    {
      BeInverse(n, 8);
    }
  }

  function Range(bytes: Bytes, start: nat, len: nat, usizeMax: nat): (r: Result<Bytes, FrameError>)
    ensures r.Ok? <==> start + len <= |bytes| && start + len <= usizeMax
    ensures r.Ok? ==> r.value == bytes[start..start + len]
    ensures r.Err? ==> r.error == if start + len > usizeMax then LengthOverflow else TooShort
  {
    if start + len > usizeMax then Err(LengthOverflow)
    else if start + len > |bytes| then Err(TooShort)
    else Ok(bytes[start..start + len])
  }

  /** parse_facade_frame. A slice holds at most half of usize::MAX bytes, which is what
      keeps the unchecked sums from overflowing. */
  function ParseFacadeFrame(bytes: Bytes, usizeMax: nat): (r: Result<Slots, FrameError>)
    requires 2 * |bytes| <= usizeMax && usizeMax >= 0xFFFF
  {
    match TakeLen(bytes, 0, usizeMax)
    case Err(e) => Err(e)
    case Ok(metaLen) =>
      match Range(bytes, 8, metaLen, usizeMax)
      case Err(e) => Err(e)
      case Ok(meta) =>
        match TakeLen(bytes, Plus(8, metaLen, usizeMax), usizeMax)
        case Err(e) => Err(e)
        case Ok(webLen) =>
          var webStart := Plus(16, metaLen, usizeMax);
          match Range(bytes, webStart, webLen, usizeMax)
          case Err(e) => Err(e)
          case Ok(web) =>
            if |bytes| != Plus(webStart, webLen, usizeMax) then Err(Trailing) else Ok(Slots(meta, web))
  }

  // ---- The parser against the format -----------------------------------------------------

  function Zeros(n: nat): (b: Bytes)
    ensures |b| == n && forall i | 0 <= i < n :: b[i] == 0
  {
    seq(n, _ => 0)
  }

  /** The length header at an offset, reading absent bytes as zero. */
  function Header(b: Bytes, at: nat): (h: Bytes)
    ensures |h| == 8
    ensures at + 8 <= |b| ==> h == b[at..at + 8]
  {
    (b + Zeros(at + 8))[at..at + 8]
  }

  /** The length of the frame that a byte string begins. */
  ghost function MetaLen(b: Bytes): nat { FromBe(Header(b, 0)) }
  ghost function WebLen(b: Bytes): nat { FromBe(Header(b, 8 + MetaLen(b))) }
  ghost function Total(b: Bytes): nat { 16 + MetaLen(b) + WebLen(b) }

  lemma FrameParts(b: Bytes, s: Slots)
    ensures Frames(b, s) <==>
      && |s.meta| <= MAX_U64 && |s.web| <= MAX_U64
      && |b| == 16 + |s.meta| + |s.web|
      && FromBe(b[..8]) == |s.meta| && b[8..8 + |s.meta|] == s.meta
      && FromBe(b[8 + |s.meta|..16 + |s.meta|]) == |s.web| && b[16 + |s.meta|..] == s.web
  {
    Widths();
    var m, w := |s.meta|, |s.web|;
    hide Be, FromBe, Pow;
    if m <= MAX_U64 && w <= MAX_U64 {
      BeInverse(m, 8);
      BeInverse(w, 8);
      if |b| == 16 + m + w {
        FromBeInverse(b[..8]);
        FromBeInverse(b[8 + m..16 + m]);
        var h, k := b[..8], b[8 + m..16 + m];
        assert Be(FromBe(h), 8) == h && Be(FromBe(k), 8) == k;
        assert b == h + b[8..8 + m] + k + b[16 + m..];
        if Frames(b, s) {
          assert h == Be(m, 8) && b[8..8 + m] == s.meta && k == Be(w, 8) && b[16 + m..] == s.web;
        }
      }
    }
  }

  /** Encode and parse are exact inverses: the parser accepts exactly the frames, and
      returns their slots. */
  lemma ParseExact(b: Bytes, s: Slots, usizeMax: nat)
    requires 2 * |b| <= usizeMax && usizeMax >= 0xFFFF
    ensures ParseFacadeFrame(b, usizeMax) == Ok(s) <==> Frames(b, s)
  {
    Widths();
    FrameParts(b, s);
    hide Frames, FromBe, Pow;
    if 8 <= |b| {
      FromBeInverse(b[..8]);
      assert b[0..8] == b[..8];
      var m := FromBe(b[..8]);
      if 16 + m <= |b| {
        FromBeInverse(b[8 + m..16 + m]);
        assert b[16 + m..] == b[16 + m..|b|];
      }
    }
  }

  lemma Outcome(b: Bytes, usizeMax: nat)
    requires 2 * |b| <= usizeMax && usizeMax >= 0xFFFF
    ensures var r := ParseFacadeFrame(b, usizeMax);
      && (r.Ok? <==> |b| == Total(b))
      && (r == Err(Trailing) <==> |b| > Total(b))
  {
    hide FromBe;
    if 8 <= |b| {
      assert Header(b, 0) == b[0..8];
      if 16 + MetaLen(b) <= |b| { assert Header(b, 8 + MetaLen(b)) == b[8 + MetaLen(b)..16 + MetaLen(b)]; }
    }
  }

  lemma TotalIsFrame(b: Bytes)
    ensures |b| == Total(b) <==> exists s :: Frames(b, s)
    ensures forall s | Frames(b, s) :: |s.meta| == MetaLen(b) && |s.web| == WebLen(b)
  {
    Widths();
    FromBeInverse(Header(b, 0));
    FromBeInverse(Header(b, 8 + MetaLen(b)));
    hide Frames, FromBe, Pow, Header;
    forall s | Frames(b, s)
      ensures |s.meta| == MetaLen(b) && |s.web| == WebLen(b) && |b| == Total(b)
    {
      FrameParts(b, s);
      HeaderWithin(b, 0);
      HeaderWithin(b, 8 + |s.meta|);
    }
    if |b| == Total(b) {
      HeaderWithin(b, 0);
      HeaderWithin(b, 8 + MetaLen(b));
      var s := Slots(b[8..8 + MetaLen(b)], b[16 + MetaLen(b)..]);
      FrameParts(b, s);
    }
  }

  lemma HeaderWithin(b: Bytes, at: nat)
    ensures at + 8 <= |b| ==> Header(b, at) == b[at..at + 8]
    ensures at == 0 && 8 <= |b| ==> Header(b, 0) == b[..8]
  {
  }

  /** Longer strings announce the same lengths once the headers are present. */
  lemma HeaderOfPrefix(b: Bytes, tail: Bytes, at: nat)
    requires at + 8 <= |b| || tail == Zeros(|tail|)
    ensures Header(b + tail, at) == Header(b, at)
  {
    assert forall i | 0 <= i < 8 :: Header(b + tail, at)[i] == Header(b, at)[i];
  }

  /** A string begins a frame of length Total: it is one, extends one, or is cut short. */
  lemma Extension(b: Bytes, tail: Bytes)
    ensures |b| >= Total(b) ==> Total(b + tail) == Total(b)
    ensures |b + tail| == Total(b + tail) && tail != [] ==> |b| < Total(b)
    ensures tail == Zeros(|tail|) ==> Total(b + tail) == Total(b)
  {
    hide FromBe, Header;
    if 8 <= |b| || tail == Zeros(|tail|) { HeaderOfPrefix(b, tail, 0); }
    if 16 + MetaLen(b) <= |b| || tail == Zeros(|tail|) { HeaderOfPrefix(b, tail, 8 + MetaLen(b)); }
  }

  /** Every rejection has one of two causes: bytes after a frame, or a frame cut short. */
  lemma RejectExact(b: Bytes, usizeMax: nat)
    requires 2 * |b| <= usizeMax && usizeMax >= 0xFFFF
    ensures ParseFacadeFrame(b, usizeMax) == Err(Trailing) <==>
      exists k, s :: 0 <= k < |b| && Frames(b[..k], s)
    ensures ParseFacadeFrame(b, usizeMax).Err? && ParseFacadeFrame(b, usizeMax).error != Trailing <==>
      exists tail, s :: tail != [] && Frames(b + tail, s)
  {
    hide Frames, ParseFacadeFrame, Total;
    Outcome(b, usizeMax);
    var total := Total(b);
    forall k, s | 0 <= k < |b| && Frames(b[..k], s)
      ensures total < |b|
    {
      TotalIsFrame(b[..k]);
      Extension(b[..k], b[k..]);
      assert b == b[..k] + b[k..];
    }
    forall tail, s | tail != [] && Frames(b + tail, s)
      ensures total > |b|
    {
      TotalIsFrame(b + tail);
      Extension(b, tail);
    }
    if total < |b| {
      assert b == b[..total] + b[total..];
      PrefixTotal(b, total);
      TotalIsFrame(b[..total]);
      var s :| Frames(b[..total], s);
    }
    if total > |b| {
      var tail := Zeros(total - |b|);
      Extension(b, tail);
      TotalIsFrame(b + tail);
      var s :| Frames(b + tail, s);
      assert tail != [];
    }
  }

  lemma PrefixTotal(b: Bytes, k: nat)
    requires k == Total(b) <= |b|
    ensures Total(b[..k]) == k
  {
    hide FromBe, Header;
    assert b == b[..k] + b[k..];
    HeaderOfPrefix(b[..k], b[k..], 0);
    HeaderOfPrefix(b[..k], b[k..], 8 + MetaLen(b));
  }
}
