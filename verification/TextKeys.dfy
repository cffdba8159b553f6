/** The string keys of the TypeScript client (web/src/state.ts): hex author ids and the
    zero-padded message key, with JavaScript's own building blocks. */
module TextKeys {
  import opened Orders
  import opened Bytes
  import opened ChatBuffer

  function Digit(n: nat): char
    requires n < 16
  {
    if n < 10 then ('0' as int + n) as char else ('a' as int + (n - 10)) as char
  }

  /** Number.prototype.toString(radix) on a non-negative integer. */
  function ToString(n: nat, radix: nat): string
    requires 2 <= radix <= 16
  {
    if n < radix then [Digit(n)] else ToString(n / radix, radix) + [Digit(n % radix)]
  }

  /** String.prototype.padStart(width, "0"). */
  function PadStart(s: string, width: nat): string {
    if |s| >= width then s else seq(width - |s|, _ => '0') + s
  }

  function Hex(b: Bytes): string {
    if b == [] then [] else PadStart(ToString(b[0], 16), 2) + Hex(b[1..])
  }

  /** Two lower-case hex digits a byte, the high half first. */
  lemma {:induction false} HexDigits(b: Bytes, i: nat)
    requires i < |b|
    ensures |Hex(b)| == 2 * |b|
    ensures Hex(b)[2 * i] == "0123456789abcdef"[b[i] / 16] && Hex(b)[2 * i + 1] == "0123456789abcdef"[b[i] % 16]
  {
    hide *;
    HexFirst(b);
    if |b| == 1 {
      HexFirst([]);
      assert b[1..] == [];
    } else {
      var k := if i == 0 then 0 else i - 1;
      HexDigits(b[1..], k);
      assert i > 0 ==> b[1..][k] == b[i];
    }
  }

  lemma HexFirst(b: Bytes)
    ensures b == [] ==> Hex(b) == ""
    ensures b != [] ==> Hex(b) == ["0123456789abcdef"[b[0] / 16], "0123456789abcdef"[b[0] % 16]] + Hex(b[1..])
  {
    if b != [] { TwoDigits(b[0]); }
  }

  lemma TwoDigits(n: byte)
    ensures PadStart(ToString(n, 16), 2) == ["0123456789abcdef"[n / 16], "0123456789abcdef"[n % 16]]
  {
    assert forall k: nat | k < 16 :: Digit(k) == "0123456789abcdef"[k];
    hide Digit;
    if n < 16 {
      assert ToString(n, 16) == [Digit(n)];
      assert Digit(0) == '0';
    } else {
      assert n / 16 < 16;
      assert ToString(n / 16, 16) == [Digit(n / 16)];
    }
  }

  function HexOf(author: Bytes32): string { Hex(author) }

  function IdKey(id: MessageId): string {
    PadStart(ToString(id.ts, 10), 16) + ":" + Hex(id.author) + ":" + PadStart(ToString(id.seqNo, 10), 10)
  }

  /** messageIdKey. */
  function MessageIdKey(m: SignedMessage): string { IdKey(m.Id()) }

  /** String.prototype.split on a one-character separator. */
  function Split(s: string, sep: char): (parts: seq<string>)
    ensures |parts| >= 1
  {
    if s == [] then [[]]
    else
      var rest := Split(s[1..], sep);
      if s[0] == sep then [[]] + rest else [[s[0]] + rest[0]] + rest[1..]
  }

  // ---- Fixed-width digits ------------------------------------------------------------------

  function Fixed(n: nat, radix: nat, width: nat): (s: string)
    requires 2 <= radix <= 16
    ensures |s| == width
  {
    if width == 0 then [] else Fixed(n / radix, radix, width - 1) + [Digit(n % radix)]
  }

  lemma {:induction false} FixedZero(radix: nat, width: nat)
    requires 2 <= radix <= 16
    ensures Fixed(0, radix, width) == seq(width, _ => '0')
  {
    if width > 0 {
      FixedZero(radix, width - 1);
      assert 0 / radix == 0 && 0 % radix == 0;
    }
  }

  lemma DivBound(n: nat, radix: nat, p: nat)
    requires radix == 10 || radix == 16
    requires n < radix * p
    ensures n / radix < p
  {
    if radix == 10 { assert n < 10 * p; } else { assert n < 16 * p; }
  }

  /** Padding a number that fits is printing it in fixed width. */
  lemma {:induction false} PaddedIsFixed(n: nat, radix: nat, width: nat)
    requires (radix == 10 || radix == 16) && width >= 1 && n < Pow(radix, width)
    ensures |ToString(n, radix)| <= width
    ensures PadStart(ToString(n, radix), width) == Fixed(n, radix, width)
  {
    if n < radix {
      assert n / radix == 0 && n % radix == n;
      FixedZero(radix, width - 1);
    } else {
      DivBound(n, radix, Pow(radix, width - 1));
      assert n / radix >= 1 by { if radix == 10 { assert n / 10 >= 1; } else { assert n / 16 >= 1; } }
      assert width > 1;
      PaddedIsFixed(n / radix, radix, width - 1);
      PadSnoc(ToString(n / radix, radix), Digit(n % radix), width);
    }
  }

  lemma PadSnoc(s: string, c: char, width: nat)
    requires |s| < width
    ensures PadStart(s + [c], width) == PadStart(s, width - 1) + [c]
  {
    assert seq(width - 1 - |s|, _ => '0') + (s + [c]) == (seq(width - 1 - |s|, _ => '0') + s) + [c];
  }

  lemma DigitOrder(a: nat, b: nat)
    requires a < 16 && b < 16
    ensures Digit(a) < Digit(b) <==> a < b
    ensures Digit(a) == Digit(b) <==> a == b
    ensures Digit(a) != ':'
  {
  }

  lemma LexOne(x: char, y: char)
    ensures StringLess([x], [y]) <==> x < y
  {
    assert Lex(CharLess, [x][1..], [y][1..]) == false;
  }

  /** Fixed-width strings are ordered as the numbers they print, and determine them. */
  lemma {:induction false} FixedOrder(a: nat, b: nat, radix: nat, width: nat)
    requires (radix == 10 || radix == 16) && a < Pow(radix, width) && b < Pow(radix, width)
    ensures StringLess(Fixed(a, radix, width), Fixed(b, radix, width)) <==> a < b
    ensures Fixed(a, radix, width) == Fixed(b, radix, width) <==> a == b
  {
    if width == 0 {
      assert Fixed(a, radix, 0) == Fixed(b, radix, 0);
    } else {
      hide *;
      var p, x := FixedParts(a, radix, width);
      var q, y := FixedParts(b, radix, width);
      PartsOrder(a, p, x, b, q, y, radix);
      FixedOrder(p, q, radix, width - 1);
      DigitOrder(x, y);
      SnocOrder(Fixed(p, radix, width - 1), Digit(x), Fixed(q, radix, width - 1), Digit(y));
    }
  }

  /** All but the last digit, and the last digit. */
  lemma FixedParts(n: nat, radix: nat, width: nat) returns (p: nat, x: nat)
    requires (radix == 10 || radix == 16) && width > 0 && n < Pow(radix, width)
    ensures p < Pow(radix, width - 1) && x < radix && IsParts(n, p, x, radix)
    ensures Fixed(n, radix, width) == Fixed(p, radix, width - 1) + [Digit(x)]
  {
    p, x := n / radix, n % radix;
    DivBound(n, radix, Pow(radix, width - 1));
  }

  predicate IsParts(n: nat, p: nat, x: nat, radix: nat)
    requires radix > 0
  {
    p == n / radix && x == n % radix
  }

  lemma PartsOrder(a: nat, p: nat, x: nat, b: nat, q: nat, y: nat, radix: nat)
    requires (radix == 10 || radix == 16) && IsParts(a, p, x, radix) && IsParts(b, q, y, radix)
    ensures a < b <==> p < q || (p == q && x < y)
    ensures a == b <==> p == q && x == y
  {
    QuotientOrder(a, b, radix);
  }

  lemma SnocOrder(p: string, x: char, q: string, y: char)
    requires |p| == |q|
    ensures StringLess(p + [x], q + [y]) <==> StringLess(p, q) || (p == q && x < y)
    ensures p + [x] == q + [y] <==> p == q && x == y
  {
    ByteLessTotal();
    LexConcat(CharLess, p, q, [x], [y]);
    LexOne(x, y);
    assert (p + [x])[..|p|] == p && (q + [y])[..|q|] == q;
    assert (p + [x])[|p|] == x && (q + [y])[|q|] == y;
  }

  lemma QuotientOrder(a: nat, b: nat, radix: nat)
    requires radix == 10 || radix == 16
    ensures a < b <==> a / radix < b / radix || (a / radix == b / radix && a % radix < b % radix)
    ensures a == b <==> a / radix == b / radix && a % radix == b % radix
  {
    if radix == 10 { QuotientOrder10(a, b); } else { QuotientOrder16(a, b); }
  }

  lemma QuotientOrder10(a: nat, b: nat)
    ensures a < b <==> a / 10 < b / 10 || (a / 10 == b / 10 && a % 10 < b % 10)
    ensures a == b <==> a / 10 == b / 10 && a % 10 == b % 10
  {
  }

  lemma QuotientOrder16(a: nat, b: nat)
    ensures a < b <==> a / 16 < b / 16 || (a / 16 == b / 16 && a % 16 < b % 16)
    ensures a == b <==> a / 16 == b / 16 && a % 16 == b % 16
  {
  }

  lemma {:induction false} FixedNoColon(n: nat, radix: nat, width: nat)
    requires 2 <= radix <= 16
    ensures ':' !in Fixed(n, radix, width)
    decreases width
  {
    if width == 0 {
      assert Fixed(n, radix, width) == [];
    } else {
      hide *;
      var p, x := FixedLast(n, radix, width);
      FixedNoColon(p, radix, width - 1);
      DigitOrder(x, 0);
    }
  }

  lemma FixedLast(n: nat, radix: nat, width: nat) returns (p: nat, x: nat)
    requires 2 <= radix <= 16 && width > 0
    ensures x < 16 && Fixed(n, radix, width) == Fixed(p, radix, width - 1) + [Digit(x)]
  {
    p, x := n / radix, n % radix;
  }

  // ---- Hex -----------------------------------------------------------------------------------

  lemma HexByte(x: byte)
    ensures PadStart(ToString(x, 16), 2) == Fixed(x, 16, 2)
    ensures |PadStart(ToString(x, 16), 2)| == 2
  {
    assert Pow(16, 2) == 256;
    PaddedIsFixed(x, 16, 2);
  }

  lemma {:induction false} HexLength(b: Bytes)
    ensures |Hex(b)| == 2 * |b| && ':' !in Hex(b)
  {
    if b != [] {
      HexByte(b[0]);
      FixedNoColon(b[0], 16, 2);
      HexLength(b[1..]);
    }
  }

  /** Hex order is byte order, and hex determines the bytes. */
  lemma {:induction false} HexOrder(a: Bytes, b: Bytes)
    requires |a| == |b|
    ensures StringLess(Hex(a), Hex(b)) <==> BytesLess(a, b)
    ensures Hex(a) == Hex(b) <==> a == b
  {
    if a == [] {
      assert Hex(a) == Hex(b);
      BytesOrder();
      StringLessTotal();
    } else {
      hide *;
      HexStep(a);
      HexStep(b);
      ByteOrder(a[0], b[0]);
      HexOrder(a[1..], b[1..]);
      StringConcat(Fixed(a[0], 16, 2), Fixed(b[0], 16, 2), Hex(a[1..]), Hex(b[1..]));
      BytesCons(a, b);
    }
  }

  lemma HexStep(a: Bytes)
    requires a != []
    ensures Hex(a) == Fixed(a[0], 16, 2) + Hex(a[1..])
  {
    hide Fixed;
    HexByte(a[0]);
  }

  lemma ByteOrder(x: byte, y: byte)
    ensures StringLess(Fixed(x, 16, 2), Fixed(y, 16, 2)) <==> x < y
    ensures Fixed(x, 16, 2) == Fixed(y, 16, 2) <==> x == y
  {
    assert Pow(16, 2) == 256;
    FixedOrder(x, y, 16, 2);
  }

  lemma StringConcat(p: string, q: string, r: string, s: string)
    requires |p| == |q|
    ensures StringLess(p + r, q + s) <==> StringLess(p, q) || (p == q && StringLess(r, s))
    ensures p + r == q + s <==> p == q && r == s
  {
    ByteLessTotal();
    LexConcat(CharLess, p, q, r, s);
    assert (p + r)[..|p|] == p && (q + s)[..|q|] == q && (p + r)[|p|..] == r && (q + s)[|q|..] == s;
  }

  lemma BytesCons(a: Bytes, b: Bytes)
    requires a != [] && b != []
    ensures BytesLess(a, b) <==> a[0] < b[0] || (a[0] == b[0] && BytesLess(a[1..], b[1..]))
    ensures a == b <==> a[0] == b[0] && a[1..] == b[1..]
  {
    assert a == [a[0]] + a[1..] && b == [b[0]] + b[1..];
  }

  // ---- Message keys -----------------------------------------------------------------------------

  lemma Widths16And10()
    ensures Pow(10, 16) == 10000000000000000 && Pow(10, 10) == 10000000000
  {
    assert Pow(10, 4) == 10000;
    assert Pow(10, 8) == 100000000;
    assert Pow(10, 10) == 10000000000;
    assert Pow(10, 12) == 1000000000000;
    assert Pow(10, 16) == 10000000000000000;
  }

  lemma KeyParts(id: MessageId)
    requires id.ts <= MAX_SAFE_INTEGER
    ensures IdKey(id) == Fixed(id.ts, 10, 16) + (":" + (Hex(id.author) + (":" + Fixed(id.seqNo, 10, 10))))
  {
    hide Fixed, Hex, Pow, ToString, PadStart;
    Widths16And10();
    PaddedIsFixed(id.ts, 10, 16);
    PaddedIsFixed(id.seqNo, 10, 10);
    var t, h, s := Fixed(id.ts, 10, 16), Hex(id.author), Fixed(id.seqNo, 10, 10);
    assert t + ":" + h + ":" + s == t + (":" + (h + (":" + s)));
  }

  /** The string order of message keys is exactly the id order (ts, author bytes, seq),
      and the key determines the id. */
  lemma KeyOrder(a: MessageId, b: MessageId)
    requires a.ts <= MAX_SAFE_INTEGER && b.ts <= MAX_SAFE_INTEGER
    ensures StringLess(IdKey(a), IdKey(b)) <==> IdLess(a, b)
    ensures StringLess(IdKey(a), IdKey(b)) <==>
      a.ts < b.ts || (a.ts == b.ts && (BytesLess(a.author, b.author) || (a.author == b.author && a.seqNo < b.seqNo)))
    ensures IdKey(a) == IdKey(b) <==> a == b
  {
    hide Fixed, Hex, IdKey, Pow;
    Widths16And10();
    ByteLessTotal();
    KeyParts(a);
    KeyParts(b);
    HexLength(a.author);
    HexLength(b.author);
    FixedOrder(a.ts, b.ts, 10, 16);
    HexOrder(a.author, b.author);
    FixedOrder(a.seqNo, b.seqNo, 10, 10);
    var ta, ha, sa := Fixed(a.ts, 10, 16), Hex(a.author), Fixed(a.seqNo, 10, 10);
    var tb, hb, sb := Fixed(b.ts, 10, 16), Hex(b.author), Fixed(b.seqNo, 10, 10);
    LexConcat(CharLess, ta, tb, ":" + (ha + (":" + sa)), ":" + (hb + (":" + sb)));
    LexConcat(CharLess, ":", ":", ha + (":" + sa), hb + (":" + sb));
    LexConcat(CharLess, ha, hb, ":" + sa, ":" + sb);
    LexConcat(CharLess, ":", ":", sa, sb);
    LexIrreflexive(CharLess, ":");
    KeyDetermines(a, b);
  }

  lemma SplitEqual(p: string, q: string, r: string, s: string)
    requires |p| == |q| && p + r == q + s
    ensures p == q && r == s
  {
    assert (p + r)[..|p|] == p && (q + s)[..|p|] == q;
    assert (p + r)[|p|..] == r && (q + s)[|p|..] == s;
  }

  lemma KeyDetermines(a: MessageId, b: MessageId)
    requires a.ts <= MAX_SAFE_INTEGER && b.ts <= MAX_SAFE_INTEGER
    ensures IdKey(a) == IdKey(b) <==> a == b
  {
    hide Fixed, Hex, IdKey, Pow;
    if IdKey(a) == IdKey(b) {
      Widths16And10();
      KeyParts(a);
      KeyParts(b);
      HexLength(a.author);
      HexLength(b.author);
      var ta, ha, sa := Fixed(a.ts, 10, 16), Hex(a.author), Fixed(a.seqNo, 10, 10);
      var tb, hb, sb := Fixed(b.ts, 10, 16), Hex(b.author), Fixed(b.seqNo, 10, 10);
      SplitEqual(ta, tb, ":" + (ha + (":" + sa)), ":" + (hb + (":" + sb)));
      SplitEqual(":", ":", ha + (":" + sa), hb + (":" + sb));
      SplitEqual(ha, hb, ":" + sa, ":" + sb);
      SplitEqual(":", ":", sa, sb);
      FixedOrder(a.ts, b.ts, 10, 16);
      HexOrder(a.author, b.author);
      FixedOrder(a.seqNo, b.seqNo, 10, 10);
    }
  }

  lemma {:induction false} SplitAt(p: string, rest: string, sep: char)
    requires sep !in p
    ensures Split(p + [sep] + rest, sep) == [p] + Split(rest, sep)
  {
    if p == [] {
      assert ([] + [sep] + rest)[1..] == rest;
    } else {
      assert (p + [sep] + rest)[1..] == p[1..] + [sep] + rest;
      SplitAt(p[1..], rest, sep);
      assert p == [p[0]] + p[1..];
    }
  }

  /** The middle part of a key is the author's hex. */
  lemma KeyAuthor(id: MessageId)
    requires id.ts <= MAX_SAFE_INTEGER
    ensures |Split(IdKey(id), ':')| >= 2 && Split(IdKey(id), ':')[1] == Hex(id.author)
  {
    hide Fixed, Hex, IdKey, Split, Pow;
    var t, h, s := Fixed(id.ts, 10, 16), Hex(id.author), Fixed(id.seqNo, 10, 10);
    KeyParts(id);
    FixedNoColon(id.ts, 10, 16);
    HexLength(id.author);
    SplitAt(t, h + (":" + s), ':');
    SplitAt(h, s, ':');
    assert t + ":" + (h + (":" + s)) == IdKey(id);
    assert h + ":" + s == h + (":" + s);
  }
}
