/** Machine integers, byte strings and their lexicographic order, and fixed-width
    integer layouts. */
module Bytes {
  import opened Orders

  type byte = x: int | 0 <= x < 0x100
  type u8 = byte
  type u16 = x: int | 0 <= x < 0x1_0000
  type u32 = x: int | 0 <= x < 0x1_0000_0000
  type u64 = x: int | 0 <= x < 0x1_0000_0000_0000_0000

  const MAX_U64: u64 := 0xFFFF_FFFF_FFFF_FFFF

  /** 2^53 - 1, the client's largest safe integer. */
  const MAX_SAFE_INTEGER: nat := 9007199254740991

  type Bytes = seq<byte>

  /** A [u8; 32]: key ids, instance ids, digests. */
  type Bytes32 = b: Bytes | |b| == 32 witness seq(32, _ => 0)

  /** A [u8; 64]: signatures. */
  type Bytes64 = b: Bytes | |b| == 64 witness seq(64, _ => 0)

  // ---- Lexicographic order --------------------------------------------------

  predicate Lex<T(==)>(lt: (T, T) -> bool, a: seq<T>, b: seq<T>) {
    if a == [] then b != []
    else if b == [] then false
    else lt(a[0], b[0]) || (a[0] == b[0] && Lex(lt, a[1..], b[1..]))
  }

  lemma {:induction false} LexIrreflexive<T(!new)>(lt: (T, T) -> bool, a: seq<T>)
    requires StrictTotal(lt)
    ensures !Lex(lt, a, a)
  {
    if a != [] { LexIrreflexive(lt, a[1..]); }
  }

  lemma {:induction false} LexTransitive<T(!new)>(lt: (T, T) -> bool, a: seq<T>, b: seq<T>, c: seq<T>)
    requires StrictTotal(lt) && Lex(lt, a, b) && Lex(lt, b, c)
    ensures Lex(lt, a, c)
  {
    if a != [] && a[0] == b[0] && b[0] == c[0] {
      LexTransitive(lt, a[1..], b[1..], c[1..]);
    }
  }

  lemma {:induction false} LexConnected<T(!new)>(lt: (T, T) -> bool, a: seq<T>, b: seq<T>)
    requires StrictTotal(lt) && a != b
    ensures Lex(lt, a, b) || Lex(lt, b, a)
  {
    if a != [] && b != [] && a[0] == b[0] {
      assert a == [a[0]] + a[1..] && b == [b[0]] + b[1..];
      LexConnected(lt, a[1..], b[1..]);
    }
  }

  /** Equal-length prefixes are compared first. */
  lemma {:induction false} LexConcat<T(!new)>(
      lt: (T, T) -> bool, a: seq<T>, b: seq<T>, c: seq<T>, d: seq<T>)
    requires StrictTotal(lt) && |a| == |b|
    ensures Lex(lt, a + c, b + d) <==> Lex(lt, a, b) || (a == b && Lex(lt, c, d))
  {
    if a == [] {
      assert a + c == c && b + d == d;
    } else {
      assert (a + c)[1..] == a[1..] + c && (b + d)[1..] == b[1..] + d;
      LexConcat(lt, a[1..], b[1..], c, d);
      assert a == [a[0]] + a[1..] && b == [b[0]] + b[1..];
    }
  }

  /** The order is decided at the first difference; a proper prefix comes first. */
  ghost predicate DiffersAt<T>(a: seq<T>, b: seq<T>, n: nat) {
    n <= |a| && n <= |b| && a[..n] == b[..n] && (n == |a| || n == |b| || a[n] != b[n])
  }

  lemma {:induction false} LexExact<T(!new)>(lt: (T, T) -> bool, a: seq<T>, b: seq<T>, n: nat)
    requires StrictTotal(lt) && DiffersAt(a, b, n)
    ensures Lex(lt, a, b) <==> n < |b| && (n == |a| || lt(a[n], b[n]))
  {
    assert a == a[..n] + a[n..] && b == b[..n] + b[n..];
    LexConcat(lt, a[..n], b[..n], a[n..], b[n..]);
    LexIrreflexive(lt, a[..n]);
  }

  lemma {:induction false} DifferenceExists<T>(a: seq<T>, b: seq<T>) returns (n: nat)
    ensures DiffersAt(a, b, n)
  {
    n := 0;
    while n < |a| && n < |b| && a[n] == b[n]
      invariant n <= |a| && n <= |b| && a[..n] == b[..n]
    {
      n := n + 1;
    }
  }

  predicate ByteLess(a: byte, b: byte) { a < b }

  predicate CharLess(a: char, b: char) { a < b }

  /** Rust's order on byte arrays. */
  predicate BytesLess(a: Bytes, b: Bytes) { Lex(ByteLess, a, b) }

  /** JavaScript's order on strings (by code unit). */
  predicate StringLess(a: string, b: string) { Lex(CharLess, a, b) }

  lemma ByteLessTotal()
    ensures StrictTotal(ByteLess) && StrictTotal(CharLess)
  {
  }

  lemma BytesOrder()
    ensures forall a: Bytes :: !BytesLess(a, a)
    ensures forall a: Bytes, b: Bytes, c: Bytes :: BytesLess(a, b) && BytesLess(b, c) ==> BytesLess(a, c)
    ensures forall a: Bytes, b: Bytes :: a != b ==> BytesLess(a, b) || BytesLess(b, a)
  {
    ByteLessTotal();
    forall a: Bytes
      ensures !BytesLess(a, a)
    {
      LexIrreflexive(ByteLess, a);
    }
    forall a: Bytes, b: Bytes, c: Bytes | BytesLess(a, b) && BytesLess(b, c)
      ensures BytesLess(a, c)
    {
      LexTransitive(ByteLess, a, b, c);
    }
    forall a: Bytes, b: Bytes | a != b
      ensures BytesLess(a, b) || BytesLess(b, a)
    {
      LexConnected(ByteLess, a, b);
    }
  }

  lemma StringLessTotal()
    ensures StrictTotal(StringLess)
  {
    ByteLessTotal();
    forall a: string
      ensures !StringLess(a, a)
    {
      LexIrreflexive(CharLess, a);
    }
    forall a: string, b: string, c: string | StringLess(a, b) && StringLess(b, c)
      ensures StringLess(a, c)
    {
      LexTransitive(CharLess, a, b, c);
    }
    forall a: string, b: string | a != b
      ensures StringLess(a, b) || StringLess(b, a)
    {
      LexConnected(CharLess, a, b);
    }
  }

  /** Byte strings and strings in plain terms: smaller at the first difference, or a proper
      prefix. */
  lemma BytesLessExact(a: Bytes, b: Bytes)
    ensures BytesLess(a, b) <==>
      exists n: nat :: DiffersAt(a, b, n) && n < |b| && (n == |a| || a[n] < b[n])
  {
    ByteLessTotal();
    var k := DifferenceExists(a, b);
    LexExact(ByteLess, a, b, k);
    forall n: nat | DiffersAt(a, b, n)
      ensures BytesLess(a, b) <==> n < |b| && (n == |a| || a[n] < b[n])
    {
      LexExact(ByteLess, a, b, n);
    }
  }

  lemma StringLessExact(a: string, b: string)
    ensures StringLess(a, b) <==>
      exists n: nat :: DiffersAt(a, b, n) && n < |b| && (n == |a| || a[n] < b[n])
  {
    ByteLessTotal();
    var k := DifferenceExists(a, b);
    LexExact(CharLess, a, b, k);
    forall n: nat | DiffersAt(a, b, n)
      ensures StringLess(a, b) <==> n < |b| && (n == |a| || a[n] < b[n])
    {
      LexExact(CharLess, a, b, n);
    }
  }

  /** compareBytes of the TypeScript client: the sign of the result is the byte order. */
  method CompareBytes(a: Bytes, b: Bytes) returns (cmp: int)
    ensures cmp < 0 <==> BytesLess(a, b)
    ensures cmp > 0 <==> BytesLess(b, a)
    ensures cmp == 0 <==> a == b
  {
    BytesOrder();
    ByteLessTotal();
    var n := if |a| < |b| then |a| else |b|;
    var i := 0;
    while i < n
      invariant 0 <= i <= n
      invariant a[..i] == b[..i]
    {
      if a[i] != b[i] {
        assert a == a[..i] + a[i..] && b == b[..i] + b[i..];
        LexConcat(ByteLess, a[..i], b[..i], a[i..], b[i..]);
        LexConcat(ByteLess, b[..i], a[..i], b[i..], a[i..]);
        LexIrreflexive(ByteLess, a[..i]);
        return (a[i] as int) - (b[i] as int);
      }
      i := i + 1;
    }
    assert a == a[..n] + a[n..] && b == b[..n] + b[n..];
    LexConcat(ByteLess, a[..n], b[..n], a[n..], b[n..]);
    LexConcat(ByteLess, b[..n], a[..n], b[n..], a[n..]);
    LexIrreflexive(ByteLess, a[..n]);
    return |a| - |b|;
  }

  // ---- Fixed-width integers ---------------------------------------------------

  function Pow(base: nat, w: nat): nat {
    if w == 0 then 1 else base * Pow(base, w - 1)
  }

  /** to_le_bytes for a w-byte integer. */
  function Le(n: nat, w: nat): (b: Bytes)
    ensures |b| == w
  {
    if w == 0 then [] else [n % 0x100] + Le(n / 0x100, w - 1)
  }

  function FromLe(b: Bytes): nat {
    if b == [] then 0 else b[0] + 0x100 * FromLe(b[1..])
  }

  lemma {:induction false} LeInverse(n: nat, w: nat)
    requires n < Pow(0x100, w)
    ensures FromLe(Le(n, w)) == n
  {
    if w > 0 {
      assert n / 0x100 < Pow(0x100, w - 1);
      LeInverse(n / 0x100, w - 1);
    }
  }

  lemma Widths()
    ensures Pow(0x100, 1) == 0x100
    ensures Pow(0x100, 2) == 0x1_0000
    ensures Pow(0x100, 4) == 0x1_0000_0000
    ensures Pow(0x100, 8) == 0x1_0000_0000_0000_0000
  {
  }

  /** to_be_bytes for a w-byte integer. */
  function Be(n: nat, w: nat): (b: Bytes)
    ensures |b| == w
  {
    if w == 0 then [] else Be(n / 0x100, w - 1) + [n % 0x100]
  }

  function FromBe(b: Bytes): nat {
    if b == [] then 0 else 0x100 * FromBe(b[..|b| - 1]) + b[|b| - 1]
  }

  lemma {:induction false} BeInverse(n: nat, w: nat)
    requires n < Pow(0x100, w)
    ensures FromBe(Be(n, w)) == n
  {
    if w > 0 {
      assert n / 0x100 < Pow(0x100, w - 1);
      BeInverse(n / 0x100, w - 1);
      assert Be(n, w)[..w - 1] == Be(n / 0x100, w - 1);
    }
  }

  /** from_be_bytes is onto and injective on each width. */
  lemma {:induction false} FromBeInverse(b: Bytes)
    ensures FromBe(b) < Pow(0x100, |b|)
    ensures Be(FromBe(b), |b|) == b
  {
    if b != [] {
      var init := b[..|b| - 1];
      FromBeInverse(init);
      assert FromBe(b) / 0x100 == FromBe(init) && FromBe(b) % 0x100 == b[|b| - 1];
      assert b == init + [b[|b| - 1]];
    }
  }

  // ---- What the layouts are ---------------------------------------------------

  /** Least significant byte first. */
  lemma LittleEndian(n: nat)
    ensures n < 0x1_0000 ==> var b := Le(n, 2); n == (b[0] as int) + 0x100 * (b[1] as int)
    ensures n < 0x1_0000_0000 ==> var b := Le(n, 4); n == (b[0] as int) + 0x100 * (b[1] as int) + 0x1_0000 * (b[2] as int) + 0x100_0000 * (b[3] as int)
    ensures n < 0x1_0000_0000_0000_0000 ==> var b := Le(n, 8);
      n == (b[0] as int) + 0x100 * (b[1] as int) + 0x1_0000 * (b[2] as int) + 0x100_0000 * (b[3] as int)
         + 0x1_0000_0000 * ((b[4] as int) + 0x100 * (b[5] as int) + 0x1_0000 * (b[6] as int) + 0x100_0000 * (b[7] as int))
  {
    hide Le, Pow;
    Widths();
    if n < 0x1_0000 { LeInverse(n, 2); LeValue2(Le(n, 2)); }
    if n < 0x1_0000_0000 { LeInverse(n, 4); LeValue4(Le(n, 4)); }
    if n < 0x1_0000_0000_0000_0000 { LeInverse(n, 8); LeValue8(Le(n, 8)); }
  }

  lemma LeStep(b: Bytes)
    ensures b != [] ==> FromLe(b) == b[0] + 0x100 * FromLe(b[1..])
    ensures FromLe([]) == 0
  {
  }

  lemma LeValue2(b: Bytes)
    requires |b| == 2
    ensures FromLe(b) == (b[0] as int) + 0x100 * (b[1] as int)
  {
    hide FromLe;
    LeStep(b);
    LeStep(b[1..]);
    assert b[1..][1..] == [];
    LeStep([]);
  }

  lemma LeValue4(b: Bytes)
    requires |b| == 4
    ensures FromLe(b) == (b[0] as int) + 0x100 * (b[1] as int) + 0x1_0000 * (b[2] as int) + 0x100_0000 * (b[3] as int)
  {
    hide FromLe;
    LeStep(b);
    LeStep(b[1..]);
    assert b[1..][1..] == b[2..];
    LeValue2(b[2..]);
  }

  lemma LeValue8(b: Bytes)
    requires |b| == 8
    ensures FromLe(b) == (b[0] as int) + 0x100 * (b[1] as int) + 0x1_0000 * (b[2] as int) + 0x100_0000 * (b[3] as int)
      + 0x1_0000_0000 * ((b[4] as int) + 0x100 * (b[5] as int) + 0x1_0000 * (b[6] as int) + 0x100_0000 * (b[7] as int))
  {
    hide FromLe;
    LeStep(b);
    LeStep(b[1..]);
    LeStep(b[2..]);
    LeStep(b[3..]);
    assert b[1..][1..] == b[2..] && b[2..][1..] == b[3..] && b[3..][1..] == b[4..];
    LeValue4(b[4..]);
  }

  /** Most significant byte first. */
  lemma BigEndian(n: nat)
    ensures n < 0x1_0000 ==> var b := Be(n, 2); n == (b[1] as int) + 0x100 * (b[0] as int)
    ensures n < 0x1_0000_0000 ==> var b := Be(n, 4); n == (b[3] as int) + 0x100 * (b[2] as int) + 0x1_0000 * (b[1] as int) + 0x100_0000 * (b[0] as int)
    ensures n < 0x1_0000_0000_0000_0000 ==> var b := Be(n, 8);
      n == (b[7] as int) + 0x100 * (b[6] as int) + 0x1_0000 * (b[5] as int) + 0x100_0000 * (b[4] as int)
         + 0x1_0000_0000 * ((b[3] as int) + 0x100 * (b[2] as int) + 0x1_0000 * (b[1] as int) + 0x100_0000 * (b[0] as int))
  {
    hide Be, Pow;
    Widths();
    if n < 0x1_0000 { BeInverse(n, 2); BeValue2(Be(n, 2)); }
    if n < 0x1_0000_0000 { BeInverse(n, 4); BeValue4(Be(n, 4)); }
    if n < 0x1_0000_0000_0000_0000 { BeInverse(n, 8); BeValue8(Be(n, 8)); }
  }

  lemma BeStep(b: Bytes)
    ensures b != [] ==> FromBe(b) == b[|b| - 1] + 0x100 * FromBe(b[..|b| - 1])
    ensures FromBe([]) == 0
  {
  }

  lemma BeValue2(b: Bytes)
    requires |b| == 2
    ensures FromBe(b) == (b[1] as int) + 0x100 * (b[0] as int)
  {
    hide FromBe;
    BeStep(b);
    BeStep(b[..1]);
    assert b[..1][..0] == [];
    BeStep([]);
  }

  lemma BeValue4(b: Bytes)
    requires |b| == 4
    ensures FromBe(b) == (b[3] as int) + 0x100 * (b[2] as int) + 0x1_0000 * (b[1] as int) + 0x100_0000 * (b[0] as int)
  {
    hide FromBe;
    BeStep(b);
    BeStep(b[..3]);
    assert b[..3][..2] == b[..2];
    BeValue2(b[..2]);
  }

  lemma BeValue8(b: Bytes)
    requires |b| == 8
    ensures FromBe(b) == (b[7] as int) + 0x100 * (b[6] as int) + 0x1_0000 * (b[5] as int) + 0x100_0000 * (b[4] as int)
      + 0x1_0000_0000 * ((b[3] as int) + 0x100 * (b[2] as int) + 0x1_0000 * (b[1] as int) + 0x100_0000 * (b[0] as int))
  {
    hide FromBe;
    BeStep(b);
    BeStep(b[..7]);
    BeStep(b[..6]);
    BeStep(b[..5]);
    assert b[..7][..6] == b[..6] && b[..6][..5] == b[..5] && b[..5][..4] == b[..4];
    BeValue4(b[..4]);
  }
}
