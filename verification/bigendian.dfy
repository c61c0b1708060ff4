/** Fixed-width big-endian integers, as the store's key codec and the chain
    serialiser write them, and the bytewise order in which the storage engine
    compares keys. */
module BigEndian {

  type byte = x: int | 0 <= x < 256

  /** An unsigned 64-bit integer. */
  type u64 = x: int | 0 <= x < 0x1_0000_0000_0000_0000

  function Pow256(n: nat): (p: nat)
    ensures p > 0
  {
    if n == 0 then 1 else 256 * Pow256(n - 1)
  }

  lemma Pow256Eight()
    ensures Pow256(8) == 0x1_0000_0000_0000_0000
  {
  }

  /** The n-byte big-endian encoding of v, most significant byte first
      (v is reduced modulo 256^n). */
  function ToBE(v: nat, n: nat): (s: seq<byte>)
    ensures |s| == n
  {
    if n == 0 then [] else ToBE(v / 256, n - 1) + [v % 256]
  }

  /** The number a big-endian byte string denotes. */
  function FromBE(s: seq<byte>): (v: nat)
    ensures v < Pow256(|s|)
  {
    if s == [] then 0 else FromBE(s[..|s| - 1]) * 256 + s[|s| - 1]
  }

  /** Decoding an encoding gives the number back, for every number that fits. */
  lemma {:induction false} FromToBE(v: nat, n: nat)
    requires v < Pow256(n)
    ensures FromBE(ToBE(v, n)) == v
  {
    if n > 0 {
      var s := ToBE(v, n);
      assert s[..n - 1] == ToBE(v / 256, n - 1);
      FromToBE(v / 256, n - 1);
    }
  }

  lemma ByteDivMod(f: nat, b: byte)
    ensures (f * 256 + b) / 256 == f && (f * 256 + b) % 256 == b
  {
  }

  /** Encoding a decoded string gives the string back: the codec is a bijection. */
  lemma {:induction false} ToFromBE(s: seq<byte>)
    ensures ToBE(FromBE(s), |s|) == s
  {
    if s != [] {
      var n := |s|;
      var f := FromBE(s[..n - 1]);
      assert FromBE(s) == f * 256 + s[n - 1];
      ByteDivMod(f, s[n - 1]);
      assert ToBE(FromBE(s), n) == ToBE(f, n - 1) + [s[n - 1]];
      ToFromBE(s[..n - 1]);
      assert s[..n - 1] + [s[n - 1]] == s;
    }
  }

  lemma ToBEInjective(a: nat, b: nat, n: nat)
    requires a < Pow256(n) && b < Pow256(n)
    ensures ToBE(a, n) == ToBE(b, n) <==> a == b
  {
    if ToBE(a, n) == ToBE(b, n) {
      FromToBE(a, n);
      FromToBE(b, n);
    }
  }

  /** Strict bytewise lexicographic order: the order in which the storage
      engine sorts keys (a proper prefix sorts first). */
  predicate LexLess(a: seq<byte>, b: seq<byte>)
  {
    if a == [] then b != []
    else b != [] && (a[0] < b[0] || (a[0] == b[0] && LexLess(a[1..], b[1..])))
  }

  lemma {:induction false} LexLessCommonPrefix(c: seq<byte>, a: seq<byte>, b: seq<byte>)
    requires LexLess(a, b)
    ensures LexLess(c + a, c + b)
  {
    if c == [] {
      assert c + a == a && c + b == b;
    } else {
      assert (c + a)[0] == c[0] == (c + b)[0];
      assert (c + a)[1..] == c[1..] + a;
      assert (c + b)[1..] == c[1..] + b;
      LexLessCommonPrefix(c[1..], a, b);
    }
  }

  lemma {:induction false} LexLessAppend(a: seq<byte>, b: seq<byte>, x: byte, y: byte)
    requires |a| == |b| && LexLess(a, b)
    ensures LexLess(a + [x], b + [y])
  {
    if a[0] == b[0] {
      assert (a + [x])[1..] == a[1..] + [x];
      assert (b + [y])[1..] == b[1..] + [y];
      LexLessAppend(a[1..], b[1..], x, y);
    }
  }

  lemma LexLessLastByte(a: seq<byte>, x: byte, y: byte)
    requires x < y
    ensures LexLess(a + [x], a + [y])
  {
    assert LexLess([x], [y]);
    LexLessCommonPrefix(a, [x], [y]);
  }

  /** Big-endian order agrees with numeric order, which is why height keys
      sort by height. */
  lemma {:induction false} ToBEOrder(a: nat, b: nat, n: nat)
    requires a < b < Pow256(n)
    ensures LexLess(ToBE(a, n), ToBE(b, n))
  {
    assert n > 0;
    assert ToBE(a, n) == ToBE(a / 256, n - 1) + [a % 256];
    assert ToBE(b, n) == ToBE(b / 256, n - 1) + [b % 256];
    if a / 256 < b / 256 {
      ToBEOrder(a / 256, b / 256, n - 1);
      LexLessAppend(ToBE(a / 256, n - 1), ToBE(b / 256, n - 1), a % 256, b % 256);
    } else {
      assert a / 256 == b / 256 && a % 256 < b % 256;
      LexLessLastByte(ToBE(a / 256, n - 1), a % 256, b % 256);
    }
  }

  /** The bytewise order is strict: it never holds both ways, nor between
      equal strings. */
  lemma {:induction false} LexLessAsymmetric(a: seq<byte>, b: seq<byte>)
    requires LexLess(a, b)
    ensures !LexLess(b, a) && a != b
  {
    if a != [] && a[0] == b[0] {
      LexLessAsymmetric(a[1..], b[1..]);
    }
  }

  /** The converse of ToBEOrder: an encoding sorting before another means a
      smaller number, so bytewise order and numeric order coincide. */
  lemma ToBEOrderConverse(a: nat, b: nat, n: nat)
    requires a < Pow256(n) && b < Pow256(n)
    requires LexLess(ToBE(a, n), ToBE(b, n))
    ensures a < b
  {
    LexLessAsymmetric(ToBE(a, n), ToBE(b, n));
    if b < a {
      ToBEOrder(b, a, n);
    }
  }
}
