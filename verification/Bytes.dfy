/** Little-endian integers of fixed width, as memcpy lays them out. */
module Bytes {
  import opened Keys

  function Pow256(w: nat): (p: nat)
    ensures p > 0
  {
    if w == 0 then 1 else 256 * Pow256(w - 1)
  }

  /** The low w bytes of n, least significant first. */
  function ToBytes(n: nat, w: nat): (s: seq<byte>)
    ensures |s| == w
  {
    if w == 0 then [] else [n % 256] + ToBytes(n / 256, w - 1)
  }

  function FromBytes(s: seq<byte>): (n: nat) {
    if s == [] then 0 else s[0] + 256 * FromBytes(s[1..])
  }

  /** Byte i is the one of weight 256 to the i. */
  lemma {:induction false} ByteAt(n: nat, w: nat, i: nat)
    requires i < w
    ensures ToBytes(n, w)[i] == n / Pow256(i) % 256
  {
    if i > 0 {
      ByteAt(n / 256, w - 1, i - 1);
      DivTwice(n, Pow256(i - 1));
    }
  }

  lemma DivTwice(n: nat, p: nat)
    requires p > 0
    ensures n / 256 / p == n / (256 * p)
  {
    var q := n / 256;
    var a, b := q / p, q % p;
    assert q == a * p + b;
    assert n == (256 * p) * a + (256 * b + n % 256) by {
      assert 256 * (a * p + b) == (256 * p) * a + 256 * b;
    }
    RemainderUnique(n, 256 * p, a, 256 * b + n % 256);
  }

  /** Reading back what was written gives the value reduced to the width. */
  lemma {:induction false} ReadBack(n: nat, w: nat)
    ensures FromBytes(ToBytes(n, w)) == n % Pow256(w)
  {
    if w > 0 {
      ReadBack(n / 256, w - 1);
      var p := Pow256(w - 1);
      ModSplit(n, p);
      assert ToBytes(n, w)[1..] == ToBytes(n / 256, w - 1);
    }
  }

  lemma ModSplit(n: nat, p: nat)
    requires p > 0
    ensures n % (256 * p) == n % 256 + 256 * (n / 256 % p)
  {
    var q, r := n / 256, n % 256;
    var a, b := q / p, q % p;
    assert q == a * p + b;
    assert n == (256 * p) * a + (256 * b + r) by {
      assert 256 * (a * p + b) + r == (256 * p) * a + (256 * b + r);
    }
    assert 0 <= 256 * b + r < 256 * p;
    RemainderUnique(n, 256 * p, a, 256 * b + r);
  }

  lemma RemainderUnique(n: nat, d: nat, a: nat, r: nat)
    requires d > 0 && r < d && n == d * a + r
    ensures n % d == r && n / d == a
  {
    var x := n / d - a;
    assert n == d * (n / d) + n % d;
    assert d * x == d * (n / d) - d * a;
    MultipleGrows(d, x);
  }

  lemma MultipleGrows(d: nat, x: int)
    ensures x >= 1 ==> d * x >= d
    ensures x <= -1 ==> d * x <= 0 - d
  {
    if x >= 1 {
      assert d * x == d * (x - 1) + d;
    } else if x <= -1 {
      assert d * x == d * (x + 1) - d;
    }
  }

  lemma Widths()
    ensures Pow256(2) == 0x1_0000 && Pow256(4) == 0x1_0000_0000 && Pow256(8) == 0x1_0000_0000_0000_0000
  {
    assert Pow256(1) == 256;
    assert Pow256(3) == 256 * Pow256(2);
    assert Pow256(6) == 256 * Pow256(5) && Pow256(5) == 256 * Pow256(4);
    assert Pow256(7) == 256 * Pow256(6);
  }

  /** A value that fits its width reads back unchanged. */
  lemma ReadBackFits(n: nat, w: nat)
    requires n < Pow256(w)
    ensures FromBytes(ToBytes(n, w)) == n
  {
    ReadBack(n, w);
  }

  /** A part of what stands at off. */
  lemma Within(data: seq<byte>, off: nat, s: seq<byte>, i: nat, j: nat)
    requires off + |s| <= |data| && data[off..off + |s|] == s && i <= j <= |s|
    ensures data[off + i..off + j] == s[i..j]
  {
    forall k | i <= k < j
      ensures data[off + k] == s[k]
    {
      assert data[off..off + |s|][k] == data[off + k];
    }
  }

  lemma Middle(x: seq<byte>, y: seq<byte>, z: seq<byte>)
    ensures (x + y + z)[|x|..|x| + |y|] == y
  {
  }
}
