/**
  Integers as C keeps them in memory: little-endian, a fixed number of bytes.
  A C `char` is a Dafny `char`; a buffer is a sequence (or array) of them.
 */
module CBytes {

  function Pow256(n: nat): nat {
    if n == 0 then 1 else 256 * Pow256(n - 1)
  }

  // The n low-order bytes of v, least significant first.
  function Le(v: nat, n: nat): (s: string)
    ensures |s| == n
    decreases n
  {
    if n == 0 then "" else [(v % 256) as char] + Le(v / 256, n - 1)
  }

  function Unle(s: string): nat {
    if s == "" then 0 else s[0] as nat + 256 * Unle(s[1..])
  }

  lemma {:induction false} UnleLe(v: nat, n: nat)
    requires v < Pow256(n)
    ensures Unle(Le(v, n)) == v
    decreases n
  {
    if n > 0 {
      assert v / 256 < Pow256(n - 1);
      UnleLe(v / 256, n - 1);
      assert Le(v, n)[1..] == Le(v / 256, n - 1);
    }
  }

  // A four-byte integer is its four digits to the base 256, the lowest first.
  lemma FourBytes(v: nat)
    requires v < 0x1_0000_0000
    ensures Le(v, 4) == [(v % 256) as char, (v / 0x100 % 256) as char, (v / 0x1_0000 % 256) as char,
                         (v / 0x100_0000) as char]
  {
    var a, b, c := v / 0x100, v / 0x1_0000, v / 0x100_0000;
    assert a / 256 == b && b / 256 == c && c % 256 == c;
    assert Le(c, 1) == [c as char];
    assert Le(b, 2) == [(b % 256) as char, c as char];
    assert Le(a, 3) == [(a % 256) as char, (b % 256) as char, c as char];
  }

  lemma Widths()
    ensures Pow256(4) == 0x1_0000_0000 && Pow256(8) == 0x1_0000_0000_0000_0000
  {
    assert Pow256(2) == 0x1_0000;
    assert Pow256(4) == 256 * (256 * Pow256(2));
    assert Pow256(6) == 256 * (256 * Pow256(4));
    assert Pow256(8) == 256 * (256 * Pow256(6));
  }

  function Zeros(n: nat): (s: string)
    ensures |s| == n && forall i :: 0 <= i < n ==> s[i] == '\0'
  {
    seq(n, i => '\0')
  }

  // m with the bytes of s written over it at position a.
  function Splice(m: string, a: nat, s: string): (r: string)
    requires a + |s| <= |m|
    ensures |r| == |m|
    ensures forall i :: 0 <= i < |m| ==> r[i] == if a <= i < a + |s| then s[i - a] else m[i]
  {
    seq(|m|, i requires 0 <= i < |m| => if a <= i < a + |s| then s[i - a] else m[i])
  }

  // A slice that the written bytes do not meet is as before.
  lemma SpliceApart(m: string, a: nat, s: string, lo: nat, hi: nat)
    requires a + |s| <= |m| && lo <= hi <= |m|
    requires hi <= a || a + |s| <= lo
    ensures Splice(m, a, s)[lo..hi] == m[lo..hi]
  {
  }

  lemma SpliceExact(m: string, a: nat, s: string)
    requires a + |s| <= |m|
    ensures Splice(m, a, s)[a..a + |s|] == s
  {
  }
}
