/**
  Decimal numbers as `sprintf("%d")` prints them, and looking for a character.
 */
module Text {

  predicate IsDigit(c: char) {
    '0' <= c <= '9'
  }

  predicate AllDigits(s: string) {
    forall i :: 0 <= i < |s| ==> IsDigit(s[i])
  }

  function Dec(n: nat): (s: string)
    ensures s != "" && AllDigits(s)
  {
    if n < 10 then [('0' as int + n) as char] else Dec(n / 10) + [('0' as int + n % 10) as char]
  }

  function ParseDec(s: string): int
    requires AllDigits(s)
  {
    if s == "" then 0 else ParseDec(s[..|s| - 1]) * 10 + (s[|s| - 1] as int - '0' as int)
  }

  lemma {:induction false} ParseDecDec(n: nat)
    ensures ParseDec(Dec(n)) == n
  {
    if n >= 10 {
      ParseDecDec(n / 10);
      assert Dec(n)[..|Dec(n)| - 1] == Dec(n / 10);
    } else {
      assert Dec(n)[..0] == "";
    }
  }

  // The most significant digit comes first.
  lemma DecimalDigits()
    ensures Dec(0) == "0" && Dec(7) == "7" && Dec(1024) == "1024"
  {
    assert Dec(10) == "10";
    assert Dec(102) == "102";
  }

  // The part of s before the first c, and the part after it.
  function Before(s: string, c: char): (r: string)
    ensures |r| <= |s| && r == s[..|r|] && c !in r
    ensures |r| < |s| ==> s[|r|] == c
  {
    if s == "" || s[0] == c then "" else [s[0]] + Before(s[1..], c)
  }

  function Behind(s: string, c: char): string {
    var n := |Before(s, c)|;
    if n < |s| then s[n + 1..] else ""
  }

  lemma {:induction false} CutAt(a: string, c: char, b: string)
    requires c !in a
    ensures Before(a + [c] + b, c) == a && Behind(a + [c] + b, c) == b
  {
    var s := a + [c] + b;
    var r := Before(s, c);
    assert forall i :: 0 <= i < |a| ==> s[i] == a[i];
    assert s[|a|] == c;
    assert |r| == |a|;
  }
}
