/**
 * Materialized paths as strings over the 36-symbol alphabet, and the string
 * order the backing store uses to compare them.
 */
module PathOrder {

  type Path = string

  /** Digits first, then upper-case letters: the same order as ASCII. */
  const Alphabet: string := "0123456789ABCDEFGHIJKLMNOPQRSTUVWXYZ"
  const Radix: nat := 36

  predicate IsSymbol(c: char) {
    '0' <= c <= '9' || 'A' <= c <= 'Z'
  }

  /** Every character of the path belongs to the alphabet. */
  predicate IsPath(p: Path) {
    forall i :: 0 <= i < |p| ==> IsSymbol(p[i])
  }

  /** Position of a symbol in the alphabet (Python's ALPHABET.index). */
  function Index(c: char): (k: nat)
    requires IsSymbol(c)
    ensures k < Radix && Alphabet[k] == c
  {
    if c <= '9' then c as int - '0' as int else c as int - 'A' as int + 10
  }

  lemma SymbolAt(k: nat)
    requires k < Radix
    ensures IsSymbol(Alphabet[k]) && Index(Alphabet[k]) == k
  {
  }

  /** The order of characters agrees with the order of the alphabet. */
  lemma IndexMonotone(c: char, d: char)
    requires IsSymbol(c) && IsSymbol(d)
    ensures c < d <==> Index(c) < Index(d)
    ensures c == d <==> Index(c) == Index(d)
  {
  }

  predicate IsPrefix(a: Path, b: Path) {
    |a| <= |b| && b[..|a|] == a
  }

  /** Length of the longest common prefix of a and b. */
  function Lcp(a: Path, b: Path): (k: nat)
    ensures k <= |a| && k <= |b|
    ensures a[..k] == b[..k]
    ensures k < |a| && k < |b| ==> a[k] != b[k]
  {
    if a == [] || b == [] || a[0] != b[0] then 0
    else
      var k := 1 + Lcp(a[1..], b[1..]);
      assert a[..k] == [a[0]] + a[1..][..k - 1];
      assert b[..k] == [b[0]] + b[1..][..k - 1];
      k
  }

  /**
   * Strict string order, as SQL compares the path column: a proper prefix is
   * smaller, otherwise the first differing character decides.
   */
  predicate LexLess(a: Path, b: Path) {
    var k := Lcp(a, b);
    (k == |a| && k < |b|) || (k < |a| && k < |b| && a[k] < b[k])
  }

  predicate LexLessEq(a: Path, b: Path) {
    a == b || LexLess(a, b)
  }

  /** Any common prefix is no longer than the longest one. */
  lemma {:induction false} LcpMaximal(a: Path, b: Path, k: nat)
    requires k <= |a| && k <= |b| && a[..k] == b[..k]
    ensures k <= Lcp(a, b)
  {
    if k > 0 {
      assert a[0] == a[..k][0] && b[0] == b[..k][0];
      assert a[1..][..k - 1] == a[..k][1..];
      assert b[1..][..k - 1] == b[..k][1..];
      LcpMaximal(a[1..], b[1..], k - 1);
    }
  }

  /** A common prefix followed by a difference (or an end) is the longest one. */
  lemma {:induction false} LcpAt(a: Path, b: Path, k: nat)
    requires k <= |a| && k <= |b| && a[..k] == b[..k]
    requires k == |a| || k == |b| || a[k] != b[k]
    ensures Lcp(a, b) == k
  {
    LcpMaximal(a, b, k);
  }

  lemma LexLessAt(a: Path, b: Path, k: nat)
    requires k < |a| && k < |b| && a[..k] == b[..k] && a[k] < b[k]
    ensures LexLess(a, b) && !LexLess(b, a)
  {
    LcpAt(a, b, k);
    LcpAt(b, a, k);
  }

  lemma PrefixLess(a: Path, b: Path)
    requires IsPrefix(a, b) && |a| < |b|
    ensures LexLess(a, b) && !LexLess(b, a)
  {
    assert a[..|a|] == a;
    LcpAt(a, b, |a|);
    LcpAt(b, a, |a|);
  }

  lemma LexLessIrreflexive(a: Path)
    ensures !LexLess(a, a)
  {
    assert a[..|a|] == a;
    LcpAt(a, a, |a|);
  }

  lemma LexLessAsymmetric(a: Path, b: Path)
    requires LexLess(a, b)
    ensures !LexLess(b, a) && a != b
  {
    var k := Lcp(a, b);
    LcpAt(b, a, k);
  }

  lemma LexLessTotal(a: Path, b: Path)
    requires a != b
    ensures LexLess(a, b) || LexLess(b, a)
  {
    var k := Lcp(a, b);
    LcpAt(b, a, k);
  }

  lemma LexLessTransitive(a: Path, b: Path, c: Path)
    requires LexLess(a, b) && LexLess(b, c)
    ensures LexLess(a, c)
  {
    var k1, k2 := Lcp(a, b), Lcp(b, c);
    if k1 <= k2 {
      assert a[..k1] == c[..k1] by {
        assert c[..k1] == c[..k2][..k1] && b[..k1] == b[..k2][..k1];
      }
      if k1 == |a| {
        LcpAt(a, c, k1);
      } else {
        if k1 < k2 {
          assert b[k1] == b[..k2][k1] && c[k1] == c[..k2][k1];
        }
        LcpAt(a, c, k1);
      }
    } else {
      assert a[..k2] == c[..k2] by {
        assert a[..k2] == a[..k1][..k2] && b[..k2] == b[..k1][..k2];
      }
      assert a[k2] == a[..k1][k2] && b[k2] == b[..k1][k2];
      LcpAt(a, c, k2);
    }
  }

  /** A path that comes before another does not come at or after it. */
  lemma LessNotAtLeast(a: Path, b: Path)
    ensures LexLess(a, b) ==> !LexLessEq(b, a)
  {
    if LexLess(a, b) {
      LexLessAsymmetric(a, b);
    }
  }

  /** At or before, then before, is before. */
  lemma LessEqLess(a: Path, b: Path, c: Path)
    ensures LexLessEq(a, b) && LexLess(b, c) ==> LexLess(a, c)
  {
    if LexLess(a, b) && LexLess(b, c) {
      LexLessTransitive(a, b, c);
    }
  }

  /** A common front does not change the order of two paths. */
  lemma LexLessCommonPrefix(c: Path, u: Path, v: Path)
    ensures LexLess(c + u, c + v) <==> LexLess(u, v)
  {
    var k := Lcp(u, v);
    assert (c + u)[..|c| + k] == c + u[..k];
    assert (c + v)[..|c| + k] == c + v[..k];
    if k < |u| && k < |v| {
      assert (c + u)[|c| + k] == u[k] && (c + v)[|c| + k] == v[k];
    }
    LcpAt(c + u, c + v, |c| + k);
  }
}
