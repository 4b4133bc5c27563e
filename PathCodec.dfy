/**
 * Path arithmetic: inc_path treats the trailing steplen characters of a path
 * as a base-36 number and adds one, never carrying into the parent segment.
 */
module PathCodec {
  import opened Wrappers
  import opened PathOrder

  function Pow(b: nat, e: nat): (r: nat)
    ensures b > 0 ==> r > 0
  {
    if e == 0 then 1 else b * Pow(b, e - 1)
  }

  /** The base-36 number a string of symbols denotes (most significant first). */
  function Value(w: Path): nat
    requires IsPath(w)
  {
    if w == [] then 0 else Value(w[..|w| - 1]) * Radix + Index(w[|w| - 1])
  }

  /** ALPHABET[0] * n. */
  function Zeros(n: nat): (z: Path)
    ensures |z| == n && IsPath(z)
    ensures forall i :: 0 <= i < n ==> z[i] == Alphabet[0]
  {
    seq(n, _ => Alphabet[0])
  }

  /** Where Python's p[:-steplen] ends and p[-steplen:] starts. */
  function Cut(p: Path, steplen: nat): (c: nat)
    requires steplen > 0
    ensures c <= |p|
    ensures |p| >= steplen ==> c == |p| - steplen
  {
    if steplen >= |p| then 0 else |p| - steplen
  }

  /** The trailing window that inc_path increments. */
  function Window(p: Path, steplen: nat): Path
    requires steplen > 0
  {
    p[Cut(p, steplen)..]
  }

  /** Python's w.rstrip(ALPHABET[-1]): drop the trailing maximal symbols. */
  function StripMax(w: Path): (r: Path)
    ensures IsPrefix(r, w)
    ensures r == [] || r[|r| - 1] != 'Z'
  {
    if w != [] && w[|w| - 1] == 'Z' then
      var r := StripMax(w[..|w| - 1]);
      assert w[..|w| - 1][..|r|] == w[..|r|];
      r
    else w
  }

  /** What StripMax drops is all maximal symbols. */
  lemma {:induction false} StripMaxTail(w: Path)
    ensures forall i :: |StripMax(w)| <= i < |w| ==> w[i] == 'Z'
    decreases |w|
  {
    if w != [] && w[|w| - 1] == 'Z' {
      StripMaxTail(w[..|w| - 1]);
    }
  }

  /** The symbol after c in the alphabet. */
  function Succ(c: char): (d: char)
    requires IsSymbol(c) && c != 'Z'
    ensures IsSymbol(d) && Index(d) == Index(c) + 1 && c < d
  {
    NotTop(c);
    var d := Alphabet[Index(c) + 1];
    SymbolAt(Index(c) + 1);
    d
  }

  /** Every symbol but 'Z' has a successor in the alphabet, and it is a larger character. */
  lemma NotTop(c: char)
    requires IsSymbol(c) && c != 'Z'
    ensures Index(c) + 1 < Radix && c < Alphabet[Index(c) + 1]
  {
  }

  /**
   * inc_path: the successor of the trailing window, or PathOverflow when the
   * window holds only maximal symbols (the carry would leave the window).
   */
  function IncPath(p: Path, steplen: nat): Result<Path>
    requires steplen > 0 && IsPath(p)
  {
    var head, window := p[..Cut(p, steplen)], Window(p, steplen);
    var stem := StripMax(window);
    if stem == [] then Err(PathOverflow)
    else Ok(head + stem[..|stem| - 1] + [Succ(stem[|stem| - 1])] + Zeros(steplen - |stem|))
  }

  /** Position of the character inc_path raises (the last non-maximal symbol of the window). */
  function IncPos(p: Path, steplen: nat): int
    requires steplen > 0
  {
    Cut(p, steplen) + |StripMax(Window(p, steplen))| - 1
  }

  /**
   * The shape of a successful increment: everything before IncPos is kept,
   * the symbol at IncPos is raised by one, the maximal symbols after it become
   * '0', and for a path of at least steplen characters the length is kept.
   */
  lemma IncPathShape(p: Path, steplen: nat)
    requires steplen > 0 && IsPath(p) && IncPath(p, steplen).Ok?
    ensures var r, i := IncPath(p, steplen).value, IncPos(p, steplen);
      && Cut(p, steplen) <= i < |p| && i < |r| && IsPath(r)
      && r[..i] == p[..i] && r[i] == Succ(p[i])
      && (forall j :: i < j < |p| ==> p[j] == 'Z')
      && (forall j :: i < j < |r| ==> r[j] == '0')
      && |r| == Cut(p, steplen) + steplen
      && (|p| >= steplen ==> |r| == |p|)
      && r[..Cut(p, steplen)] == p[..Cut(p, steplen)]
  {
    var c := Cut(p, steplen);
    var w := Window(p, steplen);
    var stem := StripMax(w);
    var r, i := IncPath(p, steplen).value, IncPos(p, steplen);
    StripMaxTail(w);
    assert w[..|stem|] == stem;
    assert p[..i] == p[..c] + stem[..|stem| - 1];
    assert p[i] == stem[|stem| - 1];
    forall j | i < j < |p| ensures p[j] == 'Z' {
      assert p[j] == w[j - c];
    }
    assert r[..c] == p[..c];
  }

  /** A successful increment is again a path. */
  lemma IncPathIsPath(p: Path, steplen: nat)
    requires steplen > 0 && IsPath(p)
    ensures IncPath(p, steplen).Ok? ==> IsPath(IncPath(p, steplen).value)
  {
    if IncPath(p, steplen).Ok? {
      IncPathShape(p, steplen);
    }
  }

  /** inc_path fails exactly when every character of the window is 'Z'. */
  lemma IncPathOverflowIff(p: Path, steplen: nat)
    requires steplen > 0 && IsPath(p)
    ensures IncPath(p, steplen).Err? <==>
      forall i :: Cut(p, steplen) <= i < |p| ==> p[i] == 'Z'
  {
    var c := Cut(p, steplen);
    var w := Window(p, steplen);
    var stem := StripMax(w);
    if stem != [] {
      assert p[c + |stem| - 1] == w[|stem| - 1] == stem[|stem| - 1];
    } else {
      StripMaxTail(w);
      forall i | c <= i < |p| ensures p[i] == 'Z' {
        assert p[i] == w[i - c];
      }
    }
  }

  lemma {:induction false} ValueBound(w: Path)
    requires IsPath(w)
    ensures Value(w) < Pow(Radix, |w|)
  {
    if w != [] {
      var v := w[..|w| - 1];
      ValueBound(v);
      assert Value(w) <= (Pow(Radix, |v|) - 1) * Radix + (Radix - 1);
    }
  }

  /** Value of a concatenation: the left part is shifted by the length of the right part. */
  lemma {:induction false} ValueConcat(a: Path, b: Path)
    requires IsPath(a) && IsPath(b)
    ensures IsPath(a + b)
    ensures Value(a + b) == Value(a) * Pow(Radix, |b|) + Value(b)
  {
    if b != [] {
      var b' := b[..|b| - 1];
      var d := Index(b[|b| - 1]);
      assert (a + b)[..|a + b| - 1] == a + b';
      assert (a + b)[|a + b| - 1] == b[|b| - 1];
      ValueConcat(a, b');
      var x, p, v := Value(a), Pow(Radix, |b'|), Value(b');
      assert Value(a + b) == Value(a + b') * Radix + d;
      assert Value(b) == v * Radix + d;
      assert Pow(Radix, |b|) == Radix * p;
      ShiftDigit(x, p, v, d);
    } else {
      assert a + b == a;
    }
  }

  /** Appending one digit to both sides of x * p + v. */
  lemma ShiftDigit(x: int, p: int, v: int, d: int)
    ensures (x * p + v) * Radix + d == x * (Radix * p) + (v * Radix + d)
  {
  }

  lemma {:induction false} ValueZeros(n: nat)
    ensures Value(Zeros(n)) == 0
  {
    if n > 0 {
      assert Zeros(n)[..n - 1] == Zeros(n - 1);
      ValueZeros(n - 1);
    }
  }

  /** A window of maximal symbols denotes the largest number of its width. */
  lemma {:induction false} ValueAllMax(w: Path)
    requires IsPath(w) && forall i :: 0 <= i < |w| ==> w[i] == 'Z'
    ensures Value(w) == Pow(Radix, |w|) - 1
  {
    if w != [] {
      ValueAllMax(w[..|w| - 1]);
    }
  }

  /** Equal width and equal value means equal strings. */
  lemma {:induction false} ValueInjective(a: Path, b: Path)
    requires IsPath(a) && IsPath(b) && |a| == |b| && Value(a) == Value(b)
    ensures a == b
  {
    if a != [] {
      var a', b' := a[..|a| - 1], b[..|b| - 1];
      var x, y := Index(a[|a| - 1]), Index(b[|b| - 1]);
      assert Value(a') * Radix + x == Value(b') * Radix + y;
      assert x == y && Value(a') == Value(b') by {
        DivModUnique(Value(a'), x, Value(b'), y);
      }
      ValueInjective(a', b');
      IndexMonotone(a[|a| - 1], b[|b| - 1]);
      assert a == a' + [a[|a| - 1]] && b == b' + [b[|b| - 1]];
    }
  }

  lemma DivModUnique(q1: nat, r1: nat, q2: nat, r2: nat)
    requires r1 < Radix && r2 < Radix && q1 * Radix + r1 == q2 * Radix + r2
    ensures q1 == q2 && r1 == r2
  {
  }

  /** The window is its stripped stem followed by maximal symbols. */
  lemma {:induction false} StemValue(w: Path)
    requires IsPath(w)
    ensures var stem := StripMax(w); var m := |w| - |stem|;
      Value(w) == Value(stem) * Pow(Radix, m) + Pow(Radix, m) - 1
  {
    var stem := StripMax(w);
    var tail := w[|stem|..];
    assert w == stem + tail;
    StripMaxTail(w);
    ValueAllMax(tail);
    ValueConcat(stem, tail);
  }

  lemma SuccValue(stem: Path)
    requires IsPath(stem) && stem != [] && stem[|stem| - 1] != 'Z'
    ensures var u := stem[..|stem| - 1] + [Succ(stem[|stem| - 1])];
      IsPath(u) && Value(u) == Value(stem) + 1
  {
    var t, x := stem[..|stem| - 1], stem[|stem| - 1];
    var u := t + [Succ(x)];
    assert u[..|u| - 1] == t;
    assert u[|u| - 1] == Succ(x);
  }

  /** Raising the last symbol of the stem and zero-filling adds one to the window. */
  lemma {:induction false} RaisedValue(stem: Path, m: nat)
    requires IsPath(stem) && stem != [] && stem[|stem| - 1] != 'Z'
    ensures var u := stem[..|stem| - 1] + [Succ(stem[|stem| - 1])];
      IsPath(u + Zeros(m)) && Value(u + Zeros(m)) == (Value(stem) + 1) * Pow(Radix, m)
  {
    var u := stem[..|stem| - 1] + [Succ(stem[|stem| - 1])];
    SuccValue(stem);
    ValueConcat(u, Zeros(m));
    ValueZeros(m);
    var vu, vs, pm := Value(u), Value(stem), Pow(Radix, m);
    assert Value(u + Zeros(m)) == vu * pm;
    assert vu == vs + 1;
  }

  /** The window of a successful increment is the raised stem followed by zeros. */
  lemma IncPathWindow(p: Path, steplen: nat)
    requires steplen > 0 && IsPath(p) && |p| >= steplen && IncPath(p, steplen).Ok?
    ensures var stem := StripMax(Window(p, steplen));
      var u := stem[..|stem| - 1] + [Succ(stem[|stem| - 1])];
      var r := IncPath(p, steplen).value;
      |r| == |p| && Window(r, steplen) == u + Zeros(steplen - |stem|)
  {
    var c := Cut(p, steplen);
    var stem := StripMax(Window(p, steplen));
    var u := stem[..|stem| - 1] + [Succ(stem[|stem| - 1])];
    var r := IncPath(p, steplen).value;
    assert r == p[..c] + (u + Zeros(steplen - |stem|));
  }

  lemma Distrib(a: int, b: int)
    ensures (a + 1) * b == a * b + b
  {
  }

  lemma MulMono(x: int, y: int, s: nat)
    requires x <= y
    ensures x * s <= y * s
  {
  }

  /** A non-empty run of whole segments is at least one segment long. */
  lemma WholeSegments(d: nat, s: nat)
    requires d * s > 0
    ensures d * s >= s
  {
    if d > 0 {
      MulMono(1, d, s);
    }
  }

  /** A path inc_path succeeds on is not empty, and the increment of a path of at least one segment keeps its length. */
  lemma IncPathKeepsLength(p: Path, steplen: nat)
    requires steplen > 0 && IsPath(p) && IncPath(p, steplen).Ok?
    ensures |p| > 0 && IsPath(IncPath(p, steplen).value)
    ensures |p| >= steplen ==> |IncPath(p, steplen).value| == |p|
  {
    IncPathShape(p, steplen);
  }

  /** A successful increment adds exactly one to the value of the window. */
  lemma IncPathSucc(p: Path, steplen: nat)
    requires steplen > 0 && IsPath(p) && |p| >= steplen
    requires StripMax(Window(p, steplen)) != []
    ensures IncPath(p, steplen).Ok? && IsPath(Window(p, steplen))
    ensures var r := IncPath(p, steplen).value;
      IsPath(Window(r, steplen)) &&
      Value(Window(r, steplen)) == Value(Window(p, steplen)) + 1
  {
    var w := Window(p, steplen);
    var stem := StripMax(w);
    var m := steplen - |stem|;
    IncPathWindow(p, steplen);
    RaisedValue(stem, m);
    var r := IncPath(p, steplen).value;
    var a := Value(Window(r, steplen));
    var vs, pm := Value(stem), Pow(Radix, m);
    assert a == (vs + 1) * pm;
    assert |w| == steplen;
    StemValue(w);
    OneMore(a, Value(w), vs, pm);
  }

  /** The raised stem followed by zeros is one more than the stem followed by maximal symbols. */
  lemma OneMore(a: int, v: int, vs: int, pm: int)
    requires a == (vs + 1) * pm && v == vs * pm + pm - 1
    ensures a == v + 1
  {
    Distrib(vs, pm);
  }

  /**
   * inc_path is the base-36 successor of the window: it succeeds exactly when
   * the successor still fits in steplen digits, and then the new window
   * denotes the old value plus one.
   */
  lemma {:induction false} IncPathValue(p: Path, steplen: nat)
    requires steplen > 0 && IsPath(p) && |p| >= steplen
    ensures IsPath(Window(p, steplen))
    ensures IncPath(p, steplen).Ok? <==> Value(Window(p, steplen)) + 1 < Pow(Radix, steplen)
    ensures IncPath(p, steplen).Ok? ==>
      var r := IncPath(p, steplen).value;
      IsPath(r) && |r| == |p| && IsPath(Window(r, steplen)) &&
      Value(Window(r, steplen)) == Value(Window(p, steplen)) + 1
  {
    var w := Window(p, steplen);
    var stem := StripMax(w);
    assert |w| == steplen;
    if stem == [] {
      StemValue(w);
      assert Value(w) == Pow(Radix, steplen) - 1;
    } else {
      IncPathSucc(p, steplen);
      IncPathShape(p, steplen);
      var r := IncPath(p, steplen).value;
      ValueBound(Window(r, steplen));
    }
  }

  /** A successful increment yields a strictly greater path. */
  lemma IncPathGreater(p: Path, steplen: nat)
    requires steplen > 0 && IsPath(p) && IncPath(p, steplen).Ok?
    ensures LexLess(p, IncPath(p, steplen).value)
  {
    IncPathShape(p, steplen);
    var i := IncPos(p, steplen);
    LexLessAt(p, IncPath(p, steplen).value, i);
  }

  /**
   * inc_path gives the next path of the same length: every path of that
   * length after p is inc_path(p) or after it, so none lies in between.
   */
  lemma IncPathNext(p: Path, q: Path, steplen: nat)
    requires steplen > 0 && IsPath(p) && IsPath(q) && |p| >= steplen && |q| == |p| && IncPath(p, steplen).Ok?
    ensures LexLess(p, q) ==> LexLessEq(IncPath(p, steplen).value, q)
  {
    if LexLess(p, q) {
      IncPathShape(p, steplen);
      var r, i := IncPath(p, steplen).value, IncPos(p, steplen);
      NextAt(p, q, r, i);
    }
  }

  /**
   * IncPathNext on the shape of the increment: r is p with the symbol at i
   * raised by one, every later symbol of p being 'Z' and of r being '0'.
   */
  lemma NextAt(p: Path, q: Path, r: Path, i: nat)
    requires IsPath(p) && IsPath(q) && IsPath(r) && |q| == |p| == |r| && i < |p|
    requires r[..i] == p[..i] && Index(r[i]) == Index(p[i]) + 1
    requires (forall j :: i < j < |p| ==> p[j] == 'Z') && (forall j :: i < j < |r| ==> r[j] == '0')
    requires LexLess(p, q)
    ensures LexLessEq(r, q)
  {
    var k := Lcp(p, q);
    assert k < |p| && p[k] < q[k];
    assert k <= i;
    assert r[..k] == p[..k];
    if k < i {
      LexLessAt(r, q, k);
    } else {
      IndexMonotone(p[i], q[i]);
      IndexMonotone(r[i], q[i]);
      if q[i] != r[i] {
        LexLessAt(r, q, i);
      } else {
        ZerosAfter(r, q, i);
      }
    }
  }

  /** A path that agrees with r up to i, r being all '0' after i, is r or after it. */
  lemma ZerosAfter(r: Path, q: Path, i: nat)
    requires IsPath(q) && |q| == |r| && i < |r| && r[..i] == q[..i] && r[i] == q[i]
    requires forall j :: i < j < |r| ==> r[j] == '0'
    ensures LexLessEq(r, q)
  {
    assert r[..i + 1] == q[..i + 1];
    LcpMaximal(r, q, i + 1);
    var k := Lcp(r, q);
    if k < |r| {
      assert r[k] == '0' && q[k] != '0';
      LexLessAt(r, q, k);
    } else {
      assert r == r[..k] && q == q[..k];
    }
  }

  /** The n-digit base-36 numeral of k (the k-th sibling slot when n is steplen). */
  function Encode(k: nat, n: nat): (w: Path)
    ensures |w| == n && IsPath(w)
  {
    if n == 0 then [] else Encode(k / Radix, n - 1) + [Alphabet[k % Radix]]
  }

  lemma {:induction false} EncodeValue(k: nat, n: nat)
    requires k < Pow(Radix, n)
    ensures Value(Encode(k, n)) == k
  {
    if n > 0 {
      var w := Encode(k, n);
      assert w[..n - 1] == Encode(k / Radix, n - 1);
      SymbolAt(k % Radix);
      EncodeValue(k / Radix, n - 1);
    }
  }

  lemma {:induction false} EncodeZero(n: nat)
    ensures Encode(0, n) == Zeros(n)
  {
    if n > 0 {
      EncodeZero(n - 1);
    }
  }

  /** Path of the k-th child slot (counting from 0) under a parent path. */
  function Slot(parentPath: Path, k: nat, steplen: nat): (p: Path)
    ensures |p| == |parentPath| + steplen
  {
    parentPath + Encode(k, steplen)
  }

  lemma {:induction false} SlotWindow(parentPath: Path, k: nat, steplen: nat)
    requires steplen > 0 && IsPath(parentPath) && k < Pow(Radix, steplen)
    ensures var p := Slot(parentPath, k, steplen);
      IsPath(p) && |p| >= steplen && Cut(p, steplen) == |parentPath| &&
      Window(p, steplen) == Encode(k, steplen) && Value(Window(p, steplen)) == k
  {
    EncodeValue(k, steplen);
  }

  /** The first k slots under parentPath, in order. */
  function Slots(parentPath: Path, k: nat, steplen: nat): (ss: seq<Path>)
    ensures |ss| == k && forall i :: 0 <= i < k ==> ss[i] == Slot(parentPath, i, steplen)
  {
    if k == 0 then [] else Slots(parentPath, k - 1, steplen) + [Slot(parentPath, k - 1, steplen)]
  }

  /** Appending one symbol to each of two equal-length paths keeps their order. */
  lemma LexLessAppend(x: Path, y: Path, c: char, d: char)
    requires |x| == |y| && LexLess(x, y)
    ensures LexLess(x + [c], y + [d])
  {
    var k := Lcp(x, y);
    assert (x + [c])[..k] == x[..k] && (y + [d])[..k] == y[..k];
    LexLessAt(x + [c], y + [d], k);
  }

  /** Numerals of the same width are ordered as the numbers they denote. */
  lemma {:induction false} EncodeOrder(i: nat, j: nat, n: nat)
    requires i < j < Pow(Radix, n)
    ensures LexLess(Encode(i, n), Encode(j, n))
  {
    if n > 0 {
      var x, y := Encode(i / Radix, n - 1), Encode(j / Radix, n - 1);
      var c, d := Alphabet[i % Radix], Alphabet[j % Radix];
      assert Encode(i, n) == x + [c] && Encode(j, n) == y + [d];
      if i / Radix < j / Radix {
        EncodeOrder(i / Radix, j / Radix, n - 1);
        LexLessAppend(x, y, c, d);
      } else {
        SymbolAt(i % Radix);
        SymbolAt(j % Radix);
        IndexMonotone(c, d);
        assert (x + [c])[..|x|] == x == (y + [d])[..|y|];
        LexLessAt(x + [c], y + [d], |x|);
      }
    }
  }

  /** The slots of one parent are ordered by their numbers. */
  lemma {:induction false} SlotOrder(parentPath: Path, i: nat, j: nat, steplen: nat)
    requires i < j < Pow(Radix, steplen)
    ensures LexLess(Slot(parentPath, i, steplen), Slot(parentPath, j, steplen))
  {
    var a, b := Encode(i, steplen), Encode(j, steplen);
    EncodeOrder(i, j, steplen);
    var k := Lcp(a, b);
    var pp := parentPath;
    assert (pp + a)[..|pp| + k] == pp + a[..k];
    assert (pp + b)[..|pp| + k] == pp + b[..k];
    LexLessAt(pp + a, pp + b, |pp| + k);
  }

  /** Incrementing the k-th slot gives the (k+1)-th one while it exists. */
  lemma {:induction false} SlotSucc(parentPath: Path, k: nat, steplen: nat)
    requires steplen > 0 && IsPath(parentPath) && k + 1 < Pow(Radix, steplen)
    ensures IsPath(Slot(parentPath, k, steplen))
    ensures IncPath(Slot(parentPath, k, steplen), steplen) == Ok(Slot(parentPath, k + 1, steplen))
  {
    var p := Slot(parentPath, k, steplen);
    SlotWindow(parentPath, k, steplen);
    assert p[..|parentPath|] == parentPath;
    IncPathNumeral(p, parentPath, k, steplen);
  }

  /** Incrementing a path whose window denotes k gives the numeral of k + 1. */
  lemma IncPathNumeral(p: Path, head: Path, k: nat, steplen: nat)
    requires steplen > 0 && IsPath(p) && |p| >= steplen && k + 1 < Pow(Radix, steplen)
    requires Cut(p, steplen) == |head| && p[..|head|] == head
    requires Value(Window(p, steplen)) == k
    ensures IncPath(p, steplen) == Ok(head + Encode(k + 1, steplen))
  {
    IncPathValue(p, steplen);
    var r := IncPath(p, steplen).value;
    IncPathShape(p, steplen);
    EncodeValue(k + 1, steplen);
    var w := Window(r, steplen);
    ValueInjective(w, Encode(k + 1, steplen));
    assert r == r[..|head|] + w;
  }

  /** Incrementing the last of the Radix^steplen slots overflows. */
  lemma {:induction false} SlotLast(parentPath: Path, steplen: nat)
    requires steplen > 0 && IsPath(parentPath)
    ensures IsPath(Slot(parentPath, Pow(Radix, steplen) - 1, steplen))
    ensures IncPath(Slot(parentPath, Pow(Radix, steplen) - 1, steplen), steplen).Err?
  {
    var p := Slot(parentPath, Pow(Radix, steplen) - 1, steplen);
    SlotWindow(parentPath, Pow(Radix, steplen) - 1, steplen);
    IncPathMaxWindow(p, steplen);
  }

  lemma {:induction false} IncPathMaxWindow(p: Path, steplen: nat)
    requires steplen > 0 && IsPath(p) && |p| >= steplen
    requires Value(Window(p, steplen)) == Pow(Radix, steplen) - 1
    ensures IncPath(p, steplen).Err?
  {
    IncPathValue(p, steplen);
  }

  /** The first slot, parent_path + ALPHABET[0] * steplen, is slot 0. */
  lemma FirstSlot(parentPath: Path, steplen: nat)
    ensures parentPath + Zeros(steplen) == Slot(parentPath, 0, steplen)
  {
    EncodeZero(steplen);
  }

  /** The documented examples of inc_path: a plain increment of the last symbol... */
  lemma IncPathExampleNoCarry()
    ensures IncPath("0000", 4) == Ok("0001")
    ensures IncPath("3GZU", 4) == Ok("3GZV")
  {
    IncPathFirstChild();
    IncPathLastRaised();
  }

  lemma IncPathFirstChild()
    ensures IncPath("0000", 4) == Ok("0001")
  {
    assert Window("0000", 4) == "0000" && StripMax("0000") == "0000";
    assert "0000"[..0] + "0000"[..3] + [Succ('0')] + Zeros(0) == "0001";
  }

  lemma IncPathLastRaised()
    ensures IncPath("3GZU", 4) == Ok("3GZV")
  {
    assert Window("3GZU", 4) == "3GZU" && StripMax("3GZU") == "3GZU";
    assert "3GZU"[..0] + "3GZU"[..3] + [Succ('U')] + Zeros(0) == "3GZV";
  }

  /** ... a carry that stays inside the window ... */
  lemma IncPathExampleCarry()
    ensures IncPath("337Z", 2) == Ok("3380")
  {
    assert Window("337Z", 2) == "7Z" && StripMax("7Z") == StripMax("7") == "7";
    assert "337Z"[..2] + "7"[..0] + [Succ('7')] + Zeros(1) == "3380";
  }

  /** ... a carry over several maximal symbols ... */
  lemma IncPathExampleLongCarry()
    ensures IncPath("GWZZZ", 5) == Ok("GX000")
  {
    assert Window("GWZZZ", 5) == "GWZZZ";
    assert "GWZZZ"[..4] == "GWZZ" && "GWZZ"[..3] == "GWZ" && "GWZ"[..2] == "GW";
    assert StripMax("GWZ") == StripMax("GW") == "GW";
    assert StripMax("GWZZZ") == StripMax("GWZZ") == "GW";
    assert "GWZZZ"[..0] + "GW"[..1] + [Succ('W')] + Zeros(3) == "GX000";
  }

  /** ... and a carry that would leave the window. */
  lemma IncPathExampleOverflow()
    ensures IncPath("ABZZ", 2) == Err(PathOverflow)
  {
    assert Window("ABZZ", 2) == "ZZ" && StripMax("ZZ") == StripMax("Z") == StripMax("") == [];
  }
}
