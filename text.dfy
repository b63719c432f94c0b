/**
 * The string formatting the storage paths and `__str__` methods use: `%d` and
 * `str()` of an integer, `%0<w>d` zero padding, Python's truncating `int(a / b)`,
 * and `os.path.join`.
 */
module Text {

  /** The decimal digit character of `d`. */
  function Digit(d: int): char
    requires 0 <= d < 10
  {
    "0123456789"[d]
  }

  predicate IsDigit(c: char)
  {
    '0' <= c <= '9'
  }

  predicate AllDigits(s: string)
  {
    forall i :: 0 <= i < |s| ==> IsDigit(s[i])
  }

  /** The decimal text of a non-negative integer, without leading zeros. */
  function NatToString(n: nat): (s: string)
    ensures |s| >= 1 && AllDigits(s)
    ensures s[0] == '0' <==> n == 0
    ensures n < 10 <==> |s| == 1
  {
    if n < 10 then [Digit(n)] else NatToString(n / 10) + [Digit(n % 10)]
  }

  /** `str(n)` / `'%d' % n`: a minus sign before the digits of a negative number. */
  function IntToString(n: int): string
  {
    if n < 0 then "-" + NatToString(-n) else NatToString(n)
  }

  /** `k` zero characters (none when `k` is not positive). */
  function Zeros(k: int): (s: string)
    ensures |s| == if k > 0 then k else 0
    ensures forall i :: 0 <= i < |s| ==> s[i] == '0'
  {
    if k <= 0 then "" else "0" + Zeros(k - 1)
  }

  /** `'%0<width>d' % n`: zeros after the sign until the text is `width` long. */
  function ZeroPad(n: int, width: nat): string
  {
    if n < 0 then "-" + Zeros(width - 1 - |NatToString(-n)|) + NatToString(-n)
    else Zeros(width - |NatToString(n)|) + NatToString(n)
  }

  /**
   * Python's `int(a / b)` for a positive divisor, computed exactly: the quotient
   * truncated toward zero. Python divides in floating point first; the two agree while
   * the rounding error of `a / b` stays below the distance `1 / b` to the next integer.
   */
  function TruncDiv(a: int, b: int): int
    requires b > 0
  {
    if a >= 0 then a / b else -((-a) / b)
  }

  /** `os.path.join(a, b)`: an absolute `b` replaces `a`; otherwise one separator between them. */
  function PathJoin(a: string, b: string): string
  {
    if |b| > 0 && b[0] == '/' then b
    else if a == [] || a[|a| - 1] == '/' then a + b
    else a + "/" + b
  }

  /** `s` does not contain the character `c`. */
  predicate Lacks(s: string, c: char)
  {
    forall i :: 0 <= i < |s| ==> s[i] != c
  }

  // ---------------------------------------------------------------------------

  /** Different numbers have different decimal texts. */
  lemma {:induction false} NatToStringInjective(a: nat, b: nat)
    requires NatToString(a) == NatToString(b)
    ensures a == b
    decreases a
  {
    if a >= 10 && b >= 10 {
      var sa, sb := NatToString(a), NatToString(b);
      assert sa[..|sa| - 1] == NatToString(a / 10) && sb[..|sb| - 1] == NatToString(b / 10);
      NatToStringInjective(a / 10, b / 10);
      assert Digit(a % 10) == Digit(b % 10);
      assert a % 10 == b % 10;
    } else if a < 10 && b < 10 {
      assert Digit(a) == Digit(b);
    }
  }

  /** `str` is injective on integers. */
  lemma IntToStringInjective(a: int, b: int)
    requires IntToString(a) == IntToString(b)
    ensures a == b
  {
    if a < 0 && b < 0 {
      assert IntToString(a)[1..] == NatToString(-a) && IntToString(b)[1..] == NatToString(-b);
      NatToStringInjective(-a, -b);
    } else if a >= 0 && b >= 0 {
      NatToStringInjective(a, b);
    }
  }

  /** The text of `str(n)` holds only digits and a leading minus sign; in particular no '/' and no '('. */
  lemma IntToStringChars(n: int)
    ensures forall i :: 0 <= i < |IntToString(n)| ==>
      IsDigit(IntToString(n)[i]) || (i == 0 && n < 0 && IntToString(n)[i] == '-')
    ensures |IntToString(n)| >= 1 && Lacks(IntToString(n), '/') && Lacks(IntToString(n), '(')
  {
  }

  /**
   * Zero padding: the text is `width` long unless the number needs more, begins with
   * a minus sign exactly for a negative number, and otherwise holds only digits.
   */
  lemma ZeroPadSpec(n: int, width: nat)
    ensures var s := ZeroPad(n, width);
      && |s| == (if width > |IntToString(n)| then width else |IntToString(n)|)
      && (s[0] == '-' <==> n < 0)
      && (forall i :: 0 <= i < |s| ==> IsDigit(s[i]) || (i == 0 && n < 0))
      && Lacks(s, '/')
  {
    var s := ZeroPad(n, width);
    if n < 0 {
      assert s == "-" + (Zeros(width - 1 - |NatToString(-n)|) + NatToString(-n));
    }
  }

  /** When one padding is shorter, the other text's first character is a padding zero. */
  lemma PadOverlap(z1: string, s1: string, z2: string, s2: string)
    requires z1 + s1 == z2 + s2 && |s1| >= 1
    requires forall i :: 0 <= i < |z2| ==> z2[i] == '0'
    ensures |z1| < |z2| ==> s1[0] == '0'
  {
    if |z1| < |z2| {
      var t := z1 + s1;
      assert t[|z1|] == s1[0];
      assert t[|z1|] == z2[|z1|];
    }
  }

  /** Stripping leading zeros: equal padded texts of digit strings without leading zeros are equal. */
  lemma StripZeros(k1: int, s1: string, k2: int, s2: string)
    requires |s1| >= 1 && |s2| >= 1
    requires (s1[0] == '0' ==> |s1| == 1) && (s2[0] == '0' ==> |s2| == 1)
    requires Zeros(k1) + s1 == Zeros(k2) + s2
    ensures s1 == s2
  {
    var z1, z2 := Zeros(k1), Zeros(k2);
    PadOverlap(z1, s1, z2, s2);
    PadOverlap(z2, s2, z1, s1);
    assert |z1| == |z2|;
    assert s1 == (z1 + s1)[|z1|..] && s2 == (z2 + s2)[|z2|..];
  }

  lemma ZeroPadInjectiveNegative(a: int, b: int, width: nat)
    requires a < 0 && b < 0 && ZeroPad(a, width) == ZeroPad(b, width)
    ensures a == b
  {
    var sa, sb := ZeroPad(a, width), ZeroPad(b, width);
    var ka, kb := width - 1 - |NatToString(-a)|, width - 1 - |NatToString(-b)|;
    var na, nb := NatToString(-a), NatToString(-b);
    var ta, tb := Zeros(ka) + na, Zeros(kb) + nb;
    assert sa == "-" + Zeros(ka) + na;
    assert sa == "-" + ta;
    assert sb == "-" + tb;
    assert ta == tb by { assert ta == sa[1..]; assert tb == sb[1..]; }
    StripZeros(ka, na, kb, nb);
    NatToStringInjective(-a, -b);
  }

  /** Zero padding to a fixed width is injective. */
  lemma ZeroPadInjective(a: int, b: int, width: nat)
    requires ZeroPad(a, width) == ZeroPad(b, width)
    ensures a == b
  {
    ZeroPadSpec(a, width);
    ZeroPadSpec(b, width);
    if a < 0 && b < 0 {
      ZeroPadInjectiveNegative(a, b, width);
    } else if a >= 0 && b >= 0 {
      StripZeros(width - |NatToString(a)|, NatToString(a), width - |NatToString(b)|, NatToString(b));
      NatToStringInjective(a, b);
    }
  }

  /** A joined path ends in its last component, right after a separator or at the start. */
  lemma PathJoinShape(a: string, b: string)
    requires |b| > 0 && b[0] != '/'
    ensures exists p :: PathJoin(a, b) == p + b && (p == [] || p[|p| - 1] == '/')
  {
    if a == [] || a[|a| - 1] == '/' {
      assert PathJoin(a, b) == a + b;
    } else {
      assert PathJoin(a, b) == (a + "/") + b;
    }
  }

  /** When one tail is longer, it holds the character `c` that ends the other's prefix. */
  lemma SeparatorOverlap(p1: string, b1: string, p2: string, b2: string, c: char)
    requires p1 + b1 == p2 + b2 && (p1 == [] || p1[|p1| - 1] == c)
    ensures |b1| < |b2| ==> !Lacks(b2, c)
  {
    if |b1| < |b2| {
      var s := p1 + b1;
      assert s[|p1| - 1] == c;
      assert s[|p1| - 1] == b2[|p1| - 1 - |p2|];
    }
  }

  /**
   * Splitting at the last occurrence of `c`: a text that is a prefix ending in `c` (or
   * empty) followed by a tail without `c` splits in one way only.
   */
  lemma SplitAtLast(p1: string, b1: string, p2: string, b2: string, c: char)
    requires p1 + b1 == p2 + b2 && Lacks(b1, c) && Lacks(b2, c)
    requires (p1 == [] || p1[|p1| - 1] == c) && (p2 == [] || p2[|p2| - 1] == c)
    ensures p1 == p2 && b1 == b2
  {
    SeparatorOverlap(p1, b1, p2, b2, c);
    SeparatorOverlap(p2, b2, p1, b1, c);
    var s := p1 + b1;
    assert b1 == s[|p1|..] && b2 == s[|p2|..];
    assert p1 == s[..|p1|] && p2 == s[..|p2|];
  }

  /** Two joins that give the same path end in the same component when neither holds a separator. */
  lemma LastComponentUnique(a1: string, b1: string, a2: string, b2: string)
    requires |b1| > 0 && |b2| > 0 && Lacks(b1, '/') && Lacks(b2, '/')
    requires PathJoin(a1, b1) == PathJoin(a2, b2)
    ensures b1 == b2
  {
    PathJoinShape(a1, b1);
    PathJoinShape(a2, b2);
    var p1 :| PathJoin(a1, b1) == p1 + b1 && (p1 == [] || p1[|p1| - 1] == '/');
    var p2 :| PathJoin(a2, b2) == p2 + b2 && (p2 == [] || p2[|p2| - 1] == '/');
    SplitAtLast(p1, b1, p2, b2, '/');
  }

  /** Truncating twice by 10000 truncates once by 100000000. */
  lemma TruncDivNested(a: int)
    ensures TruncDiv(TruncDiv(a, 10000), 10000) == TruncDiv(a, 100000000)
  {
    var n := if a >= 0 then a else -a;
    var q, r := n / 100000000, n % 100000000;
    assert n == 100000000 * q + r && 0 <= r < 100000000;
    var q2, r2 := r / 10000, r % 10000;
    assert r == 10000 * q2 + r2 && 0 <= r2 < 10000 && 0 <= q2 < 10000;
    assert n == 10000 * (10000 * q + q2) + r2;
    assert n / 10000 == 10000 * q + q2;
    assert (n / 10000) / 10000 == q;
  }
}
