/** The parts of Java's String, Long and int semantics that the models rely
    on: `String.compareTo`, `Long.toString`, the `hashCode` of strings and
    longs, and 32-bit wrap-around. */
module JavaText {

  const TWO_32: int := 0x1_0000_0000
  const TWO_31: int := 0x8000_0000
  const TWO_64: int := 0x1_0000_0000_0000_0000

  /** The UTF-16 code units Java stores for one character: the character
      itself in the Basic Multilingual Plane, a surrogate pair above it. */
  function Units(c: char): (u: seq<int>)
    ensures |u| == 1 <==> c as int < 0x10000
    ensures 1 <= |u| <= 2 && forall k :: 0 <= k < |u| ==> 0 <= u[k] < 0x10000
    ensures |u| == 1 ==> u[0] == c as int && !(0xD800 <= u[0] < 0xE000)
    ensures |u| == 2 ==> 0xD800 <= u[0] < 0xDC00 && 0xDC00 <= u[1] < 0xE000 &&
                         c as int == 0x10000 + (u[0] - 0xD800) * 0x400 + (u[1] - 0xDC00)
  {
    var n := c as int;
    if n < 0x10000 then [n] else [0xD800 + (n - 0x10000) / 0x400, 0xDC00 + (n - 0x10000) % 0x400]
  }

  /** The UTF-16 code units of a string, which `String.length`,
      `compareTo` and `hashCode` work on. */
  function Utf16(s: string): (u: seq<int>)
    ensures |u| >= |s|
    ensures forall k :: 0 <= k < |u| ==> 0 <= u[k] < 0x10000
  {
    if |s| == 0 then [] else Units(s[0]) + Utf16(s[1..])
  }

  lemma {:induction false} Utf16Append(s: string, t: string)
    ensures Utf16(s + t) == Utf16(s) + Utf16(t)
    decreases |s|
  {
    if |s| > 0 {
      assert (s + t)[0] == s[0] && (s + t)[1..] == s[1..] + t;
      Utf16Append(s[1..], t);
    } else {
      assert s + t == t;
    }
  }

  /** Different strings have different code units: the first unit tells a
      character of the Basic Multilingual Plane from a surrogate pair. */
  lemma {:induction false} Utf16Injective(s: string, t: string)
    requires Utf16(s) == Utf16(t)
    ensures s == t
    decreases |s|
  {
    if |s| > 0 && |t| > 0 {
      var a, b := Units(s[0]), Units(t[0]);
      var u := Utf16(s);
      assert u[0] == a[0] == b[0];
      assert |a| == |b|;
      if |a| == 2 {
        assert u[1] == a[1] == b[1];
      }
      assert s[0] as int == t[0] as int;
      assert a == b;
      assert Utf16(s[1..]) == u[|a|..] == Utf16(t[1..]);
      Utf16Injective(s[1..], t[1..]);
      assert s == [s[0]] + s[1..] && t == [t[0]] + t[1..];
    }
  }

  /** Lexicographic comparison of code units, as `compareTo` does it: the
      difference of the first differing units, or of the lengths when one
      is a prefix of the other. */
  function UnitCompare(u: seq<int>, v: seq<int>): (r: int)
    ensures r == 0 <==> u == v
    ensures |u| < |v| && u == v[..|u|] ==> r < 0
    decreases |u|
  {
    if |u| == 0 || |v| == 0 then |u| - |v|
    else if u[0] != v[0] then u[0] - v[0]
    else
      var r := UnitCompare(u[1..], v[1..]);
      assert u == [u[0]] + u[1..] && v == [v[0]] + v[1..];
      r
  }

  /** `a.compareTo(b)`, on the UTF-16 code units of the two strings. */
  function CompareTo(a: string, b: string): (r: int)
    ensures r == 0 <==> a == b
    ensures |a| < |b| && a == b[..|a|] ==> r < 0
  {
    var r := UnitCompare(Utf16(a), Utf16(b));
    assert r == 0 ==> a == b by {
      if r == 0 {
        Utf16Injective(a, b);
      }
    }
    assert |a| < |b| && a == b[..|a|] ==> r < 0 by {
      if |a| < |b| && a == b[..|a|] {
        var rest := b[|a|..];
        assert b == a + rest;
        Utf16Append(a, rest);
      }
    }
    r
  }

  /** `Character.toLowerCase` on the ASCII capitals; every other character
      is kept. */
  function LowerChar(c: char): (r: char)
    ensures !('A' <= r <= 'Z')
    ensures 'a' <= c <= 'z' ==> r == c
  {
    if 'A' <= c <= 'Z' then (c as int - 'A' as int + 'a' as int) as char else c
  }

  /** `String.toLowerCase` character by character. */
  function ToLower(s: string): (r: string)
    ensures |r| == |s|
    ensures forall i :: 0 <= i < |s| ==> r[i] == LowerChar(s[i])
  {
    if |s| == 0 then [] else [LowerChar(s[0])] + ToLower(s[1..])
  }

  /** Lower-casing twice is lower-casing once. */
  lemma ToLowerIdempotent(s: string)
    ensures ToLower(ToLower(s)) == ToLower(s)
  {
    var t := ToLower(s);
    assert forall i :: 0 <= i < |t| ==> ToLower(t)[i] == t[i];
  }

  /** The characters `String.trim` removes: those up to U+0020. */
  predicate TrimmedChar(c: char) {
    c <= ' '
  }

  function TrimStart(s: string): (r: string)
    ensures |r| <= |s| && r == s[|s| - |r|..]
    ensures |r| > 0 ==> !TrimmedChar(r[0])
    ensures forall i :: 0 <= i < |s| - |r| ==> TrimmedChar(s[i])
  {
    if |s| > 0 && TrimmedChar(s[0]) then TrimStart(s[1..]) else s
  }

  function TrimEnd(s: string): (r: string)
    ensures |r| <= |s| && r == s[..|r|]
    ensures |r| > 0 ==> !TrimmedChar(r[|r| - 1])
    ensures forall i :: |r| <= i < |s| ==> TrimmedChar(s[i])
  {
    if |s| > 0 && TrimmedChar(s[|s| - 1]) then TrimEnd(s[..|s| - 1]) else s
  }

  /** `String.trim`: the string without the characters up to U+0020 at
      either end; empty exactly when every character is such a one. */
  function Trim(s: string): (r: string)
    ensures |r| <= |s|
    ensures |r| > 0 ==> !TrimmedChar(r[0]) && !TrimmedChar(r[|r| - 1])
    ensures r == [] <==> forall i :: 0 <= i < |s| ==> TrimmedChar(s[i])
    ensures (|s| == 0 || (!TrimmedChar(s[0]) && !TrimmedChar(s[|s| - 1]))) ==> r == s
  {
    var t := TrimStart(s);
    var r := TrimEnd(t);
    assert r != [] ==> !TrimmedChar(s[|s| - |t|]) by {
      if r != [] {
        assert t[0] == r[0];
      }
    }
    r
  }

  /** `s.startsWith(prefix)`. */
  predicate StartsWith(s: string, prefix: string) {
    |prefix| <= |s| && s[..|prefix|] == prefix
  }

  /** Lexicographic order of Java strings: `a.compareTo(b) < 0`. */
  predicate Less(a: string, b: string) {
    CompareTo(a, b) < 0
  }

  lemma {:induction false} UnitCompareAntisymmetric(u: seq<int>, v: seq<int>)
    ensures UnitCompare(u, v) == -UnitCompare(v, u)
    decreases |u|
  {
    if |u| > 0 && |v| > 0 && u[0] == v[0] {
      UnitCompareAntisymmetric(u[1..], v[1..]);
    }
  }

  lemma CompareToAntisymmetric(a: string, b: string)
    ensures CompareTo(a, b) == -CompareTo(b, a)
  {
    UnitCompareAntisymmetric(Utf16(a), Utf16(b));
  }

  lemma {:induction false} UnitLessTransitive(u: seq<int>, v: seq<int>, w: seq<int>)
    requires UnitCompare(u, v) < 0 && UnitCompare(v, w) < 0
    ensures UnitCompare(u, w) < 0
    decreases |u|
  {
    if |u| > 0 && |v| > 0 && |w| > 0 && u[0] == v[0] && v[0] == w[0] {
      UnitLessTransitive(u[1..], v[1..], w[1..]);
    }
  }

  lemma LessTransitive(a: string, b: string, c: string)
    requires Less(a, b) && Less(b, c)
    ensures Less(a, c)
  {
    UnitLessTransitive(Utf16(a), Utf16(b), Utf16(c));
  }

  /** Exactly one of `a < b`, `a == b`, `b < a` holds. */
  lemma LessTrichotomy(a: string, b: string)
    ensures Less(a, b) || a == b || Less(b, a)
    ensures !(Less(a, b) && Less(b, a))
    ensures !Less(a, a)
  {
    CompareToAntisymmetric(a, b);
  }

  function DigitChar(d: int): (c: char)
    requires 0 <= d < 10
    ensures '0' <= c <= '9'
  {
    (d + '0' as int) as char
  }

  /** Decimal digits of a natural number, most significant first. */
  function NatToString(n: nat): (s: string)
    ensures |s| > 0 && forall k :: 0 <= k < |s| ==> '0' <= s[k] <= '9'
    decreases n
  {
    if n < 10 then [DigitChar(n)] else NatToString(n / 10) + [DigitChar(n % 10)]
  }

  /** `Long.toString`: an optional minus sign followed by the digits. */
  function LongToString(i: int): (s: string)
    ensures |s| > 0 && (s[0] == '-' <==> i < 0)
  {
    if i < 0 then "-" + NatToString(-i) else NatToString(i)
  }

  /** Different numbers have different decimal texts. */
  lemma {:induction false} NatToStringInjective(n: nat, m: nat)
    requires NatToString(n) == NatToString(m)
    ensures n == m
    decreases n
  {
    var s, t := NatToString(n), NatToString(m);
    if n >= 10 {
      assert |NatToString(n / 10)| > 0;
    }
    if m >= 10 {
      assert |NatToString(m / 10)| > 0;
    }
    if n >= 10 && m >= 10 {
      assert s[..|s| - 1] == NatToString(n / 10);
      assert t[..|t| - 1] == NatToString(m / 10);
      NatToStringInjective(n / 10, m / 10);
    }
    assert DigitChar(n % 10) == s[|s| - 1] == t[|t| - 1] == DigitChar(m % 10);
  }

  /** `Long.toString` is injective: the text determines the number. */
  lemma LongToStringInjective(i: int, j: int)
    requires LongToString(i) == LongToString(j)
    ensures i == j
  {
    if i < 0 && j < 0 {
      assert LongToString(i)[1..] == NatToString(-i);
      assert LongToString(j)[1..] == NatToString(-j);
      NatToStringInjective(-i, -j);
    } else if i >= 0 && j >= 0 {
      NatToStringInjective(i, j);
    }
  }

  /** The signed 32-bit integer with the same low 32 bits as `x` (Java's
      `(int)` cast and the wrap-around of `int` arithmetic). */
  function ToInt32(x: int): (r: int)
    ensures -TWO_31 <= r < TWO_31
    ensures (r - x) % TWO_32 == 0
  {
    var w := x % TWO_32;
    if w >= TWO_31 then w - TWO_32 else w
  }

  /** The hash of a sequence of code units as an unsigned 32-bit value. */
  function UnitHashBits(u: seq<int>): (h: nat)
    ensures h < TWO_32
  {
    if |u| == 0 then 0
    else (31 * UnitHashBits(u[..|u| - 1]) + u[|u| - 1]) % TWO_32
  }

  /** `String.hashCode`: `s[0]*31^(n-1) + ... + s[n-1]` over the UTF-16
      code units, in `int` arithmetic. */
  function StringHash(s: string): int {
    ToInt32(UnitHashBits(Utf16(s)))
  }

  /** `Long.hashCode`: `(int)(v ^ (v >>> 32))`. */
  function LongHash(v: int): int {
    var u := v % TWO_64;
    var hi := u / TWO_32;
    var lo := u % TWO_32;
    ToInt32(((lo as bv32) ^ (hi as bv32)) as int)
  }

  /** A character above the Basic Multilingual Plane is stored as a
      surrogate pair: U+1F600 sorts before U+FF5E because its first unit
      0xD83D is the smaller, and its hash combines the two units. */
  lemma SurrogatePairs()
    ensures Less("\U{1F600}", "\U{FF5E}")
    ensures StringHash("\U{1F600}") == 31 * 0xD83D + 0xDE00
  {
    var pair: seq<int> := [0xD83D, 0xDE00];
    assert Utf16("\U{1F600}") == pair;
    assert Utf16("\U{FF5E}") == [0xFF5E];
    assert UnitCompare(pair, [0xFF5E]) == 0xD83D - 0xFF5E;
    assert pair[..1] == [0xD83D] && [0xD83D][..0] == [];
    assert UnitHashBits([0xD83D]) == 0xD83D;
    assert UnitHashBits(pair) == 31 * 0xD83D + 0xDE00;
  }
}
