/**
 The string and number primitives of the Python standard library that the
 two pages lean on, stated once: decimal rendering (`str(n)`, `%02d`, `:03`),
 `str.split` on one character, `sep.join`, `str.strip`, `str.isdigit`,
 substring `in`, and `lower`/`replace` on characters.
 */
module Text {

  datatype Option<+T> = None | Some(value: T)

  // ---------------------------------------------------------------------
  // Decimal digits

  predicate IsAsciiDigit(c: char) { '0' <= c <= '9' }

  predicate AllDigits(s: string) { forall i :: 0 <= i < |s| ==> IsAsciiDigit(s[i]) }

  function DigitChar(d: nat): (c: char)
    requires d < 10
    ensures IsAsciiDigit(c) && c as int - '0' as int == d
  {
    ('0' as int + d) as char
  }

  function DigitValue(c: char): nat
    requires IsAsciiDigit(c)
  {
    c as int - '0' as int
  }

  function Pow10(w: nat): (p: nat)
    ensures p >= 1
  {
    if w == 0 then 1 else 10 * Pow10(w - 1)
  }

  /** `str(n)` for a non-negative integer: shortest decimal form, no leading zero. */
  function NatToString(n: nat): (s: string)
    ensures 1 <= |s| && AllDigits(s)
    ensures s[0] == '0' ==> n == 0 && |s| == 1
    decreases n
  {
    if n < 10 then [DigitChar(n)] else NatToString(n / 10) + [DigitChar(n % 10)]
  }

  function Zeros(k: nat): (z: string)
    ensures |z| == k && forall i :: 0 <= i < k ==> z[i] == '0'
  {
    if k == 0 then [] else ['0'] + Zeros(k - 1)
  }

  /** `'%0*d' % (width, n)`: `str(n)` left-padded with zeros to at least `width` characters. */
  function ZeroPad(n: nat, width: nat): (s: string)
    ensures AllDigits(s)
  {
    var digits := NatToString(n);
    (if |digits| < width then Zeros(width - |digits|) else []) + digits
  }

  /** A two-digit number is its two digits, and padding it to width two changes nothing. */
  lemma TwoDigitPad(n: nat)
    requires 10 <= n < 100
    ensures NatToString(n) == [DigitChar(n / 10), DigitChar(n % 10)]
    ensures ZeroPad(n, 2) == NatToString(n)
  {
    assert NatToString(n / 10) == [DigitChar(n / 10)];
  }

  /** The value of a run of decimal digits (leading zeros allowed). */
  function ParseDigits(s: string): nat
    requires AllDigits(s)
  {
    if s == [] then 0 else ParseDigits(s[..|s| - 1]) * 10 + DigitValue(s[|s| - 1])
  }

  lemma {:induction false} NatToStringWidth(n: nat, w: nat)
    requires n < Pow10(w)
    ensures |NatToString(n)| <= if w == 0 then 1 else w
  {
    if n >= 10 {
      NatToStringWidth(n / 10, w - 1);
    }
  }

  /** A number below 10^w zero-padded to w places takes exactly w characters. */
  lemma ZeroPadWidth(n: nat, w: nat)
    requires 1 <= w && n < Pow10(w)
    ensures |ZeroPad(n, w)| == w
  {
    NatToStringWidth(n, w);
  }

  lemma {:induction false} ParseNatToString(n: nat)
    ensures ParseDigits(NatToString(n)) == n
  {
    var s := NatToString(n);
    if n >= 10 {
      assert s[..|s| - 1] == NatToString(n / 10);
      ParseNatToString(n / 10);
    }
  }

  lemma {:induction false} ParseLeadingZeros(k: nat, s: string)
    requires AllDigits(s)
    ensures ParseDigits(Zeros(k) + s) == ParseDigits(s)
    decreases |s|, k
  {
    if s == [] {
      assert Zeros(k) + s == Zeros(k);
      if k > 0 {
        assert Zeros(k)[..k - 1] == Zeros(k - 1);
        ParseLeadingZeros(k - 1, []);
        assert Zeros(k - 1) + [] == Zeros(k - 1);
      }
    } else {
      var t := Zeros(k) + s;
      assert t[..|t| - 1] == Zeros(k) + s[..|s| - 1];
      ParseLeadingZeros(k, s[..|s| - 1]);
    }
  }

  /** Zero padding never changes the value a field parses to. */
  lemma ParseZeroPad(n: nat, width: nat)
    ensures ParseDigits(ZeroPad(n, width)) == n
  {
    var digits := NatToString(n);
    ParseNatToString(n);
    if |digits| < width {
      ParseLeadingZeros(width - |digits|, digits);
    } else {
      assert ZeroPad(n, width) == digits;
    }
  }

  // ---------------------------------------------------------------------
  // Splitting on one character and joining

  /** Position of the first `c` in `s`, or `|s|` when there is none. */
  function IndexOf(s: string, c: char): (i: nat)
    ensures i <= |s|
    ensures i < |s| ==> s[i] == c
    ensures forall j :: 0 <= j < i ==> s[j] != c
  {
    if s == [] then 0 else if s[0] == c then 0 else 1 + IndexOf(s[1..], c)
  }

  /** `sep.join(parts)`. */
  function Join(sep: string, parts: seq<string>): string
  {
    if |parts| == 0 then "" else if |parts| == 1 then parts[0] else parts[0] + sep + Join(sep, parts[1..])
  }

  /** `s.split(sep)` for a one-character separator: never empty, keeps empty fields. */
  function Split(s: string, sep: char): (parts: seq<string>)
    ensures |parts| >= 1
    ensures forall k :: 0 <= k < |parts| ==> sep !in parts[k]
    ensures Join([sep], parts) == s
    decreases |s|
  {
    var i := IndexOf(s, sep);
    if i == |s| then
      [s]
    else
      var rest := Split(s[i + 1..], sep);
      assert ([s[..i]] + rest)[1..] == rest;
      assert s == s[..i] + [sep] + s[i + 1..];
      [s[..i]] + rest
  }

  /** Splitting undoes joining when no part holds the separator. */
  lemma {:induction false} SplitJoin(parts: seq<string>, sep: char)
    requires |parts| >= 1
    requires forall k :: 0 <= k < |parts| ==> sep !in parts[k]
    ensures Split(Join([sep], parts), sep) == parts
  {
    var s := Join([sep], parts);
    var p := parts[0];
    if |parts| == 1 {
      assert forall j :: 0 <= j < |p| ==> p[j] != sep by {
        forall j | 0 <= j < |p| ensures p[j] != sep { assert p[j] in p; }
      }
      assert IndexOf(s, sep) == |s|;
    } else {
      var rest := Join([sep], parts[1..]);
      assert s == p + [sep] + rest;
      assert forall j :: 0 <= j < |p| ==> s[j] != sep by {
        forall j | 0 <= j < |p| ensures s[j] != sep { assert s[j] == p[j] && p[j] in p; }
      }
      assert s[|p|] == sep;
      assert IndexOf(s, sep) == |p|;
      assert s[..|p|] == p;
      assert s[|p| + 1..] == rest;
      SplitJoin(parts[1..], sep);
    }
  }

  /** The fields of `a + [sep] + b + [sep] + c` when none of them holds `sep`. */
  lemma SplitThree(a: string, b: string, c: string, sep: char)
    requires sep !in a && sep !in b && sep !in c
    ensures Split(a + [sep] + b + [sep] + c, sep) == [a, b, c]
  {
    assert Join([sep], [a, b, c]) == a + [sep] + b + [sep] + c by {
      assert [a, b, c][1..] == [b, c];
      assert [b, c][1..] == [c];
      assert Join([sep], [b, c]) == b + [sep] + c;
      assert Join([sep], [a, b, c]) == a + [sep] + (b + [sep] + c);
    }
    SplitJoin([a, b, c], sep);
  }

  /** The fields of `a + [sep] + b` when neither holds `sep`. */
  lemma SplitTwo(a: string, b: string, sep: char)
    requires sep !in a && sep !in b
    ensures Split(a + [sep] + b, sep) == [a, b]
  {
    assert Join([sep], [a, b]) == a + [sep] + b by {
      assert [a, b][1..] == [b];
    }
    SplitJoin([a, b], sep);
  }

  /** The first field of `s.split(sep)`, i.e. `s.split(sep)[0]`. */
  lemma SplitHead(a: string, rest: string, sep: char)
    requires sep !in a
    ensures Split(a, sep) == [a]
    ensures Split(a + [sep] + rest, sep)[0] == a
  {
    assert forall j :: 0 <= j < |a| ==> a[j] != sep by {
      forall j | 0 <= j < |a| ensures a[j] != sep { assert a[j] in a; }
    }
    var s := a + [sep] + rest;
    assert forall j :: 0 <= j < |a| ==> s[j] != sep by {
      forall j | 0 <= j < |a| ensures s[j] != sep { assert s[j] == a[j]; }
    }
    assert s[|a|] == sep;
    assert s[..|a|] == a;
  }

  lemma DigitsHaveNo(s: string, c: char)
    requires AllDigits(s) && !IsAsciiDigit(c)
    ensures c !in s
  {
  }

  // ---------------------------------------------------------------------
  // Python's `str.strip()`, `str.isdigit()` and substring `in`

  /** The characters Python's `str.strip()` removes by default. */
  predicate IsPythonSpace(c: char)
  {
    var n := c as int;
    9 <= n <= 13 || 28 <= n <= 32 || n == 0x85 || n == 0xA0 || n == 0x1680
    || 0x2000 <= n <= 0x200A || n == 0x2028 || n == 0x2029 || n == 0x202F
    || n == 0x205F || n == 0x3000
  }

  function TrimStart(s: string): string
  {
    if s != [] && IsPythonSpace(s[0]) then TrimStart(s[1..]) else s
  }

  function TrimEnd(s: string): string
  {
    if s != [] && IsPythonSpace(s[|s| - 1]) then TrimEnd(s[..|s| - 1]) else s
  }

  /** `s.strip()`. */
  function Strip(s: string): string
  {
    TrimEnd(TrimStart(s))
  }

  /** `s.isdigit()`: at least one character, all of them digits. */
  predicate IsDigitString(s: string)
  {
    |s| > 0 && AllDigits(s)
  }

  /** `pat in s` for strings. */
  predicate Contains(s: string, pat: string)
  {
    exists i :: 0 <= i <= |s| - |pat| && OccursAt(s, pat, i)
  }

  predicate OccursAt(s: string, pat: string, i: nat)
  {
    i + |pat| <= |s| && s[i..i + |pat|] == pat
  }

  // ---------------------------------------------------------------------
  // Character maps

  function AsciiLower(c: char): char
  {
    if 'A' <= c <= 'Z' then (c as int + 32) as char else c
  }

  /** `s.lower()` on ASCII letters; every other character is left as it is. */
  function Lower(s: string): string
  {
    seq(|s|, i requires 0 <= i < |s| => AsciiLower(s[i]))
  }

  /** `s.replace(a, b)` for single characters. */
  function ReplaceChar(s: string, a: char, b: char): string
  {
    seq(|s|, i requires 0 <= i < |s| => if s[i] == a then b else s[i])
  }
}
