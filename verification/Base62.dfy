/** Short codes (services/url-service/base62.go, codegen.go). */
module Base62 {
  import opened Arithmetic
  import opened Options

  const DECIMAL: string := "0123456789"
  const UPPER: string := "ABCDEFGHIJKLMNOPQRSTUVWXYZ"
  const LOWER: string := "abcdefghijklmnopqrstuvwxyz"
  const ALPHABET: string := DECIMAL + UPPER + LOWER
  const CODE_LENGTH: nat := 7

  function Pow(base: nat, k: nat): nat {
    if k == 0 then 1 else base * Pow(base, k - 1)
  }

  function Abs(n: int): nat {
    if n < 0 then -n else n
  }

  // ----- digits

  /** The character of a digit, and the digit of a character or -1, by byte value. */
  function CharOf(d: nat): char
    requires d < 62
  {
    (if d < 10 then 48 + d else if d < 36 then 55 + d else 61 + d) as char
  }

  function DigitOf(c: char): (d: int)
    ensures -1 <= d < 62
    ensures d >= 0 ==> CharOf(d) == c
    ensures '0' <= c <= '9' ==> d == c as int - '0' as int
    ensures 'A' <= c <= 'Z' ==> d == 10 + (c as int - 'A' as int)
    ensures 'a' <= c <= 'z' ==> d == 36 + (c as int - 'a' as int)
    ensures d >= 0 ==> '0' <= c <= '9' || 'A' <= c <= 'Z' || 'a' <= c <= 'z'
  {
    var u := c as int;
    if 48 <= u < 58 then u - 48 else if 65 <= u < 91 then u - 55 else if 97 <= u < 123 then u - 61 else -1
  }

  lemma DigitOfChar(d: nat, e: nat)
    requires d < 62 && e < 62
    ensures DigitOf(CharOf(d)) == d
    ensures CharOf(d) < CharOf(e) <==> d < e
  {
  }

  /** A string of `len` digits. */
  predicate IsWord(s: string, len: nat) {
    |s| == len && forall i :: 0 <= i < |s| ==> DigitOf(s[i]) >= 0
  }

  predicate IsCode(s: string) {
    IsWord(s, CODE_LENGTH)
  }

  /** The `k` low-order digits of `n`, most significant first. */
  function Digits(n: nat, k: nat): (s: string)
    ensures |s| == k
  {
    if k == 0 then "" else Digits(n / 62, k - 1) + [CharOf(n % 62)]
  }

  /** The number that a string of digits denotes. */
  function Value(s: string): int {
    if s == [] then 0 else Value(s[..|s| - 1]) * 62 + DigitOf(s[|s| - 1])
  }

  // ----- the alphabet

  /** Position of the first occurrence of a character, or -1. */
  function IndexByte(s: string, c: char): int {
    if s == [] then -1
    else if s[0] == c then 0
    else var k := IndexByte(s[1..], c); if k == -1 then -1 else k + 1
  }

  lemma {:induction false} IndexByteFinds(s: string, c: char, k: int)
    requires forall i, j :: 0 <= i < j < |s| ==> s[i] != s[j]
    requires k == -1 || (0 <= k < |s| && s[k] == c)
    requires k == -1 ==> c !in s
    ensures IndexByte(s, c) == k
    decreases |s|
  {
    if s != [] && s[0] != c {
      assert k > 0 ==> s[1..][k - 1] == c;
      IndexByteFinds(s[1..], c, if k == -1 then -1 else k - 1);
    }
  }

  /** The alphabet lists the digits in order of byte value. */
  lemma AlphabetSorted(d: nat)
    requires d < 62
    ensures |ALPHABET| == 62 && ALPHABET[d] == CharOf(d)
  {
  }

  /** Looking a character up in the alphabet finds its digit. */
  lemma IndexIsDigit(c: char)
    ensures IndexByte(ALPHABET, c) == DigitOf(c)
  {
    AlphabetSorted(0);
    forall i, j | 0 <= i < j < |ALPHABET| ensures ALPHABET[i] != ALPHABET[j] {
      AlphabetSorted(i);
      AlphabetSorted(j);
    }
    forall i | 0 <= i < |ALPHABET| ensures ALPHABET[i] == c ==> DigitOf(c) == i {
      AlphabetSorted(i);
      DigitOfChar(i, i);
    }
    if DigitOf(c) >= 0 {
      AlphabetSorted(DigitOf(c));
    }
    IndexByteFinds(ALPHABET, c, DigitOf(c));
  }

  /** A digit or letter of ASCII. */
  predicate Alphanumeric(c: char) {
    '0' <= c <= '9' || 'A' <= c <= 'Z' || 'a' <= c <= 'z'
  }

  // ----- the two conversions

  /** The number of codes. */
  lemma CodeSpace()
    ensures Pow(62, CODE_LENGTH) == 3_521_614_606_208
  {
    assert Pow(62, 2) == 3844;
    assert Pow(62, 4) == 62 * (62 * Pow(62, 2)) == 14_776_336;
    assert Pow(62, 6) == 62 * (62 * Pow(62, 4)) == 56_800_235_584;
  }

  method Encode(n: Option<int>) returns (s: string)
    ensures s == if n.None? then "" else Encoded(n.value, CODE_LENGTH)
    ensures n.Some? ==> IsCode(s) && |s| == 7 && Value(s) == Abs(n.value) % 3_521_614_606_208
  {
    CodeSpace();
    if n.None? {
      return "";
    }
    var rest: nat := if n.value < 0 then -n.value else n.value;
    PowPositive(62, CODE_LENGTH);
    rest := rest % Pow(62, CODE_LENGTH);
    ghost var start := rest;
    var buf := new char[CODE_LENGTH];
    var i := CODE_LENGTH - 1;
    while i >= 0
      invariant -1 <= i < CODE_LENGTH
      invariant Digits(start, CODE_LENGTH) == Digits(rest, i + 1) + buf[i + 1..]
    {
      var rem := rest % 62;
      rest := rest / 62;
      AlphabetSorted(rem);
      buf[i] := ALPHABET[rem];
      i := i - 1;
    }
    assert Digits(rest, 0) + buf[0..] == buf[..];
    RoundTrips(n.value, "", CODE_LENGTH);
    return buf[..];
  }

  /** `None` is an error. */
  method Decode(s: string) returns (n: Option<int>)
    ensures n.Some? <==> IsCode(s)
    ensures n.Some? <==> |s| == 7 && forall i :: 0 <= i < 7 ==> Alphanumeric(s[i])
    ensures n.Some? ==> n.value == Value(s)
  {
    if |s| != CODE_LENGTH {
      return None;
    }
    var result := 0;
    for i := 0 to |s|
      invariant IsWord(s[..i], i)
      invariant result == Value(s[..i])
    {
      var idx := IndexByte(ALPHABET, s[i]);
      IndexIsDigit(s[i]);
      assert s[..i] + [s[i]] == s[..i + 1];
      if idx == -1 {
        return None;
      }
      WordSnoc(s[..i], s[i]);
      result := result * 62;
      result := result + idx;
    }
    assert s[..|s|] == s;
    return Some(result);
  }

  lemma WordSnoc(w: string, c: char)
    requires IsWord(w, |w|) && DigitOf(c) >= 0
    ensures IsWord(w + [c], |w| + 1) && Value(w + [c]) == Value(w) * 62 + DigitOf(c)
  {
    assert (w + [c])[..|w|] == w;
  }

  // ----- arithmetic

  lemma {:induction false} PowPositive(base: nat, k: nat)
    requires base > 0
    ensures Pow(base, k) > 0
  {
    if k > 0 {
      PowPositive(base, k - 1);
    }
  }

  lemma Distribute(b: int, p: int, hi: int, lo: int)
    ensures b * (p * hi + lo) == (b * p) * hi + lo * b
  {
  }

  lemma DigitBound(b: int, p: int, lo: int, r: int)
    requires 0 <= r < b && 0 <= lo < p
    ensures 0 <= lo * b + r < b * p
  {
    MulMono(0, lo, b);
    MulMono(lo + 1, p, b);
    OneMore(lo, b);
    Commutes(p, b);
  }

  /** Taking the remainder by `b * p` digit-wise. */
  lemma ModSplit(n: nat, b: nat, p: nat)
    requires b > 0 && p > 0
    ensures b * p > 0 && n % (b * p) == ((n / b) % p) * b + n % b
  {
    var q, r := n / b, n % b;
    var hi, lo := q / p, q % p;
    Distribute(b, p, hi, lo);
    DigitBound(b, p, lo, r);
    DivModUnique(n, b * p, hi, lo * b + r);
  }

  // ----- the isomorphism

  /** Digits are always alphabet characters, and denote the number modulo 62^k. */
  lemma {:induction false} ValueOfDigits(n: nat, k: nat)
    ensures Pow(62, k) > 0 && Value(Digits(n, k)) == n % Pow(62, k)
    ensures IsWord(Digits(n, k), k)
  {
    if k > 0 {
      ValueOfDigits(n / 62, k - 1);
      assert Digits(n, k)[..k - 1] == Digits(n / 62, k - 1);
      DigitOfChar(n % 62, n % 62);
      ModSplit(n, 62, Pow(62, k - 1));
    }
  }

  lemma DigitsSnoc(v: nat, d: nat, k: nat)
    requires d < 62
    ensures Digits(v * 62 + d, k + 1) == Digits(v, k) + [CharOf(d)]
  {
    DivModUnique(v * 62 + d, 62, v, d);
  }

  lemma {:induction false} DigitsOfValue(s: string)
    requires IsWord(s, |s|)
    ensures 0 <= Value(s) < Pow(62, |s|) && Digits(Value(s), |s|) == s
    decreases |s|
  {
    if s != [] {
      var m := |s| - 1;
      var v, d := Value(s[..m]), DigitOf(s[m]);
      assert d >= 0;
      DigitsOfValue(s[..m]);
      DigitsSnoc(v, d, m);
      assert s[..m] + [s[m]] == s;
    }
  }

  /** The `len`-character code of a number. */
  function Encoded(n: int, len: nat): string {
    PowPositive(62, len);
    Digits(Abs(n) % Pow(62, len), len)
  }

  /** Encoding always yields a word of the right length; decoding that gives the absolute
      value modulo 62^len back; and encoding a decoded word gives the word back. */
  lemma RoundTrips(n: int, s: string, len: nat)
    ensures Pow(62, len) > 0
    ensures IsWord(Encoded(n, len), len) && Value(Encoded(n, len)) == Abs(n) % Pow(62, len)
    ensures IsWord(s, len) ==> 0 <= Value(s) < Pow(62, len) && Encoded(Value(s), len) == s
  {
    PowPositive(62, len);
    var m := Abs(n) % Pow(62, len);
    ValueOfDigits(m, len);
    DivModUnique(m, Pow(62, len), 0, m);
    if IsWord(s, len) {
      DigitsOfValue(s);
      DivModUnique(Value(s), Pow(62, len), 0, Value(s));
    }
  }

  /** Two numbers share a code exactly when they agree modulo 62^len. */
  lemma EncodesTo(n: int, code: string, len: nat)
    requires IsWord(code, len)
    ensures Pow(62, len) > 0 && 0 <= Value(code) < Pow(62, len)
    ensures Encoded(n, len) == code <==> Abs(n) % Pow(62, len) == Value(code)
  {
    RoundTrips(n, code, len);
    DivModUnique(Value(code), Pow(62, len), 0, Value(code));
  }

  // ----- order

  /** Byte-lexicographic order on strings of equal length. */
  predicate LexLess(a: string, b: string)
    requires |a| == |b|
  {
    a != [] && (a[0] < b[0] || (a[0] == b[0] && LexLess(a[1..], b[1..])))
  }

  lemma {:induction false} LexSnoc(a: string, b: string, x: char, y: char)
    requires |a| == |b|
    ensures LexLess(a + [x], b + [y]) <==> LexLess(a, b) || (a == b && x < y)
    decreases |a|
  {
    if a == [] {
      assert (a + [x])[1..] == [] == (b + [y])[1..];
    } else {
      assert (a + [x])[1..] == a[1..] + [x] && (b + [y])[1..] == b[1..] + [y];
      assert a == [a[0]] + a[1..] && b == [b[0]] + b[1..];
      LexSnoc(a[1..], b[1..], x, y);
    }
  }

  /** Numbers below 62^k and their digit strings are ordered alike. */
  lemma {:induction false} OrderPreserved(n: nat, m: nat, k: nat)
    requires n < Pow(62, k) && m < Pow(62, k)
    ensures n < m <==> LexLess(Digits(n, k), Digits(m, k))
  {
    if k > 0 {
      OrderPreserved(n / 62, m / 62, k - 1);
      LexSnoc(Digits(n / 62, k - 1), Digits(m / 62, k - 1), CharOf(n % 62), CharOf(m % 62));
      DigitOfChar(n % 62, m % 62);
      if Digits(n / 62, k - 1) == Digits(m / 62, k - 1) {
        SameDigits(n / 62, m / 62, k - 1);
      }
    }
  }

  lemma SameDigits(n: nat, m: nat, k: nat)
    requires n < Pow(62, k) && m < Pow(62, k) && Digits(n, k) == Digits(m, k)
    ensures n == m
  {
    ValueOfDigits(n, k);
    ValueOfDigits(m, k);
    DivModUnique(n, Pow(62, k), 0, n);
    DivModUnique(m, Pow(62, k), 0, m);
  }
}
