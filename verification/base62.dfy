/** Base-62 rendering of the digest (`UrlHashService.toBase62`): the digest
    bytes read as an unsigned big-endian integer, written in base 62 over
    `0-9A-Za-z`, left-padded with the zero symbol to at least six characters. */
module Base62 {

  /** `BASE62_ALPHABET`: digits, upper-case letters, lower-case letters. */
  const DecimalSymbols: string := "0123456789"
  const UpperSymbols: string := "ABCDEFGHIJKLMNOPQRSTUVWXYZ"
  const LowerSymbols: string := "abcdefghijklmnopqrstuvwxyz"
  const Alphabet: string := DecimalSymbols + UpperSymbols + LowerSymbols
  const ShortCodeLength: nat := 6

  /** One byte of an MD5 digest. */
  type Byte = b: int | 0 <= b < 256

  function Pow(base: nat, e: nat): (r: nat)
    ensures base >= 1 ==> r >= 1
  {
    if e == 0 then 1 else base * Pow(base, e - 1)
  }

  /** `new BigInteger(1, bytes)`: the bytes as an unsigned big-endian number. */
  function Magnitude(bytes: seq<Byte>): nat {
    if bytes == [] then 0 else Magnitude(bytes[..|bytes| - 1]) * 256 + bytes[|bytes| - 1]
  }

  /** The value of `n` bytes is below `256^n`; for the sixteen bytes of an
      MD5 digest that is a 128-bit number. */
  lemma {:induction false} MagnitudeBound(bytes: seq<Byte>)
    ensures Magnitude(bytes) < Pow(256, |bytes|)
    ensures Magnitude(bytes) < Pow(2, 8 * |bytes|)
  {
    if bytes != [] {
      var init := bytes[..|bytes| - 1];
      MagnitudeBound(init);
      assert Magnitude(init) + 1 <= Pow(256, |init|);
      assert (Magnitude(init) + 1) * 256 <= Pow(256, |init|) * 256;
    }
    ByteWidePow(|bytes|);
  }

  /** A byte is eight bits: `256^n == 2^(8n)`. */
  lemma {:induction false} ByteWidePow(n: nat)
    ensures Pow(256, n) == Pow(2, 8 * n)
  {
    if n > 0 {
      ByteWidePow(n - 1);
      var e := 8 * (n - 1);
      calc {
        Pow(2, 8 * n);
        2 * Pow(2, e + 7);
        4 * Pow(2, e + 6);
        8 * Pow(2, e + 5);
        16 * Pow(2, e + 4);
        32 * Pow(2, e + 3);
        64 * Pow(2, e + 2);
        128 * Pow(2, e + 1);
        256 * Pow(2, e);
      }
    }
  }

  predicate IsBase62Char(c: char) {
    ('0' <= c <= '9') || ('A' <= c <= 'Z') || ('a' <= c <= 'z')
  }

  predicate IsBase62(s: string) {
    forall i :: 0 <= i < |s| ==> IsBase62Char(s[i])
  }

  /** The position of a symbol in `Alphabet`. */
  function DigitValue(c: char): (d: nat)
    requires IsBase62Char(c)
    ensures d < 62
  {
    if c <= '9' then c as int - '0' as int
    else if c <= 'Z' then c as int - 'A' as int + 10
    else c as int - 'a' as int + 36
  }

  /** The symbol of digit `d`: digits, then upper-case, then lower-case letters. */
  function Symbol(d: nat): (c: char)
    requires d < 62
    ensures IsBase62Char(c) && DigitValue(c) == d
  {
    if d < 10 then ('0' as int + d) as char
    else if d < 36 then ('A' as int + d - 10) as char
    else ('a' as int + d - 36) as char
  }

  lemma DecimalSymbol(d: nat)
    requires d < 10
    ensures Alphabet[d] == Symbol(d)
  {
    assert Alphabet[d] == DecimalSymbols[d];
  }

  lemma UpperSymbol(d: nat)
    requires 10 <= d < 36
    ensures Alphabet[d] == Symbol(d)
  {
    assert Alphabet[d] == UpperSymbols[d - 10];
  }

  lemma LowerSymbol(d: nat)
    requires 36 <= d < 62
    ensures Alphabet[d] == Symbol(d)
  {
    assert Alphabet[d] == LowerSymbols[d - 36];
  }

  /** `Alphabet` lists exactly the base-62 symbols, each at its own value. */
  lemma AlphabetDigit(d: nat)
    requires d < 62
    ensures IsBase62Char(Alphabet[d]) && DigitValue(Alphabet[d]) == d
  {
    if d < 10 {
      DecimalSymbol(d);
    } else if d < 36 {
      UpperSymbol(d);
    } else {
      LowerSymbol(d);
    }
  }

  /** The significant base-62 digits of `n`, most significant first: what the
      first loop of `toBase62` builds by repeated division. */
  function Digits(n: nat): (s: string)
    ensures IsBase62(s)
    ensures n == 0 <==> s == []
  {
    if n == 0 then [] else
      AlphabetDigit(n % 62);
      Digits(n / 62) + [Alphabet[n % 62]]
  }

  function Zeros(k: nat): (s: string)
    ensures |s| == k && IsBase62(s)
  {
    seq(k, _ => '0')
  }

  /** `toBase62`: the digits of `n`, left-padded with `'0'` to six symbols. */
  function Encode(n: nat): (s: string)
    ensures |s| >= ShortCodeLength && IsBase62(s)
  {
    var d := Digits(n);
    if |d| < ShortCodeLength then Zeros(ShortCodeLength - |d|) + d else d
  }

  /** The six characters kept by `toBase62(hashBytes).substring(0, 6)`. */
  function ShortCode(n: nat): string
    requires |Encode(n)| >= ShortCodeLength
  {
    Encode(n)[..ShortCodeLength]
  }

  /** Reads a base-62 string back as a number, first symbol most significant. */
  function Value(s: string): nat
    requires IsBase62(s)
  {
    if s == [] then 0 else Value(s[..|s| - 1]) * 62 + DigitValue(s[|s| - 1])
  }

  /** One step of the division loop: the last digit of `n` is its remainder. */
  lemma DigitsStep(n: nat)
    requires n > 0
    ensures Digits(n) == Digits(n / 62) + [Alphabet[n % 62]]
  {
  }

  /** One step of the padding loop: one more zero in front of `digits`. */
  lemma ZerosStep(k: nat, digits: string)
    ensures ['0'] + (Zeros(k) + digits) == Zeros(k + 1) + digits
  {
    assert forall i :: 0 <= i < k + 1 ==> (['0'] + Zeros(k))[i] == Zeros(k + 1)[i];
    assert ['0'] + (Zeros(k) + digits) == (['0'] + Zeros(k)) + digits;
  }

  /** The first loop of `toBase62`: divide by 62, inserting each remainder's
      symbol in front. */
  method DivideOut(n: nat) returns (s: string)
    ensures s == Digits(n)
  {
    s := [];
    var big := n;
    while big > 0
      invariant Digits(n) == Digits(big) + s
    {
      var remainder := big % 62;
      DigitsStep(big);
      s := [Alphabet[remainder]] + s;
      big := big / 62;
    }
  }

  /** The second loop of `toBase62`: insert `'0'` in front up to six symbols. */
  method PadLeft(digits: string) returns (s: string)
    ensures |digits| < ShortCodeLength ==> s == Zeros(ShortCodeLength - |digits|) + digits
    ensures |digits| >= ShortCodeLength ==> s == digits
  {
    s := digits;
    var padding := 0;
    while |s| < ShortCodeLength
      invariant s == Zeros(padding) + digits && |s| == padding + |digits|
      invariant padding == 0 || |s| <= ShortCodeLength
      decreases ShortCodeLength - |s|
    {
      ZerosStep(padding, digits);
      s := ['0'] + s;
      padding := padding + 1;
    }
  }

  /** Method form of `toBase62`, with the two loops of the source. */
  method ToBase62(n: nat) returns (s: string)
    ensures s == Encode(n)
  {
    var digits := DivideOut(n);
    s := PadLeft(digits);
  }

  /** Zero, which has no significant digit, encodes as six zero symbols. */
  lemma EncodeZero()
    ensures Encode(0) == "000000"
  {
  }

  lemma ShiftDigit(x: nat, p: nat, y: nat, last: nat)
    ensures (x * p + y) * 62 + last == x * (62 * p) + (y * 62 + last)
  {
  }

  /** Appending strings shifts the value of the first by the length of the second. */
  lemma {:induction false} ValueAppend(a: string, b: string)
    requires IsBase62(a) && IsBase62(b)
    ensures Value(a + b) == Value(a) * Pow(62, |b|) + Value(b)
    decreases |b|
  {
    if b == [] {
      assert a + b == a;
    } else {
      var b' := b[..|b| - 1];
      var last := DigitValue(b[|b| - 1]);
      assert (a + b)[..|a + b| - 1] == a + b';
      assert Value(a + b) == Value(a + b') * 62 + last;
      assert Value(b) == Value(b') * 62 + last;
      ValueAppend(a, b');
      ShiftDigit(Value(a), Pow(62, |b'|), Value(b'), last);
    }
  }

  lemma {:induction false} ValueBound(s: string)
    requires IsBase62(s)
    ensures Value(s) < Pow(62, |s|)
  {
    if s != [] {
      var init := s[..|s| - 1];
      ValueBound(init);
      assert Value(init) + 1 <= Pow(62, |init|);
      assert (Value(init) + 1) * 62 <= Pow(62, |init|) * 62;
    }
  }

  lemma {:induction false} ZerosValue(k: nat)
    ensures Value(Zeros(k)) == 0
  {
    if k > 0 {
      assert Zeros(k)[..k - 1] == Zeros(k - 1);
      ZerosValue(k - 1);
    }
  }

  lemma {:induction false} DigitsValue(n: nat)
    ensures Value(Digits(n)) == n
  {
    if n > 0 {
      var d := Digits(n);
      assert d[..|d| - 1] == Digits(n / 62);
      AlphabetDigit(n % 62);
      DigitsValue(n / 62);
    }
  }

  /** Leading zero symbols do not change the value. */
  lemma PadValue(k: nat, d: string)
    requires IsBase62(d)
    ensures Value(Zeros(k) + d) == Value(d)
  {
    ValueAppend(Zeros(k), d);
    ZerosValue(k);
    assert Value(Zeros(k)) * Pow(62, |d|) == 0;
  }

  /** Round trip: reading an encoding back gives the encoded number. */
  lemma EncodeRoundTrip(n: nat)
    ensures Value(Encode(n)) == n
  {
    var d := Digits(n);
    DigitsValue(n);
    if |d| < ShortCodeLength {
      PadValue(ShortCodeLength - |d|, d);
    }
  }

  lemma MultipleBetween(k: int, p: int)
    requires p > 0 && -p < k * p < p
    ensures k == 0
  {
  }

  lemma DivideExactly(x: nat, q: nat, p: nat, r: nat)
    requires x == q * p + r && r < p
    ensures x / p == q
  {
    var q', r' := x / p, x % p;
    assert q' * p + r' == q * p + r;
    assert (q' - q) * p == r - r';
    MultipleBetween(q' - q, p);
  }

  /** A prefix of a base-62 numeral is its value with the dropped digits cut
      off: the kept symbols are the most significant ones. */
  lemma PrefixValue(s: string, k: nat)
    requires IsBase62(s) && k <= |s|
    ensures Value(s[..k]) == Value(s) / Pow(62, |s| - k)
  {
    var hi, lo := s[..k], s[k..];
    assert s == hi + lo;
    ValueAppend(hi, lo);
    ValueBound(lo);
    DivideExactly(Value(s), Value(hi), Pow(62, |lo|), Value(lo));
  }

  /** The short code of `n` is six base-62 symbols and, read back, is `n`
      divided by 62 for every dropped low-order digit. */
  lemma ShortCodeMeaning(n: nat)
    ensures |Encode(n)| >= ShortCodeLength
    ensures |ShortCode(n)| == ShortCodeLength && IsBase62(ShortCode(n))
    ensures Value(ShortCode(n)) == n / Pow(62, |Encode(n)| - ShortCodeLength)
  {
    EncodeRoundTrip(n);
    PrefixValue(Encode(n), ShortCodeLength);
  }
}
