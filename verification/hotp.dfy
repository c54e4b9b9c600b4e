/** HOTP (RFC 4226) and TOTP (RFC 6238) as `totp_custom::<Sha1>(DEFAULT_STEP, 6, key, seconds)`
    computes them: the time step counter, its eight big-endian bytes, HMAC-SHA1
    over them, dynamic truncation and the six-digit decimal code. */
module Hotp {
  import opened Bits

  /** An HMAC-SHA1 value: 20 bytes. */
  type Digest = d: seq<Byte> | |d| == 20
    witness [0, 0, 0, 0, 0, 0, 0, 0, 0, 0, 0, 0, 0, 0, 0, 0, 0, 0, 0, 0]

  /** HMAC-SHA1, keyed by its first argument, applied to its second. */
  type Mac = (seq<Byte>, seq<Byte>) -> Digest

  /** `DEFAULT_STEP`: the time step X of section 4.1 of RFC 6238, in seconds. */
  const Step: nat := 30

  /** Number of digits of the code. */
  const CodeDigits: nat := 6

  /** The time step counter T of section 4.2 of RFC 6238 with T0 = 0: the
      number of whole steps elapsed since the epoch. */
  function Counter(seconds: U64): (c: U64)
    ensures c * Step <= seconds < (c + 1) * Step
  {
    seconds / Step
  }

  /** The counter as the eight-byte big-endian message of section 5.2 of RFC 4226. */
  function CounterBytes(c: U64): (b: seq<Byte>)
    ensures |b| == 8 && FromBytes(b) == c
  {
    assert Pow256(8) == 0x1_0000_0000_0000_0000;
    FromBytesToBytes(c, 8);
    ToBytes(c, 8)
  }

  /** The offset of section 5.3 of RFC 4226: the low four bits of the last
      digest byte, so that the four bytes read from it lie inside the digest. */
  function Offset(d: Digest): (o: nat)
    ensures o < 16 && o + 4 <= |d|
  {
    d[19] % 16
  }

  /** Dynamic truncation (section 5.3 of RFC 4226): the four bytes at the
      offset, big-endian, with the top bit of the first one masked off. */
  function Truncate(d: Digest): (n: nat)
    ensures n < 0x8000_0000
  {
    var o := Offset(d);
    var b0, b1, b2, b3: int := d[o], d[o + 1], d[o + 2], d[o + 3];
    (b0 % 0x80) * 0x100_0000 + b1 * 0x1_0000 + b2 * 0x100 + b3
  }

  /** Truncation reads the 31 low-order bits of the big-endian number formed
      by the four bytes at the offset. */
  lemma TruncateBytes(d: Digest)
    ensures Truncate(d) == FromBytes(d[Offset(d)..Offset(d) + 4]) % 0x8000_0000
  {
    var o := Offset(d);
    var w := d[o..o + 4];
    var b0, b1, b2, b3: int := d[o], d[o + 1], d[o + 2], d[o + 3];
    assert FromBytes(w[..1]) == b0 by { assert w[..1][..0] == []; }
    assert FromBytes(w[..2]) == b0 * 0x100 + b1 by { assert w[..2][..1] == w[..1]; }
    assert FromBytes(w[..3]) == (b0 * 0x100 + b1) * 0x100 + b2 by { assert w[..3][..2] == w[..2]; }
    assert FromBytes(w) == ((b0 * 0x100 + b1) * 0x100 + b2) * 0x100 + b3 by { assert w[..4] == w && w[..3] == w[..4][..3]; }
    TruncateMod(d[o], b1 * 0x1_0000 + b2 * 0x100 + b3);
  }

  lemma TruncateMod(hi: Byte, lo: nat)
    requires lo < 0x100_0000
    ensures (hi % 0x80) * 0x100_0000 + lo == (hi * 0x100_0000 + lo) % 0x8000_0000
  {
  }

  // ---------------------------------------------------------------------------
  // The decimal code

  function Pow10(n: nat): (r: nat)
    ensures r >= 1
  {
    if n == 0 then 1 else 10 * Pow10(n - 1)
  }

  predicate IsDigit(c: char) {
    '0' <= c <= '9'
  }

  predicate AllDigits(s: string) {
    forall i :: 0 <= i < |s| ==> IsDigit(s[i])
  }

  /** The number written by the decimal digits `s`. */
  function DigitsValue(s: string): (n: nat)
    requires AllDigits(s)
    ensures n < Pow10(|s|)
  {
    if s == [] then 0 else 10 * DigitsValue(s[..|s| - 1]) + (s[|s| - 1] as int - '0' as int)
  }

  /** `format!("{:0width$}", n)` for `n` below 10^width: `n` in decimal,
      padded on the left with zeros to exactly `width` digits. */
  function Digits(n: nat, width: nat): (s: string)
    ensures |s| == width && AllDigits(s)
  {
    if width == 0 then [] else Digits(n / 10, width - 1) + [('0' as int + n % 10) as char]
  }

  /** Reading the padded digits back gives the number. */
  lemma {:induction false} DigitsValueDigits(n: nat, width: nat)
    requires n < Pow10(width)
    ensures DigitsValue(Digits(n, width)) == n
  {
    if width > 0 {
      var s := Digits(n, width);
      assert s[..|s| - 1] == Digits(n / 10, width - 1);
      DigitsValueDigits(n / 10, width - 1);
    }
  }

  /** A string of digits is the padded form of the number it writes. */
  lemma {:induction false} DigitsDigitsValue(s: string)
    requires AllDigits(s)
    ensures Digits(DigitsValue(s), |s|) == s
  {
    if s != [] {
      var init := s[..|s| - 1];
      assert AllDigits(init) by {
        forall i | 0 <= i < |init| ensures IsDigit(init[i]) {
          assert init[i] == s[i];
        }
      }
      DigitsDigitsValue(init);
      var n := DigitsValue(s);
      var last := s[|s| - 1] as int - '0' as int;
      assert n == 10 * DigitsValue(init) + last;
      assert n / 10 == DigitsValue(init) && n % 10 == last;
      assert Digits(n, |s|) == Digits(n / 10, |s| - 1) + [('0' as int + n % 10) as char];
      assert s == init + [s[|s| - 1]];
    }
  }

  /** The padded form of 42 is "000042". */
  lemma DigitsExample()
    ensures Digits(42, 6) == "000042"
  {
  }

  // ---------------------------------------------------------------------------
  // HOTP and TOTP

  /** HOTP(K, C) of section 5.3 of RFC 4226 with six digits: the truncated
      HMAC-SHA1 of the counter bytes, modulo 10^6, as six decimal digits. */
  function Hotp(mac: Mac, key: seq<Byte>, counter: U64): (code: string)
    ensures |code| == CodeDigits && AllDigits(code)
    ensures DigitsValue(code) == Truncate(mac(key, CounterBytes(counter))) % 1_000_000
  {
    var n := Truncate(mac(key, CounterBytes(counter))) % 1_000_000;
    assert Pow10(6) == 1_000_000;
    DigitsValueDigits(n, CodeDigits);
    Digits(n, CodeDigits)
  }

  /** `totp_custom::<Sha1>(DEFAULT_STEP, 6, key, seconds)`: TOTP (section 4.2
      of RFC 6238) is HOTP of the time step counter. */
  function Totp(mac: Mac, key: seq<Byte>, seconds: U64): (code: string)
    ensures |code| == CodeDigits && AllDigits(code)
    ensures DigitsValue(code) == Truncate(mac(key, CounterBytes(Counter(seconds)))) % 1_000_000
  {
    Hotp(mac, key, Counter(seconds))
  }

  /** The worked example of section 5.4 of RFC 4226: the digest
      1f8698690e02ca16618550ef7f19da8e945b555a has offset 10, truncates to
      0x50ef7f19 and gives the six-digit value 872921. */
  lemma TruncateExample(d: Digest)
    requires d == [0x1f, 0x86, 0x98, 0x69, 0x0e, 0x02, 0xca, 0x16, 0x61, 0x85,
                   0x50, 0xef, 0x7f, 0x19, 0xda, 0x8e, 0x94, 0x5b, 0x55, 0x5a]
    ensures Offset(d) == 10
    ensures Truncate(d) == 0x50ef7f19
    ensures Truncate(d) % 1_000_000 == 872921
  {
  }
}
