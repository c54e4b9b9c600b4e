/** The two string operations the main path applies to the secret before
    decoding it: Rust's `str::len`, which counts UTF-8 bytes, and
    `str::to_uppercase`, which maps each character to its upper-case form
    (one or more characters). */
module Text {

  predicate IsAscii(c: char) {
    c as int < 0x80
  }

  predicate AllAscii(s: string) {
    forall i :: 0 <= i < |s| ==> IsAscii(s[i])
  }

  /** Number of bytes UTF-8 uses for `c`. */
  function Utf8Width(c: char): (n: nat)
    ensures 1 <= n <= 4
    ensures n == 1 <==> IsAscii(c)
  {
    if c as int < 0x80 then 1
    else if c as int < 0x800 then 2
    else if c as int < 0x1_0000 then 3
    else 4
  }

  /** `s.len()`: the length of `s` in UTF-8 bytes. */
  function Utf8Length(s: string): (n: nat)
  {
    if s == [] then 0 else Utf8Width(s[0]) + Utf8Length(s[1..])
  }

  /** The byte length is never below the character count, and equals it
      exactly when every character is ASCII. */
  lemma {:induction false} Utf8LengthBounds(s: string)
    ensures Utf8Length(s) >= |s|
    ensures Utf8Length(s) == |s| <==> AllAscii(s)
  {
    if s != [] {
      Utf8LengthBounds(s[1..]);
      if AllAscii(s) {
        assert AllAscii(s[1..]) by {
          forall i | 0 <= i < |s[1..]| ensures IsAscii(s[1..][i]) {
            assert s[1..][i] == s[i + 1];
          }
        }
      }
      if IsAscii(s[0]) && AllAscii(s[1..]) {
        forall i | 0 <= i < |s| ensures IsAscii(s[i]) {
          if i > 0 {
            assert s[i] == s[1..][i - 1];
          }
        }
      }
    }
  }

  predicate IsAsciiLower(c: char) {
    'a' <= c <= 'z'
  }

  predicate IsAsciiUpper(c: char) {
    'A' <= c <= 'Z'
  }

  /** `char::to_uppercase`: ASCII letters a-z become A-Z, other ASCII
      characters are unchanged. Of the non-ASCII characters, those whose
      Unicode upper-case form consists of ASCII letters only are mapped to
      it (dotless i, long s, sharp s and the Latin ligatures U+FB00 to
      U+FB06); every other non-ASCII character is kept as it is. */
  function UpperChar(c: char): (u: string)
    ensures 1 <= |u| <= 3
    ensures IsAscii(c) ==> |u| == 1
    ensures IsAsciiLower(c) ==> u[0] as int == c as int - 32
    ensures IsAscii(c) && !IsAsciiLower(c) ==> u == [c]
    ensures AllAscii(u) ==> forall i :: 0 <= i < |u| ==> IsAsciiUpper(u[i]) || (IsAscii(c) && u[i] == c)
    ensures u != [c] ==> forall i :: 0 <= i < |u| ==> IsAsciiUpper(u[i])
  {
    if IsAsciiLower(c) then [(c as int - 32) as char]
    else if c == 'ı' then "I"      // LATIN SMALL LETTER DOTLESS I
    else if c == 'ſ' then "S"      // LATIN SMALL LETTER LONG S
    else if c == 'ß' then "SS"     // LATIN SMALL LETTER SHARP S
    else if c == 'ﬀ' then "FF"     // LATIN SMALL LIGATURE FF
    else if c == 'ﬁ' then "FI"     // LATIN SMALL LIGATURE FI
    else if c == 'ﬂ' then "FL"     // LATIN SMALL LIGATURE FL
    else if c == 'ﬃ' then "FFI"    // LATIN SMALL LIGATURE FFI
    else if c == 'ﬄ' then "FFL"    // LATIN SMALL LIGATURE FFL
    else if c == 'ﬅ' then "ST"     // LATIN SMALL LIGATURE LONG S T
    else if c == 'ﬆ' then "ST"     // LATIN SMALL LIGATURE ST
    else [c]
  }

  /** `str::to_uppercase`: every character replaced by its upper-case form. */
  function ToUpper(s: string): (u: string)
    ensures |u| >= |s|
  {
    if s == [] then [] else UpperChar(s[0]) + ToUpper(s[1..])
  }

  /** On ASCII text, upper-casing keeps the length and the ASCII-ness, and
      changes exactly the letters a-z, each to its capital. */
  lemma {:induction false} ToUpperAscii(s: string)
    requires AllAscii(s)
    ensures |ToUpper(s)| == |s| && AllAscii(ToUpper(s))
    ensures forall i :: 0 <= i < |s| ==>
      ToUpper(s)[i] == if IsAsciiLower(s[i]) then (s[i] as int - 32) as char else s[i]
  {
    if s != [] {
      assert AllAscii(s[1..]) by {
        forall i | 0 <= i < |s[1..]| ensures IsAscii(s[1..][i]) {
          assert s[1..][i] == s[i + 1];
        }
      }
      ToUpperAscii(s[1..]);
      var u := ToUpper(s);
      assert u == UpperChar(s[0]) + ToUpper(s[1..]);
      forall i | 0 <= i < |s| ensures IsAscii(u[i]) {
        if i > 0 {
          assert u[i] == ToUpper(s[1..])[i - 1];
        }
      }
      forall i | 0 <= i < |s|
        ensures u[i] == if IsAsciiLower(s[i]) then (s[i] as int - 32) as char else s[i]
      {
        if i > 0 {
          assert u[i] == ToUpper(s[1..])[i - 1];
          assert s[i] == s[1..][i - 1];
        }
      }
    }
  }

  /** Upper-casing is idempotent. */
  lemma {:induction false} ToUpperIdempotent(s: string)
    ensures ToUpper(ToUpper(s)) == ToUpper(s)
  {
    if s != [] {
      var u := UpperChar(s[0]);
      ToUpperIdempotent(s[1..]);
      ToUpperAppend(u, ToUpper(s[1..]));
      UpperCharFixed(s[0]);
    }
  }

  /** Upper-casing distributes over concatenation. */
  lemma {:induction false} ToUpperAppend(a: string, b: string)
    ensures ToUpper(a + b) == ToUpper(a) + ToUpper(b)
  {
    if a != [] {
      assert (a + b)[0] == a[0];
      assert (a + b)[1..] == a[1..] + b;
      ToUpperAppend(a[1..], b);
      calc {
        ToUpper(a + b);
        UpperChar(a[0]) + ToUpper(a[1..] + b);
        UpperChar(a[0]) + (ToUpper(a[1..]) + ToUpper(b));
        (UpperChar(a[0]) + ToUpper(a[1..])) + ToUpper(b);
        ToUpper(a) + ToUpper(b);
      }
    } else {
      assert a + b == b;
    }
  }

  /** The upper-case form of a character is left unchanged by upper-casing. */
  lemma UpperCharFixed(c: char)
    ensures ToUpper(UpperChar(c)) == UpperChar(c)
  {
    var u := UpperChar(c);
    if u == [c] {
      assert ToUpper(u) == UpperChar(c) + ToUpper([]);
    } else {
      forall i | 0 <= i < |u| ensures UpperChar(u[i]) == [u[i]] {
        assert IsAsciiUpper(u[i]);
      }
      ToUpperFixedChars(u);
    }
  }

  /** Text whose characters are each their own upper-case form is unchanged
      by upper-casing. */
  lemma {:induction false} ToUpperFixedChars(s: string)
    requires forall i :: 0 <= i < |s| ==> UpperChar(s[i]) == [s[i]]
    ensures ToUpper(s) == s
  {
    if s != [] {
      assert UpperChar(s[0]) == [s[0]];
      ToUpperFixedChars(s[1..]);
      assert s == [s[0]] + s[1..];
    }
  }
}
