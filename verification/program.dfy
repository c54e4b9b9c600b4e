/** The secret-to-code path of the command: the length guard, upper-casing
    and unpadded RFC 4648 base32 decoding of the secret, then the six-digit
    TOTP code for the given number of seconds since the epoch. */
module Program {
  import opened Bits
  import opened Text
  import opened Base32
  import opened Hotp

  /** The secret lengths the guard lets through, in UTF-8 bytes: the
      unpadded base32 lengths of 10-, 16- and 20-byte keys. */
  predicate ValidLength(n: nat) {
    n == 16 || n == 26 || n == 32
  }

  /** How a run ends: one of the two rejections, or the code it prints. */
  datatype Outcome = InvalidSecret | DecodeFailed | Code(code: string)

  /** The run for `secret` at `seconds` since the epoch. */
  function Run(mac: Mac, secret: string, seconds: U64): (r: Outcome)
    ensures r.InvalidSecret? <==> !ValidLength(Utf8Length(secret))
    ensures r.DecodeFailed? <==> ValidLength(Utf8Length(secret)) && !InAlphabet(ToUpper(secret))
    ensures r.Code? <==> ValidLength(Utf8Length(secret)) && InAlphabet(ToUpper(secret))
    ensures r.Code? ==> |r.code| == CodeDigits && AllDigits(r.code)
  {
    var length := Utf8Length(secret);
    if length != 16 && length != 26 && length != 32 then InvalidSecret
    else match Decode(ToUpper(secret))
      case None => DecodeFailed
      case Some(key) => Code(Totp(mac, key, seconds))
  }

  /** The line the run prints. */
  function Output(r: Outcome): (line: string)
    ensures r.Code? ==> line == r.code
  {
    match r
    case InvalidSecret => "Invalid secret"
    case DecodeFailed => "Failed to decode secret"
    case Code(code) => code
  }

  /** A run that prints a code printed the TOTP of the decoded upper-cased
      secret, a key of floor(5n/8) bytes for n upper-cased characters. */
  lemma RunCode(mac: Mac, secret: string, seconds: U64)
    requires Run(mac, secret, seconds).Code?
    ensures Decode(ToUpper(secret)).Some?
    ensures |Decode(ToUpper(secret)).value| == 5 * |ToUpper(secret)| / 8
    ensures Run(mac, secret, seconds).code == Totp(mac, Decode(ToUpper(secret)).value, seconds)
  {
  }

  /** Secrets that pass the guard and decode to the same key print the same
      code: the code is determined by the key and the seconds alone. */
  lemma SameKeySameCode(mac: Mac, s1: string, s2: string, seconds: U64)
    requires ValidLength(Utf8Length(s1)) && ValidLength(Utf8Length(s2))
    requires Decode(ToUpper(s1)) == Decode(ToUpper(s2))
    ensures Run(mac, s1, seconds) == Run(mac, s2, seconds)
  {
  }

  /** Two readings of the clock in the same 30-second window give the same outcome. */
  lemma SameWindow(mac: Mac, secret: string, t1: U64, t2: U64)
    requires t1 / Step == t2 / Step
    ensures Run(mac, secret, t1) == Run(mac, secret, t2)
  {
  }

  /** 30 and 59 lie in window 1; 60 starts window 2. */
  lemma WindowExample()
    ensures Counter(30) == 1 && Counter(59) == 1 && Counter(60) == 2
  {
  }

  /** The printed line tells the three outcomes apart. */
  lemma OutputDistinct(mac: Mac, s1: string, s2: string, t1: U64, t2: U64)
    ensures Output(Run(mac, s1, t1)) == Output(Run(mac, s2, t2)) ==> Run(mac, s1, t1) == Run(mac, s2, t2)
  {
    var r1, r2 := Run(mac, s1, t1), Run(mac, s2, t2);
    if r1 != r2 {
      NotDigits("Invalid secret");
      NotDigits("Failed to decode secret");
    }
  }

  lemma NotDigits(line: string)
    requires |line| > 0 && !IsDigit(line[0])
    ensures !AllDigits(line)
  {
  }

  /** Alphabet characters are upper-case ASCII, so upper-casing leaves an
      alphabet-only string unchanged and its byte length is its character count. */
  lemma {:induction false} AlphabetUpper(s: string)
    requires InAlphabet(s)
    ensures AllAscii(s) && Utf8Length(s) == |s| && ToUpper(s) == s
  {
    assert AllAscii(s) by {
      forall i | 0 <= i < |s| ensures IsAscii(s[i]) {
        assert IsAlphabetChar(s[i]);
      }
    }
    Utf8LengthBounds(s);
    ToUpperAscii(s);
    var u := ToUpper(s);
    forall i | 0 <= i < |s| ensures u[i] == s[i] {
      assert IsAlphabetChar(s[i]);
    }
  }

  /** For an ASCII secret the run does not depend on letter case: the secret
      and its upper-cased form have the same outcome. */
  lemma CaseInsensitive(mac: Mac, secret: string, seconds: U64)
    requires AllAscii(secret)
    ensures Run(mac, secret, seconds) == Run(mac, ToUpper(secret), seconds)
  {
    ToUpperAscii(secret);
    Utf8LengthBounds(secret);
    Utf8LengthBounds(ToUpper(secret));
    ToUpperIdempotent(secret);
  }

  /** An ASCII secret that yields a code was decoded to a key of 10, 16 or
      20 bytes, for 16, 26 or 32 characters. */
  lemma AsciiKeyLength(mac: Mac, secret: string, seconds: U64)
    requires AllAscii(secret) && Run(mac, secret, seconds).Code?
    ensures var key := Decode(ToUpper(secret)).value;
      (|secret| == 16 ==> |key| == 10) && (|secret| == 26 ==> |key| == 16) && (|secret| == 32 ==> |key| == 20)
    ensures ValidLength(|secret|)
  {
    Utf8LengthBounds(secret);
    ToUpperAscii(secret);
  }

  /** The unpadded base32 text of a 10-, 16- or 20-byte key passes the guard,
      decodes back to the key, and prints its TOTP. */
  lemma StandardKey(mac: Mac, key: seq<Byte>, seconds: U64)
    requires |key| == 10 || |key| == 16 || |key| == 20
    ensures Run(mac, Encode(key), seconds) == Code(Totp(mac, key, seconds))
  {
    EncodedLengths(key);
    AlphabetUpper(Encode(key));
    DecodeEncode(key);
  }

  /** The guard counts UTF-8 bytes before upper-casing, so case-insensitivity
      stops at ASCII: a dotless i (two bytes) followed by 14 alphabet
      characters passes the guard and prints the code of a 9-byte key, while
      its upper-cased form, 15 characters long, is rejected. */
  lemma DotlessI(mac: Mac, rest: string, seconds: U64)
    requires |rest| == 14 && InAlphabet(rest)
    ensures Run(mac, "ı" + rest, seconds).Code?
    ensures |Decode(ToUpper("ı" + rest)).value| == 9
    ensures Run(mac, ToUpper("ı" + rest), seconds) == InvalidSecret
  {
    var s := "ı" + rest;
    AlphabetUpper(rest);
    assert s[0] == 'ı' && s[1..] == rest;
    assert Utf8Length(s) == 2 + Utf8Length(rest);
    assert ToUpper(s) == "I" + rest;
    assert InAlphabet("I" + rest) by {
      forall i | 0 <= i < |"I" + rest| ensures IsAlphabetChar(("I" + rest)[i]) {
        if i > 0 {
          assert ("I" + rest)[i] == rest[i - 1];
        }
      }
    }
    AlphabetUpper("I" + rest);
  }
}
