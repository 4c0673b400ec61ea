/** How a user id travels in the subject claim of an access token.

    As written, `newAccessToken` stores `string(u.Id)`, which in Go is the
    UTF-8 encoding of the id taken as a Unicode code point, and the handlers
    read it back as `int` of the first byte of the subject. That pair only
    returns the id it was given for ids below 128 and for 195. The
    corrected pair writes the id in decimal and parses it back with
    `strconv.Atoi`; it returns every 64-bit id unchanged. */
module Subject {
  import opened GoTypes
  import opened GoStrconv

  /** The replacement character U+FFFD, in UTF-8. */
  const ReplacementChar: Bytes := [0xEF, 0xBF, 0xBD]

  predicate IsScalarValue(n: int) {
    0 <= n <= 0x10FFFF && !(0xD800 <= n <= 0xDFFF)
  }

  /** Go's `string(n)` for an integer `n`: the UTF-8 encoding of code point
      `n`, or U+FFFD when `n` is not a Unicode scalar value. */
  function EncodeRune(n: int): (r: Bytes)
    ensures 1 <= |r| <= 4
    ensures 0 <= n < 0x80 ==> r == [n as byte]
    ensures !IsScalarValue(n) ==> r == ReplacementChar
  {
    if !IsScalarValue(n) then ReplacementChar
    else if n < 0x80 then [n as byte]
    else if n < 0x800 then [(0xC0 + n / 0x40) as byte, (0x80 + n % 0x40) as byte]
    else if n < 0x10000 then
      [(0xE0 + n / 0x1000) as byte, (0x80 + n / 0x40 % 0x40) as byte, (0x80 + n % 0x40) as byte]
    else
      [(0xF0 + n / 0x40000) as byte, (0x80 + n / 0x1000 % 0x40) as byte,
       (0x80 + n / 0x40 % 0x40) as byte, (0x80 + n % 0x40) as byte]
  }

  /** A UTF-8 continuation byte, `10xxxxxx`. */
  predicate IsContinuation(b: byte) {
    0x80 <= b <= 0xBF
  }

  /** The byte shape of one UTF-8 encoded rune: an ASCII byte, or a lead
      byte announcing two (`C2`-`DF`), three (`E0`-`EF`) or four (`F0`-`F4`)
      bytes followed by that many continuation bytes less one. */
  predicate IsUtf8Rune(s: Bytes) {
    || (|s| == 1 && s[0] < 0x80)
    || (|s| == 2 && 0xC2 <= s[0] <= 0xDF && IsContinuation(s[1]))
    || (|s| == 3 && 0xE0 <= s[0] <= 0xEF && IsContinuation(s[1]) && IsContinuation(s[2]))
    || (|s| == 4 && 0xF0 <= s[0] <= 0xF4 && IsContinuation(s[1]) && IsContinuation(s[2])
          && IsContinuation(s[3]))
  }

  /** The code point a one- to four-byte UTF-8 sequence encodes, read from
      the payload bits of its lead and continuation bytes. */
  function DecodeRune(s: Bytes): int
    requires 1 <= |s| <= 4
  {
    if |s| == 1 then s[0] as int
    else if |s| == 2 then (s[0] as int - 0xC0) * 0x40 + (s[1] as int - 0x80)
    else if |s| == 3 then
      (s[0] as int - 0xE0) * 0x1000 + (s[1] as int - 0x80) * 0x40 + (s[2] as int - 0x80)
    else
      (s[0] as int - 0xF0) * 0x40000 + (s[1] as int - 0x80) * 0x1000
        + (s[2] as int - 0x80) * 0x40 + (s[3] as int - 0x80)
  }

  /** `string(n)` is a faithful UTF-8 encoding: its bytes have the UTF-8
      lead and continuation shape, every scalar value is read back from its
      payload bits, and it takes one byte below 0x80, two below 0x800, three
      below 0x10000 and four above. */
  lemma EncodeRuneDecodes(n: int)
    requires IsScalarValue(n)
    ensures IsUtf8Rune(EncodeRune(n))
    ensures DecodeRune(EncodeRune(n)) == n
    ensures |EncodeRune(n)| == if n < 0x80 then 1 else if n < 0x800 then 2 else if n < 0x10000 then 3 else 4
  {
    if 0x80 <= n < 0x800 {
      TwoByteDecodes(n);
    } else if 0x800 <= n < 0x10000 {
      ThreeByteDecodes(n);
    } else if 0x10000 <= n {
      FourByteDecodes(n);
    }
  }

  lemma TwoByteDecodes(n: int)
    requires 0x80 <= n < 0x800
    ensures IsUtf8Rune(EncodeRune(n))
    ensures DecodeRune(EncodeRune(n)) == n
  {
    var s := EncodeRune(n);
    assert s[0] as int == 0xC0 + n / 0x40 && s[1] as int == 0x80 + n % 0x40;
  }

  lemma ThreeByteDecodes(n: int)
    requires 0x800 <= n < 0x10000 && IsScalarValue(n)
    ensures IsUtf8Rune(EncodeRune(n))
    ensures DecodeRune(EncodeRune(n)) == n
  {
    var s := EncodeRune(n);
    var q := n / 0x40;
    assert n == q * 0x40 + n % 0x40;
    assert q == n / 0x1000 * 0x40 + q % 0x40;
    assert s[0] as int == 0xE0 + n / 0x1000 && s[1] as int == 0x80 + q % 0x40 && s[2] as int == 0x80 + n % 0x40;
  }

  lemma FourByteDecodes(n: int)
    requires 0x10000 <= n <= 0x10FFFF
    ensures IsUtf8Rune(EncodeRune(n))
    ensures DecodeRune(EncodeRune(n)) == n
  {
    var s := EncodeRune(n);
    var q := n / 0x40;
    var p := q / 0x40;
    assert n == q * 0x40 + n % 0x40;
    assert q == p * 0x40 + q % 0x40;
    assert n == p * 0x1000 + (q % 0x40) * 0x40 + n % 0x40;
    assert p == n / 0x1000;
    assert p == p / 0x40 * 0x40 + p % 0x40;
    assert p / 0x40 == n / 0x40000;
    assert s[0] as int == 0xF0 + n / 0x40000 && s[1] as int == 0x80 + p % 0x40;
    assert s[2] as int == 0x80 + q % 0x40 && s[3] as int == 0x80 + n % 0x40;
  }

  /** The subject the source puts in a new access token (`string(u.Id)`). */
  function EncodeSubjectAsWritten(id: int): Bytes {
    EncodeRune(id)
  }

  /** The user id the source reads from a subject: `int([]byte(s)[0])`.
      An empty subject makes the indexing panic, here `None`. */
  function DecodeSubjectAsWritten(subject: Bytes): (r: Option<int>)
    ensures r.Some? <==> |subject| > 0
    ensures r.Some? ==> 0 <= r.value < 256
    ensures r.Some? ==> r.value == subject[0] as int
  {
    if |subject| == 0 then None else Some(subject[0] as int)
  }

  /** The source's pair gives back the id it was given exactly for the ids
      0 to 127 and for 195, whose encoding 0xC3 0x83 starts with 0xC3 = 195. */
  lemma AsWrittenRoundTrip(id: int)
    ensures DecodeSubjectAsWritten(EncodeSubjectAsWritten(id)) == Some(id)
        <==> (0 <= id < 0x80 || id == 195)
  {
  }

  /** A user with id 128 is taken for user 194. */
  lemma AsWrittenLosesId128()
    ensures EncodeSubjectAsWritten(128) == [0xC2, 0x80]
    ensures DecodeSubjectAsWritten(EncodeSubjectAsWritten(128)) == Some(194)
  {
  }

  /** The corrected subject: the id in decimal. */
  function EncodeSubject(id: int): (r: Bytes)
    ensures |r| >= 1
  {
    Itoa(id)
  }

  /** The corrected reading of a subject: parse it as a decimal integer. */
  function DecodeSubject(subject: Bytes): (r: Option<int>)
    ensures r.Some? ==> IsInt64(r.value)
  {
    Atoi(subject)
  }

  /** Every 64-bit user id comes back from its token subject unchanged. */
  lemma SubjectRoundTrip(id: int)
    requires IsInt64(id)
    ensures DecodeSubject(EncodeSubject(id)) == Some(id)
  {
    AtoiItoa(id);
  }
}
