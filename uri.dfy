/**
 * `encodeURIComponent` (ECMA-262, section "URI Handling Functions") over
 * Dafny strings, whose characters are Unicode scalar values: unreserved
 * characters pass through, every other character becomes the `%XX`
 * triples of its UTF-8 bytes, upper-case hexadecimal. `Decode` is the
 * matching percent- and UTF-8 decoding, used to read a `mailto:` URI back.
 */
module Uri {
  import opened Common

  /** The characters `encodeURIComponent` leaves as they are. */
  predicate Unreserved(c: char) {
    ('A' <= c <= 'Z') || ('a' <= c <= 'z') || ('0' <= c <= '9') || c in "-_.!~*'()"
  }

  type Byte = b: int | 0 <= b < 256

  /** The UTF-8 encoding of one scalar value (section 3 of RFC 3629). */
  function Utf8(c: char): (r: seq<Byte>)
    ensures 1 <= |r| <= 4
  {
    var n := c as int;
    var q1 := n / 64;
    var q2 := q1 / 64;
    var q3 := q2 / 64;
    if n < 0x80 then [n]
    else if n < 0x800 then [0xC0 + q1, 0x80 + n % 64]
    else if n < 0x10000 then [0xE0 + q2, 0x80 + q1 % 64, 0x80 + n % 64]
    else [0xF0 + q3, 0x80 + q2 % 64, 0x80 + q1 % 64, 0x80 + n % 64]
  }

  predicate IsHex(c: char) {
    ('0' <= c <= '9') || ('A' <= c <= 'F')
  }

  function HexValue(c: char): (r: int)
    requires IsHex(c)
    ensures 0 <= r < 16
  {
    if c <= '9' then c as int - '0' as int else c as int - 'A' as int + 10
  }

  /** An upper-case hexadecimal digit; `HexValue` reads it back. */
  function HexDigit(d: int): (r: char)
    requires 0 <= d < 16
    ensures IsHex(r) && Unreserved(r) && HexValue(r) == d
  {
    if d < 10 then ('0' as int + d) as char else ('A' as int + d - 10) as char
  }

  /** Each byte as `%` and two upper-case hexadecimal digits. */
  function PercentEncode(bytes: seq<Byte>): (r: string)
    ensures |r| == 3 * |bytes|
  {
    if bytes == [] then []
    else ['%', HexDigit(bytes[0] / 16), HexDigit(bytes[0] % 16)] + PercentEncode(bytes[1..])
  }

  function EncodeChar(c: char): string {
    if Unreserved(c) then [c] else PercentEncode(Utf8(c))
  }

  /** `encodeURIComponent(s)`. Every character of the result is unreserved
      or `%`, so no `&`, `=`, `?`, `#` or space survives unencoded. */
  function EncodeURIComponent(s: string): (r: string)
    ensures Escaped(r)
  {
    if s == [] then []
    else
      var head := EncodeChar(s[0]);
      assert Escaped(head) by {
        if !Unreserved(s[0]) {
          PercentEncodeChars(Utf8(s[0]));
        }
      }
      var tail := EncodeURIComponent(s[1..]);
      assert forall i :: |head| <= i < |head + tail| ==> (head + tail)[i] == tail[i - |head|];
      head + tail
  }

  /** Every character is unreserved or the `%` of an escape. */
  predicate Escaped(t: string) {
    forall i :: 0 <= i < |t| ==> Unreserved(t[i]) || t[i] == '%'
  }

  lemma {:induction false} PercentEncodeChars(bytes: seq<Byte>)
    ensures Escaped(PercentEncode(bytes))
  {
    if bytes != [] {
      PercentEncodeChars(bytes[1..]);
      var r, u := PercentEncode(bytes), PercentEncode(bytes[1..]);
      assert r == ['%', HexDigit(bytes[0] / 16), HexDigit(bytes[0] % 16)] + u;
      forall i | 0 <= i < |r|
        ensures Unreserved(r[i]) || r[i] == '%'
      {
        if i >= 3 {
          assert r[i] == u[i - 3];
        }
      }
    }
  }

  /** A well-formed encoding: unreserved characters and `%XX` triples. */
  predicate PctEncoded(t: string)
    decreases |t|
  {
    if t == [] then true
    else if t[0] == '%' then |t| >= 3 && IsHex(t[1]) && IsHex(t[2]) && PctEncoded(t[3..])
    else Unreserved(t[0]) && PctEncoded(t[1..])
  }

  lemma {:induction false} PctEncodedConcat(a: string, b: string)
    requires PctEncoded(a) && PctEncoded(b)
    ensures PctEncoded(a + b)
    decreases |a|
  {
    if a == [] {
      assert a + b == b;
    } else if a[0] == '%' {
      PctEncodedConcat(a[3..], b);
      ConsTriple(a, b);
    } else {
      PctEncodedConcat(a[1..], b);
      ConsOne(a, b);
    }
  }

  /** A `%XX` triple in front of a well-formed encoding keeps it well formed. */
  lemma ConsTriple(a: string, b: string)
    requires |a| >= 3 && a[0] == '%' && IsHex(a[1]) && IsHex(a[2]) && PctEncoded(a[3..] + b)
    ensures PctEncoded(a + b)
  {
    assert (a + b)[3..] == a[3..] + b;
  }

  /** So does an unreserved character. */
  lemma ConsOne(a: string, b: string)
    requires |a| >= 1 && a[0] != '%' && Unreserved(a[0]) && PctEncoded(a[1..] + b)
    ensures PctEncoded(a + b)
  {
    assert (a + b)[1..] == a[1..] + b;
  }

  lemma {:induction false} PercentEncodeWellFormed(bytes: seq<Byte>)
    ensures PctEncoded(PercentEncode(bytes))
  {
    if bytes != [] {
      PercentEncodeWellFormed(bytes[1..]);
      var r := PercentEncode(bytes);
      assert r[3..] == PercentEncode(bytes[1..]);
    }
  }

  /** The output of `encodeURIComponent` consists of unreserved characters
      and `%XX` triples only. */
  lemma {:induction false} EncodeWellFormed(s: string)
    ensures PctEncoded(EncodeURIComponent(s))
  {
    if s != [] {
      EncodeWellFormed(s[1..]);
      if !Unreserved(s[0]) {
        PercentEncodeWellFormed(Utf8(s[0]));
      }
      PctEncodedConcat(EncodeChar(s[0]), EncodeURIComponent(s[1..]));
    }
  }

  /** Unreserved characters pass through untouched, and only they do: a
      string is its own encoding iff every character is unreserved. */
  lemma {:induction false} EncodeIdentity(s: string)
    ensures EncodeURIComponent(s) == s <==> forall i :: 0 <= i < |s| ==> Unreserved(s[i])
  {
    EncodeLength(s);
    if forall i :: 0 <= i < |s| ==> Unreserved(s[i]) {
      EncodeUnreserved(s);
    }
  }

  /** Encoding never shortens, and it keeps the length only when every
      character is unreserved. */
  lemma {:induction false} EncodeLength(s: string)
    ensures |EncodeURIComponent(s)| >= |s|
    ensures |EncodeURIComponent(s)| == |s| ==> forall i :: 0 <= i < |s| ==> Unreserved(s[i])
  {
    if s != [] {
      EncodeLength(s[1..]);
      var head := EncodeChar(s[0]);
      assert |EncodeURIComponent(s)| == |head| + |EncodeURIComponent(s[1..])|;
      assert |head| >= 3 || Unreserved(s[0]);
      assert forall i :: 1 <= i < |s| ==> s[i] == s[1..][i - 1];
    }
  }

  /** A string of unreserved characters encodes to itself. */
  lemma {:induction false} EncodeUnreserved(s: string)
    requires forall i :: 0 <= i < |s| ==> Unreserved(s[i])
    ensures EncodeURIComponent(s) == s
  {
    if s != [] {
      assert forall i :: 0 <= i < |s| - 1 ==> s[1..][i] == s[i + 1];
      EncodeUnreserved(s[1..]);
      assert s == [s[0]] + s[1..];
    }
  }

  // ---------------------------------------------------------------------
  // Decoding
  // ---------------------------------------------------------------------

  /** The byte of a `%XX` triple starting at `i`. */
  function ByteAt(t: string, i: nat): Option<Byte> {
    if i + 3 <= |t| && t[i] == '%' && IsHex(t[i + 1]) && IsHex(t[i + 2])
    then Some(HexValue(t[i + 1]) * 16 + HexValue(t[i + 2]))
    else None
  }

  /** The six payload bits of a UTF-8 continuation byte at `i`. */
  function ContAt(t: string, i: nat): Option<int> {
    match ByteAt(t, i)
    case None => None
    case Some(b) => if 0x80 <= b < 0xC0 then Some(b - 0x80) else None
  }

  predicate ScalarValue(n: int) {
    (0 <= n < 0xD800) || (0xE000 <= n < 0x11_0000)
  }

  /** The character encoded by the `%XX` triples at the start of `t`, and
      how many characters of `t` they take up. */
  function DecodeChar(t: string): (r: Option<(char, nat)>)
    ensures r.Some? ==> 3 <= r.value.1 <= |t|
  {
    match ByteAt(t, 0)
    case None => None
    case Some(b0) =>
      if b0 < 0x80 then Some((b0 as char, 3))
      else if 0xC0 <= b0 < 0xE0 then
        match ContAt(t, 3)
        case None => None
        case Some(x1) =>
          var n := (b0 - 0xC0) * 64 + x1;
          if ScalarValue(n) then Some((n as char, 6)) else None
      else if 0xE0 <= b0 < 0xF0 then
        match (ContAt(t, 3), ContAt(t, 6))
        case (Some(x1), Some(x2)) =>
          var n := (b0 - 0xE0) * 4096 + x1 * 64 + x2;
          if ScalarValue(n) then Some((n as char, 9)) else None
        case _ => None
      else if 0xF0 <= b0 < 0xF8 then
        match (ContAt(t, 3), ContAt(t, 6), ContAt(t, 9))
        case (Some(x1), Some(x2), Some(x3)) =>
          var n := (b0 - 0xF0) * 262144 + x1 * 4096 + x2 * 64 + x3;
          if ScalarValue(n) then Some((n as char, 12)) else None
        case _ => None
      else None
  }

  /** The inverse of `EncodeURIComponent`: percent-decoding followed by
      UTF-8 decoding, reading escapes as this encoder writes them, with
      upper-case hexadecimal digits only (so `%2f` is `None` here, where
      `decodeURIComponent` accepts it); `None` for a malformed escape. */
  function Decode(t: string): Option<string>
    decreases |t|
  {
    if t == [] then Some([])
    else if t[0] != '%' then
      match Decode(t[1..])
      case None => None
      case Some(rest) => Some([t[0]] + rest)
    else
      match DecodeChar(t)
      case None => None
      case Some((c, n)) =>
        match Decode(t[n..])
        case None => None
        case Some(rest) => Some([c] + rest)
  }

  /** The `k`-th triple of a percent-encoding is `%` and the two digits of the `k`-th byte. */
  lemma {:induction false} PercentEncodeAt(bytes: seq<Byte>, k: nat)
    requires k < |bytes|
    ensures var r := PercentEncode(bytes);
      r[3 * k] == '%' && r[3 * k + 1] == HexDigit(bytes[k] / 16) && r[3 * k + 2] == HexDigit(bytes[k] % 16)
  {
    if k > 0 {
      PercentEncodeAt(bytes[1..], k - 1);
      var r, u := PercentEncode(bytes), PercentEncode(bytes[1..]);
      assert r[3..] == u;
      assert r[3 * k] == u[3 * (k - 1)] && r[3 * k + 1] == u[3 * (k - 1) + 1] && r[3 * k + 2] == u[3 * (k - 1) + 2];
    }
  }

  /** A `%` followed by the two hexadecimal digits of `b` reads back as `b`. */
  lemma ByteAtTriple(t: string, i: nat, b: Byte)
    requires i + 3 <= |t|
    requires t[i] == '%' && t[i + 1] == HexDigit(b / 16) && t[i + 2] == HexDigit(b % 16)
    ensures ByteAt(t, i) == Some(b)
  {
    assert HexValue(t[i + 1]) * 16 + HexValue(t[i + 2]) == b / 16 * 16 + b % 16;
  }

  /** The `k`-th triple of a percent-encoding reads back as the `k`-th byte. */
  lemma ByteAtPercentEncode(bytes: seq<Byte>, rest: string, k: nat)
    requires k < |bytes|
    ensures ByteAt(PercentEncode(bytes) + rest, 3 * k) == Some(bytes[k])
  {
    var r := PercentEncode(bytes);
    var i := 3 * k;
    assert i + 3 <= |r|;
    PercentEncodeAt(bytes, k);
    ByteAtTriple(r + rest, i, bytes[k]);
  }

  lemma DecodeOne(c: char, rest: string)
    requires (c as int) < 0x80
    ensures DecodeChar(PercentEncode(Utf8(c)) + rest) == Some((c, 3))
  {
    ByteAtPercentEncode(Utf8(c), rest, 0);
  }

  lemma DecodeTwo(c: char, rest: string)
    requires 0x80 <= (c as int) < 0x800
    ensures DecodeChar(PercentEncode(Utf8(c)) + rest) == Some((c, 6))
  {
    var bytes := Utf8(c);
    var t := PercentEncode(bytes) + rest;
    var n := c as int;
    ByteAtPercentEncode(bytes, rest, 0);
    ByteAtPercentEncode(bytes, rest, 1);
    assert bytes[0] == 0xC0 + n / 64 && bytes[1] == 0x80 + n % 64;
    assert ContAt(t, 3) == Some(n % 64);
    assert (bytes[0] - 0xC0) * 64 + n % 64 == n;
  }

  /** The three bytes of a character above U+07FF in the basic plane carry its 16 bits. */
  lemma Utf8Three(c: char)
    requires 0x800 <= (c as int) < 0x10000
    ensures var bytes := Utf8(c);
      && |bytes| == 3 && 0xE0 <= bytes[0] < 0xF0
      && 0x80 <= bytes[1] < 0xC0 && 0x80 <= bytes[2] < 0xC0
      && (bytes[0] as int - 0xE0) * 4096 + (bytes[1] as int - 0x80) * 64
         + (bytes[2] as int - 0x80) == c as int
  {
    var n := c as int;
    var q1 := n / 64;
    var q2 := q1 / 64;
    assert n == q1 * 64 + n % 64;
    assert q1 == q2 * 64 + q1 % 64;
    assert n == q2 * 4096 + (q1 % 64) * 64 + n % 64;
  }

  /** Three `%XX` triples of a lead byte and two continuation bytes. */
  lemma DecodeThreeTriples(t: string, b0: int, b1: int, b2: int)
    requires ByteAt(t, 0) == Some(b0) && ByteAt(t, 3) == Some(b1) && ByteAt(t, 6) == Some(b2)
    requires 0xE0 <= b0 < 0xF0 && 0x80 <= b1 < 0xC0 && 0x80 <= b2 < 0xC0
    requires ScalarValue((b0 - 0xE0) * 4096 + (b1 - 0x80) * 64 + (b2 - 0x80))
    ensures DecodeChar(t) == Some((((b0 - 0xE0) * 4096 + (b1 - 0x80) * 64 + (b2 - 0x80)) as char, 9))
  {
  }

  lemma DecodeThree(c: char, rest: string)
    requires 0x800 <= (c as int) < 0x10000
    ensures DecodeChar(PercentEncode(Utf8(c)) + rest) == Some((c, 9))
  {
    var bytes := Utf8(c);
    Utf8Three(c);
    ByteAtPercentEncode(bytes, rest, 0);
    ByteAtPercentEncode(bytes, rest, 1);
    ByteAtPercentEncode(bytes, rest, 2);
    DecodeThreeTriples(PercentEncode(bytes) + rest, bytes[0], bytes[1], bytes[2]);
  }

  /** The four bytes of a supplementary-plane character carry its 21 bits. */
  lemma Utf8Four(c: char)
    requires 0x10000 <= (c as int)
    ensures var bytes := Utf8(c);
      && |bytes| == 4 && 0xF0 <= bytes[0] < 0xF8
      && 0x80 <= bytes[1] < 0xC0 && 0x80 <= bytes[2] < 0xC0 && 0x80 <= bytes[3] < 0xC0
      && (bytes[0] as int - 0xF0) * 262144 + (bytes[1] as int - 0x80) * 4096
         + (bytes[2] as int - 0x80) * 64 + (bytes[3] as int - 0x80) == c as int
  {
    var n := c as int;
    var q1 := n / 64;
    var q2 := q1 / 64;
    var q3 := q2 / 64;
    assert n == q1 * 64 + n % 64;
    assert q1 == q2 * 64 + q1 % 64;
    assert q2 == q3 * 64 + q2 % 64;
    assert n == q3 * 262144 + (q2 % 64) * 4096 + (q1 % 64) * 64 + n % 64;
  }

  /** Four `%XX` triples of a lead byte and three continuation bytes. */
  lemma DecodeFourTriples(t: string, b0: int, b1: int, b2: int, b3: int)
    requires ByteAt(t, 0) == Some(b0) && ByteAt(t, 3) == Some(b1)
    requires ByteAt(t, 6) == Some(b2) && ByteAt(t, 9) == Some(b3)
    requires 0xF0 <= b0 < 0xF8 && 0x80 <= b1 < 0xC0 && 0x80 <= b2 < 0xC0 && 0x80 <= b3 < 0xC0
    requires ScalarValue((b0 - 0xF0) * 262144 + (b1 - 0x80) * 4096 + (b2 - 0x80) * 64 + (b3 - 0x80))
    ensures DecodeChar(t) ==
      Some((((b0 - 0xF0) * 262144 + (b1 - 0x80) * 4096 + (b2 - 0x80) * 64 + (b3 - 0x80)) as char, 12))
  {
  }

  lemma DecodeFour(c: char, rest: string)
    requires 0x10000 <= (c as int)
    ensures DecodeChar(PercentEncode(Utf8(c)) + rest) == Some((c, 12))
  {
    var bytes := Utf8(c);
    Utf8Four(c);
    ByteAtPercentEncode(bytes, rest, 0);
    ByteAtPercentEncode(bytes, rest, 1);
    ByteAtPercentEncode(bytes, rest, 2);
    ByteAtPercentEncode(bytes, rest, 3);
    DecodeFourTriples(PercentEncode(bytes) + rest, bytes[0], bytes[1], bytes[2], bytes[3]);
  }

  /** Decoding the UTF-8 triples of one character gives the character back. */
  lemma DecodeCharUtf8(c: char, rest: string)
    ensures DecodeChar(PercentEncode(Utf8(c)) + rest) == Some((c, 3 * |Utf8(c)|))
  {
    var n := c as int;
    if n < 0x80 {
      DecodeOne(c, rest);
    } else if n < 0x800 {
      DecodeTwo(c, rest);
    } else if n < 0x10000 {
      DecodeThree(c, rest);
    } else {
      DecodeFour(c, rest);
    }
  }

  lemma DecodeEncodeChar(c: char, rest: string)
    ensures Decode(EncodeChar(c) + rest) ==
      match Decode(rest)
      case None => None
      case Some(r) => Some([c] + r)
  {
    var t := EncodeChar(c) + rest;
    if Unreserved(c) {
      assert t[1..] == rest;
    } else {
      DecodeCharUtf8(c, rest);
      var bytes := Utf8(c);
      assert t[0] == '%';
      assert t[3 * |bytes|..] == rest;
    }
  }

  /** `Decode` undoes `encodeURIComponent`. */
  lemma {:induction false} DecodeEncode(s: string)
    ensures Decode(EncodeURIComponent(s)) == Some(s)
  {
    if s != [] {
      var tail := EncodeURIComponent(s[1..]);
      assert EncodeURIComponent(s) == EncodeChar(s[0]) + tail;
      DecodeEncode(s[1..]);
      DecodeEncodeChar(s[0], tail);
      assert [s[0]] + s[1..] == s;
    }
  }
}
