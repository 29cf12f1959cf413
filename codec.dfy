/** Byte/text codecs used around the WebAuthn ceremonies.

    - PHP's bin2hex, which produces the challenges (lower-case Base16, section 8
      of RFC 4648), and the client's way of turning such a challenge back into
      bytes: `challenge.match(/.{1,2}/g).map(byte => parseInt(byte, 16))` stored
      into a Uint8Array.
    - btoa/atob as used by arrayBufferToBase64 / base64ToArrayBuffer: Base64
      with padding (section 4 of RFC 4648); atob is the forgiving decoder that
      drops ASCII whitespace and accepts a missing padding. */
module Codec {
  import opened Common

  newtype byte = x: int | 0 <= x < 256

  // ---------------------------------------------------------------------
  // Base16
  // ---------------------------------------------------------------------

  predicate IsHexChar(c: char) {
    ('0' <= c <= '9') || ('a' <= c <= 'f') || ('A' <= c <= 'F')
  }

  function HexValue(c: char): (v: int)
    requires IsHexChar(c)
    ensures 0 <= v < 16
  {
    if '0' <= c <= '9' then c as int - '0' as int
    else if 'a' <= c <= 'f' then c as int - 'a' as int + 10
    else c as int - 'A' as int + 10
  }

  /** The lower-case digit bin2hex writes for a nibble. */
  function HexDigit(v: int): (c: char)
    requires 0 <= v < 16
    ensures IsHexChar(c) && HexValue(c) == v
  {
    if v < 10 then ('0' as int + v) as char else ('a' as int + v - 10) as char
  }

  /** PHP bin2hex: two lower-case hex digits per byte, high nibble first. */
  function Bin2Hex(bytes: seq<byte>): (s: string)
    ensures |s| == 2 * |bytes|
    ensures forall i :: 0 <= i < |s| ==> IsHexChar(s[i])
  {
    if |bytes| == 0 then ""
    else [HexDigit(bytes[0] as int / 16), HexDigit(bytes[0] as int % 16)] + Bin2Hex(bytes[1..])
  }

  /** Characters the RegExp `.` does not match. */
  predicate IsLineTerminator(c: char) {
    c == '\n' || c == '\r' || c as int == 0x2028 || c as int == 0x2029
  }

  /** `s.match(/.{1,2}/g)`: greedy chunks of one or two characters, taken
      left to right; a line terminator ends a chunk and is skipped. */
  function Chunks(s: string): (r: seq<string>)
    ensures forall i :: 0 <= i < |r| ==> 1 <= |r[i]| <= 2
    decreases |s|
  {
    if |s| == 0 then []
    else if IsLineTerminator(s[0]) then Chunks(s[1..])
    else if |s| >= 2 && !IsLineTerminator(s[1]) then [s[..2]] + Chunks(s[2..])
    else [s[..1]] + Chunks(s[1..])
  }

  /** Value of a run of hex digits, most significant first. */
  function HexNumber(digits: string): (v: nat)
    requires forall i :: 0 <= i < |digits| ==> IsHexChar(digits[i])
    decreases |digits|
  {
    if |digits| == 0 then 0
    else HexNumber(digits[..|digits| - 1]) * 16 + HexValue(digits[|digits| - 1])
  }

  /** `parseInt(s, 16)`: skip leading white space, read an optional sign and
      an optional "0x"/"0X" prefix, then the longest run of hex digits;
      None stands for NaN (no digit at all). */
  function ParseIntHex(s: string): Option<int> {
    var t := s[LeadingRun(s, IsJsSpace)..];
    var negative := |t| > 0 && t[0] == '-';
    var u := if |t| > 0 && (t[0] == '-' || t[0] == '+') then t[1..] else t;
    var w := if |u| >= 2 && u[0] == '0' && (u[1] == 'x' || u[1] == 'X') then u[2..] else u;
    var k := LeadingRun(w, IsHexChar);
    if k == 0 then None
    else Some(if negative then 0 - HexNumber(w[..k]) else HexNumber(w[..k]))
  }

  /** Storing a Number into a Uint8Array: NaN becomes 0, integers wrap modulo 256. */
  function ToUint8(v: Option<int>): byte {
    if v.None? then 0 else (v.value % 256) as byte
  }

  function ChunkBytes(chunks: seq<string>): (r: seq<byte>)
    ensures |r| == |chunks|
  {
    if |chunks| == 0 then [] else [ToUint8(ParseIntHex(chunks[0]))] + ChunkBytes(chunks[1..])
  }

  /** The client's challenge decoding (dashboard.js and login.js). `match`
      returns null when nothing matches and `.map` on null throws: None. */
  function HexChallengeBytes(s: string): (r: Option<seq<byte>>)
    ensures r.Some? <==> |Chunks(s)| > 0
  {
    var chunks := Chunks(s);
    if |chunks| == 0 then None else Some(ChunkBytes(chunks))
  }

  lemma TwoDigitParse(hi: int, lo: int)
    requires 0 <= hi < 16 && 0 <= lo < 16
    ensures ParseIntHex([HexDigit(hi), HexDigit(lo)]) == Some(hi * 16 + lo)
  {
    var s := [HexDigit(hi), HexDigit(lo)];
    assert LeadingRun(s, IsJsSpace) == 0;
    assert s[0..] == s;
    if hi == 0 {
      assert HexDigit(hi) == '0';
      assert s[1] != 'x' && s[1] != 'X';
    }
    assert LeadingRun(s, IsHexChar) == 2 by {
      assert LeadingRun(s[1..], IsHexChar) == 1 by {
        assert s[1..][1..] == [];
      }
    }
    assert s[..2] == s;
    assert s[..1] == [HexDigit(hi)];
    assert HexNumber([HexDigit(hi)]) == hi by {
      assert [HexDigit(hi)][..0] == [];
    }
  }

  /** The two digits bin2hex writes for one byte parse back to it. */
  lemma ByteDigitsParse(x: byte)
    ensures ToUint8(ParseIntHex([HexDigit(x as int / 16), HexDigit(x as int % 16)])) == x
  {
    TwoDigitParse(x as int / 16, x as int % 16);
  }

  /** Two characters that are not line terminators make one chunk. */
  lemma ChunksPair(x: char, y: char, rest: string)
    requires !IsLineTerminator(x) && !IsLineTerminator(y)
    ensures Chunks([x, y] + rest) == [[x, y]] + Chunks(rest)
  {
    var s := [x, y] + rest;
    assert s[..2] == [x, y] && s[2..] == rest;
  }

  lemma ChunkBytesCons(c: string, cs: seq<string>)
    ensures ChunkBytes([c] + cs) == [ToUint8(ParseIntHex(c))] + ChunkBytes(cs)
  {
    assert ([c] + cs)[1..] == cs;
  }

  /** Decoding what bin2hex produced gives back the bytes, provided there is
      at least one byte (an empty challenge makes the client throw). */
  lemma {:induction false} HexRoundTrip(bytes: seq<byte>)
    ensures |bytes| > 0 ==> HexChallengeBytes(Bin2Hex(bytes)) == Some(bytes)
    ensures ChunkBytes(Chunks(Bin2Hex(bytes))) == bytes
    decreases |bytes|
  {
    if |bytes| > 0 {
      var pair := [HexDigit(bytes[0] as int / 16), HexDigit(bytes[0] as int % 16)];
      var rest := Bin2Hex(bytes[1..]);
      assert Bin2Hex(bytes) == pair + rest;
      HexRoundTrip(bytes[1..]);
      ChunksPair(pair[0], pair[1], rest);
      assert [pair[0], pair[1]] == pair;
      ChunkBytesCons(pair, Chunks(rest));
      ByteDigitsParse(bytes[0]);
      assert bytes == [bytes[0]] + bytes[1..];
    }
  }

  // ---------------------------------------------------------------------
  // Base64
  // ---------------------------------------------------------------------

  /** The Base64 alphabet of section 4 of RFC 4648. */
  function B64Char(v: int): (c: char)
    requires 0 <= v < 64
  {
    if v < 26 then ('A' as int + v) as char
    else if v < 52 then ('a' as int + v - 26) as char
    else if v < 62 then ('0' as int + v - 52) as char
    else if v == 62 then '+' else '/'
  }

  predicate IsB64Char(c: char) {
    ('A' <= c <= 'Z') || ('a' <= c <= 'z') || ('0' <= c <= '9') || c == '+' || c == '/'
  }

  function B64Value(c: char): (v: int)
    requires IsB64Char(c)
    ensures 0 <= v < 64
  {
    if 'A' <= c <= 'Z' then c as int - 'A' as int
    else if 'a' <= c <= 'z' then c as int - 'a' as int + 26
    else if '0' <= c <= '9' then c as int - '0' as int + 52
    else if c == '+' then 62 else 63
  }

  lemma B64CharValue(v: int)
    requires 0 <= v < 64
    ensures IsB64Char(B64Char(v)) && B64Value(B64Char(v)) == v
  {
  }

  /** One full group: three bytes as four alphabet characters. */
  function Group3(x: byte, y: byte, z: byte): (s: string)
    ensures |s| == 4 && forall i :: 0 <= i < 4 ==> IsB64Char(s[i])
  {
    [B64Char(x as int / 4), B64Char(x as int % 4 * 16 + y as int / 16),
     B64Char(y as int % 16 * 4 + z as int / 64), B64Char(z as int % 64)]
  }

  /** A final group of two bytes: three characters (padding comes apart). */
  function Group2(x: byte, y: byte): (s: string)
    ensures |s| == 3 && forall i :: 0 <= i < 3 ==> IsB64Char(s[i])
  {
    [B64Char(x as int / 4), B64Char(x as int % 4 * 16 + y as int / 16), B64Char(y as int % 16 * 4)]
  }

  /** A final group of one byte: two characters. */
  function Group1(x: byte): (s: string)
    ensures |s| == 2 && forall i :: 0 <= i < 2 ==> IsB64Char(s[i])
  {
    [B64Char(x as int / 4), B64Char(x as int % 4 * 16)]
  }

  /** Every character of s is in the alphabet. */
  predicate AllB64(s: string) {
    forall i :: 0 <= i < |s| ==> IsB64Char(s[i])
  }

  lemma AllB64Append(a: string, b: string)
    requires AllB64(a) && AllB64(b)
    ensures AllB64(a + b)
  {
    forall i | 0 <= i < |a + b|
      ensures IsB64Char((a + b)[i])
    {
      if i < |a| { assert (a + b)[i] == a[i]; } else { assert (a + b)[i] == b[i - |a|]; }
    }
  }

  /** Alphabet characters for all input bytes, without the '=' padding. */
  function Base64Digits(b: seq<byte>): (s: string)
    ensures AllB64(s)
    ensures |s| % 4 == (if |b| % 3 == 0 then 0 else |b| % 3 + 1)
    decreases |b|
  {
    if |b| == 0 then ""
    else if |b| == 1 then Group1(b[0])
    else if |b| == 2 then Group2(b[0], b[1])
    else
      var g := Group3(b[0], b[1], b[2]);
      var rest := Base64Digits(b[3..]);
      AllB64Append(g, rest);
      g + rest
  }

  /** Padding that completes the last group of four. */
  function Padding(n: nat): (p: string)
    ensures |p| == (if n % 3 == 0 then 0 else 3 - n % 3)
  {
    if n % 3 == 1 then "==" else if n % 3 == 2 then "=" else ""
  }

  /** btoa applied to the bytes written as a binary string. */
  function Base64Encode(b: seq<byte>): (s: string)
    ensures |s| % 4 == 0
  {
    Base64Digits(b) + Padding(|b|)
  }

  /** ASCII whitespace, which atob removes before decoding. */
  predicate IsAsciiSpace(c: char) {
    c == ' ' || c == '\t' || c == '\n' || c == '\r' || c as int == 0x0C
  }

  predicate NotAsciiSpace(c: char) { !IsAsciiSpace(c) }

  /** Four alphabet characters back to three bytes. */
  function Ungroup3(a: char, b: char, c: char, d: char): (r: seq<byte>)
    requires IsB64Char(a) && IsB64Char(b) && IsB64Char(c) && IsB64Char(d)
    ensures |r| == 3
  {
    [(B64Value(a) * 4 + B64Value(b) / 16) as byte,
     (B64Value(b) % 16 * 16 + B64Value(c) / 4) as byte,
     (B64Value(c) % 4 * 64 + B64Value(d)) as byte]
  }

  /** A final three characters: two bytes, the two spare low bits dropped. */
  function Ungroup2(a: char, b: char, c: char): (r: seq<byte>)
    requires IsB64Char(a) && IsB64Char(b) && IsB64Char(c)
    ensures |r| == 2
  {
    [(B64Value(a) * 4 + B64Value(b) / 16) as byte,
     (B64Value(b) % 16 * 16 + B64Value(c) / 4) as byte]
  }

  /** A final two characters: one byte, the four spare low bits dropped. */
  function Ungroup1(a: char, b: char): (r: seq<byte>)
    requires IsB64Char(a) && IsB64Char(b)
    ensures |r| == 1
  {
    [(B64Value(a) * 4 + B64Value(b) / 16) as byte]
  }

  /** Decodes alphabet characters group by group. */
  function DecodeDigits(s: string): (b: seq<byte>)
    requires |s| % 4 != 1
    requires AllB64(s)
    decreases |s|
  {
    if |s| == 0 then []
    else if |s| == 2 then Ungroup1(s[0], s[1])
    else if |s| == 3 then Ungroup2(s[0], s[1], s[2])
    else Ungroup3(s[0], s[1], s[2], s[3]) + DecodeDigits(s[4..])
  }

  /** atob's padding rule: on a length that is a multiple of four, one or
      two trailing '=' are dropped. */
  function StripPad(t: string): (u: string)
    ensures |u| <= |t|
  {
    if |t| % 4 == 0 && |t| >= 2 && t[|t| - 2..] == "==" then t[..|t| - 2]
    else if |t| % 4 == 0 && |t| >= 1 && t[|t| - 1] == '=' then t[..|t| - 1]
    else t
  }

  /** atob on a string, giving the bytes of the binary string it returns;
      None where atob throws (InvalidCharacterError). */
  function Base64Decode(s: string): (r: Option<seq<byte>>)
  {
    var u := StripPad(Filter(s, NotAsciiSpace));
    if |u| % 4 == 1 || !AllB64(u) then None
    else Some(DecodeDigits(u))
  }

  /** The bit arithmetic of one group: the decoder's shifts undo the encoder's. */
  lemma GroupArithmetic(x: int, y: int, z: int)
    requires 0 <= x < 256 && 0 <= y < 256 && 0 <= z < 256
    ensures x / 4 * 4 + (x % 4 * 16 + y / 16) / 16 == x
    ensures (x % 4 * 16 + y / 16) % 16 * 16 + (y % 16 * 4 + z / 64) / 4 == y
    ensures (y % 16 * 4 + z / 64) % 4 * 64 + z % 64 == z
  {
  }

  lemma Group3RoundTrip(x: byte, y: byte, z: byte)
    ensures var g := Group3(x, y, z); Ungroup3(g[0], g[1], g[2], g[3]) == [x, y, z]
  {
    B64CharValue(x as int / 4);
    B64CharValue(x as int % 4 * 16 + y as int / 16);
    B64CharValue(y as int % 16 * 4 + z as int / 64);
    B64CharValue(z as int % 64);
    GroupArithmetic(x as int, y as int, z as int);
  }

  lemma Group2RoundTrip(x: byte, y: byte)
    ensures var g := Group2(x, y); Ungroup2(g[0], g[1], g[2]) == [x, y]
    ensures DecodeDigits(Group2(x, y)) == [x, y]
  {
    B64CharValue(x as int / 4);
    B64CharValue(x as int % 4 * 16 + y as int / 16);
    B64CharValue(y as int % 16 * 4);
    GroupArithmetic(x as int, y as int, 0);
  }

  lemma Group1RoundTrip(x: byte)
    ensures var g := Group1(x); Ungroup1(g[0], g[1]) == [x]
    ensures DecodeDigits(Group1(x)) == [x]
  {
    B64CharValue(x as int / 4);
    B64CharValue(x as int % 4 * 16);
    GroupArithmetic(x as int, 0, 0);
  }

  /** Decoding a full group followed by more characters. */
  lemma DecodeGroupThenRest(g: string, rest: string)
    requires |g| == 4 && AllB64(g) && AllB64(rest) && |rest| % 4 != 1
    ensures AllB64(g + rest) && |g + rest| % 4 != 1
    ensures DecodeDigits(g + rest) == Ungroup3(g[0], g[1], g[2], g[3]) + DecodeDigits(rest)
  {
    AllB64Append(g, rest);
    var s := g + rest;
    assert s[0] == g[0] && s[1] == g[1] && s[2] == g[2] && s[3] == g[3];
    assert s[4..] == rest;
  }

  lemma {:induction false} DigitsRoundTrip(b: seq<byte>)
    ensures DecodeDigits(Base64Digits(b)) == b
    decreases |b|
  {
    if |b| == 1 {
      assert Base64Digits(b) == Group1(b[0]);
      Group1RoundTrip(b[0]);
      assert b == [b[0]];
    } else if |b| == 2 {
      assert Base64Digits(b) == Group2(b[0], b[1]);
      Group2RoundTrip(b[0], b[1]);
      assert b == [b[0], b[1]];
    } else if |b| >= 3 {
      var g := Group3(b[0], b[1], b[2]);
      var rest := Base64Digits(b[3..]);
      assert Base64Digits(b) == g + rest;
      DecodeGroupThenRest(g, rest);
      DigitsRoundTrip(b[3..]);
      Group3RoundTrip(b[0], b[1], b[2]);
      assert b == [b[0], b[1], b[2]] + b[3..];
    }
  }

  /** Stripping the padding of n input bytes off digits of the matching
      length leaves the digits. */
  lemma StripPadOf(d: string, n: nat)
    requires AllB64(d)
    requires |d| % 4 == (if n % 3 == 0 then 0 else n % 3 + 1)
    ensures StripPad(d + Padding(n)) == d
  {
    var s := d + Padding(n);
    if n % 3 == 1 {
      assert s[|s| - 2..] == "==";
      assert s[..|s| - 2] == d;
    } else if n % 3 == 2 {
      assert s[|s| - 2] == d[|d| - 1];
      assert s[|s| - 1] == '=';
      assert s[..|s| - 1] == d;
    } else if |d| > 0 {
      assert s == d;
      assert IsB64Char(s[|s| - 1]);
    }
  }

  /** What atob keeps of btoa's output once padding is gone: exactly the
      alphabet characters. */
  lemma StripPadding(b: seq<byte>)
    ensures StripPad(Base64Encode(b)) == Base64Digits(b)
  {
    StripPadOf(Base64Digits(b), |b|);
  }

  /** btoa's output holds no whitespace. */
  lemma EncodedHasNoSpace(b: seq<byte>)
    ensures Filter(Base64Encode(b), NotAsciiSpace) == Base64Encode(b)
  {
    var d := Base64Digits(b);
    var s := Base64Encode(b);
    forall i | 0 <= i < |s|
      ensures NotAsciiSpace(s[i])
    {
      if i < |d| { assert s[i] == d[i]; } else { assert s[i] == '='; }
    }
    FilterAll(s, NotAsciiSpace);
  }

  /** Base64 round trip: atob(btoa(bytes)) gives back the same bytes. */
  lemma Base64RoundTrip(b: seq<byte>)
    ensures Base64Decode(Base64Encode(b)) == Some(b)
  {
    EncodedHasNoSpace(b);
    StripPadding(b);
    DigitsRoundTrip(b);
  }

  /** arrayBufferToBase64: the loop writes each byte as the character with
      that code, then btoa encodes the binary string. */
  method ArrayBufferToBase64(bytes: seq<byte>) returns (s: string)
    ensures s == Base64Encode(bytes)
    ensures Base64Decode(s) == Some(bytes)
  {
    var binary: string := "";
    for i := 0 to |bytes|
      invariant |binary| == i
      invariant forall k :: 0 <= k < i ==> binary[k] as int == bytes[k] as int
    {
      binary := binary + [bytes[i] as int as char];
    }
    var codes := seq(|binary|, k requires 0 <= k < |binary| => binary[k] as int as byte);
    assert codes == bytes;
    s := Base64Encode(codes);
    Base64RoundTrip(bytes);
  }

  /** base64ToArrayBuffer: atob, then one Uint8Array slot per character code.
      None where atob throws. */
  method Base64ToArrayBuffer(s: string) returns (r: Option<seq<byte>>)
    ensures r == Base64Decode(s)
  {
    var decoded := Base64Decode(s);
    if decoded.None? {
      return None;
    }
    var binary := decoded.value;
    var bytes: seq<byte> := [];
    var i := 0;
    while i < |binary|
      invariant 0 <= i <= |binary|
      invariant bytes == binary[..i]
    {
      bytes := bytes + [binary[i]];
      i := i + 1;
    }
    assert binary[..i] == binary;
    r := Some(bytes);
  }
}
