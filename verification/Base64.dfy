/** Unpadded standard base64 (sections 3.2 and 4 of RFC 4648), as Go's `base64.RawStdEncoding`
    prints and reads it. */
module Base64 {
  import opened Prelude

  type Byte = b: nat | b < 256

  type Six = v: nat | v < 64

  function Letter(v: Six): (c: char)
    ensures IsLetter(c)
  {
    if v < 26 then 'A' + v as char
    else if v < 52 then 'a' + (v - 26) as char
    else if v < 62 then '0' + (v - 52) as char
    else if v == 62 then '+' else '/'
  }

  predicate IsLetter(c: char) {
    'A' <= c <= 'Z' || 'a' <= c <= 'z' || '0' <= c <= '9' || c == '+' || c == '/'
  }

  function Value(c: char): Six
    requires IsLetter(c)
  {
    if 'A' <= c <= 'Z' then (c - 'A') as int
    else if 'a' <= c <= 'z' then (c - 'a') as int + 26
    else if '0' <= c <= '9' then (c - '0') as int + 52
    else if c == '+' then 62 else 63
  }

  lemma LetterValue(v: Six)
    ensures Value(Letter(v)) == v
  {
  }

  /** The alphabet of table 1 of RFC 4648. */
  lemma Alphabet(v: Six)
    ensures Letter(v) ==
            if v < 16 then "ABCDEFGHIJKLMNOP"[v] else if v < 32 then "QRSTUVWXYZabcdef"[v - 16]
            else if v < 48 then "ghijklmnopqrstuv"[v - 32] else "wxyz0123456789+/"[v - 48]
  {
  }

  function Encode(data: seq<Byte>): string {
    if data == [] then ""
    else if |data| == 1 then [Letter(data[0] / 4), Letter(data[0] % 4 * 16)]
    else if |data| == 2 then
      [Letter(data[0] / 4), Letter(data[0] % 4 * 16 + data[1] / 16), Letter(data[1] % 16 * 4)]
    else
      [Letter(data[0] / 4), Letter(data[0] % 4 * 16 + data[1] / 16),
       Letter(data[1] % 16 * 4 + data[2] / 64), Letter(data[2] % 64)] + Encode(data[3..])
  }

  /** The six-bit values of a text, taken four at a time; a last group of two or three carries one
      or two bytes, and its unused low bits are ignored. */
  function Bytes(s: string): Option<seq<Byte>>
    requires forall c | c in s :: IsLetter(c)
  {
    if s == "" then Some([])
    else if |s| == 1 then None
    else
      var b0: Byte := Value(s[0]) * 4 + Value(s[1]) / 16;
      if |s| == 2 then Some([b0])
      else
        var b1: Byte := Value(s[1]) % 16 * 16 + Value(s[2]) / 4;
        if |s| == 3 then Some([b0, b1])
        else
          var b2: Byte := Value(s[2]) % 4 * 64 + Value(s[3]);
          var rest := Bytes(s[4..]);
          if rest.None? then None else Some([b0, b1, b2] + rest.value)
  }

  function WithoutNewlines(s: string): string {
    if s == "" then "" else (if s[0] == '\r' || s[0] == '\n' then [] else [s[0]]) + WithoutNewlines(s[1..])
  }

  /** `DecodeString`: line breaks are skipped, any other foreign character is an error. */
  function Decode(s: string): Option<seq<Byte>> {
    var t := WithoutNewlines(s);
    if forall c | c in t :: IsLetter(c) then Bytes(t) else None
  }

  /** A line break anywhere is skipped. */
  lemma {:induction false} SkipsBreaks(a: string, b: string)
    ensures WithoutNewlines(a + "\n" + b) == WithoutNewlines(a + "\r" + b) == WithoutNewlines(a + b)
    ensures Decode(a + "\n" + b) == Decode(a + "\r" + b) == Decode(a + b)
  {
    if a == "" {
      assert (a + "\n" + b)[1..] == b && (a + "\r" + b)[1..] == b && a + b == b;
    } else {
      assert (a + "\n" + b)[1..] == a[1..] + "\n" + b && (a + "\r" + b)[1..] == a[1..] + "\r" + b;
      assert (a + b)[1..] == a[1..] + b;
      SkipsBreaks(a[1..], b);
    }
  }

  lemma {:induction false} EncodeLetters(data: seq<Byte>)
    ensures forall c | c in Encode(data) :: IsLetter(c)
  {
    hide Letter;
    if |data| > 2 { EncodeLetters(data[3..]); }
  }

  lemma {:induction false} NoNewlines(s: string)
    requires forall c | c in s :: IsLetter(c)
    ensures WithoutNewlines(s) == s
  {
    if s != "" {
      NoNewlines(s[1..]);
      assert s[0] in s && s == [s[0]] + s[1..];
    }
  }

  lemma Regroup(x: Byte, y: Byte, z: Byte)
    ensures x / 4 < 64 && x % 4 * 16 + y / 16 < 64 && y % 16 * 4 + z / 64 < 64 && z % 64 < 64
    ensures x / 4 * 4 + (x % 4 * 16 + y / 16) / 16 == x
    ensures (x % 4 * 16 + y / 16) % 16 * 16 + (y % 16 * 4 + z / 64) / 4 == y
    ensures (y % 16 * 4 + z / 64) % 4 * 64 + z % 64 == z
  {
  }

  lemma LettersValue(a: Six, b: Six, c: Six, d: Six)
    ensures Value(Letter(a)) == a && Value(Letter(b)) == b && Value(Letter(c)) == c && Value(Letter(d)) == d
  {
    hide Letter, Value, IsLetter;
    LetterValue(a); LetterValue(b); LetterValue(c); LetterValue(d);
  }

  /** Decoding an encoding gives back the bytes. */
  lemma {:induction false} RoundTrip(data: seq<Byte>)
    ensures Decode(Encode(data)) == Some(data)
  {
    EncodeLetters(data);
    NoNewlines(Encode(data));
    BytesOfEncode(data);
  }

  /** One full group. */
  lemma GroupOfThree(x: Byte, y: Byte, z: Byte, s: string)
    requires |s| >= 4 && (forall c | c in s :: IsLetter(c)) && Bytes(s[4..]).Some?
    requires s[0] == Letter(x / 4) && s[1] == Letter(x % 4 * 16 + y / 16)
    requires s[2] == Letter(y % 16 * 4 + z / 64) && s[3] == Letter(z % 64)
    ensures Bytes(s) == Some([x, y, z] + Bytes(s[4..]).value)
  {
    hide Letter, Value, IsLetter;
    Regroup(x, y, z);
    LettersValue(x / 4, x % 4 * 16 + y / 16, y % 16 * 4 + z / 64, z % 64);
  }

  lemma NoBytes()
    ensures Bytes("") == Some([])
  {
  }

  lemma OneByte(x: Byte)
    ensures Bytes([Letter(x / 4), Letter(x % 4 * 16)]) == Some([x])
  {
    hide Letter, Value, IsLetter;
    LettersValue(x / 4, x % 4 * 16, 0, 0);
    assert x % 4 * 16 / 16 == x % 4;
  }

  lemma TwoBytes(x: Byte, y: Byte)
    ensures Bytes([Letter(x / 4), Letter(x % 4 * 16 + y / 16), Letter(y % 16 * 4)]) == Some([x, y])
  {
    hide Letter, Value, IsLetter;
    LettersValue(x / 4, x % 4 * 16 + y / 16, y % 16 * 4, 0);
    Regroup(x, y, 0);
    assert y % 16 * 4 / 4 == y % 16;
  }

  lemma {:induction false} BytesOfEncode(data: seq<Byte>)
    requires forall c | c in Encode(data) :: IsLetter(c)
    ensures Bytes(Encode(data)) == Some(data)
  {
    hide Letter, Value, IsLetter, Bytes;
    if |data| <= 2 {
      if |data| > 0 { OneByte(data[0]); }
      if |data| == 2 { TwoBytes(data[0], data[1]); }
      assert data == if |data| == 0 then [] else if |data| == 1 then [data[0]] else [data[0], data[1]];
      assert Bytes("") == Some([]) by { NoBytes(); }
    } else {
      var s, rest := Encode(data), data[3..];
      assert s[4..] == Encode(rest);
      EncodeLetters(rest);
      BytesOfEncode(rest);
      GroupOfThree(data[0], data[1], data[2], s);
      assert data == [data[0], data[1], data[2]] + rest;
    }
  }

  /** The length of a text gives the number of bytes, and a length of 4k + 1 cannot be decoded. */
  lemma {:induction false} DecodedLength(s: string)
    requires forall c | c in s :: IsLetter(c)
    ensures Bytes(s).Some? <==> |s| % 4 != 1
    ensures Bytes(s).Some? ==> |Bytes(s).value| == |s| * 6 / 8
  {
    hide Value, IsLetter;
    if |s| > 3 { DecodedLength(s[4..]); }
  }

  lemma Group(x: Byte, y: Byte, z: Byte, rest: seq<Byte>)
    ensures Encode([x, y, z] + rest) ==
            [Letter(x / 4), Letter(x % 4 * 16 + y / 16), Letter(y % 16 * 4 + z / 64), Letter(z % 64)] + Encode(rest)
  {
    hide Letter;
    var data := [x, y, z] + rest;
    assert data[0] == x && data[1] == y && data[2] == z && data[3..] == rest;
  }

  lemma LastBytes()
    ensures Encode([102]) == "Zg" && Encode([102, 111]) == "Zm8"
  {
  }

  /** Test vectors of section 10 of RFC 4648, without padding: f, fo, and foo with anything after it. */
  lemma Vectors(rest: seq<Byte>)
    ensures Encode([102]) == "Zg" && Encode([102, 111]) == "Zm8"
    ensures Encode([102, 111, 111] + rest) == "Zm9v" + Encode(rest)
  {
    hide Encode;
    LastBytes();
    Group(102, 111, 111, rest);
    assert Letter(25) == 'Z' && Letter(38) == 'm' && Letter(61) == '9' && Letter(47) == 'v';
  }
}
