/** lib/Acari/urlencode.cpp: percent-encoding, with the safe characters of section 2.2 of RFC 1738. */
module UrlEncode {
  import opened Bytes
  import opened Base64

  predicate IsSafe(c: char, keepSlash: bool) {
    || In(Digit, c)
    || In(Letter, c)
    || c in {'$', '-', '_', '.', '+', '!', '*', '\'', '(', ')', ','}
    || (keepSlash && c == '/')
  }

  /** The lower-case digits that `%02x` prints. */
  function HexDigit(n: nat): char
    requires n < 16
  {
    if n < 10 then '0' + n as char else 'a' + (n - 10) as char
  }

  predicate IsHexDigit(c: char) {
    '0' <= c <= '9' || 'a' <= c <= 'f' || 'A' <= c <= 'F'
  }

  function HexValue(c: char): (n: nat)
    requires IsHexDigit(c)
    ensures n < 16
  {
    if c <= '9' then c as int - '0' as int
    else if c <= 'F' then c as int - 'A' as int + 10
    else c as int - 'a' as int + 10
  }

  function EncodeChar(c: char, keepSlash: bool): (t: string)
    ensures t != ""
  {
    if IsSafe(c, keepSlash) then [c] else ['%', HexDigit(Byte(c) / 16), HexDigit(Byte(c) % 16)]
  }

  function Encode(s: string, keepSlash: bool): string {
    if s == "" then "" else EncodeChar(s[0], keepSlash) + Encode(s[1..], keepSlash)
  }

  predicate IsTriple(t: string) {
    |t| >= 3 && t[0] == '%' && IsHexDigit(t[1]) && IsHexDigit(t[2])
  }

  function TripleValue(t: string): char
    requires IsTriple(t)
  {
    (HexValue(t[1]) * 16 + HexValue(t[2])) as char
  }

  function Decode(t: string): string {
    if t == "" then ""
    else if IsTriple(t) then [TripleValue(t)] + Decode(t[3..])
    else [t[0]] + Decode(t[1..])
  }

  // --- The loops ------------------------------------------------------------------------------

  lemma {:induction false} EncodeConcat(s: string, s': string, keepSlash: bool)
    ensures Encode(s + s', keepSlash) == Encode(s, keepSlash) + Encode(s', keepSlash)
  {
    if s == "" {
      assert s + s' == s';
    } else {
      assert (s + s')[1..] == s[1..] + s';
      EncodeConcat(s[1..], s', keepSlash);
    }
  }

  method UrlEncode(target: string, keepSlash: bool) returns (dest: string)
    ensures dest == Encode(target, keepSlash)
  {
    dest := "";
    var i := 0;
    while i < |target|
      invariant i <= |target|
      invariant dest == Encode(target[..i], keepSlash)
    {
      assert target[..i + 1] == target[..i] + [target[i]];
      EncodeConcat(target[..i], [target[i]], keepSlash);
      assert Encode([target[i]], keepSlash) == EncodeChar(target[i], keepSlash) + "";
      if !IsSafe(target[i], keepSlash) {
        dest := dest + ['%', HexDigit(Byte(target[i]) / 16), HexDigit(Byte(target[i]) % 16)];
      } else {
        dest := dest + [target[i]];
      }
      i := i + 1;
    }
    assert target[..i] == target;
  }

  lemma DecodeFrom(t: string, i: nat)
    requires i < |t|
    ensures if t[i] == '%' && i + 2 < |t| && IsHexDigit(t[i + 1]) && IsHexDigit(t[i + 2])
            then Decode(t[i..]) == [(HexValue(t[i + 1]) * 16 + HexValue(t[i + 2])) as char] + Decode(t[i + 3..])
            else Decode(t[i..]) == [t[i]] + Decode(t[i + 1..])
  {
    hide IsHexDigit, HexValue;
    var rest := t[i..];
    assert rest[1..] == t[i + 1..];
    assert i + 3 <= |t| ==> rest[3..] == t[i + 3..];
  }

  method UrlDecode(target: string) returns (result: string)
    ensures result == Decode(target)
  {
    hide Decode, HexValue, IsHexDigit;
    result := "";
    var i := 0;
    assert target[0..] == target && result + Decode(target) == Decode(target);
    while i != |target|
      invariant i <= |target|
      invariant result + Decode(target[i..]) == Decode(target)
    {
      DecodeFrom(target, i);
      var c := target[i];
      var n := i + 1;
      if target[i] == '%' && i + 1 != |target| && i + 2 != |target|
         && IsHexDigit(target[i + 1]) && IsHexDigit(target[i + 2]) {
        c := (HexValue(target[i + 1]) * 16 + HexValue(target[i + 2])) as char;
        n := n + 2;
      }
      assert result + ([c] + Decode(target[n..])) == result + [c] + Decode(target[n..]);
      result, i := result + [c], n;
    }
    DecodeEmpty(target[i..]);
    assert result + "" == result;
  }

  lemma DecodeEmpty(t: string)
    requires t == ""
    ensures Decode(t) == ""
  {
  }

  // --- Round trips ------------------------------------------------------------------------------

  lemma HexThere(n: nat)
    requires n < 256
    ensures IsHexDigit(HexDigit(n / 16)) && IsHexDigit(HexDigit(n % 16))
    ensures HexValue(HexDigit(n / 16)) * 16 + HexValue(HexDigit(n % 16)) == n
  {
  }

  /** What one character was encoded to decodes to it. */
  lemma DecodeUnit(c: char, keepSlash: bool, rest: string)
    requires c as int < 256
    ensures Decode(EncodeChar(c, keepSlash) + rest) == [c] + Decode(rest)
  {
    hide IsHexDigit, HexDigit, HexValue;
    var t := EncodeChar(c, keepSlash) + rest;
    assert t[|EncodeChar(c, keepSlash)|..] == rest;
    if IsSafe(c, keepSlash) {
      assert t[0] == c != '%';
    } else {
      HexThere(Byte(c));
      assert t[0] == '%' && t[1] == HexDigit(Byte(c) / 16) && t[2] == HexDigit(Byte(c) % 16);
    }
  }

  /** Decoding undoes encoding, for every byte string and both values of the flag. */
  lemma {:induction false} DecodeEncode(s: string, keepSlash: bool)
    requires IsByteString(s)
    ensures Decode(Encode(s, keepSlash)) == s
  {
    if s != "" {
      hide EncodeChar, Encode, Decode;
      EncodeHead(s, keepSlash);
      DecodeUnit(s[0], keepSlash, Encode(s[1..], keepSlash));
      DecodeEncode(s[1..], keepSlash);
      assert s == [s[0]] + s[1..];
    } else {
      assert s == "";
    }
  }

  lemma EncodeHead(s: string, keepSlash: bool)
    requires s != ""
    ensures Encode(s, keepSlash) == EncodeChar(s[0], keepSlash) + Encode(s[1..], keepSlash)
  {
  }

  /** Safe characters, and lower-case triples of characters that are not safe. */
  predicate IsEncoded(t: string, keepSlash: bool) {
    t == "" ||
    (if IsTriple(t)
     then t[1] == HexDigit(HexValue(t[1])) && t[2] == HexDigit(HexValue(t[2]))
          && !IsSafe(TripleValue(t), keepSlash) && IsEncoded(t[3..], keepSlash)
     else IsSafe(t[0], keepSlash) && IsEncoded(t[1..], keepSlash))
  }

  lemma HexBack(x: char, y: char)
    requires IsHexDigit(x) && IsHexDigit(y)
    ensures var n := HexValue(x) * 16 + HexValue(y); n < 256 && n / 16 == HexValue(x) && n % 16 == HexValue(y)
  {
  }

  lemma HexDigits(n: nat)
    requires n < 16
    ensures IsHexDigit(HexDigit(n))
  {
  }

  lemma TripleUnit(t: string, keepSlash: bool, rest: string)
    requires IsTriple(t)
    ensures EncodeChar(TripleValue(t), keepSlash) + rest == t
       <==> t[1] == HexDigit(HexValue(t[1])) && t[2] == HexDigit(HexValue(t[2]))
            && !IsSafe(TripleValue(t), keepSlash) && rest == t[3..]
  {
    hide IsHexDigit, HexDigit, HexValue, IsSafe, TripleValue, Byte;
    TripleByte(t);
    var c := TripleValue(t);
    if IsSafe(c, keepSlash) {
      PercentIsNotSafe(keepSlash);
      assert t[0] == '%';
      assert ([c] + rest)[0] == c;
    } else {
      var x, y := HexDigit(HexValue(t[1])), HexDigit(HexValue(t[2]));
      ThreeAndRest('%', x, y, rest, t);
    }
  }

  lemma TripleByte(t: string)
    requires IsTriple(t)
    ensures Byte(TripleValue(t)) / 16 == HexValue(t[1]) && Byte(TripleValue(t)) % 16 == HexValue(t[2])
    ensures HexValue(t[1]) < 16 && HexValue(t[2]) < 16
  {
    hide IsHexDigit, HexValue, Byte;
    HexBack(t[1], t[2]);
    ByteOf(HexValue(t[1]) * 16 + HexValue(t[2]));
  }

  lemma PercentIsNotSafe(keepSlash: bool)
    ensures !IsSafe('%', keepSlash)
  {
  }

  lemma ThreeAndRest(a: char, b: char, c: char, rest: string, t: string)
    requires |t| >= 3
    ensures [a, b, c] + rest == t <==> t[0] == a && t[1] == b && t[2] == c && rest == t[3..]
  {
    var u := [a, b, c] + rest;
    assert u[0] == a && u[1] == b && u[2] == c && u[3..] == rest;
    assert t == [t[0], t[1], t[2]] + t[3..];
  }

  lemma PlainUnit(t: string, keepSlash: bool, rest: string)
    requires t != "" && !IsTriple(t)
    ensures EncodeChar(t[0], keepSlash) + rest == t <==> IsSafe(t[0], keepSlash) && rest == t[1..]
  {
    hide IsHexDigit, HexDigit, HexValue, IsSafe;
    var head := EncodeChar(t[0], keepSlash);
    HexDigits(Byte(t[0]) / 16);
    HexDigits(Byte(t[0]) % 16);
    assert (head + rest)[|head|..] == rest;
    assert t == [t[0]] + t[1..];
    assert |head| == 3 ==> IsTriple(head + rest);
  }

  /** The encoder's output is exactly the text that encoding its decoding reproduces: only safe
      characters and well-formed triples. */
  lemma {:induction false} EncodeDecode(t: string, keepSlash: bool)
    ensures Encode(Decode(t), keepSlash) == t <==> IsEncoded(t, keepSlash)
    decreases |t|
  {
    if t != "" {
      hide Encode, IsSafe, HexDigit, HexValue, IsTriple, EncodeChar;
      var s := Decode(t);
      EncodeHead(s, keepSlash);
      if IsTriple(t) {
        var tail := t[if |t| >= 3 then 3 else 0..];
        TripleIsLong(t);
        EncodeDecode(tail, keepSlash);
        assert s[1..] == Decode(tail);
        TripleUnit(t, keepSlash, Encode(s[1..], keepSlash));
      } else {
        EncodeDecode(t[1..], keepSlash);
        assert s[1..] == Decode(t[1..]);
        PlainUnit(t, keepSlash, Encode(s[1..], keepSlash));
      }
    }
  }

  lemma TripleIsLong(t: string)
    requires IsTriple(t)
    ensures |t| >= 3
  {
  }

  lemma {:induction false} EncodeIsEncoded(s: string, keepSlash: bool)
    requires IsByteString(s)
    ensures IsEncoded(Encode(s, keepSlash), keepSlash)
  {
    DecodeEncode(s, keepSlash);
    EncodeDecode(Encode(s, keepSlash), keepSlash);
  }

  /** A safe character that was encoded all the same. */
  lemma NotEncoded()
    ensures Decode("%41") == "A" && Encode("A", true) == "A"
  {
    assert "%41"[3..] == "" && "A"[1..] == "";
  }

  // --- The characters ---------------------------------------------------------------------------

  /** The safe characters, by their codes: digits, letters, and `$ - _ . + ! * ' ( ) ,`. */
  lemma SafeCharacters(c: char, keepSlash: bool)
    ensures IsSafe(c, keepSlash) <==>
      || 48 <= c as int <= 57 || 65 <= c as int <= 90 || 97 <= c as int <= 122
      || c as int in {36, 45, 95, 46, 43, 33, 42, 39, 40, 41, 44}
      || (keepSlash && c as int == 47)
  {
  }

  /** Both cases of hexadecimal digits are read, and the lower case is written. */
  lemma HexCharacters(n: nat)
    requires n < 16
    ensures HexDigit(n) == "0123456789abcdef"[n]
    ensures IsHexDigit("0123456789abcdef"[n]) && HexValue("0123456789abcdef"[n]) == n
    ensures IsHexDigit("0123456789ABCDEF"[n]) && HexValue("0123456789ABCDEF"[n]) == n
  {
  }

  lemma OnlyHexCharacters(c: char)
    ensures IsHexDigit(c) <==> 48 <= c as int <= 57 || 65 <= c as int <= 70 || 97 <= c as int <= 102
  {
  }

  /** What a triple stands for, in either case. */
  lemma TripleOf(x: char, y: char, rest: string)
    requires IsHexDigit(x) && IsHexDigit(y)
    ensures Decode(['%', x, y] + rest) == [(16 * HexValue(x) + HexValue(y)) as char] + Decode(rest)
  {
    hide IsHexDigit, HexValue;
    var t := ['%', x, y] + rest;
    assert t[3..] == rest;
  }
}
