/** lib/Acari/base64encode.cpp: base 64 as in section 4 of RFC 4648. */
module Base64 {
  import opened Bytes

  // --- The two tables -----------------------------------------------------------------------

  /** The encoding table: the upper-case letters, the lower-case letters, the digits, `+`, `/`. */
  function EncodeChar(v: nat): (c: char)
    requires v < 64
    ensures c != '='
  {
    if v < 26 then 'A' + v as char
    else if v < 52 then 'a' + (v - 26) as char
    else if v < 62 then '0' + (v - 52) as char
    else if v == 62 then '+' else '/'
  }

  /** The decoding table: -1 for what is not in the alphabet. */
  function DecodeChar(c: char): (v: int)
    ensures -1 <= v < 64
  {
    if 'A' <= c <= 'Z' then c as int - 'A' as int
    else if 'a' <= c <= 'z' then c as int - 'a' as int + 26
    else if '0' <= c <= '9' then c as int - '0' as int + 52
    else if c == '+' then 62
    else if c == '/' then 63
    else -1
  }

  lemma TablesAgree(v: nat, c: char)
    requires v < 64
    ensures DecodeChar(EncodeChar(v)) == v
    ensures DecodeChar(c) >= 0 ==> EncodeChar(DecodeChar(c)) == c
  {
  }

  // --- Encoding -----------------------------------------------------------------------------

  /** The cast to `unsigned char`. */
  function Byte(c: char): (n: nat)
    ensures n < 256
  {
    c as int % 256
  }

  predicate IsByteString(s: string) {
    forall i | 0 <= i < |s| :: s[i] as int < 256
  }

  /** Four characters for three bytes: 24 bits, six at a time. */
  function EncodeGroup(a: nat, b: nat, c: nat): (s: string)
    requires a < 256 && b < 256 && c < 256
    ensures |s| == 4
    ensures '=' !in s
  {
    [EncodeChar(a / 4), EncodeChar(a % 4 * 16 + b / 16), EncodeChar(b % 16 * 4 + c / 64), EncodeChar(c % 64)]
  }

  /** The characters before the padding. */
  function EncodeBits(s: string): string {
    if |s| == 0 then ""
    else if |s| == 1 then EncodeGroup(Byte(s[0]), 0, 0)[..2]
    else if |s| == 2 then EncodeGroup(Byte(s[0]), Byte(s[1]), 0)[..3]
    else EncodeGroup(Byte(s[0]), Byte(s[1]), Byte(s[2])) + EncodeBits(s[3..])
  }

  function Padding(n: nat): string {
    if n % 3 == 1 then "==" else if n % 3 == 2 then "=" else ""
  }

  function Encode(s: string): string {
    EncodeBits(s) + Padding(|s|)
  }

  lemma {:induction false} BitsLength(s: string)
    ensures |EncodeBits(s)| == |s| / 3 * 4 + (if |s| % 3 == 0 then 0 else |s| % 3 + 1)
    ensures '=' !in EncodeBits(s)
  {
    hide EncodeGroup, Byte;
    if |s| >= 3 {
      BitsLength(s[3..]);
    }
  }

  lemma EncodeLength(s: string)
    ensures |Encode(s)| == 4 * ((|s| + 2) / 3)
  {
    hide EncodeBits;
    BitsLength(s);
  }

  lemma Digits(w: nat, x: nat, y: nat, z: nat)
    requires w < 64 && x < 64 && y < 64 && z < 64
    ensures var n := w * 0x40000 + x * 0x1000 + y * 0x40 + z;
      n / 0x40000 == w && n / 0x1000 % 64 == x && n / 0x40 % 64 == y && n % 64 == z
  {
    var n := w * 0x40000 + x * 0x1000 + y * 0x40 + z;
    assert n / 0x1000 == w * 64 + x;
    assert n / 0x40 == w * 0x1000 + x * 64 + y;
    assert (w * 64 + x) % 64 == x;
    assert (w * 0x1000 + x * 64 + y) % 64 == y;
  }

  /** The sextets of the 24 bits in `curr`, as the source masks and shifts them out. */
  lemma Sextets(a: nat, b: nat, c: nat)
    requires a < 256 && b < 256 && c < 256
    ensures var curr := a * 0x10000 + b * 0x100 + c;
      && curr / 0x40000 < 64
      && EncodeGroup(a, b, c) == [EncodeChar(curr / 0x40000), EncodeChar(curr / 0x1000 % 64),
                                  EncodeChar(curr / 0x40 % 64), EncodeChar(curr % 64)]
  {
    hide EncodeChar;
    var w, x, y, z := a / 4, a % 4 * 16 + b / 16, b % 16 * 4 + c / 64, c % 64;
    assert a * 0x10000 + b * 0x100 + c == w * 0x40000 + x * 0x1000 + y * 0x40 + z;
    Digits(w, x, y, z);
  }

  lemma EncodeStep(s: string)
    requires |s| >= 3
    ensures Encode(s) == EncodeGroup(Byte(s[0]), Byte(s[1]), Byte(s[2])) + Encode(s[3..])
  {
    hide EncodeGroup, Byte, Padding;
    SamePadding(|s|);
    assert |s[3..]| == |s| - 3;
  }

  lemma SamePadding(n: nat)
    requires n >= 3
    ensures Padding(n - 3) == Padding(n)
  {
  }

  lemma EncodeTail(s: string)
    ensures |s| == 1 ==> Encode(s) == EncodeGroup(Byte(s[0]), 0, 0)[..2] + "=="
    ensures |s| == 2 ==> Encode(s) == EncodeGroup(Byte(s[0]), Byte(s[1]), 0)[..3] + "="
    ensures |s| == 0 ==> Encode(s) == ""
  {
  }

  /** The last one or two bytes. */
  method EncodeRest(data: string, pos: nat, buffer: array<char>, dest: nat)
    requires pos < |data| <= pos + 2 && buffer.Length == dest + 4
    requires forall i | dest <= i < dest + 4 :: buffer[i] == '='
    modifies buffer
    ensures buffer[..dest] == old(buffer[..dest])
    ensures buffer[dest..] == Encode(data[pos..])
  {
    hide EncodeGroup, Encode, EncodeChar, Byte;
    var a := Byte(data[pos]);
    EncodeTail(data[pos..]);
    if |data| - pos == 2 {
      var b := Byte(data[pos + 1]);
      var curr := a * 0x10000 + b * 0x100;
      Sextets(a, b, 0);
      buffer[dest] := EncodeChar(curr / 0x40000);
      buffer[dest + 1] := EncodeChar(curr / 0x1000 % 64);
      buffer[dest + 2] := EncodeChar(curr / 0x40 % 64);
    } else {
      var curr := a * 0x10000;
      Sextets(a, 0, 0);
      buffer[dest] := EncodeChar(curr / 0x40000);
      buffer[dest + 1] := EncodeChar(curr / 0x1000 % 64);
    }
  }

  /** One group of three bytes. */
  method EncodeThree(data: string, pos: nat, buffer: array<char>, dest: nat)
    requires pos + 3 <= |data| && dest + 4 <= buffer.Length
    modifies buffer
    ensures buffer[..dest + 4] + Encode(data[pos + 3..]) == old(buffer[..dest]) + Encode(data[pos..])
    ensures buffer[dest + 4..] == old(buffer[dest + 4..])
  {
    hide Encode, EncodeGroup, EncodeChar;
    var a, b, c := Byte(data[pos]), Byte(data[pos + 1]), Byte(data[pos + 2]);
    var curr := a * 0x10000 + b * 0x100 + c;
    Sextets(a, b, c);
    EncodeStep(data[pos..]);
    ghost var done, group := buffer[..dest], EncodeGroup(a, b, c);
    buffer[dest] := EncodeChar(curr / 0x40000);
    buffer[dest + 1] := EncodeChar(curr / 0x1000 % 64);
    buffer[dest + 2] := EncodeChar(curr / 0x40 % 64);
    buffer[dest + 3] := EncodeChar(curr % 64);
    assert buffer[..dest + 4] == done + group;
    assert data[pos..][3..] == data[pos + 3..];
    assert done + group + Encode(data[pos + 3..]) == done + (group + Encode(data[pos + 3..]));
  }

  /** Four characters for each three bytes, or what is left of them. */
  function PaddedSize(length: nat): nat {
    length / 3 * 4 + if length % 3 == 0 then 0 else 4
  }

  lemma PaddedStep(length: nat)
    ensures length >= 3 ==> PaddedSize(length) == PaddedSize(length - 3) + 4
    ensures length < 3 ==> PaddedSize(length) == if length == 0 then 0 else 4
  {
  }

  method Base64Encode(data: string) returns (r: string)
    ensures r == Encode(data)
  {
    hide Encode, EncodeGroup, EncodeChar, EncodeBits, PaddedSize;
    var length := |data|;
    var buffer := new char[PaddedSize(length)](_ => '=');
    var pos, dest := 0, 0;
    assert data[0..] == data && buffer[..0] + Encode(data) == Encode(data);
    while pos + 3 <= length
      invariant pos <= length && dest + PaddedSize(length - pos) == buffer.Length
      invariant forall i | dest <= i < buffer.Length :: buffer[i] == '='
      invariant buffer[..dest] + Encode(data[pos..]) == Encode(data)
    {
      PaddedStep(length - pos);
      ghost var rest := buffer[dest + 4..];
      EncodeThree(data, pos, buffer, dest);
      assert forall i | dest + 4 <= i < buffer.Length ::
        buffer[i] == buffer[dest + 4..][i - dest - 4] == rest[i - dest - 4];
      pos, dest := pos + 3, dest + 4;
    }
    PaddedStep(length - pos);
    EncodeTail(data[pos..]);
    if pos != length {
      EncodeRest(data, pos, buffer, dest);
    }
    assert buffer[..] == buffer[..dest] + buffer[dest..];
    r := buffer[..];
  }

  // --- Decoding -----------------------------------------------------------------------------

  function StripPadding(s: string): string {
    if s != "" && s[|s| - 1] == '=' then StripPadding(s[..|s| - 1]) else s
  }

  function DecodeGroup(w: nat, x: nat, y: nat, z: nat): (s: string)
    requires w < 64 && x < 64 && y < 64 && z < 64
    ensures |s| == 3
  {
    [(w * 4 + x / 16) as char, (x % 16 * 16 + y / 4) as char, (y % 4 * 64 + z) as char]
  }

  predicate InAlphabet(s: string) {
    forall i | 0 <= i < |s| :: DecodeChar(s[i]) >= 0
  }

  function DecodeBits(s: string): string
    requires InAlphabet(s) && |s| % 4 != 1
  {
    if |s| == 0 then ""
    else if |s| == 2 then DecodeGroup(DecodeChar(s[0]), DecodeChar(s[1]), 0, 0)[..1]
    else if |s| == 3 then DecodeGroup(DecodeChar(s[0]), DecodeChar(s[1]), DecodeChar(s[2]), 0)[..2]
    else DecodeGroup(DecodeChar(s[0]), DecodeChar(s[1]), DecodeChar(s[2]), DecodeChar(s[3])) + DecodeBits(s[4..])
  }

  /** What the text decodes to; nothing when it is not base 64. */
  function Decode(s: string): string {
    var t := StripPadding(s);
    if |t| % 4 == 1 || !InAlphabet(t) then "" else DecodeBits(t)
  }

  lemma Octets(w: nat, x: nat, y: nat, z: nat)
    requires w < 64 && x < 64 && y < 64 && z < 64
    ensures var value := w * 0x40000 + x * 0x1000 + y * 0x40 + z;
      value < 0x1000000 &&
      DecodeGroup(w, x, y, z) == [(value / 0x10000) as char, (value / 0x100 % 256) as char, (value % 256) as char]
  {
    var value := w * 0x40000 + x * 0x1000 + y * 0x40 + z;
    var a, b, c := w * 4 + x / 16, x % 16 * 16 + y / 4, y % 4 * 64 + z;
    assert value == a * 0x10000 + b * 0x100 + c;
    BytesOf(a, b, c);
  }

  lemma BytesOf(a: nat, b: nat, c: nat)
    requires a < 256 && b < 256 && c < 256
    ensures var value := a * 0x10000 + b * 0x100 + c;
      value < 0x1000000 && value / 0x10000 == a && value / 0x100 % 256 == b && value % 256 == c
  {
    var value := a * 0x10000 + b * 0x100 + c;
    assert value / 0x100 == a * 256 + b;
  }

  /** What is left to decode, when the characters before it were good. */
  function DecodeRest(s: string): Option<string> {
    if |s| % 4 == 1 || !InAlphabet(s) then None else Some(DecodeBits(s))
  }

  lemma InAlphabetSuffix(s: string, n: nat)
    requires n <= |s|
    ensures InAlphabet(s) <==> InAlphabet(s[..n]) && InAlphabet(s[n..])
  {
    if InAlphabet(s[..n]) && InAlphabet(s[n..]) {
      forall i | 0 <= i < |s| ensures DecodeChar(s[i]) >= 0 {
        assert s[i] == if i < n then s[..n][i] else s[n..][i - n];
      }
    }
  }

  lemma SameRest(n: nat)
    requires n >= 4
    ensures (n - 4) % 4 == n % 4
  {
  }

  lemma DecodeStep(s: string)
    requires |s| >= 4
    ensures var w, x, y, z := DecodeChar(s[0]), DecodeChar(s[1]), DecodeChar(s[2]), DecodeChar(s[3]);
      DecodeRest(s) == if w < 0 || x < 0 || y < 0 || z < 0 || DecodeRest(s[4..]).None? then None
                       else Some(DecodeGroup(w, x, y, z) + DecodeRest(s[4..]).value)
  {
    hide DecodeChar, DecodeGroup, InAlphabet;
    InAlphabetSuffix(s, 4);
    FirstFour(s);
    SameRest(|s|);
    assert |s[4..]| == |s| - 4;
  }

  lemma FirstFour(s: string)
    requires |s| >= 4
    ensures InAlphabet(s[..4])
       <==> DecodeChar(s[0]) >= 0 && DecodeChar(s[1]) >= 0 && DecodeChar(s[2]) >= 0 && DecodeChar(s[3]) >= 0
    ensures InAlphabet(s) ==> InAlphabet(s[..4])
  {
    hide DecodeChar;
    assert forall i | 0 <= i < 4 :: s[..4][i] == s[i];
  }

  lemma DecodeTail(s: string)
    requires |s| < 4
    ensures DecodeRest(s) ==
      if |s| == 0 then Some("")
      else if |s| == 1 || DecodeChar(s[0]) < 0 || DecodeChar(s[1]) < 0 then None
      else if |s| == 2 then Some(DecodeGroup(DecodeChar(s[0]), DecodeChar(s[1]), 0, 0)[..1])
      else if DecodeChar(s[2]) < 0 then None
      else Some(DecodeGroup(DecodeChar(s[0]), DecodeChar(s[1]), DecodeChar(s[2]), 0)[..2])
  {
    hide DecodeChar, DecodeGroup;
  }

  /** `done` has been written, `rest` is what comes of the rest of the text, and `whole` of all of it. */
  ghost predicate Decoding(done: string, rest: Option<string>, whole: Option<string>) {
    rest.Some? == whole.Some? && (rest.Some? ==> done + rest.value == whole.value)
  }

  /** One group of four characters. The source shifts the four table entries together and asks
      whether the result is negative, which it is when an entry is -1. */
  method DecodeFour(data: string, index: nat, decoded: array<char>, dest: nat, ghost whole: Option<string>)
    returns (ok: bool)
    requires index + 4 <= |data| && dest + 3 <= decoded.Length
    requires Decoding(decoded[..dest], DecodeRest(data[index..]), whole)
    modifies decoded
    ensures if ok then Decoding(decoded[..dest + 3], DecodeRest(data[index + 4..]), whole) else whole.None?
  {
    hide DecodeRest, DecodeGroup, DecodeChar;
    DecodeStep(data[index..]);
    assert data[index..][4..] == data[index + 4..];
    var w, x := DecodeChar(data[index]), DecodeChar(data[index + 1]);
    var y, z := DecodeChar(data[index + 2]), DecodeChar(data[index + 3]);
    if w < 0 || x < 0 || y < 0 || z < 0 {
      return false;
    }
    Octets(w, x, y, z);
    var value := w * 0x40000 + x * 0x1000 + y * 0x40 + z;
    ghost var done, group := decoded[..dest], DecodeGroup(w, x, y, z);
    decoded[dest] := (value / 0x10000) as char;
    decoded[dest + 1] := (value / 0x100 % 256) as char;
    decoded[dest + 2] := (value % 256) as char;
    assert decoded[..dest + 3] == done + group;
    if DecodeRest(data[index + 4..]).Some? {
      assert done + group + DecodeRest(data[index + 4..]).value == done + (group + DecodeRest(data[index + 4..]).value);
    }
    return true;
  }

  /** The last two or three characters. */
  method DecodeLast(data: string, index: nat, decoded: array<char>, dest: nat) returns (ok: bool)
    requires index + 2 <= |data| <= index + 3 && decoded.Length == dest + |data| - index - 1
    modifies decoded
    ensures decoded[..dest] == old(decoded[..dest])
    ensures DecodeRest(data[index..]) == if ok then Some(decoded[dest..]) else None
  {
    hide DecodeRest, DecodeGroup, DecodeChar;
    DecodeTail(data[index..]);
    var w, x := DecodeChar(data[index]), DecodeChar(data[index + 1]);
    if w < 0 || x < 0 {
      return false;
    }
    if |data| - index == 2 {
      Octets(w, x, 0, 0);
      var value := w * 0x40000 + x * 0x1000;
      decoded[dest] := (value / 0x10000) as char;
      assert decoded[dest..] == DecodeGroup(w, x, 0, 0)[..1];
    } else {
      var y := DecodeChar(data[index + 2]);
      if y < 0 {
        return false;
      }
      Octets(w, x, y, 0);
      var value := w * 0x40000 + x * 0x1000 + y * 0x40;
      decoded[dest] := (value / 0x10000) as char;
      decoded[dest + 1] := (value / 0x100 % 256) as char;
      assert decoded[dest..] == DecodeGroup(w, x, y, 0)[..2];
    }
    return true;
  }

  /** Three bytes for each four characters, and one less than what is left of them. */
  function DecodedSize(length: nat): nat {
    length / 4 * 3 + if length % 4 == 0 then 0 else length % 4 - 1
  }

  lemma SizeStep(length: nat)
    ensures length >= 4 ==> DecodedSize(length) == DecodedSize(length - 4) + 3 && length % 4 == (length - 4) % 4
    ensures length < 4 ==> DecodedSize(length) == if length == 0 then 0 else length - 1
  {
  }

  /** The groups of a text without padding. */
  method DecodeAll(data: string) returns (r: string)
    requires |data| % 4 != 1
    ensures r == if DecodeRest(data).Some? then DecodeRest(data).value else ""
  {
    hide DecodeRest, DecodeGroup, DecodeChar, DecodedSize, Decoding;
    var length := |data|;
    ghost var whole := DecodeRest(data);
    var decoded := new char[DecodedSize(length)](_ => '-');
    var index, dest := 0, 0;
    StartsDecoding(data);
    while index + 4 <= length
      invariant index <= length && (length - index) % 4 != 1
      invariant dest + DecodedSize(length - index) == decoded.Length
      invariant Decoding(decoded[..dest], DecodeRest(data[index..]), whole)
    {
      SizeStep(length - index);
      var ok := DecodeFour(data, index, decoded, dest, whole);
      if !ok {
        return "";
      }
      index, dest := index + 4, dest + 3;
    }
    SizeStep(length - index);
    var ok := true;
    if index != length {
      ok := DecodeLast(data, index, decoded, dest);
    }
    EndsDecoding(data[index..], decoded[..dest], decoded[dest..], ok, whole);
    r := if ok then decoded[..] else "";
    assert decoded[..] == decoded[..dest] + decoded[dest..];
  }

  lemma StartsDecoding(data: string)
    ensures Decoding("", DecodeRest(data[0..]), DecodeRest(data))
  {
    assert data[0..] == data;
    assert DecodeRest(data).Some? ==> "" + DecodeRest(data).value == DecodeRest(data).value;
  }

  lemma EndsDecoding(rest: string, done: string, last: string, ok: bool, whole: Option<string>)
    requires Decoding(done, DecodeRest(rest), whole)
    requires if rest == "" then last == "" && ok else DecodeRest(rest) == if ok then Some(last) else None
    ensures whole == if ok then Some(done + last) else None
  {
    DecodeTail("");
  }

  method Base64Decode(data: string) returns (r: string)
    ensures r == Decode(data)
  {
    var length := |data|;
    assert data[..length] == data;
    while length > 0 && data[length - 1] == '='
      invariant length <= |data|
      invariant StripPadding(data[..length]) == StripPadding(data)
    {
      assert data[..length][..length - 1] == data[..length - 1];
      length := length - 1;
    }
    if length % 4 == 1 {
      return "";
    }
    r := DecodeAll(data[..length]);
  }

  // --- Round trips ----------------------------------------------------------------------------

  lemma Ungroup(a: nat, b: nat, c: nat)
    requires a < 256 && b < 256 && c < 256
    ensures var w, x, y, z := a / 4, a % 4 * 16 + b / 16, b % 16 * 4 + c / 64, c % 64;
      && w < 64 && x < 64 && y < 64 && z < 64
      && w * 4 + x / 16 == a && x % 16 * 16 + y / 4 == b && y % 4 * 64 + z == c
  {
    var x, y := a % 4 * 16 + b / 16, b % 16 * 4 + c / 64;
    assert x / 16 == a % 4 && x % 16 == b / 16;
    assert y / 4 == b % 16 && y % 4 == c / 64;
  }

  lemma GroupThere(a: nat, b: nat, c: nat)
    requires a < 256 && b < 256 && c < 256
    ensures var g := EncodeGroup(a, b, c);
      var w, x, y, z := DecodeChar(g[0]), DecodeChar(g[1]), DecodeChar(g[2]), DecodeChar(g[3]);
      && w >= 0 && x >= 0 && y >= 0 && z >= 0
      && DecodeGroup(w, x, y, z) == [a as char, b as char, c as char]
      && (b == c == 0 ==> y == 0) && (c == 0 ==> z == 0)
  {
    hide EncodeChar, DecodeChar;
    Ungroup(a, b, c);
    TablesAgree(a / 4, ' ');
    TablesAgree(a % 4 * 16 + b / 16, ' ');
    TablesAgree(b % 16 * 4 + c / 64, ' ');
    TablesAgree(c % 64, ' ');
  }

  lemma {:induction false} BitsThereAndBack(s: string)
    requires IsByteString(s)
    ensures DecodeRest(EncodeBits(s)) == Some(s)
  {
    hide EncodeGroup, DecodeGroup, DecodeRest, DecodeChar, InAlphabet;
    if |s| >= 3 {
      var t := EncodeBits(s);
      var a, b, c := Byte(s[0]), Byte(s[1]), Byte(s[2]);
      var g := EncodeGroup(a, b, c);
      GroupThere(a, b, c);
      BitsThereAndBack(s[3..]);
      assert t == g + EncodeBits(s[3..]) && t[4..] == EncodeBits(s[3..]);
      DecodeStep(t);
      assert t[0] == g[0] && t[1] == g[1] && t[2] == g[2] && t[3] == g[3];
      assert s[..3] == [s[0], s[1], s[2]] && s == s[..3] + s[3..];
    } else {
      TailThereAndBack(s);
    }
  }

  lemma CharOfByte(c: char)
    requires c as int < 256
    ensures Byte(c) as char == c
  {
  }

  lemma TailThereAndBack(s: string)
    requires IsByteString(s) && |s| < 3
    ensures DecodeRest(EncodeBits(s)) == Some(s)
  {
    hide EncodeGroup, DecodeGroup, DecodeRest, DecodeChar, InAlphabet, Byte;
    var t := EncodeBits(s);
    DecodeTail(t);
    forall i | 0 <= i < |s| ensures Byte(s[i]) as char == s[i] { CharOfByte(s[i]); }
    if |s| == 2 {
      var g := EncodeGroup(Byte(s[0]), Byte(s[1]), 0);
      GroupThere(Byte(s[0]), Byte(s[1]), 0);
      assert t == g[..3] && s == [s[0], s[1]];
      assert DecodeGroup(DecodeChar(g[0]), DecodeChar(g[1]), DecodeChar(g[2]), 0)[..2] == s;
    } else if |s| == 1 {
      var g := EncodeGroup(Byte(s[0]), 0, 0);
      GroupThere(Byte(s[0]), 0, 0);
      assert t == g[..2] && s == [s[0]];
      assert DecodeGroup(DecodeChar(g[0]), DecodeChar(g[1]), 0, 0)[..1] == s;
    }
  }

  lemma StripPadded(t: string, n: nat)
    requires t != "" ==> t[|t| - 1] != '='
    requires n <= 2
    ensures StripPadding(t + (if n == 2 then "==" else if n == 1 then "=" else "")) == t
  {
    assert StripPadding(t) == t;
    assert t + "" == t;
    assert (t + "=")[..|t|] == t;
    assert StripPadding(t + "=") == t;
    assert (t + "==")[..|t| + 1] == t + "=";
  }

  /** Decoding undoes encoding, for every byte string. */
  lemma DecodeEncode(s: string)
    requires IsByteString(s)
    ensures Decode(Encode(s)) == s
  {
    hide EncodeBits, DecodeBits;
    BitsThereAndBack(s);
    BitsLength(s);
    StripPadded(EncodeBits(s), |Padding(|s|)|);
  }

  /** The character that encodes the same used bits and no others. */
  function ClearBits(c: char, unused: nat): char
    requires DecodeChar(c) >= 0 && unused > 0
  {
    EncodeChar(Cleared(DecodeChar(c), unused))
  }

  function Cleared(v: nat, unused: nat): (r: nat)
    requires unused > 0
    ensures r <= v
  {
    v - v % unused
  }

  /** The text an encoder would have written: the unused low bits of the last character are
      zero, and the length is padded to a multiple of four. */
  function Canonical(t: string): string
    requires InAlphabet(t) && |t| % 4 != 1
  {
    if |t| % 4 == 2 then t[..|t| - 1] + [ClearBits(t[|t| - 1], 16)] + "=="
    else if |t| % 4 == 3 then t[..|t| - 1] + [ClearBits(t[|t| - 1], 4)] + "="
    else t
  }

  lemma Regroup(w: nat, x: nat, y: nat, z: nat)
    requires w < 64 && x < 64 && y < 64 && z < 64
    ensures var a, b, c := w * 4 + x / 16, x % 16 * 16 + y / 4, y % 4 * 64 + z;
      && a < 256 && b < 256 && c < 256
      && a / 4 == w
      && a % 4 * 16 == x - x % 16 && a % 4 * 16 + b / 16 == x
      && b % 16 * 4 == y - y % 4 && b % 16 * 4 + c / 64 == y
      && c % 64 == z
  {
    var a, b, c := w * 4 + x / 16, x % 16 * 16 + y / 4, y % 4 * 64 + z;
    assert a % 4 == x / 16 && b / 16 == x % 16;
    assert b % 16 == y / 4 && c / 64 == y % 4;
  }

  lemma GroupBack(w: nat, x: nat, y: nat, z: nat)
    requires w < 64 && x < 64 && y < 64 && z < 64
    ensures var g := DecodeGroup(w, x, y, z);
      && EncodeGroup(Byte(g[0]), Byte(g[1]), Byte(g[2])) == [EncodeChar(w), EncodeChar(x), EncodeChar(y), EncodeChar(z)]
      && EncodeGroup(Byte(g[0]), 0, 0)[..2] == [EncodeChar(w), EncodeChar(Cleared(x, 16))]
      && EncodeGroup(Byte(g[0]), Byte(g[1]), 0)[..3] == [EncodeChar(w), EncodeChar(x), EncodeChar(Cleared(y, 4))]
  {
    hide EncodeChar, EncodeGroup, Byte;
    var a, b, c := w * 4 + x / 16, x % 16 * 16 + y / 4, y % 4 * 64 + z;
    Regroup(w, x, y, z);
    ByteOf(a);
    ByteOf(b);
    ByteOf(c);
    GroupIs(a, b, c, w, x, y, z);
    GroupIs(a, 0, 0, w, Cleared(x, 16), 0, 0);
    GroupIs(a, b, 0, w, x, Cleared(y, 4), 0);
  }

  lemma GroupIs(a: nat, b: nat, c: nat, w: nat, x: nat, y: nat, z: nat)
    requires a < 256 && b < 256 && c < 256
    requires w == a / 4 && x == a % 4 * 16 + b / 16 && y == b % 16 * 4 + c / 64 && z == c % 64
    ensures w < 64 && x < 64 && y < 64 && z < 64
    ensures EncodeGroup(a, b, c) == [EncodeChar(w), EncodeChar(x), EncodeChar(y), EncodeChar(z)]
  {
    hide EncodeChar;
  }

  lemma ByteOf(n: nat)
    requires n < 256
    ensures Byte(n as char) == n
  {
  }

  lemma CanonicalStep(t: string)
    requires InAlphabet(t) && |t| % 4 != 1 && |t| >= 4
    ensures InAlphabet(t[4..]) && Canonical(t) == t[..4] + Canonical(t[4..])
  {
    hide DecodeChar, ClearBits, InAlphabet;
    InAlphabetSuffix(t, 4);
    var u := t[4..];
    SameRest(|t|);
    assert t == t[..4] + u;
    if |t| % 4 != 0 {
      assert t[..|t| - 1] == t[..4] + u[..|u| - 1] && t[|t| - 1] == u[|u| - 1];
      LastIsIn(t);
      LastIsIn(u);
      var last := ClearBits(t[|t| - 1], if |t| % 4 == 2 then 16 else 4);
      assert t[..4] + u[..|u| - 1] + [last] == t[..4] + (u[..|u| - 1] + [last]);
    }
  }

  lemma LastIsIn(t: string)
    requires InAlphabet(t) && t != ""
    ensures DecodeChar(t[|t| - 1]) >= 0
  {
  }

  lemma DecodeBitsStep(t: string)
    requires InAlphabet(t) && |t| % 4 != 1 && |t| >= 4
    ensures InAlphabet(t[4..]) && |t[4..]| % 4 != 1
    ensures DecodeChar(t[0]) >= 0 && DecodeChar(t[1]) >= 0 && DecodeChar(t[2]) >= 0 && DecodeChar(t[3]) >= 0
    ensures DecodeBits(t)
         == DecodeGroup(DecodeChar(t[0]), DecodeChar(t[1]), DecodeChar(t[2]), DecodeChar(t[3])) + DecodeBits(t[4..])
  {
    hide DecodeChar, DecodeGroup, InAlphabet;
    Entries(t);
    InAlphabetSuffix(t, 4);
    SameRest(|t|);
    assert |t[4..]| == |t| - 4;
  }

  lemma {:induction false} EncodeDecodeBits(t: string)
    requires InAlphabet(t) && |t| % 4 != 1
    ensures Encode(DecodeBits(t)) == Canonical(t)
  {
    hide DecodeChar, EncodeChar, EncodeGroup, DecodeGroup, DecodeBits, Encode, InAlphabet, Canonical, Byte;
    if |t| >= 4 {
      DecodeBitsStep(t);
      var group := DecodeGroup(DecodeChar(t[0]), DecodeChar(t[1]), DecodeChar(t[2]), DecodeChar(t[3]));
      GroupOfFour(t);
      CanonicalStep(t);
      EncodeDecodeBits(t[4..]);
      var s := DecodeBits(t);
      assert s[0] == group[0] && s[1] == group[1] && s[2] == group[2] && s[3..] == DecodeBits(t[4..]);
      EncodeStep(s);
    } else {
      EncodeDecodeTail(t);
    }
  }

  lemma GroupOfFour(t: string)
    requires |t| >= 4
    requires DecodeChar(t[0]) >= 0 && DecodeChar(t[1]) >= 0 && DecodeChar(t[2]) >= 0 && DecodeChar(t[3]) >= 0
    ensures var g := DecodeGroup(DecodeChar(t[0]), DecodeChar(t[1]), DecodeChar(t[2]), DecodeChar(t[3]));
      EncodeGroup(Byte(g[0]), Byte(g[1]), Byte(g[2])) == t[..4]
  {
    hide DecodeChar, EncodeChar, EncodeGroup, DecodeGroup, Byte;
    TablesAgree(0, t[0]);
    TablesAgree(0, t[1]);
    TablesAgree(0, t[2]);
    TablesAgree(0, t[3]);
    GroupBack(DecodeChar(t[0]), DecodeChar(t[1]), DecodeChar(t[2]), DecodeChar(t[3]));
  }

  lemma EncodeDecodeTail(t: string)
    requires InAlphabet(t) && |t| % 4 != 1 && |t| < 4
    ensures Encode(DecodeBits(t)) == Canonical(t)
  {
    hide DecodeChar, EncodeGroup, DecodeGroup, DecodeBits, Encode, Canonical, Byte;
    if |t| == 0 {
      assert t == "" && DecodeBits("") == "" by { NothingToDecode(); }
      EncodeTail("");
      assert Canonical("") == "" by { NothingToDecode(); }
    } else {
      var w, x, y := DecodeChar(t[0]), DecodeChar(t[1]), if |t| == 3 then DecodeChar(t[2]) else 0;
      var g := DecodeGroup(w, x, y, 0);
      GroupBack(w, x, y, 0);
      ShortDecoded(t, w, x, y, g);
      ShortCanonical(t);
      EncodeTail(if |t| == 2 then [g[0]] else [g[0], g[1]]);
    }
  }

  lemma NothingToDecode()
    ensures DecodeBits("") == "" && Canonical("") == ""
  {
  }

  lemma ShortDecoded(t: string, w: nat, x: nat, y: nat, g: string)
    requires InAlphabet(t) && 2 <= |t| <= 3
    requires w == DecodeChar(t[0]) && x == DecodeChar(t[1]) && y == (if |t| == 3 then DecodeChar(t[2]) else 0)
    requires g == DecodeGroup(w, x, y, 0)
    ensures DecodeBits(t) == if |t| == 2 then [g[0]] else [g[0], g[1]]
  {
    hide DecodeChar, DecodeGroup;
  }

  lemma ShortCanonical(t: string)
    requires InAlphabet(t) && 2 <= |t| <= 3
    ensures DecodeChar(t[0]) >= 0 && DecodeChar(t[1]) >= 0
    ensures |t| == 2 ==>
      Canonical(t) == [EncodeChar(DecodeChar(t[0])), EncodeChar(Cleared(DecodeChar(t[1]), 16)), '=', '=']
    ensures |t| == 3 ==> DecodeChar(t[2]) >= 0
    ensures |t| == 3 ==>
      Canonical(t) == [EncodeChar(DecodeChar(t[0])), EncodeChar(DecodeChar(t[1])),
                       EncodeChar(Cleared(DecodeChar(t[2]), 4)), '=']
  {
    hide DecodeChar, EncodeChar, Cleared;
    TablesAgree(0, t[0]);
    TablesAgree(0, t[1]);
  }

  lemma Entries(t: string)
    requires InAlphabet(t)
    ensures forall i | 0 <= i < |t| :: DecodeChar(t[i]) >= 0
  {
  }

  lemma DecodeBitsNonEmpty(t: string)
    requires InAlphabet(t) && |t| % 4 != 1
    ensures DecodeBits(t) != "" <==> t != ""
  {
  }

  /** Text decodes to something exactly when what is left without its padding is not empty, is in
      the alphabet and is not one character too long; encoding that gives its canonical form. */
  lemma EncodeDecode(s: string)
    ensures var t := StripPadding(s);
      && (Decode(s) != "" <==> t != "" && InAlphabet(t) && |t| % 4 != 1)
      && (Decode(s) != "" ==> Encode(Decode(s)) == Canonical(t))
  {
    hide DecodeBits, Encode, Canonical;
    var t := StripPadding(s);
    if InAlphabet(t) && |t| % 4 != 1 {
      DecodeBitsNonEmpty(t);
      EncodeDecodeBits(t);
    }
  }

  /** Unused bits that are set are lost. */
  lemma NotCanonical()
    ensures Decode("QR==") == "A" && Encode("A") == "QQ=="
  {
    assert StripPadding("QR==") == "QR" by { Unpadded(); }
  }

  lemma Unpadded()
    ensures StripPadding("QR==") == "QR"
  {
    assert "QR=="[..3] == "QR=" && "QR="[..2] == "QR";
  }

  /** The alphabet (RFC 4648, table 1), by the codes of its characters: A-Z, a-z, 0-9, + and /. */
  lemma Alphabet(v: nat)
    requires v < 64
    ensures v < 26 ==> EncodeChar(v) as int == 65 + v
    ensures 26 <= v < 52 ==> EncodeChar(v) as int == 97 + v - 26
    ensures 52 <= v < 62 ==> EncodeChar(v) as int == 48 + v - 52
    ensures v == 62 ==> EncodeChar(v) as int == 43
    ensures v == 63 ==> EncodeChar(v) as int == 47
  {
  }

  /** Three bytes and four characters are the same 24 bits, the first bits first. */
  lemma SameBits(a: nat, b: nat, c: nat)
    requires a < 256 && b < 256 && c < 256
    ensures var g := EncodeGroup(a, b, c);
      var w, x, y, z := DecodeChar(g[0]), DecodeChar(g[1]), DecodeChar(g[2]), DecodeChar(g[3]);
      ((w * 64 + x) * 64 + y) * 64 + z == (a * 256 + b) * 256 + c
  {
    hide EncodeChar, DecodeChar;
    TablesAgree(a / 4, ' ');
    Ungroup(a, b, c);
    TablesAgree(a % 4 * 16 + b / 16, ' ');
    TablesAgree(b % 16 * 4 + c / 64, ' ');
    TablesAgree(c % 64, ' ');
  }

  lemma ExampleGroups()
    ensures EncodeGroup(102, 0, 0) == "ZgAA"
    ensures EncodeGroup(102, 111, 0) == "Zm8A"
    ensures EncodeGroup(102, 111, 111) == "Zm9v"
    ensures Byte('f') == 102 && Byte('o') == 111
  {
    assert EncodeChar(25) == 'Z' && EncodeChar(32) == 'g' && EncodeChar(38) == 'm' && EncodeChar(0) == 'A';
    assert EncodeChar(60) == '8' && EncodeChar(61) == '9' && EncodeChar(47) == 'v';
  }

  /** Examples of section 10 of RFC 4648. */
  lemma Examples()
    ensures Encode("") == "" && Encode("f") == "Zg==" && Encode("fo") == "Zm8=" && Encode("foo") == "Zm9v"
  {
    hide Encode, EncodeGroup, Byte;
    ExampleGroups();
    EncodeTail("");
    EncodeTail("f");
    EncodeTail("fo");
    EncodeStep("foo");
    assert "foo"[3..] == "";
    assert "ZgAA"[..2] + "==" == "Zg==" && "Zm8A"[..3] + "=" == "Zm8=" && "Zm9v" + "" == "Zm9v";
  }
}
