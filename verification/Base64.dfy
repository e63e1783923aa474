/** base64.js, with its bit operations and its loops. */
module Base64 {
  import opened Texts
  import opened Bits
  import opened Base64Codes
  import opened Base64Meaning

  // ----- The bit operations, one expression at a time.

  lemma LeadByte2(c: nat)
    requires c < 2048
    ensures Or(Shr(c, 6), 192) == 192 + c / 64
  {
    Shifts(c);
    MarkBits(c / 64);
  }

  lemma LeadByte3(c: nat)
    requires c < 0x10000
    ensures Or(Shr(c, 12), 224) == 224 + c / 4096
  {
    Shifts(c);
    MarkBits(c / 4096);
  }

  lemma TailByte(c: nat)
    ensures Or(And(c, 63), 128) == 128 + c % 64
  {
    Masks(c);
    MarkBits(c % 64);
  }

  lemma MiddleByte(c: nat)
    ensures Or(And(Shr(c, 6), 63), 128) == 128 + (c / 64) % 64
  {
    Shifts(c);
    TailByte(c / 64);
  }

  lemma TwoBytes(c: nat, c2: nat)
    ensures Or(Shl(And(c, 31), 6), And(c2, 63)) == 64 * (c % 32) + c2 % 64
  {
    Masks(c);
    Masks(c2);
    Ors(c % 32, c2 % 64);
  }

  lemma ThreeBytes(c: nat, c2: nat, c3: nat)
    ensures Or(Or(Shl(And(c, 15), 12), Shl(And(c2, 63), 6)), And(c3, 63)) == 4096 * (c % 16) + 64 * (c2 % 64) + c3 % 64
  {
    Masks(c);
    Masks(c2);
    Masks(c3);
    Join(c % 16, c2 % 64, c3 % 64);
  }

  lemma Join(a: nat, b: nat, c: nat)
    requires b < 64 && c < 64
    ensures Or(Or(Shl(a, 12), Shl(b, 6)), c) == 4096 * a + 64 * b + c
  {
    hide Or, Shl, Pow2;
    Shifts(b);
    Ors(a, 64 * b);
    Shifts(64 * a + b);
    Ors(64 * a + b, c);
  }

  lemma SecondDigit(x: nat, y: nat)
    requires y < 256
    ensures Or(Shl(And(x, 3), 4), Shr(y, 4)) == 16 * (x % 4) + y / 16
  {
    Masks(x);
    Shifts(y);
    Ors(x % 4, y / 16);
  }

  lemma ThirdDigit(x: nat, y: nat)
    requires y < 256
    ensures Or(Shl(And(x, 15), 2), Shr(y, 6)) == 4 * (x % 16) + y / 64
  {
    Masks(x);
    Shifts(y);
    Ors(x % 16, y / 64);
  }

  lemma SecondByte(x: nat, y: nat)
    requires y <= 63
    ensures Or(Shl(And(x, 15), 4), Shr(y, 2)) == 16 * (x % 16) + y / 4
  {
    Masks(x);
    Shifts(y);
    Ors(x % 16, y / 4);
  }

  // ----- The loops

  /** One round of `_utf8_encode`. */
  method AppendUnit(utftext: Text, c: Unit) returns (r: Text)
    ensures r == utftext + UnitBytes(c)
  {
    if c < 128 {
      r := utftext + [c];
    } else if 127 < c < 2048 {
      LeadByte2(c);
      TailByte(c);
      r := utftext + [Or(Shr(c, 6), 192)];
      r := r + [Or(And(c, 63), 128)];
    } else {
      LeadByte3(c);
      MiddleByte(c);
      TailByte(c);
      r := utftext + [Or(Shr(c, 12), 224)];
      r := r + [Or(And(Shr(c, 6), 63), 128)];
      r := r + [Or(And(c, 63), 128)];
    }
  }

  lemma Utf8Next(s: Text, n: nat, before: Text, piece: Text)
    requires n < |s| && piece == UnitBytes(s[n])
    ensures (before + piece) + Utf8(s[n + 1..]) == before + Utf8(s[n..])
  {
    assert s[n..][1..] == s[n + 1..];
    assert (before + piece) + Utf8(s[n + 1..]) == before + (piece + Utf8(s[n + 1..]));
  }

  /** `_utf8_encode` */
  method Utf8Encode(input: Text) returns (utftext: Text)
    ensures utftext == Utf8(Newlines(input))
    ensures IsUtf8Text(Newlines(input), utftext)
  {
    var s := Newlines(input);
    Utf8Means(s);
    utftext := [];
    var n := 0;
    while n < |s|
      invariant n <= |s| && utftext + Utf8(s[n..]) == Utf8(s)
    {
      Utf8Next(s, n, utftext, UnitBytes(s[n]));
      utftext := AppendUnit(utftext, s[n]);
      n := n + 1;
    }
  }

  /** The digits of one round of `encode`. */
  method EncodeDigits(t: Text, i: nat) returns (q: Quad)
    requires IsBytes(t) && i < |t|
    ensures q == Digits(t, i)
  {
    var chr1, chr2, chr3 := t[i], CodeAt(t, i + 1), CodeAt(t, i + 2);
    Shifts(chr1);
    SecondDigit(chr1, chr2);
    ThirdDigit(chr2, chr3);
    Masks(chr3);
    var enc1 := Shr(chr1, 2);
    var enc2 := Or(Shl(And(chr1, 3), 4), Shr(chr2, 4));
    var enc3 := Or(Shl(And(chr2, 15), 2), Shr(chr3, 6));
    var enc4 := And(chr3, 63);
    if i + 1 >= |t| {
      enc3, enc4 := 64, 64;
    } else if i + 2 >= |t| {
      enc4 := 64;
    }
    return Quad(enc1, enc2, enc3, enc4);
  }

  /** `encode` */
  method Encode(input: Text) returns (output: Text)
    ensures output == EncodeText(input)
    ensures exists t :: IsUtf8Text(Newlines(input), t) && IsBase64(t, output)
  {
    hide IsUtf8Text, IsBase64, Digits, KeyAt;
    var t := Utf8Encode(input);
    output := [];
    var i := 0;
    while i < |t|
      invariant output + EncodeFrom(t, i) == EncodeFrom(t, 0)
      decreases |t| - i
    {
      var q := EncodeDigits(t, i);
      ghost var before, rest := output, EncodeFrom(t, i + 3);
      output := output + [KeyAt(q.enc1)] + [KeyAt(q.enc2)] + [KeyAt(q.enc3)] + [KeyAt(q.enc4)];
      assert output == before + Characters(q);
      assert (before + Characters(q)) + rest == before + (Characters(q) + rest);
      i := i + 3;
    }
    EncodeMeans(t);
  }

  /** The code of two bytes, and of three. */
  method CodeOfTwo(c: Unit, c2: Unit) returns (r: Unit)
    ensures r == 64 * (c % 32) + c2 % 64
  {
    TwoBytes(c, c2);
    SmallCode(64 * (c % 32) + c2 % 64);
    r := FromCode(Or(Shl(And(c, 31), 6), And(c2, 63)));
  }

  method CodeOfThree(c: Unit, c2: Unit, c3: Unit) returns (r: Unit)
    ensures r == 4096 * (c % 16) + 64 * (c2 % 64) + c3 % 64
  {
    ThreeBytes(c, c2, c3);
    SmallCode(4096 * (c % 16) + 64 * (c2 % 64) + c3 % 64);
    r := FromCode(Or(Or(Shl(And(c, 15), 12), Shl(And(c2, 63), 6)), And(c3, 63)));
  }

  lemma SmallCode(x: nat)
    ensures x < 0x10000 ==> FromCode(x) == x
  {
  }

  /** One round of `_utf8_decode`. */
  method DecodeUnit(t: Text, i: nat) returns (c: Unit, n: nat)
    requires i < |t|
    ensures (c, n) == ReadUnit(t[i], CodeAt(t, i + 1), CodeAt(t, i + 2))
  {
    if t[i] < 128 {
      return t[i], 1;
    } else if 191 < t[i] < 224 {
      c := CodeOfTwo(t[i], CodeAt(t, i + 1));
      return c, 2;
    }
    c := CodeOfThree(t[i], CodeAt(t, i + 1), CodeAt(t, i + 2));
    return c, 3;
  }

  /** `_utf8_decode` */
  method Utf8Decode(utftext: Text) returns (s: Text)
    ensures s == FromUtf8(utftext, 0)
  {
    s := [];
    var i := 0;
    while i < |utftext|
      invariant s + FromUtf8(utftext, i) == FromUtf8(utftext, 0)
      decreases |utftext| - i
    {
      var c, n := DecodeUnit(utftext, i);
      assert (s + [c]) + FromUtf8(utftext, i + n) == s + ([c] + FromUtf8(utftext, i + n));
      s := s + [c];
      i := i + n;
    }
  }

  /** The three characters of one round of `decode`. */
  method FirstCharacter(enc1: nat, enc2: nat) returns (r: Unit)
    ensures r == FromCode(Or(4 * enc1, enc2 / 16))
  {
    Shifts(enc1);
    Shifts(enc2);
    r := FromCode(Or(Shl(enc1, 2), Shr(enc2, 4)));
  }

  method SecondCharacter(enc2: nat, enc3: nat) returns (r: Unit)
    requires enc3 <= 63
    ensures r == FromCode(16 * (enc2 % 16) + enc3 / 4)
  {
    SecondByte(enc2, enc3);
    r := FromCode(Or(Shl(And(enc2, 15), 4), Shr(enc3, 2)));
  }

  method LowBits(x: nat) returns (r: nat)
    ensures r == x % 4
  {
    Masks(x);
    r := And(x, 3);
  }

  method ThirdCharacter(enc3: nat, enc4: nat) returns (r: Unit)
    requires enc4 <= 63
    ensures r == FromCode(64 * (enc3 % 4) + enc4)
  {
    var low := LowBits(enc3);
    Ors(low, enc4);
    r := FromCode(Or(Shl(low, 6), enc4));
  }

  /** One round of `decode`. */
  method AppendBytes(output: Text, q: Quad) returns (r: Text)
    requires InRange(q)
    ensures r == output + Bytes(q)
  {
    var chr1 := FirstCharacter(q.enc1, q.enc2);
    r := output + [chr1];
    if q.enc3 != 64 {
      var chr2 := SecondCharacter(q.enc2, q.enc3);
      r := r + [chr2];
    }
    if q.enc4 != 64 {
      var chr3 := ThirdCharacter(q.enc3, q.enc4);
      r := r + [chr3];
    }
  }

  lemma DecodeNext(u: Text, i: nat, before: Text, piece: Text)
    requires AllInKey(u) && i < |u| && piece == Bytes(QuadAt(u, i))
    ensures (before + piece) + DecodeFrom(u, i + 4) == before + DecodeFrom(u, i)
  {
    assert (before + piece) + DecodeFrom(u, i + 4) == before + (piece + DecodeFrom(u, i + 4));
  }

  /** The loop of `decode`. */
  method DecodeBytes(u: Text) returns (output: Text)
    requires AllInKey(u)
    ensures output == DecodeFrom(u, 0)
  {
    output := [];
    var i := 0;
    while i < |u|
      invariant output + DecodeFrom(u, i) == DecodeFrom(u, 0)
      decreases |u| - i
    {
      DecodeNext(u, i, output, Bytes(QuadAt(u, i)));
      output := AppendBytes(output, QuadAt(u, i));
      i := i + 4;
    }
    assert output + [] == output;
  }

  /** `decode` */
  method Decode(input: Text) returns (s: Text)
    ensures s == DecodeText(input)
    ensures forall written, t :: IsUtf8Text(written, t) && IsBase64(t, KeyOnly(input)) ==> s == written
  {
    forall written, t | IsUtf8Text(written, t) && IsBase64(t, KeyOnly(input))
      ensures DecodeText(input) == written
    {
      DecodeMeans(written, t, input);
    }
    var output := DecodeBytes(KeyOnly(input));
    s := Utf8Decode(output);
  }

  /** What the two loops do to a string, one after the other. */
  method RoundTrip(s: Text) returns (back: Text)
    ensures back == Newlines(s)
  {
    var output := Encode(s);
    back := Decode(output);
    DecodeEncode(s);
  }
}
