/** What the two encodings are by their standards, stated apart from the functions of Base64Codes. */
module Base64Meaning {
  import opened Texts
  import opened Bits
  import opened Base64Codes

  // ----- UTF-8: section 3 of RFC 3629

  /** The table of RFC 3629: the lead byte tells the size, tail bytes are 10xxxxxx, and the bits
      marked x are those of the number. */
  ghost predicate IsUtf8(c: Unit, b: Text) {
    if c <= 0x7F then b == [c]
    else if c <= 0x7FF then
      |b| == 2 && 0xC0 <= b[0] <= 0xDF && 0x80 <= b[1] <= 0xBF && c == (b[0] - 0xC0) * 0x40 + (b[1] - 0x80)
    else
      && |b| == 3 && 0xE0 <= b[0] <= 0xEF && 0x80 <= b[1] <= 0xBF && 0x80 <= b[2] <= 0xBF
      && c == (b[0] - 0xE0) * 0x1000 + (b[1] - 0x80) * 0x40 + (b[2] - 0x80)
  }

  /** The bytes are those of the units, one after the other. */
  ghost predicate IsUtf8Text(s: Text, t: Text)
    decreases |s|
  {
    if s == [] then t == []
    else exists n :: 1 <= n <= |t| && IsUtf8(s[0], t[..n]) && IsUtf8Text(s[1..], t[n..])
  }

  lemma BytesMean(c: Unit)
    ensures IsUtf8(c, UnitBytes(c))
  {
    SixBits(c);
  }

  lemma {:induction false} Utf8Means(s: Text)
    ensures IsUtf8Text(s, Utf8(s))
    decreases |s|
  {
    if s != [] {
      var b, t := UnitBytes(s[0]), Utf8(s);
      BytesMean(s[0]);
      hide IsUtf8, UnitBytes;
      Utf8Means(s[1..]);
      assert t[..|b|] == b && t[|b|..] == Utf8(s[1..]);
    }
  }

  /** The standard leaves no choice. */
  lemma {:induction false} Utf8Unique(s: Text, t: Text)
    requires IsUtf8Text(s, t)
    ensures t == Utf8(s)
    decreases |s|
  {
    if s != [] {
      var n :| 1 <= n <= |t| && IsUtf8(s[0], t[..n]) && IsUtf8Text(s[1..], t[n..]);
      hide IsUtf8, IsUtf8Text, UnitBytes;
      BytesUnique(s[0], t[..n]);
      Utf8Unique(s[1..], t[n..]);
      Cut(t, n);
    }
  }

  lemma Cut(t: Text, n: nat)
    requires n <= |t|
    ensures t == t[..n] + t[n..]
  {
  }

  lemma BytesUnique(c: Unit, b: Text)
    requires IsUtf8(c, b)
    ensures b == UnitBytes(c)
  {
    if 0x80 <= c <= 0x7FF {
      RemIs(c, 64, b[0] - 0xC0, b[1] - 0x80);
    } else if 0x800 <= c {
      RemIs(c, 64, (b[0] - 0xE0) * 0x40 + (b[1] - 0x80), b[2] - 0x80);
      RemIs(c / 64, 64, b[0] - 0xE0, b[1] - 0x80);
      assert c / 4096 == b[0] - 0xE0;
    }
  }

  /** Every carriage return with a line feed after it is left out, and nothing else is changed. */
  lemma {:induction false} NewlinesMean(a: Text, b: Text)
    ensures Newlines(a + [0x0D, 0x0A] + b) == Newlines(a) + [0x0A] + Newlines(b)
    decreases |a|
  {
    var s := a + [0x0D, 0x0A] + b;
    if a == [] {
      assert s[2..] == b;
    } else if |a| >= 2 && a[0] == 0x0D && a[1] == 0x0A {
      NewlinesMean(a[2..], b);
      assert s[2..] == a[2..] + [0x0D, 0x0A] + b;
    } else {
      NewlinesMean(a[1..], b);
      assert s[1..] == a[1..] + [0x0D, 0x0A] + b;
    }
  }

  lemma {:induction false} NewlinesKeep(s: Text)
    requires forall i :: 0 <= i < |s| - 1 ==> s[i] != 0x0D || s[i + 1] != 0x0A
    ensures Newlines(s) == s
    decreases |s|
  {
    if s != [] {
      NewlinesKeep(s[1..]);
      assert |s| >= 2 ==> s[0] != 0x0D || s[0 + 1] != 0x0A;
    }
  }

  // ----- Base64: section 4 of RFC 4648

  /** Table 1 of RFC 4648. */
  const ALPHABET: string := "ABCDEFGHIJKLMNOPQRSTUVWXYZ" + "abcdefghijklmnopqrstuvwxyz" + "0123456789" + "+/"

  const PAD: char := '='

  function Letter(d: nat): char
    requires d < 64
  {
    assert |ALPHABET| == 64;
    ALPHABET[d]
  }

  lemma KeyIsLetter(k: nat)
    requires k < 64
    ensures KeyAt(k) == Letter(k) as int
  {
  }

  lemma KeyIsPad()
    ensures KeyAt(64) == PAD as int
  {
  }

  /** Bit j of the bytes, eight to a byte and the highest first; zero past the end. */
  function ByteBit(t: Text, j: nat): (b: nat)
    ensures b < 2
  {
    if j / 8 < |t| then t[j / 8] / Pow2(7 - j % 8) % 2 else 0
  }

  /** The k-th group of six bits of the bytes. */
  function SixBitsAt(t: Text, k: nat): (d: nat)
    ensures d < 64
  {
    32 * ByteBit(t, 6 * k) + 16 * ByteBit(t, 6 * k + 1) + 8 * ByteBit(t, 6 * k + 2)
    + 4 * ByteBit(t, 6 * k + 3) + 2 * ByteBit(t, 6 * k + 4) + ByteBit(t, 6 * k + 5)
  }

  /** Every group of six bits with a bit of a byte in it is a letter of the alphabet, and pads fill
      the last four characters. */
  ghost predicate IsBase64(t: Text, u: Text) {
    && |u| == 4 * ((|t| + 2) / 3)
    && forall k :: 0 <= k < |u| ==> u[k] == (if 6 * k < 8 * |t| then Letter(SixBitsAt(t, k)) else PAD) as int
  }

  lemma ByteBitAt(t: Text, p: nat, r: nat)
    requires r < 8
    ensures ByteBit(t, 8 * p + r) == CodeAt(t, p) / Pow2(7 - r) % 2
  {
    assert (8 * p + r) / 8 == p && (8 * p + r) % 8 == r;
    assert 0 / Pow2(7 - r) == 0;
  }

  function Bit(x: nat, r: nat): nat
    requires r < 8
  {
    x / Pow2(7 - r) % 2
  }

  lemma Powers()
    ensures Pow2(0) == 1 && Pow2(1) == 2 && Pow2(2) == 4 && Pow2(3) == 8
    ensures Pow2(4) == 16 && Pow2(5) == 32 && Pow2(6) == 64 && Pow2(7) == 128
  {
    assert Pow2(2) == 4;
    assert Pow2(4) == 16;
    assert Pow2(6) == 64;
  }

  lemma BitIs(x: nat)
    ensures Bit(x, 0) == x / 128 % 2 && Bit(x, 1) == x / 64 % 2 && Bit(x, 2) == x / 32 % 2 && Bit(x, 3) == x / 16 % 2
    ensures Bit(x, 4) == x / 8 % 2 && Bit(x, 5) == x / 4 % 2 && Bit(x, 6) == x / 2 % 2 && Bit(x, 7) == x % 2
  {
    Powers();
  }

  lemma Halves(x: nat)
    ensures x / 4 == x / 2 / 2 && x / 8 == x / 4 / 2 && x / 16 == x / 8 / 2
    ensures x / 32 == x / 16 / 2 && x / 64 == x / 32 / 2 && x / 128 == x / 64 / 2
  {
  }

  /** A byte cut after six bits, after four and after two. */
  lemma Cuts(x: nat)
    requires x < 256
    ensures x / 4 == 32 * Bit(x, 0) + 16 * Bit(x, 1) + 8 * Bit(x, 2) + 4 * Bit(x, 3) + 2 * Bit(x, 4) + Bit(x, 5)
    ensures x % 4 == 2 * Bit(x, 6) + Bit(x, 7)
    ensures x / 16 == 8 * Bit(x, 0) + 4 * Bit(x, 1) + 2 * Bit(x, 2) + Bit(x, 3)
    ensures x % 16 == 8 * Bit(x, 4) + 4 * Bit(x, 5) + 2 * Bit(x, 6) + Bit(x, 7)
    ensures x / 64 == 2 * Bit(x, 0) + Bit(x, 1)
    ensures x % 64 ==
            32 * Bit(x, 2) + 16 * Bit(x, 3) + 8 * Bit(x, 4) + 4 * Bit(x, 5) + 2 * Bit(x, 6) + Bit(x, 7)
  {
    hide Bit;
    BitIs(x);
    Halves(x);
  }

  /** The eight bits of the p-th byte, at position j. */
  lemma ByteBits(t: Text, p: nat, j: nat)
    requires j == 8 * p
    ensures ByteBit(t, j) == Bit(CodeAt(t, p), 0) && ByteBit(t, j + 1) == Bit(CodeAt(t, p), 1)
    ensures ByteBit(t, j + 2) == Bit(CodeAt(t, p), 2) && ByteBit(t, j + 3) == Bit(CodeAt(t, p), 3)
    ensures ByteBit(t, j + 4) == Bit(CodeAt(t, p), 4) && ByteBit(t, j + 5) == Bit(CodeAt(t, p), 5)
    ensures ByteBit(t, j + 6) == Bit(CodeAt(t, p), 6) && ByteBit(t, j + 7) == Bit(CodeAt(t, p), 7)
  {
    hide ByteBit;
    ByteBitAt(t, p, 0);
    ByteBitAt(t, p, 1);
    ByteBitAt(t, p, 2);
    ByteBitAt(t, p, 3);
    ByteBitAt(t, p, 4);
    ByteBitAt(t, p, 5);
    ByteBitAt(t, p, 6);
    ByteBitAt(t, p, 7);
  }

  lemma SixAt(t: Text, k: nat, j: nat)
    requires j == 6 * k
    ensures SixBitsAt(t, k) ==
            32 * ByteBit(t, j) + 16 * ByteBit(t, j + 1) + 8 * ByteBit(t, j + 2)
            + 4 * ByteBit(t, j + 3) + 2 * ByteBit(t, j + 4) + ByteBit(t, j + 5)
  {
    hide ByteBit;
  }

  lemma CodeIsByte(t: Text, p: nat)
    requires IsBytes(t)
    ensures CodeAt(t, p) < 256
  {
  }

  lemma SixBitsOfGroup(t: Text, q: nat)
    requires IsBytes(t)
    ensures SixBitsAt(t, 4 * q) == CodeAt(t, 3 * q) / 4
    ensures SixBitsAt(t, 4 * q + 1) == 16 * (CodeAt(t, 3 * q) % 4) + CodeAt(t, 3 * q + 1) / 16
    ensures SixBitsAt(t, 4 * q + 2) == 4 * (CodeAt(t, 3 * q + 1) % 16) + CodeAt(t, 3 * q + 2) / 64
    ensures SixBitsAt(t, 4 * q + 3) == CodeAt(t, 3 * q + 2) % 64
  {
    hide Bit, ByteBit, SixBitsAt, CodeAt;
    CodeIsByte(t, 3 * q);
    CodeIsByte(t, 3 * q + 1);
    CodeIsByte(t, 3 * q + 2);
    ByteBits(t, 3 * q, 24 * q);
    ByteBits(t, 3 * q + 1, 24 * q + 8);
    ByteBits(t, 3 * q + 2, 24 * q + 16);
    assert SixBitsAt(t, 4 * q) == CodeAt(t, 3 * q) / 4 by {
      SixAt(t, 4 * q, 24 * q);
      Cuts(CodeAt(t, 3 * q));
    }
    assert SixBitsAt(t, 4 * q + 1) == 16 * (CodeAt(t, 3 * q) % 4) + CodeAt(t, 3 * q + 1) / 16 by {
      SixAt(t, 4 * q + 1, 24 * q + 6);
      Cuts(CodeAt(t, 3 * q));
      Cuts(CodeAt(t, 3 * q + 1));
    }
    assert SixBitsAt(t, 4 * q + 2) == 4 * (CodeAt(t, 3 * q + 1) % 16) + CodeAt(t, 3 * q + 2) / 64 by {
      SixAt(t, 4 * q + 2, 24 * q + 12);
      Cuts(CodeAt(t, 3 * q + 1));
      Cuts(CodeAt(t, 3 * q + 2));
    }
    assert SixBitsAt(t, 4 * q + 3) == CodeAt(t, 3 * q + 2) % 64 by {
      SixAt(t, 4 * q + 3, 24 * q + 18);
      Cuts(CodeAt(t, 3 * q + 2));
    }
  }

  /** The four characters of a group. */
  lemma GroupMeans(t: Text, q: nat, k: nat)
    requires IsBytes(t) && 3 * q < |t| && k < 4
    ensures Characters(Digits(t, 3 * q))[k] ==
            (if 6 * (4 * q + k) < 8 * |t| then Letter(SixBitsAt(t, 4 * q + k)) else PAD) as int
  {
    hide SixBitsAt, KeyAt, Letter;
    SixBitsOfGroup(t, q);
    KeyIsPad();
    KeyIsLetter(SixBitsAt(t, 4 * q + k));
  }

  lemma {:induction false} EncodeFromMeans(t: Text, q: nat, k: nat)
    requires IsBytes(t) && k < |EncodeFrom(t, 3 * q)|
    ensures EncodeFrom(t, 3 * q)[k] ==
            (if 6 * (4 * q + k) < 8 * |t| then Letter(SixBitsAt(t, 4 * q + k)) else PAD) as int
    decreases |t| - 3 * q
  {
    hide SixBitsAt, KeyAt, Letter, Digits, Characters;
    assert 3 * q < |t|;
    if k < 4 {
      GroupMeans(t, q, k);
    } else {
      assert 3 * q + 3 == 3 * (q + 1);
      EncodeFromMeans(t, q + 1, k - 4);
      assert 4 * (q + 1) + (k - 4) == 4 * q + k;
    }
  }

  /** The encoding is that of the standard. */
  lemma EncodeMeans(t: Text)
    requires IsBytes(t)
    ensures IsBase64(t, EncodeFrom(t, 0))
  {
    hide SixBitsAt, KeyAt, Letter;
    EncodedLength(t, 0);
    forall k | 0 <= k < |EncodeFrom(t, 0)|
      ensures EncodeFrom(t, 0)[k] == (if 6 * k < 8 * |t| then Letter(SixBitsAt(t, k)) else PAD) as int
    {
      EncodeFromMeans(t, 0, k);
    }
  }

  /** The standard leaves no choice here either. */
  lemma Base64Unique(t: Text, u: Text)
    requires IsBytes(t) && IsBase64(t, u)
    ensures u == EncodeFrom(t, 0)
  {
    EncodeMeans(t);
  }

  lemma {:induction false} KeyOnlyAt(a: Text, c: Unit, b: Text)
    ensures KeyOnly(a + [c] + b) == KeyOnly(a) + ((if InKey(c) then [c] else []) + KeyOnly(b))
    decreases |a|
  {
    hide InKey;
    if a == [] {
      assert a + [c] + b == [c] + b && ([c] + b)[1..] == b;
    } else {
      KeyOnlyAt(a[1..], c, b);
      assert a + [c] + b == [a[0]] + (a[1..] + [c] + b);
      assert ([a[0]] + (a[1..] + [c] + b))[1..] == a[1..] + [c] + b;
      var head := if InKey(a[0]) then [a[0]] else [];
      InFront(head, KeyOnly(a[1..]), (if InKey(c) then [c] else []) + KeyOnly(b));
    }
  }

  lemma InFront(head: Text, a: Text, b: Text)
    ensures head + (a + b) == (head + a) + b
  {
  }

  /** A character is kept if it is a letter of the alphabet or the pad, wherever it stands. */
  lemma KeyOnlyMeans(a: Text, c: Unit, b: Text)
    ensures KeyOnly(a + [c] + b) ==
            if c == PAD as int || exists d :: 0 <= d < 64 && c == Letter(d) as int
            then KeyOnly(a) + [c] + KeyOnly(b) else KeyOnly(a) + KeyOnly(b)
  {
    hide InKey, Letter, KeyOnly;
    KeyOnlyAt(a, c, b);
    KeptIsLetter(c);
    InFront(KeyOnly(a), [c], KeyOnly(b));
    assert [] + KeyOnly(b) == KeyOnly(b);
  }

  lemma KeptIsLetter(c: Unit)
    ensures InKey(c) <==> c == PAD as int || exists d :: 0 <= d < 64 && c == Letter(d) as int
  {
    hide Letter;
    forall d | 0 <= d < 64
      ensures KeyAt(d) == Letter(d) as int
    {
      KeyIsLetter(d);
    }
    if InKey(c) && KeyIndex(c) < 64 {
      assert c == Letter(KeyIndex(c)) as int;
    }
  }

  /** What the two standards make of a string is decoded to that string, whatever stands between the
      characters of the alphabet. */
  lemma DecodeMeans(s: Text, t: Text, u: Text)
    requires IsUtf8Text(s, t) && IsBase64(t, KeyOnly(u))
    ensures DecodeText(u) == s
  {
    Utf8Unique(s, t);
    Base64Unique(t, KeyOnly(u));
    EncodedInKey(t, 0);
    KeyOnlySame(KeyOnly(u));
    BytesBack(t);
    UnitsBack(s);
  }
}
