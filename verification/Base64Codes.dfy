/** What base64.js computes, as arithmetic on character codes.  A string is a sequence of UTF-16 code
    units; a byte string is one with units below 256. */
module Base64Codes {
  import opened Texts
  import opened Bits

  predicate IsBytes(t: Text) {
    forall i :: 0 <= i < |t| ==> t[i] < 256
  }

  /** `t.charCodeAt(i)` as the bit operations see it: NaN counts as 0. */
  function CodeAt(t: Text, i: nat): Unit {
    if i < |t| then t[i] else 0
  }

  /** `String.fromCharCode`: the lower sixteen bits. */
  function FromCode(x: nat): Unit {
    x % 0x10000
  }

  // ----- UTF-8, section 3 of RFC 3629, on single code units

  /** `replace(/\r\n/g, "\n")` */
  function Newlines(s: Text): Text {
    if |s| >= 2 && s[0] == CR && s[1] == LF then [LF] + Newlines(s[2..])
    else if s == [] then []
    else [s[0]] + Newlines(s[1..])
  }

  /** The bytes of one code unit; surrogates are taken one by one. */
  function UnitBytes(c: Unit): (r: Text)
    ensures IsBytes(r) && 1 <= |r| <= 3
  {
    if c < 128 then [c]
    else if c < 2048 then [192 + c / 64, 128 + c % 64]
    else [224 + c / 4096, 128 + (c / 64) % 64, 128 + c % 64]
  }

  function Utf8(s: Text): (t: Text)
    ensures IsBytes(t)
  {
    if s == [] then [] else UnitBytes(s[0]) + Utf8(s[1..])
  }

  /** One round of `_utf8_decode` at a byte: the unit, and how many bytes it takes. */
  function ReadUnit(c: Unit, c2: Unit, c3: Unit): (Unit, nat) {
    if c < 128 then (c, 1)
    else if 191 < c < 224 then (64 * (c % 32) + c2 % 64, 2)
    else (4096 * (c % 16) + 64 * (c2 % 64) + c3 % 64, 3)
  }

  /** The loop of `_utf8_decode` from position i on. */
  function FromUtf8(t: Text, i: nat): (s: Text)
    decreases |t| - i
  {
    if i >= |t| then []
    else var (c, n) := ReadUnit(t[i], CodeAt(t, i + 1), CodeAt(t, i + 2)); [c] + FromUtf8(t, i + n)
  }

  lemma SixBits(c: Unit)
    ensures c == 4096 * (c / 4096) + 64 * ((c / 64) % 64) + c % 64 && c / 4096 < 16
  {
  }

  /** The bytes of a unit, somewhere in a text, give the unit back. */
  lemma ReadBack(c: Unit, t: Text, i: nat)
    requires i + |UnitBytes(c)| <= |t| && t[i..i + |UnitBytes(c)|] == UnitBytes(c)
    ensures ReadUnit(t[i], CodeAt(t, i + 1), CodeAt(t, i + 2)) == (c, |UnitBytes(c)|)
  {
    var b := UnitBytes(c);
    SixBits(c);
    assert forall k :: 0 <= k < |b| ==> t[i + k] == b[k];
    assert t[i] == b[0];
    if 128 <= c {
      assert t[i + 1] == b[1];
    }
    if 2048 <= c {
      assert t[i + 2] == b[2];
    }
  }

  /** UTF-8 is undone, surrogates on their own included. */
  lemma {:induction false} Utf8RoundTrip(a: Text, s: Text)
    ensures FromUtf8(a + Utf8(s), |a|) == s
    decreases |s|
  {
    var t := a + Utf8(s);
    if s != [] {
      var b := UnitBytes(s[0]);
      assert t == (a + b) + Utf8(s[1..]);
      assert t[|a|..|a| + |b|] == b;
      ReadBack(s[0], t, |a|);
      Utf8RoundTrip(a + b, s[1..]);
      assert s == [s[0]] + s[1..];
    }
  }

  // ----- Base64, section 4 of RFC 4648

  /** `_keyStr.charAt(k)`: Table 1 of RFC 4648, and the pad. */
  function KeyAt(k: nat): Unit
    requires k <= 64
  {
    if k < 26 then 0x41 + k
    else if k < 52 then 0x61 + (k - 26)
    else if k < 62 then 0x30 + (k - 52)
    else if k == 62 then PLUS
    else if k == 63 then SLASH
    else 0x3D
  }

  predicate InKey(c: Unit) {
    0x41 <= c <= 0x5A || 0x61 <= c <= 0x7A || 0x30 <= c <= 0x39 || c == PLUS || c == SLASH || c == 0x3D
  }

  /** `_keyStr.indexOf(c)` */
  function KeyIndex(c: Unit): (k: nat)
    requires InKey(c)
    ensures k <= 64 && KeyAt(k) == c
  {
    if 0x41 <= c <= 0x5A then c - 0x41
    else if 0x61 <= c <= 0x7A then c - 0x61 + 26
    else if 0x30 <= c <= 0x39 then c - 0x30 + 52
    else if c == PLUS then 62
    else if c == SLASH then 63
    else 64
  }

  lemma KeyRoundTrip(k: nat)
    requires k <= 64
    ensures InKey(KeyAt(k)) && KeyIndex(KeyAt(k)) == k
  {
  }

  predicate AllInKey(u: Text) {
    forall k :: 0 <= k < |u| ==> InKey(u[k])
  }

  datatype Quad = Quad(enc1: nat, enc2: nat, enc3: nat, enc4: nat)

  predicate InRange(q: Quad) {
    q.enc1 <= 64 && q.enc2 <= 64 && q.enc3 <= 64 && q.enc4 <= 64
  }

  /** The four digits of the 24-bit number that three bytes make; a missing byte counts as zeros, and
      the digits that have no bits of a byte are the pad. */
  function Digits(t: Text, i: nat): (d: Quad)
    requires IsBytes(t) && i < |t|
    ensures InRange(d) && d.enc1 < 64 && d.enc2 < 64
  {
    var (chr1, chr2, chr3) := (t[i], CodeAt(t, i + 1), CodeAt(t, i + 2));
    Quad(chr1 / 4, 16 * (chr1 % 4) + chr2 / 16,
         if i + 1 >= |t| then 64 else 4 * (chr2 % 16) + chr3 / 64,
         if i + 2 >= |t| then 64 else chr3 % 64)
  }

  function Characters(q: Quad): (r: Text)
    requires InRange(q)
    ensures |r| == 4
  {
    [KeyAt(q.enc1), KeyAt(q.enc2), KeyAt(q.enc3), KeyAt(q.enc4)]
  }

  /** The loop of `encode` from position i on. */
  function EncodeFrom(t: Text, i: nat): (r: Text)
    requires IsBytes(t)
    decreases |t| - i
  {
    if i >= |t| then [] else Characters(Digits(t, i)) + EncodeFrom(t, i + 3)
  }

  /** Four characters for every three bytes, rounded up. */
  lemma {:induction false} EncodedLength(t: Text, i: nat)
    requires IsBytes(t) && i <= |t|
    ensures |EncodeFrom(t, i)| == 4 * ((|t| - i + 2) / 3)
    decreases |t| - i
  {
    Thirds(|t| - i);
    if i + 3 <= |t| {
      EncodedLength(t, i + 3);
    }
  }

  lemma Thirds(n: nat)
    ensures n >= 3 ==> (n + 2) / 3 == (n - 3 + 2) / 3 + 1
    ensures 0 < n < 3 ==> (n + 2) / 3 == 1
    ensures n == 0 ==> (n + 2) / 3 == 0
  {
  }

  /** `input.replace(/[^A-Za-z0-9\+\/\=]/g, "")` */
  function KeyOnly(u: Text): (r: Text)
    ensures AllInKey(r)
  {
    if u == [] then [] else (if InKey(u[0]) then [u[0]] else []) + KeyOnly(u[1..])
  }

  lemma {:induction false} KeyOnlySame(u: Text)
    requires AllInKey(u)
    ensures KeyOnly(u) == u
  {
    if u != [] {
      KeyOnlySame(u[1..]);
    }
  }

  /** `_keyStr.indexOf(input.charAt(i))`; past the end that is the index of the empty string, 0. */
  function DigitAt(u: Text, i: nat): (k: nat)
    requires AllInKey(u)
    ensures k <= 64
  {
    if i < |u| then KeyIndex(u[i]) else 0
  }

  function QuadAt(u: Text, i: nat): (q: Quad)
    requires AllInKey(u)
    ensures InRange(q)
  {
    Quad(DigitAt(u, i), DigitAt(u, i + 1), DigitAt(u, i + 2), DigitAt(u, i + 3))
  }

  /** The characters that one round of `decode` appends.  A pad in the second place meets bits of the
      first digit, so that there only an or will do. */
  function Bytes(q: Quad): Text {
    [FromCode(Or(4 * q.enc1, q.enc2 / 16))]
    + ((if q.enc3 != 64 then [FromCode(16 * (q.enc2 % 16) + q.enc3 / 4)] else [])
       + (if q.enc4 != 64 then [FromCode(64 * (q.enc3 % 4) + q.enc4)] else []))
  }

  /** The loop of `decode` from position i on. */
  function DecodeFrom(u: Text, i: nat): Text
    requires AllInKey(u)
    decreases |u| - i
  {
    if i >= |u| then [] else Bytes(QuadAt(u, i)) + DecodeFrom(u, i + 4)
  }

  // ----- Decoding what was encoded

  /** The end of the group of three bytes at i. */
  function GroupEnd(t: Text, i: nat): nat {
    if i + 3 <= |t| then i + 3 else |t|
  }

  /** One group, with three, two or one byte. */
  lemma GroupRoundTrip(t: Text, i: nat)
    requires IsBytes(t) && i < |t|
    ensures Bytes(Digits(t, i)) == t[i..GroupEnd(t, i)]
  {
    GroupOf(t[i], CodeAt(t, i + 1), CodeAt(t, i + 2));
    GroupSlice(t, i);
  }

  lemma GroupSlice(t: Text, i: nat)
    requires i < |t|
    ensures t[i..GroupEnd(t, i)] ==
      if i + 3 <= |t| then [t[i], t[i + 1], t[i + 2]] else if i + 2 <= |t| then [t[i], t[i + 1]] else [t[i]]
  {
  }

  lemma GroupOf(x: Unit, y: Unit, z: Unit)
    requires x < 256 && y < 256 && z < 256
    ensures Bytes(Quad(x / 4, 16 * (x % 4) + y / 16, 4 * (y % 16) + z / 64, z % 64)) == [x, y, z]
    ensures Bytes(Quad(x / 4, 16 * (x % 4) + y / 16, 4 * (y % 16) + z / 64, 64)) == [x, y]
    ensures Bytes(Quad(x / 4, 16 * (x % 4) + y / 16, 64, 64)) == [x]
  {
    BytesOf(x / 4, x % 4, y / 16, y % 16, z / 64, z % 64);
  }

  lemma BytesOf(a: nat, b: nat, c: nat, d: nat, e: nat, f: nat)
    requires a < 64 && b < 4 && c < 16 && d < 16 && e < 4 && f < 64
    ensures Bytes(Quad(a, 16 * b + c, 4 * d + e, f)) == [4 * a + b, 16 * c + d, 64 * e + f]
    ensures Bytes(Quad(a, 16 * b + c, 4 * d + e, 64)) == [4 * a + b, 16 * c + d]
    ensures Bytes(Quad(a, 16 * b + c, 64, 64)) == [4 * a + b]
  {
    OrFour(a, b);
    Sixteen(b, c);
    Four(d, e);
  }

  lemma Sixteen(b: nat, c: nat)
    requires c < 16
    ensures (16 * b + c) / 16 == b && (16 * b + c) % 16 == c
  {
  }

  lemma Four(d: nat, e: nat)
    requires e < 4
    ensures (4 * d + e) / 4 == d && (4 * d + e) % 4 == e
  {
  }

  lemma OrFour(a: nat, b: nat)
    requires b < 4
    ensures Or(4 * a, b) == 4 * a + b
  {
    OrBelow(a, 2, b);
  }

  lemma CharactersBack(q: Quad, a: Text, rest: Text)
    requires InRange(q) && AllInKey(a + (Characters(q) + rest))
    ensures QuadAt(a + (Characters(q) + rest), |a|) == q
  {
    KeyRoundTrip(q.enc1);
    KeyRoundTrip(q.enc2);
    KeyRoundTrip(q.enc3);
    KeyRoundTrip(q.enc4);
    var u := a + (Characters(q) + rest);
    assert u[|a|] == Characters(q)[0] && u[|a| + 1] == Characters(q)[1];
    assert u[|a| + 2] == Characters(q)[2] && u[|a| + 3] == Characters(q)[3];
  }

  lemma {:induction false} EncodedInKey(t: Text, i: nat)
    requires IsBytes(t)
    ensures AllInKey(EncodeFrom(t, i))
    decreases |t| - i
  {
    if i < |t| {
      EncodedInKey(t, i + 3);
    }
  }

  /** Decoding takes encoding back, for every byte string. */
  lemma {:induction false} Base64RoundTrip(a: Text, t: Text, i: nat)
    requires IsBytes(t) && i <= |t| && AllInKey(a + EncodeFrom(t, i))
    ensures DecodeFrom(a + EncodeFrom(t, i), |a|) == t[i..]
    decreases |t| - i
  {
    if i < |t| {
      var q := Digits(t, i);
      var g, rest := Characters(q), EncodeFrom(t, i + 3);
      CharactersBack(q, a, rest);
      GroupRoundTrip(t, i);
      var next := GroupEnd(t, i);
      assert rest == EncodeFrom(t, next);
      assert a + (g + rest) == (a + g) + rest;
      Base64RoundTrip(a + g, t, next);
      assert t[i..] == t[i..next] + t[next..];
    }
  }

  function EncodeText(s: Text): Text {
    EncodeFrom(Utf8(Newlines(s)), 0)
  }

  function DecodeText(u: Text): Text {
    FromUtf8(DecodeFrom(KeyOnly(u), 0), 0)
  }

  /** `decode(encode(s))` is s with every CR LF replaced by LF, for every string. */
  lemma DecodeEncode(s: Text)
    ensures DecodeText(EncodeText(s)) == Newlines(s)
    ensures |EncodeText(s)| == 4 * ((|Utf8(Newlines(s))| + 2) / 3)
  {
    var t := Utf8(Newlines(s));
    EncodedLength(t, 0);
    BytesBack(t);
    UnitsBack(Newlines(s));
  }

  lemma BytesBack(t: Text)
    requires IsBytes(t)
    ensures DecodeFrom(KeyOnly(EncodeFrom(t, 0)), 0) == t
  {
    var u := EncodeFrom(t, 0);
    EncodedInKey(t, 0);
    KeyOnlySame(u);
    assert [] + u == u && t[0..] == t;
    Base64RoundTrip([], t, 0);
  }

  lemma UnitsBack(s: Text)
    ensures FromUtf8(Utf8(s), 0) == s
  {
    assert [] + Utf8(s) == Utf8(s);
    Utf8RoundTrip([], s);
  }
}
