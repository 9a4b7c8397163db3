/** What `Utf8` calls well formed are the encodings of sequences of Unicode scalar values, and no other bytes. */
module Characters {
  import opened Bytes
  import opened Utf8
  import opened Values

  /** A character in one to four octets, by its bits. */
  function Utf8Of(c: uchar): (b: bytes)
    ensures 1 <= |b| <= 4
  {
    if c < 0x80 then [c]
    else if c < 0x800 then [0xC0 + c / 0x40, 0x80 + c % 0x40]
    else if c < 0x1_0000 then [0xE0 + c / 0x1000, 0x80 + c / 0x40 % 0x40, 0x80 + c % 0x40]
    else [0xF0 + c / 0x4_0000, 0x80 + c / 0x1000 % 0x40, 0x80 + c / 0x40 % 0x40, 0x80 + c % 0x40]
  }

  function TextOf(cs: seq<uchar>): bytes {
    if cs == [] then [] else Utf8Of(cs[0]) + TextOf(cs[1..])
  }

  lemma FrontOfCharacter(c: uchar, r: bytes)
    ensures FrontLength(Utf8Of(c) + r) == |Utf8Of(c)|
  {
    var b := Utf8Of(c);
    assert forall i :: 0 <= i < |b| ==> (b + r)[i] == b[i];
  }

  /** An octet without its marker. */
  function Bits(b: byte, marker: int): int {
    b - marker
  }

  /** The character at the front of `s`. */
  function CharacterOf(s: bytes): uchar
    requires FrontLength(s) > 0
  {
    var n := FrontLength(s);
    if n == 1 then s[0]
    else if n == 2 then 0x40 * Bits(s[0], 0xC0) + Bits(s[1], 0x80)
    else if n == 3 then 0x1000 * Bits(s[0], 0xE0) + 0x40 * Bits(s[1], 0x80) + Bits(s[2], 0x80)
    else 0x4_0000 * Bits(s[0], 0xF0) + 0x1000 * Bits(s[1], 0x80) + 0x40 * Bits(s[2], 0x80) + Bits(s[3], 0x80)
  }

  lemma Parts(a: nat, b: nat, c: nat, d: nat)
    requires b < 0x40 && c < 0x40 && d < 0x40
    ensures var v := 0x4_0000 * a + 0x1000 * b + 0x40 * c + d;
            v / 0x4_0000 == a && v / 0x1000 % 0x40 == b && v / 0x40 % 0x40 == c && v % 0x40 == d
  {
    var v := 0x4_0000 * a + 0x1000 * b + 0x40 * c + d;
    assert v / 0x40 == 0x1000 * a + 0x40 * b + c;
    assert v / 0x1000 == 0x40 * a + b;
  }

  lemma CharacterOfFront(s: bytes)
    requires FrontLength(s) > 0
    ensures Utf8Of(CharacterOf(s)) == s[..FrontLength(s)]
  {
    var n, c := FrontLength(s), CharacterOf(s);
    if n == 2 {
      Parts(0, 0, Bits(s[0], 0xC0), Bits(s[1], 0x80));
      assert Utf8Of(c) == [s[0], s[1]];
    } else if n == 3 {
      Parts(0, Bits(s[0], 0xE0), Bits(s[1], 0x80), Bits(s[2], 0x80));
      assert Utf8Of(c) == [s[0], s[1], s[2]];
    } else if n == 4 {
      Parts(Bits(s[0], 0xF0), Bits(s[1], 0x80), Bits(s[2], 0x80), Bits(s[3], 0x80));
      assert Utf8Of(c) == [s[0], s[1], s[2], s[3]];
    }
  }

  /** Text is valid, and its characters are counted. */
  lemma {:induction false} TextIsValid(cs: seq<uchar>)
    ensures Valid(TextOf(cs)) && CharCount(TextOf(cs)) == |cs|
  {
    hide Utf8Of, FrontLength;
    if cs != [] {
      var b, r := Utf8Of(cs[0]), TextOf(cs[1..]);
      FrontOfCharacter(cs[0], r);
      assert (b + r)[|b|..] == r;
      TextIsValid(cs[1..]);
    }
  }

  lemma {:induction false} ValidIsText(s: bytes)
    requires Valid(s)
    ensures exists cs: seq<uchar> :: s == TextOf(cs)
    decreases |s|
  {
    hide Utf8Of, FrontLength, CharacterOf;
    if s == [] {
      assert s == TextOf([]);
    } else {
      var n := FrontLength(s);
      CharacterOfFront(s);
      ValidIsText(s[n..]);
      var ds: seq<uchar> :| s[n..] == TextOf(ds);
      var cs := [CharacterOf(s)] + ds;
      assert cs[1..] == ds && s == s[..n] + s[n..];
      assert s == TextOf(cs);
    }
  }

  /** Both directions at once. */
  lemma ValidIff(s: bytes)
    ensures Valid(s) <==> exists cs: seq<uchar> :: s == TextOf(cs)
  {
    hide Valid, TextOf;
    if Valid(s) { ValidIsText(s); }
    if exists cs: seq<uchar> :: s == TextOf(cs) {
      var cs: seq<uchar> :| s == TextOf(cs);
      TextIsValid(cs);
    }
  }
}
