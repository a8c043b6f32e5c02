/** UTF-8 text (section 3 of RFC 3629) and its lossy repair: what is no UTF-8 becomes U+FFFD. */
module Utf8 {
  import opened Bytes

  /** A Unicode scalar value: a code point that is no surrogate. */
  type Scalar = c: int | 0 <= c < 0xD800 || 0xE000 <= c < 0x11_0000

  /** The bytes of one scalar value. */
  function Encoded(c: Scalar): (b: seq<byte>)
    ensures 1 <= |b| <= 4
  {
    if c < 0x80 then [c as byte]
    else if c < 0x800 then [(0xC0 + c / 0x40) as byte, Low(c)]
    else if c < 0x1_0000 then [(0xE0 + c / 0x1000) as byte, Low(c / 0x40), Low(c)]
    else [(0xF0 + c / 0x4_0000) as byte, Low(c / 0x1000), Low(c / 0x40), Low(c)]
  }

  /** The continuation byte for the last six bits. */
  function Low(c: nat): (b: byte)
    ensures IsContinuation(b)
  {
    (0x80 + c % 0x40) as byte
  }

  predicate IsContinuation(b: byte) {
    0x80 <= b < 0xC0
  }

  function EncodeAll(cs: seq<Scalar>): seq<byte> {
    if cs == [] then [] else Encoded(cs[0]) + EncodeAll(cs[1..])
  }

  ghost predicate IsUtf8(s: seq<byte>) {
    exists cs :: s == EncodeAll(cs)
  }

  // ----- the lossy conversion -----

  /** A piece at the front of the bytes: one character, or a piece that starts none. */
  datatype Piece = Piece(len: nat, valid: bool)

  /** How many bytes a character with this first byte has; none for bytes that start none. */
  function Width(b: byte): nat {
    if b < 0x80 then 1 else if 0xC2 <= b < 0xE0 then 2 else if 0xE0 <= b < 0xF0 then 3 else if 0xF0 <= b < 0xF5 then 4 else 0
  }

  /** The second bytes that exclude overlong forms, surrogates and values past the last. */
  predicate SecondFits(first: byte, second: byte) {
    if first == 0xE0 then 0xA0 <= second < 0xC0
    else if first == 0xED then 0x80 <= second < 0xA0
    else if first == 0xF0 then 0x90 <= second < 0xC0
    else if first == 0xF4 then 0x80 <= second < 0x90
    else IsContinuation(second)
  }

  /** The first piece, as `from_utf8_lossy` cuts it: an invalid one ends before the first byte
      that cannot go on. */
  function First(s: seq<byte>): (p: Piece)
    requires s != []
    ensures 1 <= p.len <= 4 && p.len <= |s|
  {
    var n := Width(s[0]);
    if n == 1 then Piece(1, true)
    else if n == 0 || |s| < 2 || !SecondFits(s[0], s[1]) then Piece(1, false)
    else if n == 2 then Piece(2, true)
    else if |s| < 3 || !IsContinuation(s[2]) then Piece(2, false)
    else if n == 3 then Piece(3, true)
    else if |s| < 4 || !IsContinuation(s[3]) then Piece(3, false)
    else Piece(4, true)
  }

  const REPLACEMENT: seq<byte> := [0xEF, 0xBF, 0xBD]

  function Lossy(s: seq<byte>): seq<byte> {
    if s == [] then []
    else
      var p := First(s);
      (if p.valid then s[..p.len] else REPLACEMENT) + Lossy(s[p.len..])
  }

  // ----- pieces are characters -----

  /** A written character is one valid piece, whatever follows. */
  lemma CharacterIsPiece(c: Scalar, rest: seq<byte>)
    ensures First(Encoded(c) + rest) == Piece(|Encoded(c)|, true)
  {
  }

  lemma SixBits(high: int, low: int)
    requires 0 <= low < 0x40
    ensures (high * 0x40 + low) / 0x40 == high && (high * 0x40 + low) % 0x40 == low
  {
  }

  lemma TwoBytes(s: seq<byte>) returns (c: Scalar)
    requires 2 <= |s| && Width(s[0]) == 2 && IsContinuation(s[1])
    ensures Encoded(c) == s[..2]
  {
    var x, y := s[0] as int - 0xC0, s[1] as int - 0x80;
    SixBits(x, y);
    c := x * 0x40 + y;
  }

  lemma ThreeBytes(s: seq<byte>) returns (c: Scalar)
    requires 3 <= |s| && Width(s[0]) == 3 && SecondFits(s[0], s[1]) && IsContinuation(s[2])
    ensures Encoded(c) == s[..3]
  {
    var x, y, z := s[0] as int - 0xE0, s[1] as int - 0x80, s[2] as int - 0x80;
    var head := x * 0x40 + y;
    SixBits(x, y);
    SixBits(head, z);
    c := head * 0x40 + z;
    assert c / 0x1000 == head / 0x40;
  }

  lemma FourBytes(s: seq<byte>) returns (c: Scalar)
    requires 4 <= |s| && Width(s[0]) == 4 && SecondFits(s[0], s[1]) && IsContinuation(s[2]) && IsContinuation(s[3])
    ensures Encoded(c) == s[..4]
  {
    var w, x, y, z := s[0] as int - 0xF0, s[1] as int - 0x80, s[2] as int - 0x80, s[3] as int - 0x80;
    var top := w * 0x40 + x;
    var head := top * 0x40 + y;
    SixBits(w, x);
    SixBits(top, y);
    SixBits(head, z);
    c := head * 0x40 + z;
    assert c / 0x1000 == head / 0x40 && c / 0x4_0000 == top / 0x40;
  }

  /** Every valid piece is a written character. */
  lemma PieceIsCharacter(s: seq<byte>) returns (c: Scalar)
    requires s != [] && First(s).valid
    ensures Encoded(c) == s[..First(s).len]
  {
    var n := First(s).len;
    if n == 1 {
      c := s[0] as int;
    } else if n == 2 {
      c := TwoBytes(s);
    } else if n == 3 {
      c := ThreeBytes(s);
    } else {
      c := FourBytes(s);
    }
  }

  lemma LossyOfCharacter(c: Scalar, rest: seq<byte>)
    ensures Lossy(Encoded(c) + rest) == Encoded(c) + Lossy(rest)
  {
    hide Encoded, First;
    CharacterIsPiece(c, rest);
    var s := Encoded(c) + rest;
    assert s[..|Encoded(c)|] == Encoded(c) && s[|Encoded(c)|..] == rest;
  }

  lemma EncodeAllCons(c: Scalar, cs: seq<Scalar>)
    ensures EncodeAll([c] + cs) == Encoded(c) + EncodeAll(cs)
  {
    assert ([c] + cs)[1..] == cs;
  }

  /** Text is kept as it is. */
  lemma {:induction false} TextIsKept(cs: seq<Scalar>)
    ensures Lossy(EncodeAll(cs)) == EncodeAll(cs)
  {
    hide Encoded, First;
    if cs != [] {
      TextIsKept(cs[1..]);
      LossyOfCharacter(cs[0], EncodeAll(cs[1..]));
    }
  }

  /** Whatever comes in, text comes out. */
  lemma {:induction false} LossyIsText(s: seq<byte>) returns (cs: seq<Scalar>)
    ensures Lossy(s) == EncodeAll(cs)
  {
    hide Encoded, First;
    if s == [] {
      cs := [];
    } else {
      var p := First(s);
      var rest := LossyIsText(s[p.len..]);
      if p.valid {
        var c := PieceIsCharacter(s);
        EncodeAllCons(c, rest);
        cs := [c] + rest;
      } else {
        ReplacementIsCharacter();
        EncodeAllCons(0xFFFD, rest);
        cs := [0xFFFD] + rest;
      }
    }
  }

  lemma ReplacementIsCharacter()
    ensures Encoded(0xFFFD) == REPLACEMENT
  {
  }

  /** An invalid piece is one replacement character. It is a single byte or the beginning of a
      character, and no character goes on with the byte behind it. */
  lemma CutExactly(s: seq<byte>)
    requires s != [] && !First(s).valid
    ensures var n := First(s).len;
            && Lossy(s) == Encoded(0xFFFD) + Lossy(s[n..])
            && (n == 1 || exists c: Scalar :: n < |Encoded(c)| && Encoded(c)[..n] == s[..n])
            && (n < |s| ==> forall c: Scalar :: n < |Encoded(c)| ==> Encoded(c)[..n + 1] != s[..n + 1])
  {
    hide Encoded, First;
    ReplacementIsCharacter();
    CutBegins(s);
    if First(s).len < |s| {
      forall c: Scalar | First(s).len < |Encoded(c)| ensures Encoded(c)[..First(s).len + 1] != s[..First(s).len + 1] {
        CharacterIsPiece(c, []);
        assert Encoded(c) + [] == Encoded(c);
        SameCut(s, Encoded(c));
      }
    }
  }

  lemma SameCut(s: seq<byte>, b: seq<byte>)
    requires s != [] && !First(s).valid && First(s).len < |s| && First(s).len < |b|
    ensures b[..First(s).len + 1] == s[..First(s).len + 1] ==> !First(b).valid
  {
    var n := First(s).len;
    var front, same := s[..n + 1], b[..n + 1];
    assert forall i :: 0 <= i <= n ==> front[i] == s[i] && same[i] == b[i];
  }

  lemma CutBegins(s: seq<byte>)
    requires s != [] && !First(s).valid
    ensures First(s).len == 1 || exists c: Scalar :: First(s).len < |Encoded(c)| && Encoded(c)[..First(s).len] == s[..First(s).len]
  {
    hide Encoded;
    if First(s).len == 2 {
      BeginsCharacter(s);
    } else if First(s).len == 3 {
      var whole := s[..3] + [0x80];
      var c := FourBytes(whole);
      assert whole[..4] == whole && whole[..3] == s[..3];
    }
  }

  /** Two bytes that fit begin a character of three or four bytes. */
  lemma BeginsCharacter(s: seq<byte>)
    requires 2 <= |s| && 3 <= Width(s[0]) && SecondFits(s[0], s[1])
    ensures exists c: Scalar :: 2 < |Encoded(c)| && Encoded(c)[..2] == s[..2]
  {
    hide Encoded;
    if Width(s[0]) == 3 {
      var whole := s[..2] + [0x80];
      var c := ThreeBytes(whole);
      assert whole[..3] == whole && whole[..2] == s[..2];
    } else {
      var whole := s[..2] + [0x80, 0x80];
      var c := FourBytes(whole);
      assert whole[..4] == whole && whole[..2] == s[..2];
    }
  }

  /** The conversion always yields UTF-8, and changes nothing exactly when it was given UTF-8. */
  lemma LossyKeepsExactly(s: seq<byte>)
    ensures IsUtf8(Lossy(s)) && (Lossy(s) == s <==> IsUtf8(s))
  {
    var out := LossyIsText(s);
    if cs :| s == EncodeAll(cs) {
      TextIsKept(cs);
    }
  }
}
