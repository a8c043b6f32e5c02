/** Form-urlencoded query strings: the byte-wise decoder and the map it fills. */
module Query {
  import opened Bytes
  import opened Text
  import opened Utf8

  const PLUS: byte := 0x2B
  const PERCENT: byte := 0x25
  const SPACE: byte := 0x20
  const AMPERSAND: byte := 0x26
  const EQUALS: byte := 0x3D

  function HexVal(b: byte): (r: Option<byte>)
    ensures r.Some? ==> r.value < 16
  {
    if 0x30 <= b <= 0x39 then Some(b - 0x30)
    else if 0x61 <= b <= 0x66 then Some(b - 0x61 + 10)
    else if 0x41 <= b <= 0x46 then Some(b - 0x41 + 10)
    else None
  }

  /** The escape at the front of the text, if there is a complete one. */
  predicate Escaped(s: seq<byte>) {
    2 < |s| && s[0] == PERCENT && HexVal(s[1]).Some? && HexVal(s[2]).Some?
  }

  function Decode(s: seq<byte>): (r: seq<byte>)
    ensures |r| <= |s|
  {
    if s == [] then []
    else if s[0] == PLUS then [SPACE] + Decode(s[1..])
    else if Escaped(s) then [HexVal(s[1]).value * 16 + HexVal(s[2]).value] + Decode(s[3..])
    else [s[0]] + Decode(s[1..])
  }

  /** What the decoder returns: bytes that are no UTF-8 are replaced. */
  function Decoded(s: seq<byte>): seq<byte> {
    Lossy(Decode(s))
  }

  /** The decoder as written: an index over the bytes and an output buffer, converted at the end. */
  method PercentDecode(s: seq<byte>) returns (text: seq<byte>)
    ensures text == Decoded(s) && IsUtf8(text)
    ensures IsUtf8(s) ==> |text| <= |s|
  {
    var bytes := DecodeBytes(s);
    LossyKeepsExactly(bytes);
    if IsUtf8(s) {
      DecodingShrinks(s);
    }
    text := Lossy(bytes);
  }

  method DecodeBytes(s: seq<byte>) returns (out: seq<byte>)
    ensures out == Decode(s) && |out| <= |s|
  {
    hide Decode, HexVal;
    out := [];
    var i: nat := 0;
    assert s[0..] == s;
    while i < |s|
      invariant i <= |s|
      invariant out + Decode(s[i..]) == Decode(s)
    {
      DecodeTurn(s, i);
      if s[i] == PLUS {
        out := out + [SPACE];
        i := i + 1;
      } else if s[i] == PERCENT && i + 2 < |s| && HexVal(s[i + 1]).Some? && HexVal(s[i + 2]).Some? {
        out := out + [HexVal(s[i + 1]).value * 16 + HexVal(s[i + 2]).value];
        i := i + 3;
      } else {
        out := out + [s[i]];
        i := i + 1;
      }
    }
    DecodeNothing();
    assert s[|s|..] == [] && out + [] == out;
  }

  lemma DecodeNothing()
    ensures Decode([]) == []
  {
  }

  /** What decoding from index `i` takes and leaves. */
  lemma DecodeTurn(s: seq<byte>, i: nat)
    requires i < |s|
    ensures Decode(s[i..]) ==
      if s[i] == PLUS then [SPACE] + Decode(s[i + 1..])
      else if s[i] == PERCENT && i + 2 < |s| && HexVal(s[i + 1]).Some? && HexVal(s[i + 2]).Some? then
        [HexVal(s[i + 1]).value * 16 + HexVal(s[i + 2]).value] + Decode(s[i + 3..])
      else [s[i]] + Decode(s[i + 1..])
  {
    hide HexVal;
    var rest := s[i..];
    assert rest[0] == s[i] && rest[1..] == s[i + 1..];
    if 2 < |rest| {
      assert rest[1] == s[i + 1] && rest[2] == s[i + 2] && rest[3..] == s[i + 3..];
    }
  }

  /** The texts between separators; an empty text has one empty part. */
  function Split(s: seq<byte>, sep: byte): (parts: seq<seq<byte>>)
    ensures parts != []
  {
    if s == [] then [[]]
    else
      var rest := Split(s[1..], sep);
      if s[0] == sep then [[]] + rest else [[s[0]] + rest[0]] + rest[1..]
  }

  /** Before and after the first separator; all of it and nothing when there is none. */
  function SplitOnce(s: seq<byte>, sep: byte): (seq<byte>, seq<byte>) {
    if s == [] then ([], [])
    else if s[0] == sep then ([], s[1..])
    else
      var (k, v) := SplitOnce(s[1..], sep);
      ([s[0]] + k, v)
  }

  type Params = map<seq<byte>, seq<byte>>

  function InsertPart(params: Params, part: seq<byte>): Params {
    if part == [] then params
    else
      var (k, v) := SplitOnce(part, EQUALS);
      params[Decoded(k) := Decoded(v)]
  }

  function InsertParts(parts: seq<seq<byte>>): Params {
    if parts == [] then map[] else InsertPart(InsertParts(parts[..|parts| - 1]), parts[|parts| - 1])
  }

  function Parsed(raw: seq<byte>): Params {
    InsertParts(Split(raw, AMPERSAND))
  }

  method ParseQuery(raw: seq<byte>) returns (params: Params)
    ensures params == Parsed(raw)
  {
    params := map[];
    var parts := Split(raw, AMPERSAND);
    for i := 0 to |parts|
      invariant params == InsertParts(parts[..i])
    {
      assert parts[..i + 1][..i] == parts[..i];
      if parts[i] == [] {
        continue;
      }
      var (k, v) := SplitOnce(parts[i], EQUALS);
      var key := PercentDecode(k);
      var value := PercentDecode(v);
      params := params[key := value];
    }
    assert parts[..|parts|] == parts;
  }

  // ----- decoding does not lengthen text -----

  /** Text splits after its first character, and that one is a byte or holds no ASCII at all. */
  lemma SplitsOff(s: seq<byte>) returns (n: nat)
    requires s != [] && IsUtf8(s)
    ensures 1 <= n <= |s| && IsUtf8(s[n..]) && First(s) == Piece(n, true)
    ensures if s[0] < 0x80 then n == 1 else forall i :: 0 <= i < n ==> 0x80 <= s[i]
    ensures !IsContinuation(s[0])
    ensures forall rest :: Lossy(s[..n] + rest) == s[..n] + Lossy(rest)
  {
    var cs :| s == EncodeAll(cs);
    var c := cs[0];
    n := |Encoded(c)|;
    CharacterIsPiece(c, EncodeAll(cs[1..]));
    assert s[..n] == Encoded(c) && s[n..] == EncodeAll(cs[1..]);
    CharacterBytes(c);
    forall rest ensures Lossy(s[..n] + rest) == s[..n] + Lossy(rest) {
      LossyOfCharacter(c, rest);
    }
  }

  lemma CharacterBytes(c: Scalar)
    ensures var b := Encoded(c); !IsContinuation(b[0]) && if b[0] < 0x80 then |b| == 1 else forall i :: 0 <= i < |b| ==> 0x80 <= b[i]
  {
  }

  /** Bytes that are no query syntax are decoded as they stand. */
  lemma {:induction false} PlainDecodes(s: seq<byte>, n: nat)
    requires n <= |s| && forall i :: 0 <= i < n ==> 0x80 <= s[i]
    ensures Decode(s) == s[..n] + Decode(s[n..])
    decreases n
  {
    hide Decode;
    if n > 0 {
      PlainByteDecodes(s);
      assert forall i :: 0 <= i < n - 1 ==> s[1..][i] == s[i + 1];
      PlainDecodes(s[1..], n - 1);
      assert s[1..][n - 1..] == s[n..] && s[..n] == [s[0]] + s[1..][..n - 1];
    } else {
      assert s[0..] == s;
    }
  }

  lemma PlainByteDecodes(s: seq<byte>)
    requires s != [] && 0x80 <= s[0]
    ensures Decode(s) == [s[0]] + Decode(s[1..])
  {
  }

  lemma EscapeSplitsOff(s: seq<byte>)
    requires IsUtf8(s) && Escaped(s)
    ensures IsUtf8(s[3..])
  {
    var n := SplitsOff(s);
    var m := SplitsOff(s[1..]);
    var k := SplitsOff(s[2..]);
    assert s[1..][1..] == s[2..] && s[2..][1..] == s[3..];
  }

  /** A continuation byte at the front of decoded text was escaped. */
  lemma ContinuationWasEscaped(s: seq<byte>)
    requires IsUtf8(s) && Decode(s) != [] && IsContinuation(Decode(s)[0])
    ensures Escaped(s) && Decode(s)[1..] == Decode(s[3..]) && IsUtf8(s[3..])
  {
    var n := SplitsOff(s);
    if Escaped(s) {
      EscapeSplitsOff(s);
    }
  }

  /** Decoded continuation bytes at the front cost three bytes each. */
  lemma {:induction false} ContinuationsWereEscaped(s: seq<byte>, k: nat)
    requires IsUtf8(s) && k <= |Decode(s)| && forall i :: 0 <= i < k ==> IsContinuation(Decode(s)[i])
    ensures 3 * k <= |s| && IsUtf8(s[3 * k..]) && Decode(s)[k..] == Decode(s[3 * k..])
    decreases k
  {
    hide Decode, IsUtf8, Escaped;
    if k == 0 {
      assert s[0..] == s && Decode(s)[0..] == Decode(s);
    } else {
      ContinuationWasEscaped(s);
      var rest := s[3..];
      assert forall i :: 0 <= i < k - 1 ==> Decode(rest)[i] == Decode(s)[i + 1];
      ContinuationsWereEscaped(rest, k - 1);
      assert rest[3 * (k - 1)..] == s[3 * k..];
      assert Decode(s)[k..] == Decode(rest)[k - 1..];
    }
  }

  /** From a text, the second and later bytes of any piece are continuation bytes. */
  lemma PieceGoesOn(d: seq<byte>)
    requires d != []
    ensures forall i :: 1 <= i < First(d).len ==> IsContinuation(d[i])
  {
  }

  /** Decoding a text never lengthens it, replacements included. */
  lemma {:induction false} DecodingShrinks(s: seq<byte>)
    requires IsUtf8(s)
    ensures |Decoded(s)| <= |s|
    decreases |s|
  {
    hide IsUtf8, First, HexVal;
    if s != [] {
      if Escaped(s) {
        EscapeSplitsOff(s);
        var d := Decode(s);
        var p := First(d);
        PieceGoesOn(d);
        assert d[1..] == Decode(s[3..]);
        assert forall i :: 0 <= i < p.len - 1 ==> d[1..][i] == d[i + 1];
        ContinuationsWereEscaped(s[3..], p.len - 1);
        var rest := s[3..][3 * (p.len - 1)..];
        assert d[p.len..] == d[1..][p.len - 1..];
        DecodingShrinks(rest);
      } else {
        var n := SplitsOff(s);
        if s[0] >= 0x80 {
          PlainDecodes(s, n);
        } else if s[0] == PLUS {
          SpaceIsKept(Decode(s[1..]));
        }
        assert s[..1] == [s[0]];
        DecodingShrinks(s[n..]);
      }
    }
  }

  lemma SpaceIsKept(rest: seq<byte>)
    ensures Lossy([SPACE] + rest) == [SPACE] + Lossy(rest)
  {
    assert Encoded(0x20) == [SPACE];
    LossyOfCharacter(0x20, rest);
  }

  // ----- encoding (section 2.1 of RFC 3986, with `+` for a space) -----

  /** A byte may be written as itself unless the query syntax uses it, as `+` if it is a space,
      or as a percent sign and its two hexadecimal digits, in either case. */
  predicate LegalToken(b: byte, token: seq<byte>) {
    || (token == [b] && b != 37 && b != 43 && b != 38 && b != 61)
    || (token == [43] && b == 32)
    || (|token| == 3 && token[0] == 37 && IsDigit(token[1], b as int / 16) && IsDigit(token[2], b as int % 16))
  }

  /** The character for a hexadecimal digit: `0` to `9`, then `a` to `f` or `A` to `F`. */
  predicate IsDigit(c: byte, d: int) {
    if d < 10 then c as int == 48 + d else c as int == 87 + d || c as int == 55 + d
  }

  lemma DigitsAreHex(c: byte)
    ensures forall d :: 0 <= d < 16 ==> (IsDigit(c, d) <==> HexVal(c) == Some(d as byte))
  {
  }

  /** What is no escape and no `+` stands for itself, incomplete and malformed escapes included. */
  lemma OtherBytesStand(s: seq<byte>)
    requires s != [] && s[0] != 43
    requires s[0] == 37 ==> |s| < 3 || forall d :: 0 <= d < 16 ==> !IsDigit(s[1], d) || forall e :: 0 <= e < 16 ==> !IsDigit(s[2], e)
    ensures Decode(s) == [s[0]] + Decode(s[1..])
  {
    if 2 < |s| {
      DigitsAreHex(s[1]);
      DigitsAreHex(s[2]);
      assert HexVal(s[1]).Some? ==> IsDigit(s[1], HexVal(s[1]).value as int);
      assert HexVal(s[2]).Some? ==> IsDigit(s[2], HexVal(s[2]).value as int);
    }
  }

  /** The bytes written one after the other, each in any of its legal ways. */
  predicate Encodes(raw: seq<byte>, s: seq<byte>)
    decreases |s|
  {
    if s == [] then raw == []
    else
      || (1 <= |raw| && LegalToken(s[0], raw[..1]) && Encodes(raw[1..], s[1..]))
      || (3 <= |raw| && LegalToken(s[0], raw[..3]) && Encodes(raw[3..], s[1..]))
  }

  type Pair = (seq<byte>, seq<byte>)

  predicate EncodesPair(raw: Pair, pair: Pair) {
    Encodes(raw.0, pair.0) && Encodes(raw.1, pair.1)
  }

  ghost predicate EncodesPairs(raw: seq<Pair>, pairs: seq<Pair>) {
    |raw| == |pairs| && forall i :: 0 <= i < |raw| ==> EncodesPair(raw[i], pairs[i])
  }

  function JoinPair(raw: Pair): seq<byte> {
    raw.0 + ([61] + raw.1)
  }

  /** The query text: encoded keys and values joined with `=`, pairs with `&`. */
  function Join(raw: seq<Pair>): seq<byte> {
    if raw == [] then []
    else if |raw| == 1 then JoinPair(raw[0])
    else JoinPair(raw[0]) + ([38] + Join(raw[1..]))
  }

  lemma TokenDecodes(b: byte, token: seq<byte>, rest: seq<byte>)
    requires LegalToken(b, token)
    ensures Decode(token + rest) == [b] + Decode(rest)
    ensures AMPERSAND !in token && EQUALS !in token
  {
    var s := token + rest;
    if |token| == 3 {
      DigitsAreHex(token[1]);
      DigitsAreHex(token[2]);
      assert s[3..] == rest && s[0] == token[0] && s[1] == token[1] && s[2] == token[2];
    } else {
      assert s[1..] == rest;
    }
  }

  /** Decoding bytes undoes every legal encoding of every byte string. */
  lemma {:induction false} DecodeUndoesEncode(raw: seq<byte>, s: seq<byte>)
    requires Encodes(raw, s)
    ensures Decode(raw) == s
    ensures AMPERSAND !in raw && EQUALS !in raw
    decreases |s|
  {
    hide LegalToken, Decode;
    if s == [] {
      DecodeNothing();
    } else {
      var n := if 1 <= |raw| && LegalToken(s[0], raw[..1]) && Encodes(raw[1..], s[1..]) then 1 else 3;
      DecodeUndoesEncode(raw[n..], s[1..]);
      TokenDecodes(s[0], raw[..n], raw[n..]);
      assert raw == raw[..n] + raw[n..];
    }
  }

  /** What comes back of an encoded byte string: itself exactly when it is UTF-8. */
  lemma TextComesBackExactly(raw: seq<byte>, s: seq<byte>)
    requires Encodes(raw, s)
    ensures Decoded(raw) == Lossy(s) && (Decoded(raw) == s <==> IsUtf8(s))
  {
    DecodeUndoesEncode(raw, s);
    LossyKeepsExactly(s);
  }

  lemma {:induction false} SplitOnceAt(a: seq<byte>, b: seq<byte>, sep: byte)
    requires sep !in a
    ensures SplitOnce(a + ([sep] + b), sep) == (a, b)
  {
    var s := a + ([sep] + b);
    if a == [] {
      assert s == [sep] + b && s[1..] == b;
    } else {
      assert s[1..] == a[1..] + ([sep] + b);
      SplitOnceAt(a[1..], b, sep);
      assert a == [a[0]] + a[1..] && a[0] in a;
    }
  }

  lemma {:induction false} SplitWhole(a: seq<byte>, sep: byte)
    requires sep !in a
    ensures Split(a, sep) == [a]
  {
    if a != [] {
      SplitWhole(a[1..], sep);
      assert a == [a[0]] + a[1..] && a[0] in a;
    }
  }

  lemma {:induction false} SplitAt(a: seq<byte>, b: seq<byte>, sep: byte)
    requires sep !in a
    ensures Split(a + ([sep] + b), sep) == [a] + Split(b, sep)
  {
    var s := a + ([sep] + b);
    if a == [] {
      assert s == [sep] + b && s[1..] == b;
    } else {
      assert s[1..] == a[1..] + ([sep] + b);
      SplitAt(a[1..], b, sep);
      assert a == [a[0]] + a[1..] && a[0] in a;
    }
  }

  lemma {:induction false} SplitLast(a: seq<byte>, b: seq<byte>, sep: byte)
    requires sep !in b
    ensures Split(a + ([sep] + b), sep) == Split(a, sep) + [b]
  {
    var s := a + ([sep] + b);
    if a == [] {
      assert s == [sep] + b && s[1..] == b;
      SplitWhole(b, sep);
    } else {
      assert s[1..] == a[1..] + ([sep] + b);
      SplitLast(a[1..], b, sep);
    }
  }

  lemma {:induction false} SplitOnceWhole(a: seq<byte>, sep: byte)
    requires sep !in a
    ensures SplitOnce(a, sep) == (a, [])
  {
    if a != [] {
      SplitOnceWhole(a[1..], sep);
      assert a == [a[0]] + a[1..];
    }
  }

  /** What one more part behind an `&` does to the map: nothing if it is empty, a key without a
      value if it has no `=`, and else the pair around its first `=`. */
  lemma OnePartMore(query: seq<byte>, part: seq<byte>)
    requires 38 !in part
    ensures var before, after := Parsed(query), Parsed(query + ([38] + part));
            && (part == [] ==> after == before)
            && (part != [] && 61 !in part ==> after == before[Decoded(part) := []])
            && (forall k, v :: part == k + ([61] + v) && 61 !in k ==> after == before[Decoded(k) := Decoded(v)])
    ensures Parsed([]) == map[] && Parsed([38] + query) == Parsed(query)
  {
    hide Split, SplitOnce, Decoded;
    var parts := Split(query, AMPERSAND);
    SplitLast(query, part, AMPERSAND);
    assert (parts + [part])[..|parts|] == parts;
    if 61 !in part {
      SplitOnceWhole(part, EQUALS);
      NothingDecoded();
    }
    forall k, v | part == k + ([61] + v) && 61 !in k ensures SplitOnce(part, EQUALS) == (k, v) {
      SplitOnceAt(k, v, EQUALS);
    }
    LeadingAmpersand(query);
  }

  lemma NothingDecoded()
    ensures Decoded([]) == []
  {
  }

  lemma {:induction false} EmptyFirstPart(parts: seq<seq<byte>>)
    ensures InsertParts([[]] + parts) == InsertParts(parts)
  {
    var all := [[]] + parts;
    if parts != [] {
      EmptyFirstPart(parts[..|parts| - 1]);
      assert all[..|all| - 1] == [[]] + parts[..|parts| - 1];
    } else {
      assert all[..0] == [];
    }
  }

  lemma LeadingAmpersand(query: seq<byte>)
    ensures Parsed([38] + query) == Parsed(query) && Parsed([]) == map[]
  {
    SplitAt([], query, AMPERSAND);
    assert [] + ([38] + query) == [38] + query;
    EmptyFirstPart(Split(query, AMPERSAND));
    SplitWhole([], AMPERSAND);
    EmptyFirstPart([]);
  }

  lemma PairHasNoAmpersand(raw: Pair, pair: Pair)
    requires EncodesPair(raw, pair)
    ensures AMPERSAND !in JoinPair(raw) && JoinPair(raw) != []
  {
    DecodeUndoesEncode(raw.0, pair.0);
    DecodeUndoesEncode(raw.1, pair.1);
  }

  function JoinEach(raw: seq<Pair>): (parts: seq<seq<byte>>)
    ensures |parts| == |raw|
  {
    seq(|raw|, i requires 0 <= i < |raw| => JoinPair(raw[i]))
  }

  /** The query text splits back into its encoded pairs. */
  lemma {:induction false} SplitUndoesJoin(raw: seq<Pair>, pairs: seq<Pair>)
    requires EncodesPairs(raw, pairs) && raw != []
    ensures Split(Join(raw), AMPERSAND) == JoinEach(raw)
  {
    hide EncodesPair, JoinPair, Split;
    PairHasNoAmpersand(raw[0], pairs[0]);
    if |raw| == 1 {
      SplitWhole(JoinPair(raw[0]), AMPERSAND);
    } else {
      SplitUndoesJoin(raw[1..], pairs[1..]);
      SplitAt(JoinPair(raw[0]), Join(raw[1..]), AMPERSAND);
      assert JoinEach(raw) == [JoinPair(raw[0])] + JoinEach(raw[1..]);
    }
  }

  /** The map the pairs become, each text converted, the last value of a repeated key winning. */
  function AsMap(pairs: seq<Pair>): Params {
    if pairs == [] then map[]
    else
      var last := pairs[|pairs| - 1];
      AsMap(pairs[..|pairs| - 1])[Lossy(last.0) := Lossy(last.1)]
  }

  lemma {:induction false} PartsComeBack(raw: seq<Pair>, pairs: seq<Pair>)
    requires EncodesPairs(raw, pairs)
    ensures InsertParts(JoinEach(raw)) == AsMap(pairs)
  {
    hide EncodesPair, Lossy, Decode;
    if raw != [] {
      var n := |raw| - 1;
      assert JoinEach(raw)[..n] == JoinEach(raw[..n]);
      PartsComeBack(raw[..n], pairs[..n]);
      PartComesBack(raw[n], pairs[n]);
    }
  }

  lemma PartComesBack(raw: Pair, pair: Pair)
    requires EncodesPair(raw, pair)
    ensures JoinPair(raw) != [] && SplitOnce(JoinPair(raw), EQUALS) == raw
    ensures Decoded(raw.0) == Lossy(pair.0) && Decoded(raw.1) == Lossy(pair.1)
  {
    DecodeUndoesEncode(raw.0, pair.0);
    DecodeUndoesEncode(raw.1, pair.1);
    SplitOnceAt(raw.0, raw.1, EQUALS);
  }

  /** Parsing a query, however it was encoded, gives the map of its pairs as text. */
  lemma ParseUndoesEncoding(raw: seq<Pair>, pairs: seq<Pair>)
    requires EncodesPairs(raw, pairs)
    ensures Parsed(Join(raw)) == AsMap(pairs)
  {
    if raw == [] {
      assert Split([], AMPERSAND) == [[]];
      assert InsertParts([[]]) == InsertPart(InsertParts([]), []);
    } else {
      SplitUndoesJoin(raw, pairs);
      PartsComeBack(raw, pairs);
    }
  }

  /** The pairs are those of the map, in some order. */
  ghost predicate Lists(pairs: seq<Pair>, params: Params) {
    && (forall p :: p in pairs ==> p.0 in params && params[p.0] == p.1)
    && (forall k :: k in params ==> (k, params[k]) in pairs)
  }

  ghost predicate IsText(params: Params) {
    forall k :: k in params ==> IsUtf8(k) && IsUtf8(params[k])
  }

  lemma {:induction false} AsMapOfText(pairs: seq<Pair>, params: Params)
    requires IsText(params) && forall p :: p in pairs ==> p.0 in params && params[p.0] == p.1
    ensures forall k :: k in AsMap(pairs) ==> k in params && params[k] == AsMap(pairs)[k]
    ensures forall p :: p in pairs ==> p.0 in AsMap(pairs)
  {
    hide Lossy, IsUtf8;
    if pairs != [] {
      var init, last := pairs[..|pairs| - 1], pairs[|pairs| - 1];
      assert pairs == init + [last];
      AsMapOfText(init, params);
      LossyKeepsExactly(last.0);
      LossyKeepsExactly(last.1);
    }
  }

  lemma {:induction false} AsMapIsText(pairs: seq<Pair>)
    ensures IsText(AsMap(pairs))
  {
    hide Lossy, IsUtf8;
    if pairs != [] {
      AsMapIsText(pairs[..|pairs| - 1]);
      LossyKeepsExactly(pairs[|pairs| - 1].0);
      LossyKeepsExactly(pairs[|pairs| - 1].1);
    }
  }

  /** A map of byte strings comes back, whatever the order of its pairs and the way each byte is
      written, exactly when all its keys and values are UTF-8. */
  lemma MapComesBackExactly(params: Params, pairs: seq<Pair>, raw: seq<Pair>)
    requires Lists(pairs, params) && EncodesPairs(raw, pairs)
    ensures Parsed(Join(raw)) == params <==> IsText(params)
  {
    hide Parsed, Join, AsMap, IsText;
    ParseUndoesEncoding(raw, pairs);
    AsMapIsText(pairs);
    if IsText(params) {
      AsMapOfText(pairs, params);
      forall k | k in params ensures k in AsMap(pairs) {
        assert (k, params[k]) in pairs;
      }
    }
  }

  /** Two different keys that are no UTF-8 become one. */
  lemma BadKeysCollide()
    ensures var query := [PERCENT, 0x46, 0x45, EQUALS, 0x31, AMPERSAND, PERCENT, 0x46, 0x46, EQUALS, 0x32]; // %FE=1&%FF=2
            Parsed(query) == map[REPLACEMENT := [0x32]]
  {
    var raw: seq<Pair> := [([PERCENT, 0x46, 0x45], [0x31]), ([PERCENT, 0x46, 0x46], [0x32])];
    var pairs: seq<Pair> := [([0xFE], [0x31]), ([0xFF], [0x32])];
    OneByte(0x31);
    OneByte(0x32);
    OneEscape(0xFE, [PERCENT, 0x46, 0x45]);
    OneEscape(0xFF, [PERCENT, 0x46, 0x46]);
    ParseUndoesEncoding(raw, pairs);
    assert pairs[..1] == [pairs[0]] && pairs[..1][..0] == [];
    assert AsMap(pairs[..1]) == map[REPLACEMENT := [0x31]];
    assert AsMap(pairs) == map[REPLACEMENT := [0x32]];
    assert raw[1..] == [raw[1]];
    assert Join(raw) == [PERCENT, 0x46, 0x45, EQUALS, 0x31, AMPERSAND, PERCENT, 0x46, 0x46, EQUALS, 0x32];
  }

  lemma OneByte(b: byte)
    requires 0x30 <= b < 0x3A
    ensures Encodes([b], [b]) && Lossy([b]) == [b]
  {
    assert [b][..1] == [b] && [b][1..] == [];
  }

  lemma OneEscape(b: byte, raw: seq<byte>)
    requires 0xF5 <= b && |raw| == 3 && LegalToken(b, raw)
    ensures Encodes(raw, [b]) && Lossy([b]) == REPLACEMENT
  {
    assert raw[..3] == raw && raw[3..] == [] && [b][1..] == [];
  }
}
