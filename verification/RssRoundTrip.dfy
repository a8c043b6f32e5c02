/** A feed written by a reference printer is read back entry by entry, whatever its texts say. */
module RssRoundTrip {
  import opened Text
  import opened RssXml

  // ----- the printer -----

  /** The five predefined entities (section 4.6 of XML 1.0), numbered from the one decoded last. */
  function Plain(k: nat): char
    requires 1 <= k <= 5
  {
    ['&', '\'', '"', '>', '<'][k - 1]
  }

  function Entity(k: nat): (s: string)
    requires 1 <= k <= 5
    ensures 4 <= |s| && s[0] == '&'
  {
    ["&amp;", "&apos;", "&quot;", "&gt;", "&lt;"][k - 1]
  }

  /** The text for one character when only the first `level` entities are in use. */
  function EscapeChar(c: char, level: nat): (s: string)
    requires level <= 5
    ensures s != ""
  {
    if level == 0 then [c] else if c == Plain(level) then Entity(level) else EscapeChar(c, level - 1)
  }

  function EscapeTo(s: string, level: nat): string
    requires level <= 5
  {
    if s == "" then "" else EscapeChar(s[0], level) + EscapeTo(s[1..], level)
  }

  function Escape(s: string): string {
    EscapeTo(s, 5)
  }

  function Element(name: string, inner: string): (s: string)
    ensures |s| == |inner| + 2 * |name| + 5
  {
    "<" + name + ">" + inner + "</" + name + ">"
  }

  /** One entry as printed: in a block of RSS or Atom, with either name for description and date. */
  datatype Post = Post(block: string, description: string, date: string, entry: FeedEntry)
  {
    ghost predicate Valid() {
      && (block == "item" || block == "entry")
      && (description == "description" || description == "summary")
      && (date == "pubDate" || date == "published" || date == "updated")
    }
  }

  function Body(p: Post): string {
    Element("title", Escape(p.entry.title)) + Element(p.description, Escape(p.entry.description)) + Element(p.date, Escape(p.entry.published))
  }

  function PrintPosts(posts: seq<Post>): string {
    if posts == [] then "" else Element(posts[0].block, Body(posts[0])) + PrintPosts(posts[1..])
  }

  function OpenText(name: string): string {
    "<" + name + ">"
  }

  function CloseText(name: string): string {
    "</" + name + ">"
  }

  function OpenAll(wrappers: seq<string>): string {
    if wrappers == [] then "" else OpenText(wrappers[0]) + OpenAll(wrappers[1..])
  }

  function CloseAll(wrappers: seq<string>): string {
    if wrappers == [] then "" else CloseAll(wrappers[1..]) + CloseText(wrappers[0])
  }

  /** The posts within nested elements, such as `rss` and `channel` or `feed`. */
  function PrintFeed(wrappers: seq<string>, posts: seq<Post>): string {
    OpenAll(wrappers) + (PrintPosts(posts) + CloseAll(wrappers))
  }

  const RSS: seq<string> := ["rss", "channel"]
  const ATOM: seq<string> := ["feed"]

  predicate IsWrapper(name: string) {
    name != "" && name != "item" && name != "entry" && forall i :: 0 <= i < |name| ==> 'a' <= name[i] <= 'z' || 'A' <= name[i] <= 'Z'
  }

  ghost predicate IsFeed(wrappers: seq<string>, posts: seq<Post>) {
    (forall i :: 0 <= i < |wrappers| ==> IsWrapper(wrappers[i])) && forall i :: 0 <= i < |posts| ==> posts[i].Valid()
  }

  /** The entries printed in blocks of one kind. */
  function EntriesIn(posts: seq<Post>, block: string): seq<FeedEntry> {
    if posts == [] then []
    else (if posts[0].block == block then [posts[0].entry] else []) + EntriesIn(posts[1..], block)
  }

  /** What a reader should see: the items if there are any, else the entries of Atom. */
  function Chosen(posts: seq<Post>): seq<FeedEntry> {
    if EntriesIn(posts, "item") != [] then EntriesIn(posts, "item") else EntriesIn(posts, "entry")
  }

  // ----- decoding undoes escaping -----

  lemma EntitiesDiffer(j: nat, k: nat)
    requires 1 <= j <= 5 && 1 <= k <= 5 && j != k
    ensures Entity(j)[..3] != Entity(k)[..3]
  {
    var a, b := Entity(j), Entity(k);
    assert a[1] != b[1] || a[2] != b[2];
    assert a[..3][1] == a[1] && a[..3][2] == a[2] && b[..3][1] == b[1] && b[..3][2] == b[2];
  }

  /** What one character becomes: itself, or an entity of its own. */
  lemma {:induction false} EscapeCharCases(c: char, level: nat)
    requires level <= 5
    ensures (EscapeChar(c, level) == [c] && (forall k :: 1 <= k <= level ==> c != Plain(k)))
         || (exists k :: 1 <= k <= level && c == Plain(k) && EscapeChar(c, level) == Entity(k))
  {
    if level > 0 && c != Plain(level) {
      EscapeCharCases(c, level - 1);
    }
  }

  lemma TokenIsNoMatch(c: char, level: nat, rest: string)
    requires 1 <= level <= 5 && c != Plain(level)
    ensures forall i :: 0 <= i < |EscapeChar(c, level)| ==> !MatchAt(EscapeChar(c, level) + rest, Entity(level), i)
  {
    var token, pat := EscapeChar(c, level), Entity(level);
    EscapeCharCases(c, level);
    assert Plain(1) == '&';
    forall i | 0 <= i < |token| ensures !MatchAt(token + rest, pat, i) {
      MatchPrefix(token + rest, pat, i);
      if k :| 1 <= k <= level && token == Entity(k) {
        EntitiesDiffer(k, level);
        assert (token + rest)[0..3] == token[..3];
      }
    }
  }

  lemma MatchPrefix(s: string, pat: string, i: nat)
    requires 3 <= |pat|
    ensures MatchAt(s, pat, i) ==> i + 3 <= |s| && s[i] == pat[0] && s[i..i + 3] == pat[..3]
  {
    if MatchAt(s, pat, i) {
      var m := s[i..i + |pat|];
      assert m[0] == s[i] && m[..3] == s[i..i + 3];
    }
  }

  /** One replacement undoes one level: the entity is recognised exactly where it was written,
      because every other `&` was written as `&amp;`. */
  lemma {:induction false} UndoLevel(s: string, level: nat)
    requires 1 <= level <= 5
    ensures Replace(EscapeTo(s, level), Entity(level), [Plain(level)]) == EscapeTo(s, level - 1)
  {
    if s != "" {
      var c, token, rest, pat := s[0], EscapeChar(s[0], level), EscapeTo(s[1..], level), Entity(level);
      UndoLevel(s[1..], level);
      if c == Plain(level) {
        assert (token + rest)[0..|pat|] == pat && (token + rest)[|pat|..] == rest;
        LowerLevelsDiffer(level);
      } else {
        TokenIsNoMatch(c, level, rest);
        ReplaceSkips(token, rest, pat, [Plain(level)]);
      }
    }
  }

  lemma LowerLevelsDiffer(level: nat)
    requires 1 <= level <= 5
    ensures EscapeChar(Plain(level), level - 1) == [Plain(level)]
  {
    EscapeCharCases(Plain(level), level - 1);
  }

  lemma {:induction false} LevelZero(s: string)
    ensures EscapeTo(s, 0) == s
  {
    if s != "" {
      LevelZero(s[1..]);
    }
  }

  /** Decoding the entities in the code's order undoes escaping, for every text. */
  lemma DecodeUndoesEscape(s: string)
    ensures DecodeEntities(Escape(s)) == s
  {
    UndoLevel(s, 5);
    UndoLevel(s, 4);
    UndoLevel(s, 3);
    UndoLevel(s, 2);
    UndoLevel(s, 1);
    LevelZero(s);
  }

  /** A token that neither is the pattern nor has a later `&` is copied. */
  lemma {:induction false} ReplaceSkips(token: string, rest: string, pat: string, sub: string)
    requires pat != "" && pat[0] == '&'
    requires forall i :: 0 <= i < |token| ==> !MatchAt(token + rest, pat, i)
    ensures Replace(token + rest, pat, sub) == token + Replace(rest, pat, sub)
  {
    if token == "" {
      assert token + rest == rest;
    } else {
      var all := token + rest;
      assert !MatchAt(all, pat, 0);
      assert all[1..] == token[1..] + rest;
      forall i | 0 <= i < |token[1..]| ensures !MatchAt(token[1..] + rest, pat, i) {
        assert !MatchAt(all, pat, i + 1);
        if i + |pat| <= |all[1..]| {
          assert all[1..][i..i + |pat|] == all[i + 1..i + 1 + |pat|];
        }
      }
      ReplaceSkips(token[1..], rest, pat, sub);
      assert token == [token[0]] + token[1..];
    }
  }

  lemma {:induction false} EscapeHasNoLt(s: string)
    ensures '<' !in Escape(s)
  {
    if s != "" {
      EscapeHasNoLt(s[1..]);
      EscapeCharCases(s[0], 5);
      assert Plain(5) == '<';
    }
  }

  lemma {:induction false} EscapeHasNoGt(s: string)
    ensures '>' !in Escape(s)
  {
    if s != "" {
      EscapeHasNoGt(s[1..]);
      EscapeCharCases(s[0], 5);
      assert Plain(4) == '>';
    }
  }

  /** Escaped text holds no markup, so decoding it as element text gives the text back. */
  lemma TextComesBack(s: string)
    ensures DecodeText(Escape(s)) == s
  {
    EscapeHasNoLt(s);
    DecodeUndoesEscape(s);
    forall i: nat ensures !MatchAt(Escape(s), CDATA_OPEN, i) {
      MatchChars(Escape(s), CDATA_OPEN, i);
      assert CDATA_OPEN[0] == '<';
    }
  }

  // ----- verbatim text -----

  lemma NothingDecodes()
    ensures DecodeEntities("") == "" && DecodeText("") == ""
  {
  }

  /** Verbatim text is read up to its first `]]>`, and what follows that is read as text again:
      without one, it comes back as it is. */
  lemma CdataIsRead(t: string)
    ensures DecodeText(CDATA_OPEN + t + CDATA_CLOSE) ==
      match Find(t, CDATA_CLOSE, 0)
      case None => t
      case Some(p) => t[..p] + DecodeText(t[p + |CDATA_CLOSE|..] + CDATA_CLOSE)
  {
    hide DecodeEntities, Find;
    var raw, n := CDATA_OPEN + t + CDATA_CLOSE, |CDATA_OPEN|;
    var inside := Find(t, CDATA_CLOSE, 0);
    var k := n + (if inside.Some? then inside.value else |t|);
    NothingDecodes();
    assert MatchAt(raw, CDATA_OPEN, 0);
    FirstFound(raw, CDATA_OPEN, 0, 0);
    CdataEnds(t, k - n);
    FirstFound(raw, CDATA_CLOSE, n, k);
    assert raw[..0] == "" && raw[n..k] == t[..k - n];
    assert raw[k + |CDATA_CLOSE|..] == if inside.Some? then t[inside.value + |CDATA_CLOSE|..] + CDATA_CLOSE else "";
    assert t[..|t|] == t;
  }

  lemma CdataEnds(t: string, p: nat)
    requires p <= |t| && (p == |t| || MatchAt(t, CDATA_CLOSE, p)) && forall i :: 0 <= i < p ==> !MatchAt(t, CDATA_CLOSE, i)
    ensures var raw, n := CDATA_OPEN + t + CDATA_CLOSE, |CDATA_OPEN|;
            MatchAt(raw, CDATA_CLOSE, n + p) && forall i :: n <= i < n + p ==> !MatchAt(raw, CDATA_CLOSE, i)
  {
    var raw, n := CDATA_OPEN + t + CDATA_CLOSE, |CDATA_OPEN|;
    SliceOfMiddle(CDATA_OPEN + t, CDATA_CLOSE, "", n + |t|, 3);
    if p < |t| {
      SliceOfMiddle(CDATA_OPEN, t, CDATA_CLOSE, n + p, 3);
    }
    forall i | n <= i < n + p ensures !MatchAt(raw, CDATA_CLOSE, i) {
      if i + 2 < n + |t| {
        SliceOfMiddle(CDATA_OPEN, t, CDATA_CLOSE, i, 3);
        assert !MatchAt(t, CDATA_CLOSE, i - n);
      } else {
        MatchChars(raw, CDATA_CLOSE, i);
        assert raw[i + 2] == CDATA_CLOSE[i + 2 - n - |t|] == ']';
        assert CDATA_CLOSE[2] == '>';
      }
    }
  }

  lemma SliceOfMiddle(a: string, s: string, b: string, i: nat, k: nat)
    requires |a| <= i && i + k <= |a| + |s|
    ensures (a + s + b)[i..i + k] == s[i - |a|..i - |a| + k]
    ensures b == "" ==> a + s + b == a + s
  {
  }

  // ----- one tag -----

  lemma MatchChars(s: string, pat: string, i: nat)
    ensures MatchAt(s, pat, i) ==> forall j :: 0 <= j < |pat| ==> s[i + j] == pat[j]
  {
    if MatchAt(s, pat, i) {
      forall j | 0 <= j < |pat| ensures s[i + j] == pat[j] {
        assert s[i..i + |pat|][j] == pat[j];
      }
    }
  }

  lemma MatchPieces(s: string, a: string, b: string, i: nat)
    ensures MatchAt(s, a + b, i) <==> MatchAt(s, a, i) && MatchAt(s, b, i + |a|)
  {
    if i + |a| + |b| <= |s| {
      var m := s[i..i + |a| + |b|];
      assert m == s[i..i + |a|] + s[i + |a|..i + |a| + |b|];
      assert (a + b)[..|a|] == a && (a + b)[|a|..] == b;
    }
  }

  /** A tag name the printer uses. */
  ghost predicate Simple(name: string) {
    name != "" && forall c :: c in name ==> !EndsName(c) && c != '!' && c != '?' && c != '<' && c != ':'
  }

  /** The next `<` after some text. */
  lemma NextLt(xml: string, from: nat, k: nat)
    requires from <= k < |xml| && (forall i :: from <= i < k ==> xml[i] != '<') && xml[k] == '<'
    ensures Find(xml, "<", from) == Some(k)
  {
    MatchOne(xml, '<', k);
    MatchOne(xml, '<', Find(xml, "<", from).value);
  }

  lemma NotSpecial(xml: string, k: nat)
    requires k + 1 < |xml| && xml[k + 1] != '!' && xml[k + 1] != '?'
    ensures SkipSpecial(xml, k) == None
  {
    MatchChars(xml, "<!--", k);
    MatchChars(xml, "<!", k);
    MatchChars(xml, "<?", k);
  }

  lemma ReadsOpenTag(xml: string, from: nat, k: nat, name: string)
    requires from <= k <= |xml| && (forall i :: from <= i < k ==> xml[i] != '<')
    requires Simple(name) && MatchAt(xml, OpenText(name), k)
    ensures NextOpenTag(xml, from) == Some(OpenTag(name, k + |name| + 2, false))
  {
    hide NextOpenTag, Find, SkipSpecial, FindNameEnd, TagEnd, Simple, OpenText;
    OpenTagChars(xml, k, name);
    var e := k + 1 + |name|;
    NextLt(xml, from, k);
    SecondIsLetter(name);
    NotSpecial(xml, k);
    NotClosing(xml, k);
    NameEndsAt(xml, k + 1, name);
    EndsAtOnce(xml, e);
    OpenTagTurn(xml, from, k, e);
  }

  lemma SecondIsLetter(name: string)
    requires Simple(name)
    ensures name[0] != '!' && name[0] != '?' && name[0] != '/'
  {
    assert name[0] in name && EndsName('/');
  }

  lemma NotClosing(xml: string, k: nat)
    requires k + 1 < |xml| && xml[k + 1] != '/'
    ensures !MatchAt(xml, "</", k)
  {
    MatchChars(xml, "</", k);
  }

  lemma EndsAtOnce(xml: string, e: nat)
    requires e < |xml| && xml[e] == '>'
    ensures TagEnd(xml, e, None) == e
  {
  }

  /** One turn of the tag search, at an open tag without attributes. */
  lemma OpenTagTurn(xml: string, from: nat, k: nat, e: nat)
    requires from <= |xml| && k + 1 < e < |xml| && Find(xml, "<", from) == Some(k) && SkipSpecial(xml, k) == None
    requires !MatchAt(xml, "</", k) && FindNameEnd(xml, k + 1) == Some(e) && TagEnd(xml, e, None) == e
    ensures NextOpenTag(xml, from) == Some(OpenTag(xml[k + 1..e], e + 1, false))
  {
    hide Find, SkipSpecial, MatchAt, FindNameEnd, TagEnd;
  }

  /** One turn of the tag search, at a close tag. */
  lemma CloseTagTurn(xml: string, from: nat, k: nat, gt: nat)
    requires from <= |xml| && k <= |xml| && gt < |xml| && Find(xml, "<", from) == Some(k) && SkipSpecial(xml, k) == None
    requires MatchAt(xml, "</", k) && Find(xml, ">", k) == Some(gt)
    ensures NextOpenTag(xml, from) == NextOpenTag(xml, gt + 1)
  {
    hide Find, SkipSpecial, MatchAt, FindNameEnd, TagEnd;
  }

  lemma OpenTagChars(xml: string, k: nat, name: string)
    requires Simple(name) && MatchAt(xml, OpenText(name), k)
    ensures k + |name| + 1 < |xml| && xml[k] == '<' && xml[k + |name| + 1] == '>' && xml[k + 1..k + 1 + |name|] == name
    ensures xml[k + 1] == name[0] && name[0] in name
  {
    var t := OpenText(name);
    MatchChars(xml, t, k);
    assert t[0] == '<' && t[|name| + 1] == '>';
    assert forall j :: 0 <= j < |name| ==> t[j + 1] == name[j];
    assert xml[k + 1] == t[1];
  }

  lemma NameEndsAt(xml: string, i: nat, name: string)
    requires Simple(name) && i + |name| < |xml| && xml[i..i + |name|] == name && xml[i + |name|] == '>'
    ensures FindNameEnd(xml, i) == Some(i + |name|)
  {
    forall j | i <= j < i + |name| ensures !EndsName(xml[j]) {
      assert xml[j] == name[j - i] && name[j - i] in name;
    }
  }

  lemma SkipsCloseTag(xml: string, from: nat, k: nat, name: string)
    requires from <= k <= |xml| && (forall i :: from <= i < k ==> xml[i] != '<')
    requires Simple(name) && MatchAt(xml, CloseText(name), k)
    ensures NextOpenTag(xml, from) == NextOpenTag(xml, k + |name| + 3)
  {
    hide NextOpenTag, Find, SkipSpecial, Simple, CloseText, MatchAt;
    CloseEnds(xml, name, k);
    NextLt(xml, from, k);
    NotSpecial(xml, k);
    CloseTagTurn(xml, from, k, k + |name| + 2);
  }

  /** After `</name` the next `>` ends the close tag. */
  lemma CloseEnds(xml: string, name: string, b: nat)
    requires Simple(name) && MatchAt(xml, CloseText(name), b)
    ensures b + |name| + 3 <= |xml| && xml[b] == '<' && xml[b + 1] == '/' && MatchAt(xml, "</", b)
    ensures Find(xml, ">", b) == Some(b + |name| + 2)
  {
    var t, gt := CloseText(name), b + |name| + 2;
    CloseTextChars(name);
    MatchChars(xml, t, b);
    assert t == "</" + (name + ">");
    MatchPieces(xml, "</", name + ">", b);
    forall i | b <= i < gt ensures xml[i] != '>' {
      assert xml[i] == t[i - b];
    }
    assert xml[gt] == t[|name| + 2];
    NextGt(xml, b, gt);
  }

  lemma CloseTextChars(name: string)
    requires Simple(name)
    ensures var t := CloseText(name);
            |t| == |name| + 3 && t[0] == '<' && t[1] == '/' && t[|name| + 2] == '>' && forall i :: 0 <= i < |name| + 2 ==> t[i] != '>'
  {
    var t := CloseText(name);
    forall i | 2 <= i < |name| + 2 ensures t[i] != '>' {
      assert t[i] == name[i - 2] && name[i - 2] in name;
    }
  }

  lemma NextGt(xml: string, from: nat, k: nat)
    requires from <= k < |xml| && (forall i :: from <= i < k ==> xml[i] != '>') && xml[k] == '>'
    ensures Find(xml, ">", from) == Some(k)
  {
    MatchOne(xml, '>', k);
    MatchOne(xml, '>', Find(xml, ">", from).value);
  }

  // ----- one element -----

  lemma {:induction false} SimpleIsLocal(name: string)
    requires forall c :: c in name ==> c != ':'
    ensures LocalName(name) == name
  {
    if name != "" {
      var start, last := name[..|name| - 1], name[|name| - 1];
      assert forall c :: c in start ==> c in name;
      assert last in name;
      SimpleIsLocal(start);
      assert name == name[..|name| - 1] + [name[|name| - 1]];
    }
  }

  lemma FirstFound(s: string, pat: string, from: nat, k: nat)
    requires from <= k && MatchAt(s, pat, k) && forall i :: from <= i < k ==> !MatchAt(s, pat, i)
    ensures Find(s, pat, from) == Some(k)
  {
  }

  /** Offsets of an element: after its open tag, and after its close tag. */
  function InnerStart(name: string, from: nat): nat {
    from + |name| + 2
  }

  function ElementEnd(name: string, inner: string, from: nat): nat {
    from + |Element(name, inner)|
  }

  lemma ElementParts(xml: string, from: nat, name: string, inner: string)
    requires MatchAt(xml, Element(name, inner), from)
    ensures var a := InnerStart(name, from); var b := a + |inner|;
            && MatchAt(xml, OpenText(name), from) && b <= |xml| && xml[a..b] == inner
            && MatchAt(xml, CloseText(name), b) && MatchAt(xml, "</" + name, b) && MatchAt(xml, ">", b + 2 + |name|)
            && ElementEnd(name, inner, from) == b + |name| + 3 <= |xml|
  {
    hide Element, MatchAt, OpenText;
    ElementIsNested(name, inner);
    MatchPieces(xml, OpenText(name), inner + CloseText(name), from);
    MatchPieces(xml, inner, CloseText(name), InnerStart(name, from));
    MatchIsSlice(xml, inner, InnerStart(name, from));
    MatchIsSlice(xml, CloseText(name), InnerStart(name, from) + |inner|);
    assert CloseText(name) == ("</" + name) + ">";
    MatchPieces(xml, "</" + name, ">", InnerStart(name, from) + |inner|);
  }

  lemma ElementIsNested(name: string, inner: string)
    ensures Element(name, inner) == OpenText(name) + (inner + CloseText(name)) && |OpenText(name)| == |name| + 2 && |CloseText(name)| == |name| + 3
  {
  }

  lemma MatchIsSlice(xml: string, pat: string, i: nat)
    requires MatchAt(xml, pat, i)
    ensures i + |pat| <= |xml| && xml[i..i + |pat|] == pat
  {
  }

  lemma TextHasNoTag(xml: string, a: nat, raw: string, pat: string)
    requires a + |raw| <= |xml| && xml[a..a + |raw|] == raw && '<' !in raw && pat != "" && pat[0] == '<'
    ensures forall i :: a <= i < a + |raw| ==> xml[i] != '<' && !MatchAt(xml, pat, i)
  {
    forall i | a <= i < a + |raw| ensures xml[i] != '<' && !MatchAt(xml, pat, i) {
      assert xml[i] == raw[i - a];
      MatchChars(xml, pat, i);
    }
  }

  lemma SimpleName(name: string)
    requires Simple(name)
    ensures LocalName(name) == name
  {
    SimpleIsLocal(name);
  }

  /** How the scanner sees an element without markup inside: its open tag is found, ... */
  lemma LeafOpens(xml: string, from: nat, name: string, raw: string)
    requires Simple(name) && MatchAt(xml, Element(name, raw), from)
    ensures from <= |xml| && NextOpenTag(xml, from) == Some(OpenTag(name, InnerStart(name, from), false))
  {
    hide NextOpenTag, Simple, Element;
    ElementParts(xml, from, name, raw);
    hide MatchAt;
    ReadsOpenTag(xml, from, from, name);
  }

  /** ... its inner text ends at its own close tag, ... */
  lemma LeafCloses(xml: string, from: nat, name: string, raw: string)
    requires Simple(name) && '<' !in raw && MatchAt(xml, Element(name, raw), from)
    ensures var a := InnerStart(name, from); var b := a + |raw|;
            b <= |xml| && xml[a..b] == raw && Find(xml, "</" + name, a) == Some(b) && Find(xml, ">", b).Some?
  {
    hide Find, Simple, Element, ElementEnd, OpenText, CloseText, MatchAt;
    ElementParts(xml, from, name, raw);
    TextCloses(xml, InnerStart(name, from), raw, name);
  }

  lemma TextCloses(xml: string, a: nat, raw: string, name: string)
    requires var b := a + |raw|; b <= |xml| && xml[a..b] == raw && '<' !in raw
    requires Simple(name) && MatchAt(xml, CloseText(name), a + |raw|) && MatchAt(xml, "</" + name, a + |raw|)
    ensures Find(xml, "</" + name, a) == Some(a + |raw|) && Find(xml, ">", a + |raw|).Some?
  {
    hide Find, CloseText, MatchAt;
    CloseEnds(xml, name, a + |raw|);
    TextHasNoTag(xml, a, raw, "</" + name);
    FirstFound(xml, "</" + name, a, a + |raw|);
  }

  /** ... and scanning on from inside it leads behind it. */
  lemma LeafIsPassed(xml: string, from: nat, name: string, raw: string)
    requires Simple(name) && '<' !in raw && MatchAt(xml, Element(name, raw), from)
    ensures InnerStart(name, from) <= ElementEnd(name, raw, from) <= |xml|
    ensures NextOpenTag(xml, InnerStart(name, from)) == NextOpenTag(xml, ElementEnd(name, raw, from))
  {
    hide NextOpenTag, Simple, Element;
    var a, b := InnerStart(name, from), InnerStart(name, from) + |raw|;
    ElementParts(xml, from, name, raw);
    hide MatchAt;
    TextHasNoTag(xml, a, raw, "<");
    SkipsCloseTag(xml, a, b, name);
  }

  lemma FieldFound(block: string, candidates: seq<string>, from: nat, name: string, text: string)
    requires Simple(name) && name in candidates && MatchAt(block, Element(name, Escape(text)), from) && from < |block|
    ensures FirstMatch(block, candidates, from, |block|) == Some(text)
  {
    hide NextOpenTag, Find, DecodeText, Escape, MatchAt, Element, LocalName, Simple;
    EscapeHasNoLt(text);
    TextComesBack(text);
    SimpleName(name);
    LeafOpens(block, from, name, Escape(text));
    LeafCloses(block, from, name, Escape(text));
  }

  lemma FieldSkipped(block: string, candidates: seq<string>, from: nat, name: string, raw: string)
    requires Simple(name) && name !in candidates && '<' !in raw && MatchAt(block, Element(name, raw), from)
    requires ElementEnd(name, raw, from) < |block|
    ensures FirstMatch(block, candidates, from, |block|) == FirstMatch(block, candidates, ElementEnd(name, raw, from), |block|)
  {
    hide NextOpenTag, Find, DecodeText, MatchAt, Element, LocalName, Simple;
    SimpleName(name);
    LeafOpens(block, from, name, raw);
    LeafIsPassed(block, from, name, raw);
  }

  // ----- blocks of other kinds are passed -----

  /** Scanning for blocks of this kind from either place gives the same. */
  ghost predicate SameBlocks(xml: string, name: string, from: nat, to: nat) {
    from <= |xml| && to <= |xml| && forall n: nat :: BlockSpans(xml, name, n, from) == BlockSpans(xml, name, n, to)
  }

  lemma SameTagSameBlocks(xml: string, name: string, from: nat, to: nat)
    requires from <= |xml| && to <= |xml| && NextOpenTag(xml, from) == NextOpenTag(xml, to)
    ensures SameBlocks(xml, name, from, to)
  {
    hide NextOpenTag;
  }

  lemma OtherTag(xml: string, name: string, from: nat, tag: OpenTag)
    requires from <= |xml| && NextOpenTag(xml, from) == Some(tag) && LocalName(tag.name) != name
    ensures SameBlocks(xml, name, from, tag.afterTag)
  {
    hide NextOpenTag, LocalName;
  }

  lemma SameBlocksCompose(xml: string, name: string, a: nat, b: nat, c: nat)
    requires SameBlocks(xml, name, a, b) && SameBlocks(xml, name, b, c)
    ensures SameBlocks(xml, name, a, c)
  {
    hide BlockSpans;
  }

  lemma OtherOpenPassed(xml: string, name: string, from: nat, tag: string)
    requires Simple(tag) && tag != name && MatchAt(xml, OpenText(tag), from)
    ensures SameBlocks(xml, name, from, from + |tag| + 2)
  {
    hide NextOpenTag, Simple, BlockSpans, MatchAt, LocalName, SameBlocks, OpenText;
    MatchIsSlice(xml, OpenText(tag), from);
    SimpleName(tag);
    ReadsOpenTag(xml, from, from, tag);
    OtherTag(xml, name, from, OpenTag(tag, from + |tag| + 2, false));
  }

  lemma ClosePassed(xml: string, name: string, from: nat, tag: string)
    requires Simple(tag) && MatchAt(xml, CloseText(tag), from)
    ensures SameBlocks(xml, name, from, from + |tag| + 3)
  {
    hide NextOpenTag, Simple, BlockSpans, MatchAt, SameBlocks, CloseText;
    CloseEnds(xml, tag, from);
    SkipsCloseTag(xml, from, from, tag);
    SameTagSameBlocks(xml, name, from, from + |tag| + 3);
  }

  lemma FieldPassed(xml: string, name: string, from: nat, tag: string, text: string)
    requires Simple(tag) && tag != name && MatchAt(xml, Element(tag, Escape(text)), from)
    ensures SameBlocks(xml, name, from, ElementEnd(tag, Escape(text), from))
  {
    hide SameBlocks, NextOpenTag, Simple, Element, MatchAt, ElementEnd, InnerStart, Escape, LocalName;
    EscapeHasNoLt(text);
    LeafOpens(xml, from, tag, Escape(text));
    LeafIsPassed(xml, from, tag, Escape(text));
    SimpleName(tag);
    OtherTag(xml, name, from, OpenTag(tag, InnerStart(tag, from), false));
    SameTagSameBlocks(xml, name, InnerStart(tag, from), ElementEnd(tag, Escape(text), from));
    SameBlocksCompose(xml, name, from, InnerStart(tag, from), ElementEnd(tag, Escape(text), from));
  }

  // ----- one post -----

  /** The names of fields and blocks: letters, told apart by themselves or their first letters. */
  lemma PostNames(p: Post)
    requires p.Valid()
    ensures Simple("title") && Simple(p.description) && Simple(p.date) && Simple(p.block)
    ensures "title" != "item" && "title" != "entry" && p.description != "item" && p.description != "entry" && p.date != "item" && p.date != "entry"
    ensures p.block[0] != 't' && p.block[0] != p.description[0] && p.block[0] != p.date[0]
  {
    LettersAreSimple("title");
    LettersAreSimple(p.description);
    LettersAreSimple(p.date);
    LettersAreSimple(p.block);
    assert "title"[0] == 't' && "item"[0] == 'i' && "entry"[0] == 'e' && "description"[0] == 'd' && "summary"[0] == 's';
    assert "pubDate"[0] == 'p' && "published"[0] == 'p' && "updated"[0] == 'u';
  }

  lemma LettersAreSimple(name: string)
    requires name != "" && forall i :: 0 <= i < |name| ==> 'A' <= name[i] <= 'Z' || 'a' <= name[i] <= 'z'
    ensures Simple(name)
  {
  }

  lemma FieldNamesDiffer(p: Post)
    requires p.Valid()
    ensures "title" !in ["description", "summary"] && "title" !in ["pubDate", "published", "updated"]
    ensures p.description in ["description", "summary"] && p.description !in ["pubDate", "published", "updated"]
    ensures p.date in ["pubDate", "published", "updated"]
  {
    assert "title"[0] == 't' && "description"[0] == 'd' && "summary"[0] == 's';
    assert "pubDate"[0] == 'p' && "published"[0] == 'p' && "updated"[0] == 'u';
  }

  lemma BodyIsRead(p: Post)
    requires p.Valid()
    ensures EntryOf(Body(p)) == p.entry
  {
    var e := p.entry;
    hide FirstMatch, Escape, Element, Post.Valid;
    PostNames(p);
    FieldNamesDiffer(p);
    var block := Body(p);
    var t, d, s := Element("title", Escape(e.title)), Element(p.description, Escape(e.description)), Element(p.date, Escape(e.published));
    BodyLayout(t, d, s);
    hide MatchAt, Simple;
    EscapeHasNoLt(e.title);
    EscapeHasNoLt(e.description);
    FieldFound(block, ["title"], 0, "title", e.title);
    FieldSkipped(block, ["description", "summary"], 0, "title", Escape(e.title));
    FieldFound(block, ["description", "summary"], |t|, p.description, e.description);
    FieldSkipped(block, ["pubDate", "published", "updated"], 0, "title", Escape(e.title));
    FieldSkipped(block, ["pubDate", "published", "updated"], |t|, p.description, Escape(e.description));
    FieldFound(block, ["pubDate", "published", "updated"], |t| + |d|, p.date, e.published);
  }

  lemma BodyLayout(t: string, d: string, p: string)
    ensures var block := t + d + p; MatchAt(block, t, 0) && MatchAt(block, d, |t|) && MatchAt(block, p, |t| + |d|)
  {
    var block := t + d + p;
    assert block[0..|t|] == t && block[|t|..|t| + |d|] == d && block[|t| + |d|..|t| + |d| + |p|] == p;
  }

  /** No `<` in the text starts a close tag of a name that starts with this letter. */
  ghost predicate HasNoClose(s: string, letter: char) {
    forall i :: 0 <= i < |s| && s[i] == '<' ==> i + 2 < |s| && !(s[i + 1] == '/' && s[i + 2] == letter)
  }

  lemma NoCloseConcat(a: string, b: string, letter: char)
    requires HasNoClose(a, letter) && HasNoClose(b, letter)
    ensures HasNoClose(a + b, letter)
  {
  }

  lemma FieldHasNoClose(name: string, text: string, letter: char)
    requires Simple(name) && name[0] != letter
    ensures HasNoClose(Element(name, Escape(text)), letter)
  {
    EscapeHasNoLt(text);
    var opening, raw, closing := OpenText(name), Escape(text), CloseText(name);
    forall i | 0 < i < |opening| ensures opening[i] != '<' {
      assert i <= |name| ==> opening[i] == name[i - 1] && name[i - 1] in name;
    }
    SecondIsLetter(name);
    assert opening[1] == name[0] && name[0] in name;
    forall i | 0 < i < |closing| ensures closing[i] != '<' {
      assert 2 <= i < |name| + 2 ==> closing[i] == name[i - 2] && name[i - 2] in name;
    }
    assert closing[2] == name[0];
    NoCloseConcat(opening, raw, letter);
    NoCloseConcat(opening + raw, closing, letter);
    assert opening + raw + closing == Element(name, raw);
  }

  lemma BodyHasNoClose(p: Post)
    requires p.Valid()
    ensures HasNoClose(Body(p), p.block[0])
  {
    hide HasNoClose, Element, Escape, Post.Valid, Simple;
    PostNames(p);
    assert "title"[0] == 't';
    FieldHasNoClose("title", p.entry.title, p.block[0]);
    FieldHasNoClose(p.description, p.entry.description, p.block[0]);
    FieldHasNoClose(p.date, p.entry.published, p.block[0]);
    var t, d, s := Element("title", Escape(p.entry.title)), Element(p.description, Escape(p.entry.description)), Element(p.date, Escape(p.entry.published));
    NoCloseConcat(t, d, p.block[0]);
    NoCloseConcat(t + d, s, p.block[0]);
  }

  /** The scanner takes one printed post as one block of its kind. */
  lemma PostIsOneBlock(xml: string, from: nat, p: Post, n: nat)
    requires n > 0 && p.Valid() && MatchAt(xml, Element(p.block, Body(p)), from)
    ensures var a, z := InnerStart(p.block, from), ElementEnd(p.block, Body(p), from); var b := a + |Body(p)|;
            && from <= |xml| && z <= |xml| && b <= |xml| && xml[a..b] == Body(p)
            && BlockSpans(xml, p.block, n, from) == [(a, b)] + BlockSpans(xml, p.block, n - 1, z)
  {
    hide Find, Body, NextOpenTag, LocalName, Simple, BlockSpans, Element, Post.Valid, HasNoClose, MatchAt;
    PostNames(p);
    BodyHasNoClose(p);
    ElementIsOneBlock(xml, from, p.block, Body(p), n);
  }

  lemma ElementIsOneBlock(xml: string, from: nat, name: string, body: string, n: nat)
    requires n > 0 && Simple(name) && HasNoClose(body, name[0]) && MatchAt(xml, Element(name, body), from)
    ensures var a, z := InnerStart(name, from), ElementEnd(name, body, from); var b := a + |body|;
            && from <= |xml| && z <= |xml| && b <= |xml| && xml[a..b] == body
            && BlockSpans(xml, name, n, from) == [(a, b)] + BlockSpans(xml, name, n - 1, z)
  {
    hide Find, NextOpenTag, LocalName, Simple, BlockSpans, Element, HasNoClose;
    var a, b := InnerStart(name, from), InnerStart(name, from) + |body|;
    SimpleName(name);
    LeafOpens(xml, from, name, body);
    ElementParts(xml, from, name, body);
    hide MatchAt;
    CloseEnds(xml, name, b);
    assert name != "" by { SecondIsLetter(name); }
    NoCloseInside(xml, a, body, name);
    FirstFound(xml, "</" + name, a, b);
    OneBlock(xml, name, n, from, a, b, b + |name| + 2);
  }

  /** One turn of the block search. */
  lemma OneBlock(xml: string, name: string, n: nat, from: nat, a: nat, b: nat, gt: nat)
    requires n > 0 && from <= |xml| && a <= |xml| && b <= |xml|
    requires NextOpenTag(xml, from) == Some(OpenTag(name, a, false)) && LocalName(name) == name
    requires Find(xml, "</" + name, a) == Some(b) && Find(xml, ">", b) == Some(gt)
    ensures gt + 1 <= |xml| && BlockSpans(xml, name, n, from) == [(a, b)] + BlockSpans(xml, name, n - 1, gt + 1)
  {
    hide Find, NextOpenTag, LocalName;
  }

  lemma NoCloseInside(xml: string, a: nat, body: string, name: string)
    requires name != "" && a + |body| <= |xml| && xml[a..a + |body|] == body && HasNoClose(body, name[0])
    ensures forall i :: a <= i < a + |body| ==> !MatchAt(xml, "</" + name, i)
  {
    var pat := "</" + name;
    forall i | a <= i < a + |body| ensures !MatchAt(xml, pat, i) {
      MatchChars(xml, pat, i);
      assert pat[0] == '<' && pat[1] == '/' && pat[2] == name[0];
      var k := i - a;
      assert xml[i] == body[k];
      if body[k] == '<' {
        assert xml[i + 1] == body[k + 1] && xml[i + 2] == body[k + 2];
      }
    }
  }

  /** Where the fields of a printed post start, and its close tag. */
  lemma PostLayout(xml: string, from: nat, p: Post) returns (x: nat, y: nat, z: nat, w: nat)
    requires MatchAt(xml, Element(p.block, Body(p)), from)
    ensures x == from + |p.block| + 2 && MatchAt(xml, Element("title", Escape(p.entry.title)), x)
    ensures y == ElementEnd("title", Escape(p.entry.title), x)
    ensures MatchAt(xml, Element(p.description, Escape(p.entry.description)), y) && z == ElementEnd(p.description, Escape(p.entry.description), y)
    ensures MatchAt(xml, Element(p.date, Escape(p.entry.published)), z) && w == ElementEnd(p.date, Escape(p.entry.published), z)
    ensures MatchAt(xml, OpenText(p.block), from) && MatchAt(xml, CloseText(p.block), w)
    ensures x <= y <= z <= w && w + |p.block| + 3 == ElementEnd(p.block, Body(p), from) <= |xml|
  {
    hide Escape, MatchAt, Element;
    var t, d, s := Element("title", Escape(p.entry.title)), Element(p.description, Escape(p.entry.description)), Element(p.date, Escape(p.entry.published));
    x := from + |p.block| + 2;
    y, z, w := x + |t|, x + |t| + |d|, x + |t| + |d| + |s|;
    var body := Body(p);
    assert body == t + (d + s);
    ElementIsNested(p.block, body);
    MatchPieces(xml, OpenText(p.block), body + CloseText(p.block), from);
    MatchPieces(xml, body, CloseText(p.block), x);
    MatchPieces(xml, t, d + s, x);
    MatchPieces(xml, d, s, y);
    MatchIsSlice(xml, CloseText(p.block), w);
  }

  /** From any field of a post, the scanner gets to its end without finding a block. */
  lemma FieldsPassed(xml: string, name: string, p: Post, y: nat, z: nat, w: nat)
    requires p.Valid() && (name == "item" || name == "entry")
    requires MatchAt(xml, Element(p.description, Escape(p.entry.description)), y) && z == ElementEnd(p.description, Escape(p.entry.description), y)
    requires MatchAt(xml, Element(p.date, Escape(p.entry.published)), z) && w == ElementEnd(p.date, Escape(p.entry.published), z)
    requires MatchAt(xml, CloseText(p.block), w)
    ensures var end := w + |p.block| + 3;
            SameBlocks(xml, name, y, end) && SameBlocks(xml, name, z, end) && SameBlocks(xml, name, w, end)
  {
    hide Element, Escape, SameBlocks, NextOpenTag, Simple, ElementEnd, MatchAt, Post.Valid, OpenText, CloseText;
    PostNames(p);
    assert p.description != name && p.date != name;
    TwoPassed(xml, name, p.description, p.entry.description, p.date, p.entry.published, p.block, y, z, w);
  }

  lemma TwoPassed(xml: string, name: string, tag1: string, text1: string, tag2: string, text2: string, block: string, y: nat, z: nat, w: nat)
    requires Simple(tag1) && Simple(tag2) && Simple(block) && tag1 != name && tag2 != name
    requires MatchAt(xml, Element(tag1, Escape(text1)), y) && z == ElementEnd(tag1, Escape(text1), y)
    requires MatchAt(xml, Element(tag2, Escape(text2)), z) && w == ElementEnd(tag2, Escape(text2), z)
    requires MatchAt(xml, CloseText(block), w)
    ensures SameBlocks(xml, name, y, w + |block| + 3) && SameBlocks(xml, name, z, w + |block| + 3) && SameBlocks(xml, name, w, w + |block| + 3)
  {
    hide Element, Escape, SameBlocks, NextOpenTag, Simple, ElementEnd, MatchAt, OpenText, CloseText;
    FieldPassed(xml, name, y, tag1, text1);
    FieldPassed(xml, name, z, tag2, text2);
    ClosePassed(xml, name, w, block);
    SameBlocksCompose(xml, name, z, w, w + |block| + 3);
    SameBlocksCompose(xml, name, y, z, w + |block| + 3);
  }

  /** A post of the other kind is passed. */
  lemma PostPassed(xml: string, name: string, from: nat, p: Post)
    requires p.Valid() && (name == "item" || name == "entry") && p.block != name
    requires MatchAt(xml, Element(p.block, Body(p)), from)
    ensures SameBlocks(xml, name, from, ElementEnd(p.block, Body(p), from))
  {
    hide Element, Escape, Body, SameBlocks, NextOpenTag, Simple, ElementEnd, MatchAt, Post.Valid;
    var x, y, z, w := PostLayout(xml, from, p);
    PostNames(p);
    FieldsPassed(xml, name, p, y, z, w);
    OtherOpenPassed(xml, name, from, p.block);
    FieldPassed(xml, name, x, "title", p.entry.title);
    SameBlocksCompose(xml, name, from, x, y);
    SameBlocksCompose(xml, name, from, y, w + |p.block| + 3);
  }

  // ----- the posts of a feed -----

  function FirstOf(entries: seq<FeedEntry>, n: nat): seq<FeedEntry> {
    entries[..if n < |entries| then n else |entries|]
  }

  /** What is left of a feed from here on: posts, the close tags, and nothing. */
  ghost predicate EndsWith(xml: string, from: nat, wrappers: seq<string>, posts: seq<Post>) {
    MatchAt(xml, PrintPosts(posts) + CloseAll(wrappers), from) && |xml| == from + |PrintPosts(posts) + CloseAll(wrappers)|
  }

  /** Printed posts of one kind are read back in order, up to the limit, and the others passed. */
  lemma {:induction false} PostsAreRead(xml: string, from: nat, wrappers: seq<string>, posts: seq<Post>, name: string, n: nat)
    requires IsFeed(wrappers, posts) && (name == "item" || name == "entry") && EndsWith(xml, from, wrappers, posts)
    ensures from <= |xml| && EntriesOf(xml, BlockSpans(xml, name, n, from)) == FirstOf(EntriesIn(posts, name), n)
    decreases |posts|
  {
    hide BlockSpans, MatchAt, Element, EntriesOf, PrintPosts, CloseAll, Body, EndsWith, EntriesIn, Post.Valid, SameBlocks, IsWrapper;
    RestFits(xml, from, wrappers, posts);
    if n == 0 {
      NoBlocksAllowed(xml, name, from);
      NoEntries(xml);
    } else if posts == [] {
      NothingPrinted(xml, from, wrappers, name);
      NothingBehind(xml, from, wrappers, name, n);
      NoEntries(xml);
    } else {
      var p, z := posts[0], ElementEnd(posts[0].block, Body(posts[0]), from);
      NextPost(xml, from, wrappers, posts);
      EntriesInCons(posts, name);
      if p.block == name {
        PostsAreRead(xml, z, wrappers, posts[1..], name, n - 1);
        PostAndRest(xml, from, p, EntriesIn(posts[1..], name), n);
      } else {
        PostsAreRead(xml, z, wrappers, posts[1..], name, n);
        PostPassed(xml, name, from, p);
        SameSpans(xml, name, from, z, n);
      }
    }
  }

  lemma SameSpans(xml: string, name: string, from: nat, to: nat, n: nat)
    requires SameBlocks(xml, name, from, to)
    ensures from <= |xml| && to <= |xml| && BlockSpans(xml, name, n, from) == BlockSpans(xml, name, n, to)
  {
    hide BlockSpans;
  }

  lemma RestFits(xml: string, from: nat, wrappers: seq<string>, posts: seq<Post>)
    requires EndsWith(xml, from, wrappers, posts)
    ensures from <= |xml|
  {
  }

  lemma EntriesInCons(posts: seq<Post>, name: string)
    requires posts != []
    ensures EntriesIn(posts, name) == (if posts[0].block == name then [posts[0].entry] else []) + EntriesIn(posts[1..], name)
    ensures EntriesIn([], name) == []
  {
  }

  lemma NextPost(xml: string, from: nat, wrappers: seq<string>, posts: seq<Post>)
    requires posts != [] && EndsWith(xml, from, wrappers, posts)
    ensures MatchAt(xml, Element(posts[0].block, Body(posts[0])), from)
    ensures EndsWith(xml, ElementEnd(posts[0].block, Body(posts[0]), from), wrappers, posts[1..])
  {
    hide Element, Body, CloseAll, MatchAt, PrintPosts;
    var post, rest, close := Element(posts[0].block, Body(posts[0])), PrintPosts(posts[1..]), CloseAll(wrappers);
    PrintPostsCons(posts);
    assert (post + rest) + close == post + (rest + close);
    MatchPieces(xml, post, rest + close, from);
  }

  lemma PrintPostsCons(posts: seq<Post>)
    requires posts != []
    ensures PrintPosts(posts) == Element(posts[0].block, Body(posts[0])) + PrintPosts(posts[1..])
  {
  }

  lemma PostAndRest(xml: string, from: nat, p: Post, rest: seq<FeedEntry>, n: nat)
    requires n > 0 && p.Valid() && MatchAt(xml, Element(p.block, Body(p)), from)
    requires var z := ElementEnd(p.block, Body(p), from);
             z <= |xml| && EntriesOf(xml, BlockSpans(xml, p.block, n - 1, z)) == FirstOf(rest, n - 1)
    ensures from <= |xml| && EntriesOf(xml, BlockSpans(xml, p.block, n, from)) == FirstOf([p.entry] + rest, n)
  {
    hide BlockSpans, MatchAt, Element, Body, EntryOf, EntriesOf, Post.Valid;
    var a := InnerStart(p.block, from);
    PostIsOneBlock(xml, from, p, n);
    BodyIsRead(p);
    PrependEntry(xml, a, a + |Body(p)|, BlockSpans(xml, p.block, n - 1, ElementEnd(p.block, Body(p), from)));
    assert FirstOf([p.entry] + rest, n) == [p.entry] + FirstOf(rest, n - 1);
  }

  lemma PrependEntry(xml: string, a: nat, b: nat, spans: seq<(nat, nat)>)
    requires a <= b <= |xml| && forall i :: 0 <= i < |spans| ==> spans[i].0 <= spans[i].1 <= |xml|
    ensures forall i :: 0 <= i < |[(a, b)] + spans| ==> ([(a, b)] + spans)[i].0 <= ([(a, b)] + spans)[i].1 <= |xml|
    ensures EntriesOf(xml, [(a, b)] + spans) == [EntryOf(xml[a..b])] + EntriesOf(xml, spans)
  {
    hide EntryOf;
    assert ([(a, b)] + spans)[1..] == spans;
  }

  // ----- the elements around the posts -----

  lemma NothingPrinted(xml: string, from: nat, wrappers: seq<string>, name: string)
    requires EndsWith(xml, from, wrappers, [])
    ensures MatchAt(xml, CloseAll(wrappers), from) && |xml| == from + |CloseAll(wrappers)| && EntriesIn([], name) == []
  {
    assert PrintPosts([]) + CloseAll(wrappers) == CloseAll(wrappers);
  }

  lemma NothingBehind(xml: string, from: nat, wrappers: seq<string>, name: string, n: nat)
    requires forall i :: 0 <= i < |wrappers| ==> IsWrapper(wrappers[i])
    requires MatchAt(xml, CloseAll(wrappers), from) && |xml| == from + |CloseAll(wrappers)|
    ensures BlockSpans(xml, name, n, from) == []
  {
    hide BlockSpans, NextOpenTag, MatchAt, SameBlocks, CloseAll, IsWrapper;
    ClosesPassed(xml, name, from, wrappers);
    SameSpans(xml, name, from, |xml|, n);
    NoTagAtEnd(xml);
    NoBlock(xml, name, n, |xml|);
  }

  lemma {:induction false} ClosesPassed(xml: string, name: string, from: nat, wrappers: seq<string>)
    requires forall i :: 0 <= i < |wrappers| ==> IsWrapper(wrappers[i])
    requires MatchAt(xml, CloseAll(wrappers), from)
    ensures SameBlocks(xml, name, from, from + |CloseAll(wrappers)|)
    decreases |wrappers|
  {
    hide MatchAt, SameBlocks;
    MatchIsSlice(xml, CloseAll(wrappers), from);
    if wrappers == [] {
      Stay(xml, name, from);
    } else {
      var inner, last := CloseAll(wrappers[1..]), CloseText(wrappers[0]);
      MatchPieces(xml, inner, last, from);
      ClosesPassed(xml, name, from, wrappers[1..]);
      LettersAreSimple(wrappers[0]);
      ClosePassed(xml, name, from + |inner|, wrappers[0]);
      SameBlocksCompose(xml, name, from, from + |inner|, from + |inner| + |last|);
    }
  }

  lemma {:induction false} OpensPassed(xml: string, name: string, from: nat, wrappers: seq<string>)
    requires name == "item" || name == "entry"
    requires forall i :: 0 <= i < |wrappers| ==> IsWrapper(wrappers[i])
    requires MatchAt(xml, OpenAll(wrappers), from)
    ensures SameBlocks(xml, name, from, from + |OpenAll(wrappers)|)
    decreases |wrappers|
  {
    hide MatchAt, SameBlocks;
    MatchIsSlice(xml, OpenAll(wrappers), from);
    if wrappers == [] {
      Stay(xml, name, from);
    } else {
      var first, inner := OpenText(wrappers[0]), OpenAll(wrappers[1..]);
      MatchPieces(xml, first, inner, from);
      LettersAreSimple(wrappers[0]);
      OtherOpenPassed(xml, name, from, wrappers[0]);
      OpensPassed(xml, name, from + |first|, wrappers[1..]);
      SameBlocksCompose(xml, name, from, from + |first|, from + |first| + |inner|);
    }
  }

  lemma Stay(xml: string, name: string, from: nat)
    requires from <= |xml|
    ensures SameBlocks(xml, name, from, from)
  {
  }

  lemma NoTagAtEnd(xml: string)
    ensures NextOpenTag(xml, |xml|) == None
  {
    assert !MatchAt(xml, "<", |xml|);
  }

  lemma NoBlock(xml: string, name: string, n: nat, from: nat)
    requires from <= |xml| && NextOpenTag(xml, from) == None
    ensures BlockSpans(xml, name, n, from) == []
  {
  }

  lemma NoBlocksAllowed(xml: string, name: string, from: nat)
    requires from <= |xml|
    ensures BlockSpans(xml, name, 0, from) == []
  {
  }

  // ----- the whole feed -----

  /** The feed starts here and runs to the end. */
  ghost predicate FeedAt(xml: string, from: nat, wrappers: seq<string>, posts: seq<Post>) {
    MatchAt(xml, PrintFeed(wrappers, posts), from) && |xml| == from + |PrintFeed(wrappers, posts)|
  }

  lemma PostsBehindOpens(xml: string, from: nat, wrappers: seq<string>, posts: seq<Post>)
    requires FeedAt(xml, from, wrappers, posts)
    ensures MatchAt(xml, OpenAll(wrappers), from) && EndsWith(xml, from + |OpenAll(wrappers)|, wrappers, posts)
  {
    hide MatchAt, OpenAll, PrintPosts, CloseAll;
    MatchPieces(xml, OpenAll(wrappers), PrintPosts(posts) + CloseAll(wrappers), from);
  }

  /** Scanning that gets to the posts reads them. */
  lemma ReadFrom(xml: string, to: nat, wrappers: seq<string>, posts: seq<Post>, n: nat)
    requires IsFeed(wrappers, posts) && EndsWith(xml, to, wrappers, posts)
    requires SameBlocks(xml, "item", 0, to) && SameBlocks(xml, "entry", 0, to)
    ensures FeedEntries(xml, n) == FirstOf(Chosen(posts), n)
  {
    hide BlockSpans, EntriesOf, EndsWith, IsFeed, EntriesIn, SameBlocks;
    SameSpans(xml, "item", 0, to, n);
    SameSpans(xml, "entry", 0, to, n);
    PostsAreRead(xml, to, wrappers, posts, "item", n);
    PostsAreRead(xml, to, wrappers, posts, "entry", n);
  }

  /** A printed feed is read back as exactly its first `maxItems` items, or entries if it has no
      items, for arbitrary texts and any of the names. */
  lemma FeedComesBack(wrappers: seq<string>, posts: seq<Post>, maxItems: nat)
    requires IsFeed(wrappers, posts)
    ensures FeedEntries(PrintFeed(wrappers, posts), maxItems) == FirstOf(Chosen(posts), maxItems)
  {
    hide MatchAt, SameBlocks, PrintPosts, CloseAll, OpenAll, FeedEntries, EndsWith;
    var xml, to := PrintFeed(wrappers, posts), |OpenAll(wrappers)|;
    WholeFeed(xml, wrappers, posts);
    PostsBehindOpens(xml, 0, wrappers, posts);
    OpensPassed(xml, "item", 0, wrappers);
    OpensPassed(xml, "entry", 0, wrappers);
    ReadFrom(xml, to, wrappers, posts, maxItems);
  }

  lemma WholeFeed(xml: string, wrappers: seq<string>, posts: seq<Post>)
    requires xml == PrintFeed(wrappers, posts)
    ensures FeedAt(xml, 0, wrappers, posts)
  {
    assert xml[0..|xml|] == xml;
  }

  /** All posts of a feed in one style. */
  function InStyle(block: string, description: string, date: string, entries: seq<FeedEntry>): (posts: seq<Post>)
    ensures |posts| == |entries|
  {
    seq(|entries|, i requires 0 <= i < |entries| => Post(block, description, date, entries[i]))
  }

  lemma {:induction false} StyleKeepsEntries(block: string, description: string, date: string, entries: seq<FeedEntry>)
    requires block == "item" || block == "entry"
    ensures Chosen(InStyle(block, description, date, entries)) == entries
  {
    KindOfStyle(block, description, date, entries, "item");
    KindOfStyle(block, description, date, entries, "entry");
  }

  lemma {:induction false} KindOfStyle(block: string, description: string, date: string, entries: seq<FeedEntry>, kind: string)
    ensures EntriesIn(InStyle(block, description, date, entries), kind) == if kind == block then entries else []
    decreases |entries|
  {
    if entries != [] {
      var posts := InStyle(block, description, date, entries);
      assert posts[1..] == InStyle(block, description, date, entries[1..]);
      KindOfStyle(block, description, date, entries[1..], kind);
      assert entries == [entries[0]] + entries[1..];
    }
  }

  /** RSS with its own names, and Atom with either date. */
  lemma RssAndAtomComeBack(entries: seq<FeedEntry>, date: string, maxItems: nat)
    requires date == "published" || date == "updated"
    ensures FeedEntries(PrintFeed(RSS, InStyle("item", "description", "pubDate", entries)), maxItems) == FirstOf(entries, maxItems)
    ensures FeedEntries(PrintFeed(ATOM, InStyle("entry", "summary", date, entries)), maxItems) == FirstOf(entries, maxItems)
  {
    hide FeedEntries, PrintFeed, Chosen, FirstOf;
    StyleKeepsEntries("item", "description", "pubDate", entries);
    StyleKeepsEntries("entry", "summary", date, entries);
    WrappersAreLetters();
    FeedComesBack(RSS, InStyle("item", "description", "pubDate", entries), maxItems);
    FeedComesBack(ATOM, InStyle("entry", "summary", date, entries), maxItems);
  }

  lemma WrappersAreLetters()
    ensures IsWrapper("rss") && IsWrapper("channel") && IsWrapper("feed")
  {
    assert |"rss"| == 3 && |"channel"| == 7 && |"feed"| == 4 && |"item"| == 4 && |"entry"| == 5 && "feed"[0] == 'f' && "item"[0] == 'i';
  }
}
