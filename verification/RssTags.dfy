/** Tags with attributes, prefixes and a closing slash, comments, and text mixed with CDATA: what
    the scanner makes of them. */
module RssTags {
  import opened Text
  import opened RssXml
  import opened RssRoundTrip

  // ----- attributes -----

  /** White space, a name, and a value in quotes of one kind. */
  datatype Attribute = Attribute(space: char, name: string, quote: char, value: string)
  {
    /** The value may hold anything but its own quote, `>` included. */
    predicate Valid() {
      && (space == ' ' || space == '\t' || space == '\r' || space == '\n')
      && (quote == '"' || quote == '\'') && quote !in value
      && '>' !in name && '"' !in name && '\'' !in name
    }

    function Print(): string {
      [space] + name + "=" + [quote] + value + [quote]
    }
  }

  function PrintAll(attributes: seq<Attribute>): string {
    if attributes == [] then "" else attributes[0].Print() + PrintAll(attributes[1..])
  }

  predicate AllValid(attributes: seq<Attribute>) {
    forall i :: 0 <= i < |attributes| ==> attributes[i].Valid()
  }

  lemma {:induction false} PlainPassed(xml: string, i: nat, j: nat)
    requires i <= j <= |xml| && forall k :: i <= k < j ==> xml[k] != '>' && xml[k] != '"' && xml[k] != '\''
    ensures TagEnd(xml, i, None) == TagEnd(xml, j, None)
    decreases j - i
  {
    if i < j {
      PlainPassed(xml, i + 1, j);
    }
  }

  lemma {:induction false} QuotedPassed(xml: string, i: nat, j: nat, q: char)
    requires i <= j < |xml| && xml[j] == q && forall k :: i <= k < j ==> xml[k] != q
    ensures TagEnd(xml, i, Some(q)) == TagEnd(xml, j + 1, None)
    decreases j - i
  {
    if i < j {
      QuotedPassed(xml, i + 1, j, q);
    }
  }

  lemma AttributeChars(a: Attribute)
    requires a.Valid()
    ensures var s, n := a.Print(), |a.name| + 2;
            && |s| == n + 2 + |a.value| && s[n] == a.quote && s[|s| - 1] == a.quote
            && (forall k :: 0 <= k < n ==> s[k] != '>' && s[k] != '"' && s[k] != '\'')
            && (forall k :: n < k < |s| - 1 ==> s[k] != a.quote)
  {
    var s, n := a.Print(), |a.name| + 2;
    assert forall k :: 1 <= k < n - 1 ==> s[k] == a.name[k - 1];
    assert forall k :: n < k < |s| - 1 ==> s[k] == a.value[k - n - 1];
  }

  lemma SliceChars(xml: string, s: string, i: nat)
    requires MatchAt(xml, s, i)
    ensures i + |s| <= |xml| && forall j :: i <= j < i + |s| ==> xml[j] == s[j - i]
  {
    forall j | i <= j < i + |s| ensures xml[j] == s[j - i] {
      assert xml[i..i + |s|][j - i] == xml[j];
    }
  }

  lemma AttributePassed(xml: string, i: nat, a: Attribute)
    requires a.Valid() && MatchAt(xml, a.Print(), i)
    ensures i + |a.Print()| <= |xml| && TagEnd(xml, i, None) == TagEnd(xml, i + |a.Print()|, None)
  {
    var s, n := a.Print(), |a.name| + 2;
    AttributeChars(a);
    SliceChars(xml, s, i);
    hide Attribute.Print, MatchAt;
    PlainPassed(xml, i, i + n);
    QuotedPassed(xml, i + n + 1, i + |s| - 1, a.quote);
  }

  /** Quoted values hide what would end the tag. */
  lemma {:induction false} AttributesPassed(xml: string, i: nat, attributes: seq<Attribute>)
    requires AllValid(attributes) && MatchAt(xml, PrintAll(attributes), i)
    ensures i + |PrintAll(attributes)| <= |xml| && TagEnd(xml, i, None) == TagEnd(xml, i + |PrintAll(attributes)|, None)
    decreases |attributes|
  {
    hide MatchAt, Attribute.Print, TagEnd;
    MatchIsSlice(xml, PrintAll(attributes), i);
    if attributes != [] {
      var first, rest := attributes[0].Print(), PrintAll(attributes[1..]);
      MatchPieces(xml, first, rest, i);
      AttributePassed(xml, i, attributes[0]);
      AttributesPassed(xml, i + |first|, attributes[1..]);
    }
  }

  // ----- open tags -----

  /** A tag name, with a prefix or without. */
  ghost predicate IsName(name: string) {
    name != "" && name[0] != '!' && name[0] != '?' && forall c :: c in name ==> !EndsName(c) && c != '<'
  }

  /** An open tag with attributes; a slash before its end makes it an empty element. */
  function PrintTag(name: string, attributes: seq<Attribute>, empty: bool): string {
    "<" + name + (PrintAll(attributes) + (if empty then "/>" else ">"))
  }

  lemma TagPieces(xml: string, k: nat, name: string, attributes: seq<Attribute>, empty: bool)
    requires MatchAt(xml, PrintTag(name, attributes, empty), k)
    ensures var e := k + 1 + |name|;
            && MatchAt(xml, "<" + name, k) && MatchAt(xml, PrintAll(attributes), e)
            && MatchAt(xml, if empty then "/>" else ">", e + |PrintAll(attributes)|)
    ensures |PrintTag(name, attributes, empty)| == 1 + |name| + |PrintAll(attributes)| + (if empty then 2 else 1)
  {
    hide MatchAt, PrintAll;
    var attrs, close := PrintAll(attributes), if empty then "/>" else ">";
    MatchPieces(xml, "<" + name, attrs + close, k);
    MatchPieces(xml, attrs, close, k + 1 + |name|);
  }

  lemma NamePart(xml: string, k: nat, name: string)
    requires IsName(name) && MatchAt(xml, "<" + name, k)
    ensures var e := k + 1 + |name|;
            e <= |xml| && xml[k] == '<' && xml[k + 1] == name[0] && xml[k + 1..e] == name && forall j :: k < j < e ==> !EndsName(xml[j])
  {
    hide EndsName;
    SliceChars(xml, "<" + name, k);
    forall j | k < j < k + 1 + |name| ensures xml[j] == name[j - k - 1] && !EndsName(xml[j]) {
      assert ("<" + name)[j - k] == name[j - k - 1] && name[j - k - 1] in name;
    }
    assert xml[k + 1..k + 1 + |name|] == name;
  }

  /** What ends the tag: the `>` is next, or the slash before it, and no slash stands before a plain `>`. */
  lemma EndPart(xml: string, e: nat, attributes: seq<Attribute>, empty: bool)
    requires 0 < e && AllValid(attributes) && MatchAt(xml, PrintAll(attributes), e) && e <= |xml| && xml[e - 1] != '/'
    requires MatchAt(xml, if empty then "/>" else ">", e + |PrintAll(attributes)|)
    ensures var end := e + |PrintAll(attributes)|;
            && end + (if empty then 2 else 1) <= |xml| && xml[end] == (if empty then '/' else '>') && (empty ==> xml[end + 1] == '>')
            && EndsName(xml[e]) && xml[end - 1] != '/'
  {
    var attrs, close := PrintAll(attributes), if empty then "/>" else ">";
    SliceChars(xml, attrs, e);
    SliceChars(xml, close, e + |attrs|);
    LastOfAttributes(attributes);
    hide MatchAt, PrintAll;
    assert |attrs| > 0 ==> xml[e] == attrs[0] && xml[e + |attrs| - 1] == attrs[|attrs| - 1];
  }

  lemma {:induction false} LastOfAttributes(attributes: seq<Attribute>)
    requires AllValid(attributes)
    ensures PrintAll(attributes) != "" ==>
      var s := PrintAll(attributes); (s[0] == ' ' || s[0] == '\t' || s[0] == '\r' || s[0] == '\n') && (s[|s| - 1] == '"' || s[|s| - 1] == '\'')
    ensures PrintAll(attributes) == "" <==> attributes == []
    decreases |attributes|
  {
    if attributes != [] {
      LastOfAttributes(attributes[1..]);
    }
  }

  /** Such a tag is found with its name, where it ends, and whether it is empty. */
  lemma TagIsRead(xml: string, from: nat, k: nat, name: string, attributes: seq<Attribute>, empty: bool)
    requires from <= k <= |xml| && (forall i :: from <= i < k ==> xml[i] != '<')
    requires IsName(name) && AllValid(attributes) && MatchAt(xml, PrintTag(name, attributes, empty), k)
    ensures NextOpenTag(xml, from) == Some(OpenTag(name, k + |PrintTag(name, attributes, empty)|, empty))
  {
    hide MatchAt, PrintTag, PrintAll, Find, SkipSpecial, TagEnd, FindNameEnd, IsName, AllValid, EndsName, NextOpenTag;
    var e := k + 1 + |name|;
    TagPieces(xml, k, name, attributes, empty);
    NamePart(xml, k, name);
    NameStart(name);
    EndPart(xml, e, attributes, empty);
    NextLt(xml, from, k);
    NotSpecial(xml, k);
    NotClosing(xml, k);
    NameEndAt(xml, k + 1, e);
    AttributesPassed(xml, e, attributes);
    SlashPassed(xml, e + |PrintAll(attributes)|, empty);
    TagTurn(xml, from, k, e, e + |PrintAll(attributes)| + (if empty then 1 else 0));
  }

  /** One turn of the tag search, at an open tag. */
  lemma TagTurn(xml: string, from: nat, k: nat, e: nat, end: nat)
    requires from <= |xml| && k + 1 < e <= end < |xml| && Find(xml, "<", from) == Some(k) && SkipSpecial(xml, k) == None
    requires !MatchAt(xml, "</", k) && FindNameEnd(xml, k + 1) == Some(e) && TagEnd(xml, e, None) == end
    ensures NextOpenTag(xml, from) == Some(OpenTag(xml[k + 1..e], end + 1, end > e && xml[end - 1] == '/'))
  {
    hide Find, SkipSpecial, MatchAt, FindNameEnd, TagEnd;
  }

  lemma NameStart(name: string)
    requires IsName(name)
    ensures name != "" && name[0] != '!' && name[0] != '?' && name[0] != '/' && name[|name| - 1] != '/'
  {
    assert name[0] in name && name[|name| - 1] in name && EndsName('/');
  }

  lemma NameEndAt(xml: string, i: nat, e: nat)
    requires i <= e < |xml| && EndsName(xml[e]) && forall j :: i <= j < e ==> !EndsName(xml[j])
    ensures FindNameEnd(xml, i) == Some(e)
  {
  }

  lemma SlashPassed(xml: string, i: nat, empty: bool)
    requires i < |xml| && xml[i] == (if empty then '/' else '>') && (empty ==> i + 1 < |xml| && xml[i + 1] == '>')
    ensures TagEnd(xml, i, None) == if empty then i + 1 else i
  {
  }

  // ----- prefixes -----

  /** The local name is what follows the last colon. */
  lemma {:induction false} PrefixIsDropped(prefix: string, name: string)
    requires ':' !in name
    ensures LocalName(prefix + ":" + name) == name && LocalName(name) == name
  {
    if name == "" {
      assert prefix + ":" + "" == prefix + ":";
    } else {
      var init, last := name[..|name| - 1], name[|name| - 1];
      PrefixIsDropped(prefix, init);
      assert (prefix + ":" + name)[..|prefix + ":" + name| - 1] == prefix + ":" + init;
      assert name == init + [last];
    }
  }

  // ----- fields -----

  function PrintField(name: string, attributes: seq<Attribute>, inner: string): string {
    PrintTag(name, attributes, false) + (inner + CloseText(name))
  }

  /** A field is read by its local name, with its attributes and prefix passed over. */
  lemma DecoratedFieldIsRead(block: string, candidates: seq<string>, from: nat, name: string, attributes: seq<Attribute>, text: string)
    requires IsName(name) && AllValid(attributes) && LocalName(name) in candidates && from < |block|
    requires MatchAt(block, PrintField(name, attributes, Escape(text)), from)
    ensures FirstMatch(block, candidates, from, |block|) == Some(text)
  {
    var tag, raw := PrintTag(name, attributes, false), Escape(text);
    hide MatchAt, PrintTag, Escape, Find, NextOpenTag, DecodeText, LocalName, IsName, AllValid, CloseText;
    MatchPieces(block, tag, raw + CloseText(name), from);
    MatchPieces(block, raw, CloseText(name), from + |tag|);
    MatchIsSlice(block, raw, from + |tag|);
    EscapeHasNoLt(text);
    TextComesBack(text);
    TagIsRead(block, from, from, name, attributes, false);
    CloseFound(block, from + |tag|, raw, name);
  }

  lemma CloseFound(xml: string, a: nat, raw: string, name: string)
    requires a + |raw| <= |xml| && xml[a..a + |raw|] == raw && '<' !in raw && MatchAt(xml, CloseText(name), a + |raw|)
    ensures Find(xml, "</" + name, a) == Some(a + |raw|) && Find(xml, ">", a + |raw|).Some?
  {
    hide Find;
    var b := a + |raw|;
    assert CloseText(name) == ("</" + name) + ">";
    MatchPieces(xml, "</" + name, ">", b);
    hide MatchAt;
    TextHasNoTag(xml, a, raw, "</" + name);
    FirstFound(xml, "</" + name, a, b);
  }

  /** An empty element of a field is a field without text. */
  lemma EmptyFieldIsRead(block: string, candidates: seq<string>, from: nat, name: string, attributes: seq<Attribute>)
    requires IsName(name) && AllValid(attributes) && LocalName(name) in candidates && from < |block|
    requires MatchAt(block, PrintTag(name, attributes, true), from)
    ensures FirstMatch(block, candidates, from, |block|) == Some("")
  {
    hide MatchAt, PrintTag, NextOpenTag, LocalName, IsName, AllValid;
    TagIsRead(block, from, from, name, attributes, true);
  }

  /** An empty element is no block, whatever its name. */
  lemma EmptyBlockPassed(xml: string, kind: string, from: nat, name: string, attributes: seq<Attribute>)
    requires IsName(name) && AllValid(attributes) && MatchAt(xml, PrintTag(name, attributes, true), from)
    ensures SameBlocks(xml, kind, from, from + |PrintTag(name, attributes, true)|)
  {
    hide PrintTag, NextOpenTag, IsName, AllValid, LocalName, MatchAt;
    MatchIsSlice(xml, PrintTag(name, attributes, true), from);
    TagIsRead(xml, from, from, name, attributes, true);
  }

  /** A block with a prefix and attributes is one block; its inner text runs to its close tag. */
  lemma DecoratedBlock(xml: string, kind: string, from: nat, name: string, attributes: seq<Attribute>, inner: string, n: nat)
    requires n > 0 && IsName(name) && AllValid(attributes) && LocalName(name) == kind && '<' !in inner
    requires MatchAt(xml, PrintField(name, attributes, inner), from)
    ensures from <= |xml| && BlockSpans(xml, kind, n, from) != []
    ensures var a := from + |PrintTag(name, attributes, false)|; BlockSpans(xml, kind, n, from)[0] == (a, a + |inner|)
  {
    var tag := PrintTag(name, attributes, false);
    hide MatchAt, PrintTag, Find, NextOpenTag, LocalName, IsName, AllValid, CloseText;
    MatchPieces(xml, tag, inner + CloseText(name), from);
    MatchPieces(xml, inner, CloseText(name), from + |tag|);
    MatchIsSlice(xml, PrintField(name, attributes, inner), from);
    MatchIsSlice(xml, inner, from + |tag|);
    TagIsRead(xml, from, from, name, attributes, false);
    CloseFound(xml, from + |tag|, inner, name);
  }

  // ----- comments and processing instructions -----

  lemma ClosedBy(s: string, mark: string, p: nat)
    requires |mark| >= 2 && p == |s| && (forall i :: 0 <= i <= |s| ==> !MatchAt(s, mark, i))
    requires forall j :: 0 <= j < |mark| - 1 ==> mark[j] != mark[|mark| - 1]
    ensures forall i :: 0 <= i < p ==> !MatchAt(s + mark, mark, i)
  {
    var t, n := s + mark, |mark|;
    forall i | 0 <= i < p ensures !MatchAt(t, mark, i) {
      if i + n <= |s| {
        assert t[i..i + n] == s[i..i + n] && !MatchAt(s, mark, i);
      } else {
        MatchChars(t, mark, i);
        assert t[i + n - 1] == mark[i + n - 1 - |s|];
      }
    }
  }

  lemma SliceOfSlice(s: string, from: nat, n: nat, i: nat, k: nat)
    requires from <= i && i + k <= from + n <= |s|
    ensures s[i..i + k] == s[from..from + n][i - from..i - from + k]
  {
    var m := s[from..from + n];
    var direct, nested := s[i..i + k], m[i - from..i - from + k];
    forall j | 0 <= j < k ensures direct[j] == nested[j] {
      assert m[i - from + j] == s[i + j];
    }
  }

  /** A skipped stretch: an opening, a text without the closing mark, and that mark. */
  lemma MarkFound(xml: string, from: nat, s: string, mark: string)
    requires |mark| >= 2 && MatchAt(xml, s + mark, from) && forall i :: 0 <= i <= |s| ==> !MatchAt(s, mark, i)
    requires forall j :: 0 <= j < |mark| - 1 ==> mark[j] != mark[|mark| - 1]
    ensures from <= |xml| && Find(xml, mark, from) == Some(from + |s|)
  {
    var t := s + mark;
    ClosedBy(s, mark, |s|);
    MatchPieces(xml, s, mark, from);
    MatchIsSlice(xml, t, from);
    forall i | from <= i < from + |s| ensures !MatchAt(xml, mark, i) {
      assert xml[from..from + |t|] == t;
      SliceOfSlice(xml, from, |t|, i, |mark|);
      assert !MatchAt(t, mark, i - from);
    }
    hide MatchAt;
    FirstFound(xml, mark, from, from + |s|);
  }

  /** A comment is skipped to its end, whatever tags it holds. */
  lemma CommentIsSkipped(xml: string, k: nat, comment: string)
    requires MatchAt(xml, "<!--" + (comment + "-->"), k) && forall i :: 0 <= i <= |comment| ==> !MatchAt(comment, "-->", i)
    ensures k <= |xml| && SkipSpecial(xml, k) == Some(k + |comment| + 7)
  {
    hide MatchAt, Find;
    MatchIsSlice(xml, "<!--" + (comment + "-->"), k);
    MatchPieces(xml, "<!--", comment + "-->", k);
    MarkFound(xml, k + 4, comment, "-->");
  }

  /** A processing instruction likewise. */
  lemma InstructionIsSkipped(xml: string, k: nat, text: string)
    requires MatchAt(xml, "<?" + (text + "?>"), k) && forall i :: 0 <= i <= |text| ==> !MatchAt(text, "?>", i)
    ensures k <= |xml| && SkipSpecial(xml, k) == Some(k + |text| + 4)
  {
    hide Find;
    MatchIsSlice(xml, "<?" + (text + "?>"), k);
    MatchPieces(xml, "<?", text + "?>", k);
    MarkFound(xml, k + 2, text, "?>");
    MatchChars(xml, "<!--", k);
    MatchChars(xml, "<?", k);
    assert "<!--"[1] == '!' && "<?"[1] == '?';
  }

  /** The tag search goes on behind what is skipped. */
  lemma SearchGoesOn(xml: string, from: nat, k: nat, after: nat)
    requires from <= k <= |xml| && (forall i :: from <= i < k ==> xml[i] != '<') && k < |xml| && xml[k] == '<'
    requires SkipSpecial(xml, k) == Some(after)
    ensures NextOpenTag(xml, from) == NextOpenTag(xml, after)
  {
    hide Find, SkipSpecial;
    NextLt(xml, from, k);
  }

  // ----- text around CDATA -----

  /** Escaped text before and after a verbatim stretch is decoded, the stretch itself is not. */
  lemma MixedTextIsRead(before: string, verbatim: string, after: string)
    requires forall i :: 0 <= i <= |verbatim| ==> !MatchAt(verbatim, CDATA_CLOSE, i)
    ensures DecodeText(Escape(before) + (CDATA_OPEN + (verbatim + CDATA_CLOSE + Escape(after)))) == before + (verbatim + after)
  {
    hide DecodeText, DecodeEntities, Find, MatchAt, Escape;
    var head, tail, inside := Escape(before), Escape(after), verbatim + CDATA_CLOSE;
    var raw := head + (CDATA_OPEN + (inside + tail));
    var body := |head| + |CDATA_OPEN|;
    TextComesBack(after);
    MiddleFound(before, inside + tail);
    WholeMatches(head + CDATA_OPEN, inside + tail);
    MatchPieces(raw, inside, tail, body);
    CloseMarkFound(raw, body, verbatim);
    StretchIsCut(head + CDATA_OPEN, verbatim, CDATA_CLOSE, tail);
    assert raw == head + CDATA_OPEN + (verbatim + CDATA_CLOSE + tail);
    ClosedTurn(raw, |head|, body, body + |verbatim|);
  }

  /** One turn of decoding, at an opening mark with its closing mark, ... */
  lemma ClosedTurn(raw: string, start: nat, body: nat, end: nat)
    requires Find(raw, CDATA_OPEN, 0) == Some(start) && body == start + |CDATA_OPEN| <= |raw| && Find(raw, CDATA_CLOSE, body) == Some(end)
    ensures body <= end && end + |CDATA_CLOSE| <= |raw|
    ensures DecodeText(raw) == DecodeEntities(raw[..start]) + (raw[body..end] + DecodeText(raw[end + |CDATA_CLOSE|..]))
  {
    hide DecodeEntities, MatchAt, Find;
  }

  /** ... or without. */
  lemma OpenTurn(raw: string, start: nat, body: nat)
    requires Find(raw, CDATA_OPEN, 0) == Some(start) && body == start + |CDATA_OPEN| <= |raw| && Find(raw, CDATA_CLOSE, body) == None
    ensures DecodeText(raw) == DecodeEntities(raw[..start]) + raw[body..]
  {
    hide DecodeEntities, MatchAt, Find;
  }

  lemma StretchIsCut(a: string, stretch: string, mark: string, tail: string)
    ensures var s := a + (stretch + mark + tail);
            s[|a|..|a| + |stretch|] == stretch && s[|a| + |stretch| + |mark|..] == tail
  {
  }

  /** A stretch that is never closed runs to the end. */
  lemma UnclosedTextIsRead(before: string, verbatim: string)
    requires forall i :: 0 <= i <= |verbatim| ==> !MatchAt(verbatim, CDATA_CLOSE, i)
    ensures DecodeText(Escape(before) + (CDATA_OPEN + verbatim)) == before + verbatim
  {
    hide DecodeText, DecodeEntities, Find, MatchAt, Escape;
    var head := Escape(before);
    var raw := head + (CDATA_OPEN + verbatim);
    MiddleFound(before, verbatim);
    NotInTail(head + CDATA_OPEN, verbatim, CDATA_CLOSE);
    OpenTurn(raw, |head|, |head| + |CDATA_OPEN|);
  }

  lemma NotInTail(a: string, b: string, pat: string)
    requires forall i :: 0 <= i <= |b| ==> !MatchAt(b, pat, i)
    ensures Find(a + b, pat, |a|) == None && (a + b)[|a|..] == b
  {
    forall i | |a| <= i <= |a + b| ensures !MatchAt(a + b, pat, i) {
      assert !MatchAt(b, pat, i - |a|);
      assert i + |pat| <= |a + b| ==> (a + b)[i..i + |pat|] == b[i - |a|..i - |a| + |pat|];
    }
    hide MatchAt;
  }

  lemma WholeMatches(a: string, b: string)
    ensures MatchAt(a + b, b, |a|)
  {
    assert (a + b)[|a|..] == b;
  }

  /** The opening mark is found behind the text before it, which decodes to what was written. */
  lemma MiddleFound(before: string, rest: string)
    ensures var head := Escape(before); var raw := head + (CDATA_OPEN + rest);
            Find(raw, CDATA_OPEN, 0) == Some(|head|) && raw[..|head|] == head && DecodeEntities(head) == before
            && raw == head + CDATA_OPEN + rest
  {
    hide Escape, DecodeEntities;
    var head := Escape(before);
    var raw := head + (CDATA_OPEN + rest);
    EscapeHasNoLt(before);
    DecodeUndoesEscape(before);
    assert CDATA_OPEN[0] == '<';
    TextHasNoTag(raw, 0, head, CDATA_OPEN);
    WholeMatches(head, CDATA_OPEN + rest);
    MatchPieces(raw, CDATA_OPEN, rest, |head|);
    FirstFound(raw, CDATA_OPEN, 0, |head|);
  }

  lemma CloseMarkFound(raw: string, body: nat, verbatim: string)
    requires MatchAt(raw, verbatim + CDATA_CLOSE, body) && forall i :: 0 <= i <= |verbatim| ==> !MatchAt(verbatim, CDATA_CLOSE, i)
    ensures body <= |raw| && Find(raw, CDATA_CLOSE, body) == Some(body + |verbatim|)
  {
    hide Find, MatchAt;
    assert CDATA_CLOSE[0] == ']' && CDATA_CLOSE[1] == ']' && CDATA_CLOSE[2] == '>';
    MarkFound(raw, body, verbatim, CDATA_CLOSE);
  }
}
