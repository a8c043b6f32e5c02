/** A declaration before the feed: what the search for its internal subset skips. */
module RssDoctype {
  import opened Text
  import opened RssXml
  import opened RssRoundTrip

  function Doctype(name: string): (s: string)
    ensures |s| == |name| + 11
  {
    "<!DOCTYPE " + name + ">"
  }

  lemma DoctypeChars(name: string, rest: string)
    requires '>' !in name && '[' !in name
    ensures var xml, k := Doctype(name) + rest, |Doctype(name)| - 1;
            && k < |xml| && xml[0] == '<' && xml[1] == '!' && xml[2] != '-' && xml[k] == '>' && xml[k + 1..] == rest
            && (forall i :: 2 <= i < k ==> xml[i] != '>') && (forall i :: 0 <= i <= k ==> xml[i] != '[')
  {
    var start, xml := "<!DOCTYPE ", Doctype(name) + rest;
    assert forall i :: 0 <= i < 10 ==> xml[i] == start[i];
    assert forall i :: 0 <= i < |name| ==> xml[10 + i] == name[i];
  }

  lemma IsDeclaration(xml: string, i: nat)
    requires i + 2 < |xml| && xml[i] == '<' && xml[i + 1] == '!' && xml[i + 2] != '-'
    ensures SkipSpecial(xml, i) == SkipDeclaration(xml, i + 2)
  {
    hide SkipDeclaration, Find;
    MatchChars(xml, "<!--", i);
    MatchChars(xml, "<?", i);
    assert xml[i..i + 2] == "<!";
  }

  /** A DOCTYPE without internal subset is skipped to its own `>` exactly when no `[` follows
      anywhere in the document: the search for the subset does not stop at the declaration. */
  lemma DoctypeSkippedExactly(name: string, rest: string)
    requires '>' !in name && '[' !in name
    ensures SkipSpecial(Doctype(name) + rest, 0) == Some(|Doctype(name)|) <==> '[' !in rest
  {
    hide Find, Doctype, MatchAt, SkipSpecial;
    var xml, k := Doctype(name) + rest, |Doctype(name)| - 1;
    DoctypeChars(name, rest);
    IsDeclaration(xml, 0);
    var bracket := Find(xml, "[", 2);
    if '[' in rest {
      var j :| 0 <= j < |rest| && rest[j] == '[';
      assert xml[k + 1..][j] == xml[k + 1 + j];
      MatchOne(xml, '[', k + 1 + j);
      MatchOne(xml, '[', bracket.value);
    } else {
      forall i | 2 <= i <= |xml| ensures !MatchAt(xml, "[", i) {
        MatchOne(xml, '[', i);
        assert k < i < |xml| ==> xml[i] == rest[i - k - 1];
      }
      NextGt(xml, 2, k);
    }
  }

  lemma FeedBehind(decl: string, wrappers: seq<string>, posts: seq<Post>)
    ensures FeedAt(decl + PrintFeed(wrappers, posts), |decl|, wrappers, posts)
  {
    hide PrintFeed;
    var feed := PrintFeed(wrappers, posts);
    assert (decl + feed)[|decl|..|decl| + |feed|] == feed;
  }

  /** Scanning for blocks of either kind from either place gives the same. */
  ghost predicate SameScan(xml: string, from: nat, to: nat) {
    SameBlocks(xml, "item", from, to) && SameBlocks(xml, "entry", from, to)
  }

  lemma SameScanCompose(xml: string, a: nat, b: nat, c: nat)
    requires SameScan(xml, a, b) && SameScan(xml, b, c)
    ensures SameScan(xml, a, c)
  {
    hide SameBlocks;
    SameBlocksCompose(xml, "item", a, b, c);
    SameBlocksCompose(xml, "entry", a, b, c);
  }

  lemma SkippedFirst(xml: string, k: nat)
    requires k <= |xml| && Find(xml, "<", 0) == Some(0) && SkipSpecial(xml, 0) == Some(k)
    ensures SameScan(xml, 0, k)
  {
    hide SkipSpecial, Find, SameBlocks;
    assert NextOpenTag(xml, 0) == NextOpenTag(xml, k);
    hide NextOpenTag;
    SameTagSameBlocks(xml, "item", 0, k);
    SameTagSameBlocks(xml, "entry", 0, k);
  }

  /** Scanning that gets to the feed reads it. */
  lemma FeedIsRead(xml: string, from: nat, wrappers: seq<string>, posts: seq<Post>, n: nat)
    requires IsFeed(wrappers, posts) && FeedAt(xml, from, wrappers, posts) && SameScan(xml, 0, from)
    ensures FeedEntries(xml, n) == FirstOf(Chosen(posts), n)
  {
    hide FeedAt, EndsWith, SameBlocks, MatchAt, Chosen, FirstOf, FeedEntries, OpenAll;
    var to := from + |OpenAll(wrappers)|;
    PostsBehindOpens(xml, from, wrappers, posts);
    OpensPassed(xml, "item", from, wrappers);
    OpensPassed(xml, "entry", from, wrappers);
    SameScanCompose(xml, 0, from, to);
    ReadFrom(xml, to, wrappers, posts, n);
  }

  // ----- a declaration that is not skipped -----

  /** No `>` or `[` in the declaration, and every quote closed. */
  predicate PlainDoctype(name: string) {
    '>' !in name && '[' !in name && TagEnd(Doctype(name), 9, None) == |name| + 10
  }

  /** Some `]` follows some `[`. */
  ghost predicate Bracketed(s: string) {
    exists i, j :: 0 <= i < j < |s| && s[i] == '[' && s[j] == ']'
  }

  lemma {:induction false} TagEndOfPrefix(s: string, rest: string, i: nat, quote: Option<char>)
    requires i <= |s| && TagEnd(s, i, quote) < |s|
    ensures TagEnd(s + rest, i, quote) == TagEnd(s, i, quote)
    decreases |s| - i
  {
    if i < |s| {
      assert (s + rest)[i] == s[i];
      match quote
      case Some(q) => TagEndOfPrefix(s, rest, i + 1, if s[i] == q then None else quote);
      case None =>
        if s[i] != '>' {
          TagEndOfPrefix(s, rest, i + 1, if s[i] == '"' || s[i] == '\'' then Some(s[i]) else None);
        }
    }
  }

  lemma DoctypeName(xml: string, name: string, rest: string)
    requires xml == Doctype(name) + rest
    ensures 9 < |xml| && FindNameEnd(xml, 1) == Some(9) && xml[1..9] == "!DOCTYPE" && !MatchAt(xml, "</", 0)
  {
    var start := "<!DOCTYPE ";
    assert forall i :: 0 <= i < 10 ==> xml[i] == start[i];
    forall i | 1 <= i < 9 ensures !EndsName(xml[i]) {
      assert start[i] == '!' || 'A' <= start[i] <= 'Z';
    }
    assert EndsName(xml[9]);
    NotClosing(xml, 0);
  }

  /** A declaration whose subset never ends is taken for a tag, which ends where it does. */
  lemma DoctypeIsTag(name: string, rest: string)
    requires PlainDoctype(name) && SkipSpecial(Doctype(name) + rest, 0) == None
    ensures var tag := NextOpenTag(Doctype(name) + rest, 0);
            tag.Some? && tag.value.name == "!DOCTYPE" && tag.value.afterTag == |Doctype(name)|
  {
    hide Find, SkipSpecial, MatchAt, FindNameEnd, Doctype;
    var xml := Doctype(name) + rest;
    DoctypeChars(name, rest);
    NextLt(xml, 0, 0);
    DoctypeName(xml, name, rest);
    TagEndOfPrefix(Doctype(name), rest, 9, None);
    hide TagEnd;
  }

  lemma DoctypeIsOther()
    ensures LocalName("!DOCTYPE") == "!DOCTYPE" && "!DOCTYPE" != "item" && "!DOCTYPE" != "entry"
  {
    SimpleIsLocal("!DOCTYPE");
    assert |"!DOCTYPE"| == 8 && |"item"| == 4 && |"entry"| == 5;
  }

  // ----- a closed bracket inside a post -----

  /** From inside a field's text, the next `>` ends the field. */
  lemma FieldEnds(xml: string, from: nat, tag: string, text: string, c: nat)
    requires Simple(tag) && ']' !in tag && MatchAt(xml, Element(tag, Escape(text)), from)
    requires from <= c < ElementEnd(tag, Escape(text), from) && c < |xml| && xml[c] == ']'
    ensures ElementEnd(tag, Escape(text), from) <= |xml| && Find(xml, ">", c + 1) == Some(ElementEnd(tag, Escape(text), from) - 1)
  {
    hide Find, Simple, Element, Escape, MatchAt, OpenText, CloseText;
    var raw := Escape(text);
    var a, b := InnerStart(tag, from), InnerStart(tag, from) + |raw|;
    ElementParts(xml, from, tag, raw);
    TagLengths(tag);
    NoBracketInTags(tag);
    NotInMatch(xml, OpenText(tag), from, ']');
    NotInMatch(xml, CloseText(tag), b, ']');
    EscapeHasNoGt(text);
    TextEnds(xml, a, raw, tag, c);
  }

  lemma TagLengths(tag: string)
    ensures |OpenText(tag)| == |tag| + 2 && |CloseText(tag)| == |tag| + 3
  {
  }

  /** From inside a text without `>`, the next one ends the close tag. */
  lemma TextEnds(xml: string, a: nat, raw: string, tag: string, c: nat)
    requires a + |raw| <= |xml| && xml[a..a + |raw|] == raw && '>' !in raw
    requires Simple(tag) && MatchAt(xml, CloseText(tag), a + |raw|) && a <= c < a + |raw|
    ensures Find(xml, ">", c + 1) == Some(a + |raw| + |tag| + 2)
  {
    hide Find, Simple, MatchAt, CloseText;
    var b := a + |raw|;
    var gt := b + |tag| + 2;
    CloseEnds(xml, tag, b);
    MatchOne(xml, '>', gt);
    forall i | c + 1 <= i < gt ensures xml[i] != '>' {
      if i < b {
        assert xml[i] == xml[a..b][i - a] && raw[i - a] in raw;
      } else {
        MatchOne(xml, '>', i);
      }
    }
    NextGt(xml, c + 1, gt);
  }

  lemma NoBracketInTags(tag: string)
    requires ']' !in tag
    ensures ']' !in OpenText(tag) && ']' !in CloseText(tag)
  {
  }

  lemma NotInMatch(xml: string, pat: string, i: nat, c: char)
    requires MatchAt(xml, pat, i) && c !in pat
    ensures i + |pat| <= |xml| && forall p :: i <= p < i + |pat| ==> xml[p] != c
  {
    forall p | i <= p < i + |pat| ensures xml[p] != c {
      assert xml[p] == xml[i..i + |pat|][p - i];
    }
  }

  /** A `]` within a post stands in one of its fields. */
  lemma BracketInField(xml: string, from: nat, block: string, w: nat, c: nat)
    requires MatchAt(xml, OpenText(block), from) && MatchAt(xml, CloseText(block), w) && ']' !in block
    requires from <= c < w + |block| + 3 && c < |xml| && xml[c] == ']'
    ensures from + |block| + 2 <= c < w
  {
    hide MatchAt, OpenText, CloseText;
    TagLengths(block);
    NoBracketInTags(block);
    NotInMatch(xml, OpenText(block), from, ']');
    NotInMatch(xml, CloseText(block), w, ']');
  }

  lemma NamesHaveNoBracket(p: Post)
    requires p.Valid()
    ensures ']' !in "title" && ']' !in p.description && ']' !in p.date && ']' !in p.block
  {
  }

  /** Scanning on behind the field that holds a `]` misses the post it belongs to. */
  lemma PostIsLost(xml: string, from: nat, p: Post, c: nat) returns (k: nat)
    requires p.Valid() && MatchAt(xml, Element(p.block, Body(p)), from)
    requires from <= c < ElementEnd(p.block, Body(p), from) && c < |xml| && xml[c] == ']'
    ensures DeclarationEnd(xml, c + 1) == Some(k) && SameScan(xml, k, ElementEnd(p.block, Body(p), from))
  {
    hide Find, Element, Escape, Body, SameBlocks, BlockSpans, NextOpenTag, Simple, InnerStart, ElementEnd, MatchAt, Post.Valid, OpenText, CloseText;
    var x, y, z, w := PostLayout(xml, from, p);
    NamesHaveNoBracket(p);
    PostNames(p);
    BracketInField(xml, from, p.block, w, c);
    FieldsPassed(xml, "item", p, y, z, w);
    FieldsPassed(xml, "entry", p, y, z, w);
    if c < y {
      FieldEnds(xml, x, "title", p.entry.title, c);
      k := y;
    } else if c < z {
      FieldEnds(xml, y, p.description, p.entry.description, c);
      k := z;
    } else {
      FieldEnds(xml, z, p.date, p.entry.published, c);
      k := w;
    }
  }

  /** Among printed posts, a `]` loses the posts up to the one it stands in. */
  lemma {:induction false} PostsAreLost(xml: string, from: nat, wrappers: seq<string>, posts: seq<Post>, c: nat) returns (j: nat, k: nat, z: nat)
    requires IsFeed(wrappers, posts) && EndsWith(xml, from, wrappers, posts)
    requires from <= c < |xml| && xml[c] == ']'
    ensures j < |posts| && DeclarationEnd(xml, c + 1) == Some(k) && SameScan(xml, k, z)
    ensures EndsWith(xml, z, wrappers, posts[j + 1..])
    decreases |posts|
  {
    hide MatchAt, Element, Body, SameScan, DeclarationEnd, EndsWith, Post.Valid, IsWrapper;
    if posts == [] {
      NothingPrinted(xml, from, wrappers, "item");
      NoBracketInCloses(xml, from, wrappers);
    } else {
      var end := ElementEnd(posts[0].block, Body(posts[0]), from);
      NextPost(xml, from, wrappers, posts);
      if c < end {
        j, z := 0, end;
        k := PostIsLost(xml, from, posts[0], c);
      } else {
        j, k, z := PostsAreLost(xml, end, wrappers, posts[1..], c);
        j := j + 1;
        assert posts[1..][j..] == posts[j + 1..];
      }
    }
  }

  lemma NoBracketInCloses(xml: string, from: nat, wrappers: seq<string>)
    requires forall i :: 0 <= i < |wrappers| ==> IsWrapper(wrappers[i])
    requires MatchAt(xml, CloseAll(wrappers), from) && |xml| == from + |CloseAll(wrappers)|
    ensures forall c :: from <= c < |xml| ==> xml[c] != ']'
  {
    hide MatchAt, CloseAll;
    WrappersHaveNoBracket(wrappers);
    NotInMatch(xml, CloseAll(wrappers), from, ']');
  }

  lemma {:induction false} WrappersHaveNoBracket(wrappers: seq<string>)
    requires forall i :: 0 <= i < |wrappers| ==> IsWrapper(wrappers[i])
    ensures ']' !in OpenAll(wrappers) && ']' !in CloseAll(wrappers)
    decreases |wrappers|
  {
    if wrappers != [] {
      assert IsWrapper(wrappers[0]) && ']' !in wrappers[0];
      hide IsWrapper;
      WrappersHaveNoBracket(wrappers[1..]);
      NoBracketInTags(wrappers[0]);
    }
  }

  // ----- the feed behind the declaration -----

  /** Where the skipped subset ends: at a `]` of the feed. */
  lemma SubsetEnds(name: string, feed: string) returns (c: nat)
    requires PlainDoctype(name) && Bracketed(feed)
    ensures var xml := Doctype(name) + feed; |Doctype(name)| <= c < |xml| && xml[c] == ']' && SkipSpecial(xml, 0) == DeclarationEnd(xml, c + 1)
  {
    hide Find, Doctype, MatchAt, SkipSpecial, TagEnd, DeclarationEnd;
    var xml, n := Doctype(name) + feed, |Doctype(name)|;
    DoctypeChars(name, feed);
    IsDeclaration(xml, 0);
    var i, j :| 0 <= i < j < |feed| && feed[i] == '[' && feed[j] == ']';
    assert xml[n + i] == '[' && xml[n + j] == ']';
    MatchOne(xml, '[', n + i);
    MatchOne(xml, ']', n + j);
    var bracket := Find(xml, "[", 2).value;
    MatchOne(xml, '[', bracket);
    c := Find(xml, "]", bracket + 1).value;
    MatchOne(xml, ']', c);
  }

  /** With a `[` that no `]` follows, the declaration is not skipped at all. */
  lemma SubsetNeverEnds(name: string, feed: string)
    requires PlainDoctype(name) && !Bracketed(feed) && '[' in feed
    ensures SkipSpecial(Doctype(name) + feed, 0) == None
  {
    hide Find, Doctype, MatchAt, SkipSpecial, TagEnd;
    var xml, n := Doctype(name) + feed, |Doctype(name)|;
    DoctypeChars(name, feed);
    IsDeclaration(xml, 0);
    var i :| 0 <= i < |feed| && feed[i] == '[';
    MatchOne(xml, '[', n + i);
    var bracket := Find(xml, "[", 2).value;
    MatchOne(xml, '[', bracket);
    assert feed[bracket - n] == '[';
    forall q | bracket < q <= |xml| ensures !MatchAt(xml, "]", q) {
      MatchOne(xml, ']', q);
      assert q < |xml| ==> xml[q] == feed[q - n];
    }
  }

  /** Then the feed is scanned from its start. */
  lemma FeedComesBackAfterDoctype(name: string, wrappers: seq<string>, posts: seq<Post>, maxItems: nat)
    requires PlainDoctype(name) && IsFeed(wrappers, posts) && !Bracketed(PrintFeed(wrappers, posts))
    ensures FeedEntries(Doctype(name) + PrintFeed(wrappers, posts), maxItems) == FirstOf(Chosen(posts), maxItems)
  {
    hide SkipSpecial, PrintFeed, Doctype, Find, TagEnd, NextOpenTag, LocalName, Bracketed, FeedEntries, FeedAt, SameScan, IsFeed, Chosen, FirstOf;
    var decl, feed := Doctype(name), PrintFeed(wrappers, posts);
    var xml := decl + feed;
    FeedBehind(decl, wrappers, posts);
    if '[' in feed {
      SubsetNeverEnds(name, feed);
      DoctypeIsTag(name, feed);
      TagPassed(xml, NextOpenTag(xml, 0).value);
    } else {
      DoctypeSkippedExactly(name, feed);
      DoctypeChars(name, feed);
      NextLt(xml, 0, 0);
      SkippedFirst(xml, |decl|);
    }
    FeedIsRead(xml, |decl|, wrappers, posts, maxItems);
  }

  lemma TagPassed(xml: string, tag: OpenTag)
    requires NextOpenTag(xml, 0) == Some(tag) && tag.name == "!DOCTYPE"
    ensures SameScan(xml, 0, tag.afterTag)
  {
    hide NextOpenTag, SameBlocks, LocalName;
    DoctypeIsOther();
    OtherTag(xml, "item", 0, tag);
    OtherTag(xml, "entry", 0, tag);
  }

  /** With a `]` behind a `[`, the posts up to the one that holds such a `]` are lost, and
      exactly the others are read. */
  lemma PostsLostAfterDoctype(name: string, wrappers: seq<string>, posts: seq<Post>) returns (j: nat)
    requires PlainDoctype(name) && IsFeed(wrappers, posts) && Bracketed(PrintFeed(wrappers, posts))
    ensures j < |posts|
    ensures forall n: nat :: FeedEntries(Doctype(name) + PrintFeed(wrappers, posts), n) == FirstOf(Chosen(posts[j + 1..]), n)
  {
    hide SkipSpecial, Doctype, Find, FirstOf, MatchAt, TagEnd, PrintFeed, Bracketed, DeclarationEnd, FeedEntries, FeedAt, EndsWith, SameScan, OpenAll, Chosen;
    var decl, feed := Doctype(name), PrintFeed(wrappers, posts);
    var xml := decl + feed;
    var c := SubsetEnds(name, feed);
    FeedBehind(decl, wrappers, posts);
    PostsBehindOpens(xml, |decl|, wrappers, posts);
    var from := |decl| + |OpenAll(wrappers)|;
    WrappersHaveNoBracket(wrappers);
    NotInMatch(xml, OpenAll(wrappers), |decl|, ']');
    var k, z;
    j, k, z := PostsAreLost(xml, from, wrappers, posts, c);
    DoctypeChars(name, feed);
    NextLt(xml, 0, 0);
    SkippedFirst(xml, k);
    SameScanCompose(xml, 0, k, z);
    RestIsRead(xml, z, wrappers, posts[j + 1..]);
  }

  lemma RestIsRead(xml: string, z: nat, wrappers: seq<string>, posts: seq<Post>)
    requires IsFeed(wrappers, posts) && EndsWith(xml, z, wrappers, posts) && SameScan(xml, 0, z)
    ensures forall n: nat :: FeedEntries(xml, n) == FirstOf(Chosen(posts), n)
  {
    hide FeedEntries, FirstOf, Chosen, EndsWith, SameBlocks, IsFeed;
    forall n: nat ensures FeedEntries(xml, n) == FirstOf(Chosen(posts), n) {
      ReadFrom(xml, z, wrappers, posts, n);
    }
  }

  /** All posts are of one kind. */
  predicate OneKind(posts: seq<Post>) {
    forall i :: 0 <= i < |posts| ==> posts[i].block == posts[0].block
  }

  lemma ChosenOfOneKind(posts: seq<Post>)
    requires OneKind(posts) && forall i :: 0 <= i < |posts| ==> posts[i].Valid()
    ensures |Chosen(posts)| == |posts|
  {
    if posts != [] {
      AllOfKind(posts, posts[0].block);
    }
  }

  lemma {:induction false} AllOfKind(posts: seq<Post>, block: string)
    requires forall i :: 0 <= i < |posts| ==> posts[i].block == block
    ensures |EntriesIn(posts, block)| == |posts|
    ensures forall kind :: kind != block ==> EntriesIn(posts, kind) == []
    decreases |posts|
  {
    if posts != [] {
      AllOfKind(posts[1..], block);
    }
  }

  /** Behind a declaration without internal subset, a printed feed of RSS or Atom comes back for
      every limit exactly when none of its `]` follows one of its `[`. */
  lemma FeedComesBackExactly(name: string, wrappers: seq<string>, posts: seq<Post>)
    requires PlainDoctype(name) && IsFeed(wrappers, posts) && OneKind(posts)
    ensures (forall n: nat :: FeedEntries(Doctype(name) + PrintFeed(wrappers, posts), n) == FirstOf(Chosen(posts), n))
        <==> !Bracketed(PrintFeed(wrappers, posts))
  {
    if Bracketed(PrintFeed(wrappers, posts)) {
      hide PlainDoctype, Bracketed, FeedEntries, Doctype, PrintFeed, Chosen, Post.Valid;
      var j := PostsLostAfterDoctype(name, wrappers, posts);
      ChosenOfOneKind(posts);
      ChosenOfOneKind(posts[j + 1..]);
      var n := |posts|;
      assert FeedEntries(Doctype(name) + PrintFeed(wrappers, posts), n) == FirstOf(Chosen(posts[j + 1..]), n);
      assert |FirstOf(Chosen(posts[j + 1..]), n)| < |FirstOf(Chosen(posts), n)|;
    } else {
      hide PlainDoctype, Bracketed, FeedEntries, Doctype, PrintFeed, Chosen, IsFeed, FirstOf;
      forall n: nat ensures FeedEntries(Doctype(name) + PrintFeed(wrappers, posts), n) == FirstOf(Chosen(posts), n) {
        FeedComesBackAfterDoctype(name, wrappers, posts, n);
      }
    }
  }

  lemma RssIsPlain()
    ensures PlainDoctype("rss")
  {
    var s := Doctype("rss");
    assert s == "<!DOCTYPE rss>";
    assert TagEnd(s, 13, None) == 13;
    assert TagEnd(s, 12, None) == 13;
    assert TagEnd(s, 11, None) == 13;
    assert TagEnd(s, 10, None) == 13;
  }

  lemma {:induction false} OrdinaryIsKept(s: string)
    requires forall c, k :: c in s && 1 <= k <= 5 ==> c != Plain(k)
    ensures Escape(s) == s
  {
    if s != "" {
      EscapeCharCases(s[0], 5);
      assert s[0] in s && forall c :: c in s[1..] ==> c in s;
      OrdinaryIsKept(s[1..]);
    }
  }

  /** The title is the first text of a feed without wrappers. */
  lemma TitleAt(p: Post, i: nat)
    requires i < |Escape(p.entry.title)|
    ensures var k := |p.block| + 9 + i; k < |PrintFeed([], [p])| && PrintFeed([], [p])[k] == Escape(p.entry.title)[i]
  {
    hide Escape;
    var title, body := Element("title", Escape(p.entry.title)), Body(p);
    var post, n := Element(p.block, body), |p.block| + 2;
    assert title[7 + i] == Escape(p.entry.title)[i];
    assert body[7 + i] == title[7 + i];
    assert post[n + 7 + i] == body[7 + i];
    assert PrintPosts([p]) == post + PrintPosts([]);
    assert PrintFeed([], [p])[n + 7 + i] == post[n + 7 + i];
  }

  /** A title in brackets is enough to lose the one item of a feed. */
  lemma LostFeed()
    ensures var posts := [Post("item", "description", "pubDate", FeedEntry("[a]", "", ""))];
            IsFeed([], posts) && forall n: nat :: FeedEntries(Doctype("rss") + PrintFeed([], posts), n) == []
  {
    hide FeedEntries, PrintFeed, PlainDoctype;
    var p := Post("item", "description", "pubDate", FeedEntry("[a]", "", ""));
    RssIsPlain();
    OrdinaryIsKept("[a]");
    TitleAt(p, 0);
    TitleAt(p, 2);
    var j := PostsLostAfterDoctype("rss", [], [p]);
    assert [p][j + 1..] == [];
    assert Chosen([]) == [];
  }

  // ----- a declaration with a subset -----

  function SubsetDoctype(name: string, subset: string): (s: string)
    ensures |s| == |name| + |subset| + 13
  {
    "<!DOCTYPE " + name + ("[" + subset + "]>")
  }

  /** In the subset, some `>` follows some `]`. */
  ghost predicate ClosesEarly(subset: string) {
    exists i, j :: 0 <= i < j < |subset| && subset[i] == ']' && subset[j] == '>'
  }

  lemma SubsetChars(name: string, subset: string, rest: string)
    requires '[' !in name
    ensures var xml, b := SubsetDoctype(name, subset) + rest, |name| + 10; var e := b + 1 + |subset|;
            && e + 2 <= |xml| && xml[0] == '<' && xml[1] == '!' && xml[2] != '-' && xml[b] == '[' && xml[e] == ']' && xml[e + 1] == '>'
            && (forall i :: 2 <= i < b ==> xml[i] != '[') && (forall i :: 0 <= i < |subset| ==> xml[b + 1 + i] == subset[i])
  {
    var start, xml := "<!DOCTYPE ", SubsetDoctype(name, subset) + rest;
    assert forall i :: 0 <= i < 10 ==> xml[i] == start[i];
    assert forall i :: 0 <= i < |name| ==> xml[10 + i] == name[i];
  }

  /** A DOCTYPE with a subset is skipped to its own end, whatever follows it, exactly when no `>`
      of the subset follows a `]` of it. */
  lemma SubsetSkippedExactly(name: string, subset: string, rest: string)
    requires '[' !in name
    ensures SkipSpecial(SubsetDoctype(name, subset) + rest, 0) == Some(|SubsetDoctype(name, subset)|) <==> !ClosesEarly(subset)
  {
    hide Find, MatchAt, SkipSpecial, SubsetDoctype;
    var xml, b := SubsetDoctype(name, subset) + rest, |name| + 10;
    var e := b + 1 + |subset|;
    SubsetChars(name, subset, rest);
    IsDeclaration(xml, 0);
    forall i | 2 <= i < b ensures !MatchAt(xml, "[", i) {
      MatchOne(xml, '[', i);
    }
    MatchOne(xml, '[', b);
    FirstFound(xml, "[", 2, b);
    MatchOne(xml, ']', e);
    MatchOne(xml, '>', e + 1);
    var close := Find(xml, "]", b + 1).value;
    MatchOne(xml, ']', close);
    var gt := Find(xml, ">", close + 1).value;
    MatchOne(xml, '>', gt);
    if ClosesEarly(subset) {
      var i, j :| 0 <= i < j < |subset| && subset[i] == ']' && subset[j] == '>';
      assert xml[b + 1 + i] == ']' && xml[b + 1 + j] == '>';
      MatchOne(xml, ']', b + 1 + i);
      MatchOne(xml, '>', b + 1 + j);
    } else {
      assert xml[close] == ']' && close <= e;
      assert close < e ==> subset[close - b - 1] == ']';
      forall q | close < q < e ensures xml[q] != '>' {
        assert xml[q] == subset[q - b - 1];
      }
    }
  }

  /** Behind such a declaration every feed comes back, brackets in its texts or not. */
  lemma FeedComesBackAfterSubset(name: string, subset: string, wrappers: seq<string>, posts: seq<Post>, maxItems: nat)
    requires '[' !in name && !ClosesEarly(subset) && IsFeed(wrappers, posts)
    ensures FeedEntries(SubsetDoctype(name, subset) + PrintFeed(wrappers, posts), maxItems) == FirstOf(Chosen(posts), maxItems)
  {
    hide SkipSpecial, PrintFeed, SubsetDoctype, Find, ClosesEarly, FeedEntries, FeedAt, SameScan, IsFeed, Chosen, FirstOf;
    var decl, feed := SubsetDoctype(name, subset), PrintFeed(wrappers, posts);
    var xml := decl + feed;
    FeedBehind(decl, wrappers, posts);
    SubsetChars(name, subset, feed);
    SubsetSkippedExactly(name, subset, feed);
    NextLt(xml, 0, 0);
    SkippedFirst(xml, |decl|);
    FeedIsRead(xml, |decl|, wrappers, posts, maxItems);
  }
}
