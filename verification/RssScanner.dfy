/** The scanner's loops as written, each shown to compute its specification in `RssXml`.
    They terminate on every input: each turn moves the position to the right. */
module RssScanner {
  import opened Text
  import opened RssXml

  method ScanDeclaration(xml: string, from: nat) returns (r: Option<nat>)
    requires from <= |xml|
    ensures r == SkipDeclaration(xml, from)
  {
    hide MatchAt, Find;
    var i: nat := from;
    var bracket := Find(xml, "[", i);
    if bracket.Some? {
      var close := Find(xml, "]", bracket.value + 1);
      if close.None? {
        return None;
      }
      i := close.value + 1;
    }
    ghost var start := i;
    while i < |xml| && xml[i] != '>'
      invariant start <= i <= |xml|
      invariant forall k :: start <= k < i ==> xml[k] != '>'
    {
      i := i + 1;
    }
    FirstGt(xml, start, i);
    if i >= |xml| {
      return None;
    }
    return Some(i + 1);
  }

  lemma FirstGt(xml: string, start: nat, i: nat)
    requires start <= i <= |xml| && (forall k :: start <= k < i ==> xml[k] != '>') && (i < |xml| ==> xml[i] == '>')
    ensures Find(xml, ">", start) == if i < |xml| then Some(i) else None
  {
    var r := Find(xml, ">", start);
    MatchOne(xml, '>', i);
    if r.Some? {
      MatchOne(xml, '>', r.value);
    }
  }

  method ScanTagEnd(xml: string, nameEnd: nat) returns (i: nat)
    requires nameEnd <= |xml|
    ensures i == TagEnd(xml, nameEnd, None)
  {
    i := nameEnd;
    var quote: Option<char> := None;
    while i < |xml|
      invariant nameEnd <= i <= |xml|
      invariant TagEnd(xml, i, quote) == TagEnd(xml, nameEnd, None)
    {
      var b := xml[i];
      match quote {
        case Some(q) =>
          if b == q {
            quote := None;
          }
        case None =>
          if b == '"' || b == '\'' {
            quote := Some(b);
          } else if b == '>' {
            break;
          }
      }
      i := i + 1;
    }
  }

  function Later(a: nat, b: nat): nat {
    if a > b then a else b
  }

  /** One turn of the tag search: stop, pass something that is no open tag, or take one. */
  lemma TagTurn(xml: string, from: nat)
    requires from <= |xml|
    ensures
      match Find(xml, "<", from)
      case None => NextOpenTag(xml, from) == None
      case Some(lt) =>
        match SkipSpecial(xml, lt)
        case Some(after) => NextOpenTag(xml, from) == NextOpenTag(xml, after)
        case None =>
          if MatchAt(xml, "</", lt) then
            match Find(xml, ">", lt)
            case Some(gt) => gt < |xml| && NextOpenTag(xml, from) == NextOpenTag(xml, gt + 1)
            case None => NextOpenTag(xml, from) == None
          else
            match FindNameEnd(xml, lt + 1)
            case None => NextOpenTag(xml, from) == None
            case Some(nameEnd) =>
              if nameEnd == lt + 1 then NextOpenTag(xml, from) == NextOpenTag(xml, lt + 1)
              else
                var i := TagEnd(xml, nameEnd, None);
                NextOpenTag(xml, from) == if i == |xml| then None
                  else Some(OpenTag(xml[lt + 1..nameEnd], i + 1, i > nameEnd && xml[i - 1] == '/'))
  {
    hide MatchAt, FindNameEnd, SkipSpecial, TagEnd, EndsName, Find;
  }

  method ScanNextOpenTag(xml: string, from: nat) returns (r: Option<OpenTag>)
    requires from <= |xml|
    ensures r == NextOpenTag(xml, from)
  {
    hide MatchAt, FindNameEnd, SkipSpecial, TagEnd, EndsName, Find, NextOpenTag;
    var pos := from;
    while true
      invariant from <= pos <= |xml|
      invariant NextOpenTag(xml, pos) == NextOpenTag(xml, from)
      decreases |xml| - pos
    {
      TagTurn(xml, pos);
      var lt := Find(xml, "<", pos);
      if lt.None? {
        return None;
      }
      var after := SkipSpecial(xml, lt.value);
      if after.Some? {
        pos := after.value;
        continue;
      }
      if MatchAt(xml, "</", lt.value) {
        var gt := Find(xml, ">", lt.value);
        if gt.None? {
          return None;
        }
        pos := gt.value + 1;
        continue;
      }
      var nameStart := lt.value + 1;
      var nameEnd := FindNameEnd(xml, nameStart);
      if nameEnd.None? {
        return None;
      }
      var name := xml[nameStart..nameEnd.value];
      if name == "" {
        pos := Later(nameEnd.value, lt.value + 1);
        continue;
      }
      var i := ScanTagEnd(xml, nameEnd.value);
      if i >= |xml| {
        return None;
      }
      return Some(OpenTag(name, i + 1, i > nameEnd.value && xml[i - 1] == '/'));
    }
    return None;
  }

  lemma DecodeNothing()
    ensures DecodeEntities("") == ""
  {
  }

  method ScanText(raw: string) returns (out: string)
    ensures out == DecodeText(raw)
  {
    hide MatchAt, Replace, Find;
    DecodeNothing();
    out := "";
    var rest := raw;
    var start := Find(rest, CDATA_OPEN, 0);
    while start.Some?
      invariant start == Find(rest, CDATA_OPEN, 0)
      invariant DecodeText(raw) == out + DecodeText(rest)
      decreases |rest|
    {
      out := out + DecodeEntities(rest[..start.value]);
      var afterOpen := start.value + |CDATA_OPEN|;
      var end := Find(rest, CDATA_CLOSE, afterOpen);
      if end.Some? {
        out := out + rest[afterOpen..end.value];
        rest := rest[end.value + |CDATA_CLOSE|..];
      } else {
        out := out + rest[afterOpen..];
        rest := "";
        break;
      }
      start := Find(rest, CDATA_OPEN, 0);
    }
    out := out + DecodeEntities(rest);
  }

  method ScanFirstMatch(xml: string, candidates: seq<string>, from: nat, limit: nat) returns (r: Option<string>)
    requires from <= |xml|
    ensures r == FirstMatch(xml, candidates, from, limit)
  {
    var pos := from;
    while pos < limit
      invariant from <= pos <= |xml|
      invariant FirstMatch(xml, candidates, pos, limit) == FirstMatch(xml, candidates, from, limit)
      decreases |xml| - pos
    {
      var tag := ScanNextOpenTag(xml, pos);
      if tag.None? {
        return None;
      }
      var after := tag.value.afterTag;
      if LocalName(tag.value.name) !in candidates {
        pos := after;
        continue;
      }
      if tag.value.selfClosing {
        return Some("");
      }
      var close := Find(xml, "</" + tag.value.name, after);
      if close.None? || Find(xml, ">", close.value).None? {
        return None;
      }
      var text := ScanText(xml[after..close.value]);
      return Some(text);
    }
    return None;
  }

  ghost predicate InRange(xml: string, spans: seq<(nat, nat)>) {
    forall i :: 0 <= i < |spans| ==> spans[i].0 <= spans[i].1 <= |xml|
  }

  lemma {:induction false} EntriesOfAppend(xml: string, spans: seq<(nat, nat)>, span: (nat, nat))
    requires InRange(xml, spans) && span.0 <= span.1 <= |xml|
    ensures InRange(xml, spans + [span])
    ensures EntriesOf(xml, spans + [span]) == EntriesOf(xml, spans) + [EntryOf(xml[span.0..span.1])]
  {
    hide EntryOf;
    if spans == [] {
      assert [] + [span] == [span] && [span][1..] == [];
    } else {
      var all := spans + [span];
      assert all[0] == spans[0] && all[1..] == spans[1..] + [span];
      EntriesOfAppend(xml, spans[1..], span);
    }
  }

  /** One turn of the block search: skip a tag, stop, or take a block. */
  lemma BlockTurn(xml: string, name: string, n: nat, from: nat)
    requires n > 0 && from <= |xml|
    ensures
      var spans := BlockSpans(xml, name, n, from);
      match NextOpenTag(xml, from)
      case None => spans == []
      case Some(tag) =>
        if LocalName(tag.name) != name || tag.selfClosing then spans == BlockSpans(xml, name, n, tag.afterTag)
        else
          match Find(xml, "</" + tag.name, tag.afterTag)
          case None => spans == []
          case Some(close) =>
            match Find(xml, ">", close)
            case None => spans == []
            case Some(gt) => gt + 1 <= |xml| && spans == [(tag.afterTag, close)] + BlockSpans(xml, name, n - 1, gt + 1)
  {
    hide NextOpenTag, Find, LocalName, MatchAt;
  }

  method ExtractBlocks(xml: string, name: string, maxItems: nat) returns (out: seq<FeedEntry>)
    ensures out == Blocks(xml, name, maxItems)
  {
    hide MatchAt, Find, NextOpenTag, EntryOf, LocalName, BlockSpans, EntriesOf;
    out := [];
    var pos: nat := 0;
    ghost var spans: seq<(nat, nat)> := [];
    NoEntries(xml);
    while |out| < maxItems
      invariant pos <= |xml| && |out| == |spans| <= maxItems && InRange(xml, spans)
      invariant spans + BlockSpans(xml, name, maxItems - |out|, pos) == BlockSpans(xml, name, maxItems, 0)
      invariant out == EntriesOf(xml, spans)
      decreases |xml| - pos
    {
      BlockTurn(xml, name, maxItems - |out|, pos);
      var tag := ScanNextOpenTag(xml, pos);
      if tag.None? {
        break;
      }
      var after := tag.value.afterTag;
      if LocalName(tag.value.name) != name || tag.value.selfClosing {
        pos := after;
        continue;
      }
      var close := Find(xml, "</" + tag.value.name, after);
      if close.None? {
        break;
      }
      var gt := Find(xml, ">", close.value);
      if gt.None? {
        break;
      }
      pos := gt.value + 1;
      var entry := ExtractEntry(xml[after..close.value]);
      EntriesOfAppend(xml, spans, (after, close.value));
      spans := spans + [(after, close.value)];
      out := out + [entry];
    }
    assert spans + [] == spans;
  }

  method ExtractEntry(block: string) returns (entry: FeedEntry)
    ensures entry == EntryOf(block)
  {
    var title := ScanFirstMatch(block, ["title"], 0, |block|);
    var description := ScanFirstMatch(block, ["description", "summary"], 0, |block|);
    var published := ScanFirstMatch(block, ["pubDate", "published", "updated"], 0, |block|);
    entry := FeedEntry(if title.Some? then title.value else "",
                       if description.Some? then description.value else "",
                       if published.Some? then published.value else "");
  }

  method ExtractFeedEntries(xml: string, maxItems: nat) returns (entries: seq<FeedEntry>)
    ensures entries == FeedEntries(xml, maxItems)
  {
    entries := ExtractBlocks(xml, "item", maxItems);
    if entries == [] {
      entries := ExtractBlocks(xml, "entry", maxItems);
    }
  }
}
