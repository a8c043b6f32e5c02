/** The feed scanner: skipping, tags, text decoding and block extraction. Offsets count
    characters; every place the code slices text is between characters. */
module RssXml {
  import opened Text

  // ----- searching -----

  predicate MatchAt(s: string, pat: string, i: nat) {
    i + |pat| <= |s| && s[i..i + |pat|] == pat
  }

  lemma MatchOne(s: string, c: char, i: nat)
    ensures MatchAt(s, [c], i) <==> i < |s| && s[i] == c
  {
    if i < |s| {
      assert s[i..i + 1] == [s[i]];
    }
  }

  /** First occurrence of `pat` at or after `from`. */
  function Find(s: string, pat: string, from: nat): (r: Option<nat>)
    requires from <= |s|
    ensures r.Some? ==> from <= r.value && r.value + |pat| <= |s| && MatchAt(s, pat, r.value)
    ensures forall i :: from <= i <= |s| && (r.Some? ==> i < r.value) ==> !MatchAt(s, pat, i)
    decreases |s| - from
  {
    if MatchAt(s, pat, from) then Some(from)
    else if from == |s| then None
    else Find(s, pat, from + 1)
  }

  /** The Unicode white-space characters. */
  predicate IsWhitespace(c: char) {
    || '\U{9}' <= c <= '\U{D}' || c == ' ' || c == '\U{85}' || c == '\U{A0}' || c == '\U{1680}'
    || '\U{2000}' <= c <= '\U{200A}' || c == '\U{2028}' || c == '\U{2029}' || c == '\U{202F}' || c == '\U{205F}' || c == '\U{3000}'
  }

  predicate EndsName(c: char) {
    IsWhitespace(c) || c == '>' || c == '/'
  }

  function FindNameEnd(s: string, from: nat): (r: Option<nat>)
    requires from <= |s|
    ensures r.Some? ==> from <= r.value < |s| && EndsName(s[r.value])
    ensures forall i :: from <= i < |s| && (r.Some? ==> i < r.value) ==> !EndsName(s[i])
    decreases |s| - from
  {
    if from == |s| then None else if EndsName(s[from]) then Some(from) else FindNameEnd(s, from + 1)
  }

  // ----- tags -----

  /** Position after the comment, processing instruction or declaration at `from`, if it is one. */
  function SkipSpecial(xml: string, from: nat): (r: Option<nat>)
    requires from <= |xml|
    ensures r.Some? ==> from < r.value <= |xml|
  {
    if MatchAt(xml, "<!--", from) then
      match Find(xml, "-->", from + 4)
      case Some(end) => Some(end + 3)
      case None => None
    else if MatchAt(xml, "<?", from) then
      match Find(xml, "?>", from + 2)
      case Some(end) => Some(end + 2)
      case None => None
    else if MatchAt(xml, "<!", from) then SkipDeclaration(xml, from + 2)
    else None
  }

  /** From just after `<!`: past the first `[...]` anywhere behind, then past the next `>`. */
  function SkipDeclaration(xml: string, i: nat): (r: Option<nat>)
    requires i <= |xml|
    ensures r.Some? ==> i < r.value <= |xml|
  {
    match Find(xml, "[", i)
    case None => DeclarationEnd(xml, i)
    case Some(bracket) =>
      match Find(xml, "]", bracket + 1)
      case Some(close) => DeclarationEnd(xml, close + 1)
      case None => None
  }

  function DeclarationEnd(xml: string, i: nat): (r: Option<nat>)
    requires i <= |xml|
    ensures r.Some? ==> i < r.value <= |xml|
  {
    match Find(xml, ">", i)
    case Some(gt) => Some(gt + 1)
    case None => None
  }

  datatype OpenTag = OpenTag(name: string, afterTag: nat, selfClosing: bool)

  /** Index of the `>` that ends a tag, outside quoted attribute values; the length when there is none. */
  function TagEnd(xml: string, i: nat, quote: Option<char>): (r: nat)
    requires i <= |xml|
    ensures i <= r <= |xml| && (r < |xml| ==> xml[r] == '>')
    decreases |xml| - i
  {
    if i == |xml| then i
    else
      match quote
      case Some(q) => TagEnd(xml, i + 1, if xml[i] == q then None else quote)
      case None =>
        if xml[i] == '>' then i
        else TagEnd(xml, i + 1, if xml[i] == '"' || xml[i] == '\'' then Some(xml[i]) else None)
  }

  function NextOpenTag(xml: string, from: nat): (r: Option<OpenTag>)
    requires from <= |xml|
    ensures r.Some? ==> from < r.value.afterTag <= |xml| && r.value.name != ""
    decreases |xml| - from
  {
    match Find(xml, "<", from)
    case None => None
    case Some(lt) =>
      match SkipSpecial(xml, lt)
      case Some(after) => NextOpenTag(xml, after)
      case None =>
        if MatchAt(xml, "</", lt) then
          match Find(xml, ">", lt)
          case Some(gt) => NextOpenTag(xml, gt + 1)
          case None => None
        else
          match FindNameEnd(xml, lt + 1)
          case None => None
          case Some(nameEnd) =>
            if nameEnd == lt + 1 then NextOpenTag(xml, lt + 1)
            else
              var i := TagEnd(xml, nameEnd, None);
              if i == |xml| then None
              else Some(OpenTag(xml[lt + 1..nameEnd], i + 1, i > nameEnd && xml[i - 1] == '/'))
  }

  function LocalName(qualified: string): string {
    if qualified == "" then ""
    else if qualified[|qualified| - 1] == ':' then ""
    else LocalName(qualified[..|qualified| - 1]) + [qualified[|qualified| - 1]]
  }

  // ----- text -----

  /** Left to right, without looking again at what was put in. */
  function Replace(s: string, pat: string, sub: string): string
    requires pat != ""
  {
    if s == "" then ""
    else if MatchAt(s, pat, 0) then sub + Replace(s[|pat|..], pat, sub)
    else [s[0]] + Replace(s[1..], pat, sub)
  }

  /** The five predefined entities, `&amp;` last. */
  function DecodeEntities(s: string): string {
    Replace(Replace(Replace(Replace(Replace(s, "&lt;", "<"), "&gt;", ">"), "&quot;", "\""), "&apos;", "'"), "&amp;", "&")
  }

  const CDATA_OPEN := "<![CDATA["
  const CDATA_CLOSE := "]]>"

  function DecodeText(raw: string): string {
    match Find(raw, CDATA_OPEN, 0)
    case None => DecodeEntities(raw)
    case Some(start) =>
      var body := start + |CDATA_OPEN|;
      DecodeEntities(raw[..start]) +
      match Find(raw, CDATA_CLOSE, body)
      case Some(end) => raw[body..end] + DecodeText(raw[end + |CDATA_CLOSE|..])
      case None => raw[body..]
  }

  // ----- elements and blocks -----

  /** Text of the first element with one of the candidate local names, searching from before `limit`. */
  function FirstMatch(xml: string, candidates: seq<string>, from: nat, limit: nat): Option<string>
    requires from <= |xml|
    decreases |xml| - from
  {
    if from >= limit then None
    else
      match NextOpenTag(xml, from)
      case None => None
      case Some(tag) =>
        if LocalName(tag.name) !in candidates then FirstMatch(xml, candidates, tag.afterTag, limit)
        else if tag.selfClosing then Some("")
        else
          match Find(xml, "</" + tag.name, tag.afterTag)
          case None => None
          case Some(close) =>
            if Find(xml, ">", close).None? then None else Some(DecodeText(xml[tag.afterTag..close]))
  }

  datatype FeedEntry = FeedEntry(title: string, description: string, published: string)

  function Field(block: string, candidates: seq<string>): string {
    match FirstMatch(block, candidates, 0, |block|)
    case Some(text) => text
    case None => ""
  }

  function EntryOf(block: string): FeedEntry {
    FeedEntry(Field(block, ["title"]), Field(block, ["description", "summary"]), Field(block, ["pubDate", "published", "updated"]))
  }

  /** Where the inner texts of the first `maxItems` blocks lie: in range, left to right and disjoint. */
  function BlockSpans(xml: string, name: string, maxItems: nat, from: nat): (r: seq<(nat, nat)>)
    requires from <= |xml|
    ensures |r| <= maxItems
    ensures forall i :: 0 <= i < |r| ==> from < r[i].0 <= r[i].1 < |xml|
    ensures forall i, j :: 0 <= i < j < |r| ==> r[i].1 < r[j].0
    decreases |xml| - from
  {
    if maxItems == 0 then []
    else
      match NextOpenTag(xml, from)
      case None => []
      case Some(tag) =>
        if LocalName(tag.name) != name || tag.selfClosing then BlockSpans(xml, name, maxItems, tag.afterTag)
        else
          match Find(xml, "</" + tag.name, tag.afterTag)
          case None => []
          case Some(close) =>
            match Find(xml, ">", close)
            case None => []
            case Some(gt) => [(tag.afterTag, close)] + BlockSpans(xml, name, maxItems - 1, gt + 1)
  }

  function EntriesOf(xml: string, spans: seq<(nat, nat)>): (r: seq<FeedEntry>)
    requires forall i :: 0 <= i < |spans| ==> spans[i].0 <= spans[i].1 <= |xml|
    ensures |r| == |spans|
  {
    if spans == [] then [] else [EntryOf(xml[spans[0].0..spans[0].1])] + EntriesOf(xml, spans[1..])
  }

  lemma NoEntries(xml: string)
    ensures EntriesOf(xml, []) == []
  {
  }

  function Blocks(xml: string, name: string, maxItems: nat): (r: seq<FeedEntry>)
    ensures |r| <= maxItems
  {
    EntriesOf(xml, BlockSpans(xml, name, maxItems, 0))
  }

  function FeedEntries(xml: string, maxItems: nat): (r: seq<FeedEntry>)
    ensures |r| <= maxItems
  {
    var items := Blocks(xml, "item", maxItems);
    if items == [] then Blocks(xml, "entry", maxItems) else items
  }
}
