/**
 Comment blocks of rendered HTML: the elements a comment can be attached to, with the source lines they span.
 The scanner keeps a stack of open elements; a closing tag, an optional end tag or the end of the text closes
 an element and everything opened inside it.
 */
module CommentBlocks {
  import opened Sequences
  import opened HtmlTokens

  const BLOCK_TAGS: set<string> := {
    "a", "article", "button", "footer", "h1", "h2", "h3", "h4", "h5", "h6", "header", "main", "nav", "p", "li",
    "pre", "section", "tr", "blockquote", "aside", "figure"
  }

  const RAW_TEXT_TAGS: set<string> := {"script", "style", "textarea"}

  const VOID_TAGS: set<string> := {
    "area", "base", "br", "col", "embed", "hr", "img", "input", "link", "meta", "param", "source", "track", "wbr"
  }

  const CONTAINER_TAGS: set<string> := {
    "address", "article", "div", "dl", "fieldset", "footer", "form", "header", "hr", "main", "nav", "ol", "section",
    "table", "ul"
  }

  const LIST_TAGS: set<string> := {"ul", "ol"}

  const TABLE_TAGS: set<string> := {"table", "thead", "tbody", "tfoot"}

  /** A block and the span of its opening tag; its id is its number in the list of blocks. */
  datatype Block = Block(tagName: string, sourceLineStart: nat, sourceLineEnd: nat, openingStart: nat, openingEnd: nat)

  /** An open element; `block` is the number of its block, if it is one. */
  datatype Open = Open(tagName: string, block: Option<nat>)

  datatype Scanner = Scanner(blocks: seq<Block>, stack: seq<Open>, rawTextTag: Option<string>, templateDepth: nat)

  const START := Scanner([], [], None, 0)

  predicate IsBlockOpeningTag(tagName: string) {
    tagName in BLOCK_TAGS || tagName in CONTAINER_TAGS
  }

  // ---------------------------------------------------------------- lines

  /** The line of an offset: one more than the line breaks before it. */
  function LineAt(html: string, offset: nat): (line: nat)
    requires offset <= |html|
    ensures line >= 1
  {
    if offset == 0 then 1 else LineAt(html, offset - 1) + if html[offset - 1] == '\n' then 1 else 0
  }

  /** The line of an offset is told by the line breaks in front of it, wherever they are. */
  lemma {:induction false} LineCountsBreaks(html: string, offset: nat)
    requires offset <= |html|
    ensures LineAt(html, offset) == 1 + multiset(html[..offset])['\n']
  {
    if offset > 0 {
      LineCountsBreaks(html, offset - 1);
      assert html[..offset] == html[..offset - 1] + [html[offset - 1]];
    }
  }

  lemma {:induction false} LinesIncrease(html: string, i: nat, j: nat)
    requires i <= j <= |html|
    ensures LineAt(html, i) <= LineAt(html, j)
  {
    if i < j {
      LinesIncrease(html, i, j - 1);
    }
  }

  /** The offset before `offset`, or the first one. */
  function Before(offset: nat): nat {
    if offset == 0 then 0 else offset - 1
  }

  // ---------------------------------------------------------------- closing

  predicate IsOpen(stack: seq<Open>, k: nat) {
    exists o | o in stack :: o.block == Some(k)
  }

  /** The blocks of `opens` end at `line`. */
  function SetEnds(blocks: seq<Block>, opens: seq<Open>, line: nat): (r: seq<Block>)
    ensures |r| == |blocks|
    ensures forall k | 0 <= k < |r| :: r[k] == if IsOpen(opens, k) then blocks[k].(sourceLineEnd := line) else blocks[k]
  {
    seq(|blocks|, k requires 0 <= k < |blocks| => if IsOpen(opens, k) then blocks[k].(sourceLineEnd := line) else blocks[k])
  }

  /** Closes the elements from `index` on. */
  function CloseFrom(s: Scanner, index: nat, line: nat): Scanner
    requires index <= |s.stack|
  {
    s.(blocks := SetEnds(s.blocks, s.stack[index..], line), stack := s.stack[..index])
  }

  /** The last index of an element with one of the tags, or -1. */
  function LastOf(stack: seq<Open>, tags: set<string>): (r: int)
    ensures -1 <= r < |stack|
    ensures r >= 0 ==> stack[r].tagName in tags
    ensures forall i | r < i < |stack| :: stack[i].tagName !in tags
  {
    if stack == [] then -1
    else if stack[|stack| - 1].tagName in tags then |stack| - 1
    else LastOf(stack[..|stack| - 1], tags)
  }

  function CloseOpenElements(s: Scanner, tagName: string, line: nat): Scanner {
    var last := LastOf(s.stack, {tagName});
    if last < 0 then s else CloseFrom(s, last, line)
  }

  function ClosePeerWithinContainer(s: Scanner, peer: string, containers: set<string>, line: nat): Scanner {
    var peerIndex := LastOf(s.stack, {peer});
    if peerIndex > LastOf(s.stack, containers) then CloseFrom(s, peerIndex, line) else s
  }

  function AutoCloseParagraph(s: Scanner, nextTag: string, line: nat): Scanner {
    if s.stack != [] && s.stack[|s.stack| - 1].tagName == "p" && IsBlockOpeningTag(nextTag)
    then CloseOpenElements(s, "p", line)
    else s
  }

  function AutoCloseOptionalElements(s: Scanner, nextTag: string, line: nat): Scanner {
    var p := AutoCloseParagraph(s, nextTag, line);
    var li := if nextTag == "li" then ClosePeerWithinContainer(p, "li", LIST_TAGS, line) else p;
    if nextTag == "tr" then ClosePeerWithinContainer(li, "tr", TABLE_TAGS, line) else li
  }

  // ---------------------------------------------------------------- one tag

  function CloseTag(s: Scanner, name: string, line: nat): Scanner {
    var closed := CloseOpenElements(s, name, line);
    closed.(
      templateDepth := if name == "template" && s.templateDepth > 0 then s.templateDepth - 1 else s.templateDepth,
      rawTextTag := if Some(name) == s.rawTextTag then None else s.rawTextTag)
  }

  predicate IsCommentBlock(s: Scanner, name: string) {
    s.templateDepth == 0 && name != "template" && name in BLOCK_TAGS
  }

  /** Opens an element at a line: a new block if it is one, and an entry on the stack unless it has no content. */
  function OpenTag(s: Scanner, tag: Token, line: nat): Scanner
    requires tag.Tag?
  {
    var isBlock := IsCommentBlock(s, tag.name);
    var blocks := if isBlock then s.blocks + [Block(tag.name, line, line, tag.start, tag.end + 1)] else s.blocks;
    var open := Open(tag.name, if isBlock then Some(|s.blocks|) else None);
    Scanner(blocks,
            if tag.selfClosing || tag.name in VOID_TAGS then s.stack else s.stack + [open],
            if tag.name in RAW_TEXT_TAGS then Some(tag.name) else s.rawTextTag,
            if tag.name == "template" then s.templateDepth + 1 else s.templateDepth)
  }

  function ApplyTag(html: string, s: Scanner, tag: Token): Scanner
    requires tag.Tag? && tag.start < tag.end < |html|
  {
    if tag.closing then CloseTag(s, tag.name, LineAt(html, tag.end))
    else OpenTag(AutoCloseOptionalElements(s, tag.name, LineAt(html, Before(tag.start))), tag, LineAt(html, tag.start))
  }

  function Scan(html: string, cursor: nat, s: Scanner): Scanner
    decreases |html| - cursor
  {
    var token := NextToken(html, cursor, s.rawTextTag);
    if token.Stop? then s
    else if token.Skip? then Scan(html, token.next, s)
    else Scan(html, token.end + 1, ApplyTag(html, s, token))
  }

  function ParsedBlocks(html: string): seq<Block> {
    CloseFrom(Scan(html, 0, START), 0, LineAt(html, Before(|html|))).blocks
  }

  // ---------------------------------------------------------------- nesting

  /** The lines of two blocks, the first of which opens first, lie one inside the other or one after the other. */
  predicate NestedOrApart(b1: Block, b2: Block) {
    b2.sourceLineEnd <= b1.sourceLineEnd || b1.sourceLineEnd <= b2.sourceLineStart
  }

  ghost predicate IsLaminar(blocks: seq<Block>) {
    && (forall k | 0 <= k < |blocks| :: blocks[k].sourceLineStart <= blocks[k].sourceLineEnd)
    && (forall j, k | 0 <= j < k < |blocks| :: NestedOrApart(blocks[j], blocks[k]))
  }

  /** The stack holds existing blocks, in the order in which they were opened. */
  ghost predicate StackInOrder(stack: seq<Open>, n: nat) {
    && (forall i | 0 <= i < |stack| :: stack[i].block.Some? ==> stack[i].block.value < n)
    && (forall i, j | 0 <= i < j < |stack| ::
          stack[i].block.Some? && stack[j].block.Some? ==> stack[i].block.value < stack[j].block.value)
  }

  /**
   What the scanner keeps: closed blocks are nested or apart, a block that is still open starts behind every block that was
   closed and opened before it, and no line lies behind the line that was reached.
   */
  ghost predicate Nested(s: Scanner, line: nat) {
    && StackInOrder(s.stack, |s.blocks|)
    && (forall k | 0 <= k < |s.blocks| :: s.blocks[k].sourceLineStart <= s.blocks[k].sourceLineEnd <= line)
    && (forall j, k | 0 <= j < k < |s.blocks| :: PairNested(s, j, k))
  }

  ghost predicate PairNested(s: Scanner, j: nat, k: nat)
    requires j < |s.blocks| && k < |s.blocks|
  {
    IsOpen(s.stack, j) ||
    (if IsOpen(s.stack, k) then s.blocks[j].sourceLineEnd <= s.blocks[k].sourceLineStart
     else NestedOrApart(s.blocks[j], s.blocks[k]))
  }

  lemma SplitOpen(stack: seq<Open>, index: nat, k: nat)
    requires index <= |stack|
    ensures IsOpen(stack, k) <==> IsOpen(stack[..index], k) || IsOpen(stack[index..], k)
  {
    assert stack == stack[..index] + stack[index..];
  }

  lemma OpenAt(stack: seq<Open>, k: nat) returns (i: nat)
    requires IsOpen(stack, k)
    ensures i < |stack| && stack[i].block == Some(k)
  {
    i :| i < |stack| && stack[i].block == Some(k);
  }

  /** A block opened before one that is closed by popping is not left open behind it. */
  lemma PoppedAreLater(stack: seq<Open>, n: nat, index: nat, j: nat, k: nat)
    requires StackInOrder(stack, n) && index <= |stack|
    requires IsOpen(stack[index..], j) && IsOpen(stack[..index], k)
    ensures k < j
  {
    var a := OpenAt(stack[index..], j);
    var b := OpenAt(stack[..index], k);
    hide IsOpen;
    assert stack[index + a] == stack[index..][a] && stack[b] == stack[..index][b];
  }

  lemma ClosePair(s: Scanner, index: nat, line: nat, later: nat, j: nat, k: nat)
    requires Nested(s, line) && line <= later && index <= |s.stack| && j < k < |s.blocks|
    ensures PairNested(CloseFrom(s, index, later), j, k)
  {
    SplitOpen(s.stack, index, j);
    SplitOpen(s.stack, index, k);
    assert PairNested(s, j, k);
    if IsOpen(s.stack[index..], j) && IsOpen(s.stack[..index], k) {
      PoppedAreLater(s.stack, |s.blocks|, index, j, k);
    }
  }

  lemma CloseKeepsNested(s: Scanner, index: nat, line: nat, later: nat)
    requires Nested(s, line) && line <= later && index <= |s.stack|
    ensures Nested(CloseFrom(s, index, later), later)
  {
    forall j, k | 0 <= j < k < |s.blocks|
      ensures PairNested(CloseFrom(s, index, later), j, k)
    {
      ClosePair(s, index, line, later, j, k);
    }
  }

  lemma LaterKeepsNested(s: Scanner, line: nat, later: nat)
    requires Nested(s, line) && line <= later
    ensures Nested(s, later)
  {}

  lemma CloseOpenKeepsNested(s: Scanner, tagName: string, line: nat, later: nat)
    requires Nested(s, line) && line <= later
    ensures Nested(CloseOpenElements(s, tagName, later), later)
  {
    hide Nested;
    LaterKeepsNested(s, line, later);
    var i := LastOf(s.stack, {tagName});
    if i >= 0 { CloseKeepsNested(s, i, line, later); }
  }

  lemma ClosePeerKeepsNested(s: Scanner, peer: string, containers: set<string>, line: nat)
    requires Nested(s, line)
    ensures Nested(ClosePeerWithinContainer(s, peer, containers, line), line)
  {
    hide Nested;
    var i := LastOf(s.stack, {peer});
    if i > LastOf(s.stack, containers) { CloseKeepsNested(s, i, line, line); }
  }

  lemma AutoCloseKeepsNested(s: Scanner, nextTag: string, line: nat, later: nat)
    requires Nested(s, line) && line <= later
    ensures Nested(AutoCloseOptionalElements(s, nextTag, later), later)
  {
    hide Nested, CloseOpenElements, ClosePeerWithinContainer;
    LaterKeepsNested(s, line, later);
    CloseOpenKeepsNested(s, "p", line, later);
    var p := AutoCloseParagraph(s, nextTag, later);
    ClosePeerKeepsNested(p, "li", LIST_TAGS, later);
    var li := if nextTag == "li" then ClosePeerWithinContainer(p, "li", LIST_TAGS, later) else p;
    ClosePeerKeepsNested(li, "tr", TABLE_TAGS, later);
  }

  lemma OpenPair(s: Scanner, tag: Token, line: nat, later: nat, j: nat, k: nat)
    requires Nested(s, line) && line <= later && tag.Tag?
    requires j < k < |OpenTag(s, tag, later).blocks|
    ensures PairNested(OpenTag(s, tag, later), j, k)
  {
    var after := OpenTag(s, tag, later);
    forall i | 0 <= i < |s.blocks|
      ensures IsOpen(after.stack, i) <==> IsOpen(s.stack, i)
    {
      if |after.stack| > |s.stack| {
        SplitOpen(after.stack, |s.stack|, i);
        assert after.stack[..|s.stack|] == s.stack;
        assert after.stack[|s.stack|..][0].block != Some(i);
      }
    }
    if k < |s.blocks| {
      assert PairNested(s, j, k);
    }
  }

  lemma OpenKeepsNested(s: Scanner, tag: Token, line: nat, later: nat)
    requires Nested(s, line) && line <= later && tag.Tag?
    ensures Nested(OpenTag(s, tag, later), later)
  {
    var after := OpenTag(s, tag, later);
    forall j, k | 0 <= j < k < |after.blocks|
      ensures PairNested(after, j, k)
    {
      OpenPair(s, tag, line, later, j, k);
    }
  }

  /** One tag keeps the nesting; lines only grow. */
  lemma TagKeepsNested(html: string, s: Scanner, tag: Token, cursor: nat)
    requires tag.Tag? && cursor <= tag.start < tag.end < |html| && Nested(s, LineAt(html, Before(cursor)))
    ensures Nested(ApplyTag(html, s, tag), LineAt(html, tag.end))
  {
    hide Nested, OpenTag, AutoCloseOptionalElements, CloseOpenElements;
    var line := LineAt(html, Before(cursor));
    LinesIncrease(html, Before(cursor), Before(tag.start));
    LinesIncrease(html, Before(tag.start), tag.start);
    LinesIncrease(html, tag.start, tag.end);
    if tag.closing {
      CloseOpenKeepsNested(s, tag.name, line, LineAt(html, tag.end));
      RenestSame(CloseOpenElements(s, tag.name, LineAt(html, tag.end)), CloseTag(s, tag.name, LineAt(html, tag.end)), LineAt(html, tag.end));
    } else {
      AutoCloseKeepsNested(s, tag.name, line, LineAt(html, Before(tag.start)));
      var auto := AutoCloseOptionalElements(s, tag.name, LineAt(html, Before(tag.start)));
      OpenKeepsNested(auto, tag, LineAt(html, Before(tag.start)), LineAt(html, tag.start));
      LaterKeepsNested(ApplyTag(html, s, tag), LineAt(html, tag.start), LineAt(html, tag.end));
    }
  }

  lemma RenestSame(s: Scanner, t: Scanner, line: nat)
    requires Nested(s, line) && t.blocks == s.blocks && t.stack == s.stack
    ensures Nested(t, line)
  {
    forall j, k | 0 <= j < k < |t.blocks|
      ensures PairNested(t, j, k)
    {
      assert PairNested(s, j, k);
    }
  }

  lemma {:induction false} ScanKeepsNested(html: string, cursor: nat, s: Scanner)
    requires cursor <= |html| && Nested(s, LineAt(html, Before(cursor)))
    ensures Nested(Scan(html, cursor, s), LineAt(html, Before(|html|)))
    decreases |html| - cursor
  {
    hide Nested, ApplyTag, NextToken, LineAt;
    var token := NextToken(html, cursor, s.rawTextTag);
    if token.Stop? {
      LinesIncrease(html, Before(cursor), Before(|html|));
      LaterKeepsNested(s, LineAt(html, Before(cursor)), LineAt(html, Before(|html|)));
    } else if token.Skip? {
      LinesIncrease(html, Before(cursor), Before(token.next));
      LaterKeepsNested(s, LineAt(html, Before(cursor)), LineAt(html, Before(token.next)));
      ScanKeepsNested(html, token.next, s);
    } else {
      TagKeepsNested(html, s, token, cursor);
      ScanKeepsNested(html, token.end + 1, ApplyTag(html, s, token));
    }
  }

  /** The line ranges of the blocks of any text are laminar. */
  lemma BlocksAreLaminar(html: string)
    ensures IsLaminar(ParsedBlocks(html))
  {
    ScanKeepsNested(html, 0, START);
    var last := LineAt(html, Before(|html|));
    CloseKeepsNested(Scan(html, 0, START), 0, last, last);
    var closed := CloseFrom(Scan(html, 0, START), 0, last);
    forall j, k | 0 <= j < k < |closed.blocks|
      ensures NestedOrApart(closed.blocks[j], closed.blocks[k])
    {
      assert PairNested(closed, j, k);
    }
  }

  // ---------------------------------------------------------------- what closing settles

  /** Block `k` is closed and is as in `before`. */
  predicate Settled(before: Scanner, after: Scanner, k: nat) {
    k < |before.blocks| && k < |after.blocks| && !IsOpen(after.stack, k) && after.blocks[k] == before.blocks[k]
  }

  lemma CloseSettles(s: Scanner, index: nat, line: nat, k: nat)
    requires k < |s.blocks| && !IsOpen(s.stack, k) && index <= |s.stack|
    ensures Settled(s, CloseFrom(s, index, line), k)
  {
    SplitOpen(s.stack, index, k);
  }

  lemma CloseOpenSettles(s: Scanner, tagName: string, line: nat, k: nat)
    requires k < |s.blocks| && !IsOpen(s.stack, k)
    ensures Settled(s, CloseOpenElements(s, tagName, line), k)
  {
    var i := LastOf(s.stack, {tagName});
    if i >= 0 { CloseSettles(s, i, line, k); }
  }

  lemma ClosePeerSettles(s: Scanner, peer: string, containers: set<string>, line: nat, k: nat)
    requires k < |s.blocks| && !IsOpen(s.stack, k)
    ensures Settled(s, ClosePeerWithinContainer(s, peer, containers, line), k)
  {
    var i := LastOf(s.stack, {peer});
    if i > LastOf(s.stack, containers) { CloseSettles(s, i, line, k); }
  }

  lemma AutoCloseSettles(s: Scanner, nextTag: string, line: nat, k: nat)
    requires k < |s.blocks| && !IsOpen(s.stack, k)
    ensures Settled(s, AutoCloseOptionalElements(s, nextTag, line), k)
  {
    hide CloseOpenElements, ClosePeerWithinContainer, IsOpen;
    CloseOpenSettles(s, "p", line, k);
    var p := AutoCloseParagraph(s, nextTag, line);
    ClosePeerSettles(p, "li", LIST_TAGS, line, k);
    var li := if nextTag == "li" then ClosePeerWithinContainer(p, "li", LIST_TAGS, line) else p;
    ClosePeerSettles(li, "tr", TABLE_TAGS, line, k);
  }

  lemma OpenSettles(s: Scanner, tag: Token, line: nat, k: nat)
    requires tag.Tag? && k < |s.blocks| && !IsOpen(s.stack, k)
    ensures Settled(s, OpenTag(s, tag, line), k)
  {
    var after := OpenTag(s, tag, line);
    if |after.stack| > |s.stack| {
      SplitOpen(after.stack, |s.stack|, k);
      assert after.stack[..|s.stack|] == s.stack;
      assert after.stack[|s.stack|..][0].block != Some(k);
    }
  }

  lemma TagSettles(html: string, s: Scanner, tag: Token, k: nat)
    requires tag.Tag? && tag.start < tag.end < |html| && k < |s.blocks| && !IsOpen(s.stack, k)
    ensures Settled(s, ApplyTag(html, s, tag), k)
  {
    hide OpenTag, AutoCloseOptionalElements, CloseOpenElements;
    CloseOpenSettles(s, tag.name, LineAt(html, tag.end), k);
    var auto := AutoCloseOptionalElements(s, tag.name, LineAt(html, Before(tag.start)));
    AutoCloseSettles(s, tag.name, LineAt(html, Before(tag.start)), k);
    OpenSettles(auto, tag, LineAt(html, tag.start), k);
  }

  /** The tag that closes a block settles its line range: nothing that follows changes it. */
  lemma {:induction false} ClosedBlocksAreFinal(html: string, cursor: nat, s: Scanner, k: nat)
    requires cursor <= |html| && k < |s.blocks| && !IsOpen(s.stack, k)
    ensures Settled(s, Scan(html, cursor, s), k)
    decreases |html| - cursor
  {
    hide ApplyTag, NextToken;
    var token := NextToken(html, cursor, s.rawTextTag);
    if token.Skip? {
      ClosedBlocksAreFinal(html, token.next, s, k);
    } else if token.Tag? {
      TagSettles(html, s, token, k);
      ClosedBlocksAreFinal(html, token.end + 1, ApplyTag(html, s, token), k);
    }
  }

  /**
   A closing tag ends the innermost open element of its name and all that is open inside it, at the line of the closing
   tag, and leaves the elements around it open.
   */
  lemma ClosingTagEndsTheInnermost(html: string, s: Scanner, tag: Token, i: nat)
    requires tag.Tag? && tag.closing && tag.start < tag.end < |html| && StackInOrder(s.stack, |s.blocks|)
    requires i < |s.stack| && s.stack[i].tagName == tag.name
    requires forall j | i < j < |s.stack| :: s.stack[j].tagName != tag.name
    ensures var after := ApplyTag(html, s, tag);
      && after.stack == s.stack[..i]
      && forall j | 0 <= j < |s.stack| && s.stack[j].block.Some? ::
           after.blocks[s.stack[j].block.value].sourceLineEnd ==
             if j >= i then LineAt(html, tag.end) else s.blocks[s.stack[j].block.value].sourceLineEnd
  {
    assert LastOf(s.stack, {tag.name}) == i;
    forall j | 0 <= j < |s.stack| && s.stack[j].block.Some?
      ensures IsOpen(s.stack[i..], s.stack[j].block.value) <==> j >= i
    {
      if j >= i {
        assert s.stack[i..][j - i] == s.stack[j];
      }
    }
  }

  /** A closing tag without an open element of its name ends nothing. */
  lemma UnmatchedClosingTagEndsNothing(html: string, s: Scanner, tag: Token)
    requires tag.Tag? && tag.closing && tag.start < tag.end < |html|
    requires forall j | 0 <= j < |s.stack| :: s.stack[j].tagName != tag.name
    ensures ApplyTag(html, s, tag).stack == s.stack && ApplyTag(html, s, tag).blocks == s.blocks
  {
    assert LastOf(s.stack, {tag.name}) == -1;
  }

  /** What a tag does to the modes: templates are counted, raw text lasts up to the closing tag of its name. */
  lemma TagSetsModes(html: string, s: Scanner, tag: Token)
    requires tag.Tag? && tag.start < tag.end < |html|
    ensures var after := ApplyTag(html, s, tag);
      && after.templateDepth == (if tag.name != "template" then s.templateDepth
                                 else if !tag.closing then s.templateDepth + 1
                                 else if s.templateDepth > 0 then s.templateDepth - 1 else 0)
      && (!tag.closing ==> after.rawTextTag == if tag.name in {"script", "style", "textarea"} then Some(tag.name) else s.rawTextTag)
      && (tag.closing ==> after.rawTextTag == if s.rawTextTag == Some(tag.name) then None else s.rawTextTag)
  {
    hide SetEnds, LastOf;
  }

  // ---------------------------------------------------------------- optional end tags

  /** The innermost element of that name, with no container between it and the top of the stack. */
  predicate IsPeer(stack: seq<Open>, name: string, containers: set<string>, index: nat) {
    && index < |stack| && stack[index].tagName == name
    && forall j | index < j < |stack| :: stack[j].tagName != name && stack[j].tagName !in containers
  }

  /** What the opening tag of a list item or a table row ends: its predecessor in the same list or table. */
  predicate EndsPeer(stack: seq<Open>, nextTag: string, index: nat) {
    || (nextTag == "li" && IsPeer(stack, "li", {"ul", "ol"}, index))
    || (nextTag == "tr" && IsPeer(stack, "tr", {"table", "thead", "tbody", "tfoot"}, index))
  }

  predicate EndsParagraph(stack: seq<Open>, nextTag: string) {
    stack != [] && stack[|stack| - 1].tagName == "p" && (nextTag in BLOCK_TAGS || nextTag in CONTAINER_TAGS)
  }

  /** Where an opening tag cuts the stack: at its peer, else at a paragraph on top, else nowhere. */
  ghost predicate CutsAt(stack: seq<Open>, nextTag: string, index: nat) {
    EndsPeer(stack, nextTag, index) ||
    ((forall i: nat :: !EndsPeer(stack, nextTag, i)) && index == if EndsParagraph(stack, nextTag) then |stack| - 1 else |stack|)
  }

  lemma CloseTwice(s: Scanner, a: nat, b: nat, line: nat)
    requires b <= a <= |s.stack|
    ensures CloseFrom(CloseFrom(s, a, line), b, line) == CloseFrom(s, b, line)
  {
    var stack := s.stack;
    assert stack[..a][..b] == stack[..b] && stack[b..][..a - b] == stack[..a][b..] && stack[b..][a - b..] == stack[a..];
    forall k | 0 <= k < |s.blocks|
      ensures IsOpen(stack[b..], k) <==> IsOpen(stack[..a][b..], k) || IsOpen(stack[a..], k)
    {
      SplitOpen(stack[b..], a - b, k);
    }
    hide IsOpen;
  }

  lemma CloseNothing(s: Scanner, line: nat)
    ensures CloseFrom(s, |s.stack|, line) == s
  {
    assert s.stack[|s.stack|..] == [] && s.stack[..|s.stack|] == s.stack;
    assert SetEnds(s.blocks, [], line) == s.blocks;
  }

  /** The paragraph on top ends. */
  lemma ParagraphCut(s: Scanner, nextTag: string, line: nat)
    ensures AutoCloseParagraph(s, nextTag, line)
         == CloseFrom(s, if EndsParagraph(s.stack, nextTag) then |s.stack| - 1 else |s.stack|, line)
  {
    if EndsParagraph(s.stack, nextTag) {
      assert LastOf(s.stack, {"p"}) == |s.stack| - 1;
    } else {
      CloseNothing(s, line);
    }
  }

  /** A peer ends, if there is one. */
  lemma PeerCut(s: Scanner, name: string, containers: set<string>, line: nat, index: nat)
    requires name !in containers
    ensures IsPeer(s.stack, name, containers, index) ==>
            ClosePeerWithinContainer(s, name, containers, line) == CloseFrom(s, index, line)
    ensures (forall i: nat :: !IsPeer(s.stack, name, containers, i)) ==>
            ClosePeerWithinContainer(s, name, containers, line) == s
  {
    hide SetEnds;
    var last := LastOf(s.stack, {name});
    if IsPeer(s.stack, name, containers, index) {
      assert last == index;
    } else if last > LastOf(s.stack, containers) {
      assert IsPeer(s.stack, name, containers, last);
    }
  }

  lemma PeerBelowParagraph(stack: seq<Open>, name: string, containers: set<string>, index: nat)
    requires stack != [] && stack[|stack| - 1].tagName == "p" && name != "p" && "p" !in containers
    ensures IsPeer(stack, name, containers, index) <==> IsPeer(stack[..|stack| - 1], name, containers, index)
  {}

  lemma CutAfterParagraph(s: Scanner, nextTag: string, name: string, containers: set<string>, line: nat, index: nat)
    requires name !in containers && name != "p" && "p" !in containers
    requires IsPeer(s.stack, name, containers, index) ||
      ((forall i: nat :: !IsPeer(s.stack, name, containers, i)) && index == if EndsParagraph(s.stack, nextTag) then |s.stack| - 1 else |s.stack|)
    ensures ClosePeerWithinContainer(AutoCloseParagraph(s, nextTag, line), name, containers, line) == CloseFrom(s, index, line)
  {
    hide CloseFrom, ClosePeerWithinContainer, AutoCloseParagraph, IsPeer;
    var cut: nat := if EndsParagraph(s.stack, nextTag) then |s.stack| - 1 else |s.stack|;
    var p := AutoCloseParagraph(s, nextTag, line);
    ParagraphCut(s, nextTag, line);
    StackOfCut(s, cut, line);
    forall i: nat
      ensures IsPeer(s.stack, name, containers, i) <==> IsPeer(p.stack, name, containers, i)
    {
      if cut < |s.stack| {
        PeerBelowParagraph(s.stack, name, containers, i);
      } else {
        assert s.stack[..cut] == s.stack;
      }
    }
    PeerCut(p, name, containers, line, index);
    if IsPeer(s.stack, name, containers, index) {
      PeerIsBelow(p.stack, name, containers, index);
      CloseTwice(s, cut, index, line);
    }
  }

  lemma StackOfCut(s: Scanner, index: nat, line: nat)
    requires index <= |s.stack|
    ensures CloseFrom(s, index, line).stack == s.stack[..index]
  {}

  lemma PeerIsBelow(stack: seq<Open>, name: string, containers: set<string>, index: nat)
    requires IsPeer(stack, name, containers, index)
    ensures index < |stack|
  {}

  lemma OptionalCut(s: Scanner, nextTag: string, line: nat, index: nat)
    requires CutsAt(s.stack, nextTag, index)
    ensures index <= |s.stack| && AutoCloseOptionalElements(s, nextTag, line) == CloseFrom(s, index, line)
  {
    hide CloseFrom, ClosePeerWithinContainer, AutoCloseParagraph, IsPeer, EndsParagraph;
    if nextTag == "li" {
      PeerOrNot(s.stack, nextTag, index);
      CutAfterParagraph(s, nextTag, "li", LIST_TAGS, line, index);
    } else if nextTag == "tr" {
      PeerOrNot(s.stack, nextTag, index);
      CutAfterParagraph(s, nextTag, "tr", TABLE_TAGS, line, index);
    } else {
      ParagraphCut(s, nextTag, line);
    }
    CutIsBelow(s.stack, nextTag, index);
  }

  lemma CutIsBelow(stack: seq<Open>, nextTag: string, index: nat)
    requires CutsAt(stack, nextTag, index)
    ensures index <= |stack|
  {}

  lemma PeerOrNot(stack: seq<Open>, nextTag: string, index: nat)
    requires CutsAt(stack, nextTag, index) && (nextTag == "li" || nextTag == "tr")
    ensures var containers := if nextTag == "li" then LIST_TAGS else TABLE_TAGS;
      IsPeer(stack, nextTag, containers, index) ||
      ((forall i: nat :: !IsPeer(stack, nextTag, containers, i)) && index == if EndsParagraph(stack, nextTag) then |stack| - 1 else |stack|)
  {
    hide IsPeer, EndsParagraph;
    if !EndsPeer(stack, nextTag, index) {
      var containers := if nextTag == "li" then LIST_TAGS else TABLE_TAGS;
      forall i: nat
        ensures !IsPeer(stack, nextTag, containers, i)
      {
        assert !EndsPeer(stack, nextTag, i);
      }
    }
  }

  /** The element that an opening tag pushes, unless it has no content. */
  function PushedBy(s: Scanner, tag: Token): seq<Open>
    requires tag.Tag?
  {
    if tag.selfClosing || tag.name in VOID_TAGS then []
    else [Open(tag.name, if s.templateDepth == 0 && tag.name in BLOCK_TAGS then Some(|s.blocks|) else None)]
  }

  /**
   An opening tag ends what its optional end tags imply, at the line before it: the open blocks from the cut on, and no others.
   It opens a block of its own, if its name is one of a block and it is not in a template, and is pushed unless it is void.
   */
  lemma OpeningTagCuts(html: string, s: Scanner, tag: Token, index: nat)
    requires tag.Tag? && !tag.closing && tag.start < tag.end < |html| && CutsAt(s.stack, tag.name, index)
    ensures index <= |s.stack|
    ensures ApplyTag(html, s, tag).stack == s.stack[..index] + PushedBy(s, tag)
    ensures var blocks, line := ApplyTag(html, s, tag).blocks, LineAt(html, tag.start);
      && |blocks| == |s.blocks| + (if s.templateDepth == 0 && tag.name in BLOCK_TAGS then 1 else 0)
      && (|blocks| > |s.blocks| ==> blocks[|s.blocks|] == Block(tag.name, line, line, tag.start, tag.end + 1))
      && forall k | 0 <= k < |s.blocks| ::
           blocks[k] == if IsOpen(s.stack[index..], k) then s.blocks[k].(sourceLineEnd := LineAt(html, Before(tag.start))) else s.blocks[k]
  {
    hide AutoCloseOptionalElements, CutsAt, IsOpen;
    OptionalCut(s, tag.name, LineAt(html, Before(tag.start)), index);
    assert "template" !in BLOCK_TAGS;
  }

  /** At the end of the text every element that is still open ends at the last line; the others keep their ends. */
  lemma EndOfTextEndsTheRest(html: string, k: nat)
    requires k < |Scan(html, 0, START).blocks|
    ensures var last := Scan(html, 0, START);
      && |ParsedBlocks(html)| == |last.blocks|
      && ParsedBlocks(html)[k]
         == if IsOpen(last.stack, k) then last.blocks[k].(sourceLineEnd := LineAt(html, Before(|html|))) else last.blocks[k]
  {
    hide Scan, IsOpen;
    var last := Scan(html, 0, START);
    assert last.stack[0..] == last.stack;
  }

  // ---------------------------------------------------------------- opening tags

  /** The opening tags lie in the text before `limit`, one after the other. */
  ghost predicate OpeningsInOrder(html: string, blocks: seq<Block>, limit: nat) {
    && (forall k | 0 <= k < |blocks| :: IsTagSpan(html, blocks[k]) && blocks[k].openingEnd <= limit)
    && (forall j, k | 0 <= j < k < |blocks| :: blocks[j].openingEnd <= blocks[k].openingStart)
  }

  predicate IsTagSpan(html: string, b: Block) {
    b.openingStart + 1 < b.openingEnd <= |html| && html[b.openingStart] == '<' && html[b.openingEnd - 1] == '>'
  }

  lemma CloseKeepsOpenings(html: string, s: Scanner, index: nat, line: nat, limit: nat)
    requires index <= |s.stack|
    ensures OpeningsInOrder(html, CloseFrom(s, index, line).blocks, limit) <==> OpeningsInOrder(html, s.blocks, limit)
  {
    var after := CloseFrom(s, index, line).blocks;
    forall k | 0 <= k < |s.blocks|
      ensures after[k].openingStart == s.blocks[k].openingStart && after[k].openingEnd == s.blocks[k].openingEnd
    {}
    if OpeningsInOrder(html, after, limit) {
      forall k | 0 <= k < |s.blocks|
        ensures IsTagSpan(html, s.blocks[k])
      {
        assert IsTagSpan(html, after[k]);
      }
    }
  }

  lemma CloseOpenKeepsOpenings(html: string, s: Scanner, tagName: string, line: nat, limit: nat)
    requires OpeningsInOrder(html, s.blocks, limit)
    ensures OpeningsInOrder(html, CloseOpenElements(s, tagName, line).blocks, limit)
  {
    hide OpeningsInOrder;
    var i := LastOf(s.stack, {tagName});
    if i >= 0 { CloseKeepsOpenings(html, s, i, line, limit); }
  }

  lemma ClosePeerKeepsOpenings(html: string, s: Scanner, peer: string, containers: set<string>, line: nat, limit: nat)
    requires OpeningsInOrder(html, s.blocks, limit)
    ensures OpeningsInOrder(html, ClosePeerWithinContainer(s, peer, containers, line).blocks, limit)
  {
    hide OpeningsInOrder;
    var i := LastOf(s.stack, {peer});
    if i > LastOf(s.stack, containers) { CloseKeepsOpenings(html, s, i, line, limit); }
  }

  lemma AutoCloseKeepsOpenings(html: string, s: Scanner, nextTag: string, line: nat, limit: nat)
    requires OpeningsInOrder(html, s.blocks, limit)
    ensures OpeningsInOrder(html, AutoCloseOptionalElements(s, nextTag, line).blocks, limit)
  {
    hide OpeningsInOrder, CloseOpenElements, ClosePeerWithinContainer;
    CloseOpenKeepsOpenings(html, s, "p", line, limit);
    var p := AutoCloseParagraph(s, nextTag, line);
    ClosePeerKeepsOpenings(html, p, "li", LIST_TAGS, line, limit);
    var li := if nextTag == "li" then ClosePeerWithinContainer(p, "li", LIST_TAGS, line) else p;
    ClosePeerKeepsOpenings(html, li, "tr", TABLE_TAGS, line, limit);
  }

  lemma TagKeepsOpenings(html: string, s: Scanner, tag: Token, cursor: nat)
    requires tag.Tag? && cursor <= tag.start < tag.end < |html| && html[tag.start] == '<' && html[tag.end] == '>'
    requires OpeningsInOrder(html, s.blocks, cursor)
    ensures OpeningsInOrder(html, ApplyTag(html, s, tag).blocks, tag.end + 1)
  {
    hide OpeningsInOrder, OpenTag, CloseOpenElements, AutoCloseOptionalElements, LineAt;
    CloseOpenKeepsOpenings(html, s, tag.name, LineAt(html, tag.end), cursor);
    AutoCloseKeepsOpenings(html, s, tag.name, LineAt(html, Before(tag.start)), cursor);
    var closed := AutoCloseOptionalElements(s, tag.name, LineAt(html, Before(tag.start)));
    OpenTagKeepsOpenings(html, closed, tag, LineAt(html, tag.start), cursor);
    OpeningsLater(html, CloseOpenElements(s, tag.name, LineAt(html, tag.end)).blocks, cursor, tag.end + 1);
  }

  lemma OpenTagKeepsOpenings(html: string, s: Scanner, tag: Token, line: nat, cursor: nat)
    requires tag.Tag? && cursor <= tag.start < tag.end < |html| && html[tag.start] == '<' && html[tag.end] == '>'
    requires OpeningsInOrder(html, s.blocks, cursor)
    ensures OpeningsInOrder(html, OpenTag(s, tag, line).blocks, tag.end + 1)
  {}

  lemma OpeningsLater(html: string, blocks: seq<Block>, limit: nat, later: nat)
    requires OpeningsInOrder(html, blocks, limit) && limit <= later
    ensures OpeningsInOrder(html, blocks, later)
  {}

  lemma {:induction false} ScanKeepsOpenings(html: string, cursor: nat, s: Scanner)
    requires cursor <= |html| && OpeningsInOrder(html, s.blocks, cursor)
    ensures OpeningsInOrder(html, Scan(html, cursor, s).blocks, |html|)
    decreases |html| - cursor
  {
    hide ApplyTag, NextToken;
    var token := NextToken(html, cursor, s.rawTextTag);
    if token.Skip? {
      ScanKeepsOpenings(html, token.next, s);
    } else if token.Tag? {
      TagKeepsOpenings(html, s, token, cursor);
      ScanKeepsOpenings(html, token.end + 1, ApplyTag(html, s, token));
    }
  }

  lemma BlocksOpenInOrder(html: string)
    ensures OpeningsInOrder(html, ParsedBlocks(html), |html|)
  {
    ScanKeepsOpenings(html, 0, START);
    CloseKeepsOpenings(html, Scan(html, 0, START), 0, LineAt(html, Before(|html|)), |html|);
  }

  // ---------------------------------------------------------------- annotation

  type Annotator = (string, Block) -> string

  /** The text from `from` on with every opening tag replaced, in one pass; everything else is copied. */
  function Rewrite(html: string, from: nat, blocks: seq<Block>, annotate: Annotator): string
    requires OpeningsInOrder(html, blocks, |html|) && from <= |html|
    requires blocks != [] ==> from <= blocks[0].openingStart
    decreases blocks
  {
    if blocks == [] then html[from..]
    else
      var b := blocks[0];
      assert IsTagSpan(html, b);
      html[from..b.openingStart] + (annotate(html[b.openingStart..b.openingEnd], b) +
        Rewrite(html, b.openingEnd, blocks[1..], annotate))
  }

  function Spliced(output: string, b: Block, annotated: string): string
    requires b.openingStart <= b.openingEnd <= |output|
  {
    output[..b.openingStart] + annotated + output[b.openingEnd..]
  }

  lemma PrefixInOrder(html: string, blocks: seq<Block>, n: nat)
    requires OpeningsInOrder(html, blocks, |html|) && n <= |blocks|
    ensures OpeningsInOrder(html, blocks[n..], |html|)
  {
    forall k | 0 <= k < |blocks| - n
      ensures IsTagSpan(html, blocks[n..][k])
    {
      assert IsTagSpan(html, blocks[n + k]);
    }
  }

  /** Replacing the tags from the last to the first gives the same text as the pass from first to last. */
  method AnnotateBlocks(html: string, blocks: seq<Block>, annotate: Annotator) returns (output: string)
    requires OpeningsInOrder(html, blocks, |html|)
    ensures output == Rewrite(html, 0, blocks, annotate)
  {
    output := html;
    var i := |blocks|;
    while i > 0
      invariant 0 <= i <= |blocks|
      invariant OpeningsInOrder(html, blocks[i..], |html|)
      invariant output == Rewrite(html, 0, blocks[i..], annotate)
    {
      i := i - 1;
      var block := blocks[i];
      SpliceOneMore(html, blocks, i, annotate);
      var openingTag := output[block.openingStart..block.openingEnd];
      output := Spliced(output, block, annotate(openingTag, block));
    }
    assert blocks[0..] == blocks;
  }

  /** The rewritten text begins like the original, up to the first tag that is replaced. */
  lemma RewriteKeepsFront(html: string, from: nat, blocks: seq<Block>, annotate: Annotator, end: nat)
    requires OpeningsInOrder(html, blocks, |html|) && from <= end <= |html|
    requires blocks != [] ==> end <= blocks[0].openingStart
    ensures Rewrite(html, from, blocks, annotate) == html[from..end] + Rewrite(html, end, blocks, annotate)
  {
    if blocks == [] {
      assert html[from..] == html[from..end] + html[end..];
    } else {
      var b := blocks[0];
      assert html[from..b.openingStart] == html[from..end] + html[end..b.openingStart];
      ConcatAssociative(html[from..end], html[end..b.openingStart],
        annotate(html[b.openingStart..b.openingEnd], b) + Rewrite(html, b.openingEnd, blocks[1..], annotate));
    }
  }

  lemma SpliceOneMore(html: string, blocks: seq<Block>, i: nat, annotate: Annotator)
    requires OpeningsInOrder(html, blocks, |html|) && i < |blocks| && OpeningsInOrder(html, blocks[i + 1..], |html|)
    ensures OpeningsInOrder(html, blocks[i..], |html|)
    ensures var output, b := Rewrite(html, 0, blocks[i + 1..], annotate), blocks[i];
      && b.openingStart <= b.openingEnd <= |output|
      && output[b.openingStart..b.openingEnd] == html[b.openingStart..b.openingEnd]
      && Spliced(output, b, annotate(output[b.openingStart..b.openingEnd], b)) == Rewrite(html, 0, blocks[i..], annotate)
  {
    PrefixInOrder(html, blocks, i);
    var b := blocks[i];
    assert IsTagSpan(html, b) && blocks[i..][1..] == blocks[i + 1..] && blocks[i..][0] == b;
    var output := Rewrite(html, 0, blocks[i + 1..], annotate);
    var rest := Rewrite(html, b.openingEnd, blocks[i + 1..], annotate);
    RewriteKeepsFront(html, 0, blocks[i + 1..], annotate, b.openingEnd);
    assert output == html[..b.openingEnd] + rest;
    assert output[b.openingStart..b.openingEnd] == html[b.openingStart..b.openingEnd];
    assert output[..b.openingStart] == html[..b.openingStart] && output[b.openingEnd..] == rest;
  }
}
