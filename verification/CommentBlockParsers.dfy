/**
 The two parsers of comment blocks. Both push block objects on a list and on a stack and set their last line when they
 are closed; one recounts the lines at every tag, the other one asks a counter that only moves forward.
 */
module CommentBlockParsers {
  import opened Sequences
  import opened HtmlTokens
  import opened CommentBlocks

  // ---------------------------------------------------------------- counting lines

  /** The offset a counter goes to: inside the text, if it is not empty. */
  function Target(source: string, offset: nat): nat {
    if offset < |source| then offset else Before(|source|)
  }

  class LineCounter {
    const source: string
    var cursor: nat
    var line: nat

    ghost predicate Valid()
      reads this
    {
      cursor <= |source| && line == LineAt(source, cursor)
    }

    constructor (source: string)
      ensures Valid() && this.source == source && cursor == 0
    {
      this.source := source;
      cursor, line := 0, 1;
    }

    /** The counter never goes back: it answers for the furthest offset it was asked for. */
    method At(offset: nat) returns (r: nat)
      requires Valid()
      modifies this
      ensures Valid() && cursor == Max(old(cursor), Target(source, offset)) && r == LineAt(source, cursor)
    {
      var target := Target(source, offset);
      while cursor < target
        invariant Valid() && old(cursor) <= cursor <= Max(old(cursor), target)
      {
        if source[cursor] == '\n' {
          line := line + 1;
        }
        cursor := cursor + 1;
      }
      r := line;
    }
  }

  method LineNumberAt(source: string, offset: nat) returns (r: nat)
    requires offset <= |source|
    ensures r == LineAt(source, offset)
  {
    r := 1;
    for i := 0 to offset
      invariant r == LineAt(source, i)
    {
      if source[i] == '\n' {
        r := r + 1;
      }
    }
  }

  // ---------------------------------------------------------------- block objects

  class ParsedBlock {
    const tagName: string
    const sourceLineStart: nat
    const openingStart: nat
    const openingEnd: nat
    var sourceLineEnd: nat

    constructor (tagName: string, line: nat, openingStart: nat, openingEnd: nat)
      ensures View() == Block(tagName, line, line, openingStart, openingEnd)
    {
      this.tagName := tagName;
      sourceLineStart, sourceLineEnd := line, line;
      this.openingStart, this.openingEnd := openingStart, openingEnd;
    }

    function View(): Block
      reads this
    {
      Block(tagName, sourceLineStart, sourceLineEnd, openingStart, openingEnd)
    }
  }

  datatype OpenElement = OpenElement(tagName: string, block: ParsedBlock?)

  function Views(blocks: seq<ParsedBlock>): (r: seq<Block>)
    reads blocks
    ensures |r| == |blocks|
    ensures forall k | 0 <= k < |r| :: r[k] == blocks[k].View()
  {
    if blocks == [] then [] else Views(blocks[..|blocks| - 1]) + [blocks[|blocks| - 1].View()]
  }

  ghost predicate AllDifferent(blocks: seq<ParsedBlock>) {
    forall i, j | 0 <= i < j < |blocks| :: blocks[i] != blocks[j]
  }

  ghost predicate LinkedElement(blocks: seq<ParsedBlock>, element: OpenElement, open: Open) {
    && element.tagName == open.tagName
    && (open.block.None? ==> element.block == null)
    && (open.block.Some? ==> open.block.value < |blocks| && element.block == blocks[open.block.value])
  }

  /** Block objects, all different, and a stack of elements that refer to them. */
  ghost predicate Linked(blocks: seq<ParsedBlock>, stack: seq<OpenElement>, opens: seq<Open>) {
    && AllDifferent(blocks)
    && |stack| == |opens|
    && forall i | 0 <= i < |stack| :: LinkedElement(blocks, stack[i], opens[i])
  }

  /** The objects stand for the state of the scanner. */
  ghost predicate Represents(blocks: seq<ParsedBlock>, stack: seq<OpenElement>, s: Scanner)
    reads blocks
  {
    Views(blocks) == s.blocks && Linked(blocks, stack, s.stack)
  }

  method FindLastIndex(stack: seq<OpenElement>, tags: set<string>, ghost opens: seq<Open>) returns (r: int)
    requires |stack| == |opens| && forall i | 0 <= i < |stack| :: stack[i].tagName == opens[i].tagName
    ensures r == LastOf(opens, tags)
  {
    r := |stack| - 1;
    while r >= 0 && stack[r].tagName !in tags
      invariant -1 <= r < |stack|
      invariant LastOf(opens[..r + 1], tags) == LastOf(opens, tags)
    {
      assert opens[..r + 1][..r] == opens[..r];
      r := r - 1;
    }
    assert r >= 0 ==> opens[..r + 1][r] == opens[r];
  }

  /** Closing one more element of a stack. */
  lemma CloseOneMore(blocks: seq<Block>, opens: seq<Open>, n: nat, line: nat)
    requires n < |opens|
    ensures SetEnds(blocks, opens[n..], line) == SetEnds(SetEnds(blocks, opens[n + 1..], line), [opens[n]], line)
  {
    assert opens[n..] == [opens[n]] + opens[n + 1..];
    forall k | 0 <= k < |blocks|
      ensures IsOpen(opens[n..], k) <==> IsOpen([opens[n]], k) || IsOpen(opens[n + 1..], k)
    {
      SplitOpen(opens[n..], 1, k);
    }
  }

  /** Ends the block of a popped element, if it has one. */
  method EndElement(element: OpenElement, line: nat, ghost blocks: seq<ParsedBlock>, ghost open: Open)
    requires AllDifferent(blocks) && LinkedElement(blocks, element, open)
    modifies blocks
    ensures Views(blocks) == SetEnds(old(Views(blocks)), [open], line)
  {
    assert open in [open];
    if element.block != null {
      element.block.sourceLineEnd := line;
    }
  }

  lemma LinkedAt(blocks: seq<ParsedBlock>, stack: seq<OpenElement>, opens: seq<Open>, i: nat)
    requires Linked(blocks, stack, opens) && i < |stack|
    ensures |stack| == |opens| && AllDifferent(blocks) && LinkedElement(blocks, stack[i], opens[i])
  {
    hide AllDifferent, LinkedElement;
  }

  lemma LinkedPrefix(blocks: seq<ParsedBlock>, stack: seq<OpenElement>, opens: seq<Open>, index: nat)
    requires Linked(blocks, stack, opens) && index <= |stack|
    ensures |stack| == |opens| && Linked(blocks, stack[..index], opens[..index])
  {
    hide AllDifferent, LinkedElement;
  }

  /** Pops the elements from `index` on and ends their blocks. */
  method PopFrom(stack: seq<OpenElement>, index: nat, line: nat, ghost blocks: seq<ParsedBlock>, ghost s: Scanner)
    returns (rest: seq<OpenElement>)
    requires Represents(blocks, stack, s) && index <= |stack|
    modifies blocks
    ensures Represents(blocks, rest, CloseFrom(s, index, line))
  {
    hide Views, SetEnds, Linked, LinkedElement, AllDifferent;
    rest := stack;
    LinkedPrefix(blocks, stack, s.stack, index);
    NothingToEnd(s.blocks, line);
    assert s.stack[|stack|..] == [];
    while |rest| > index
      invariant index <= |rest| <= |stack| && rest == stack[..|rest|]
      invariant Views(blocks) == SetEnds(s.blocks, s.stack[|rest|..], line)
    {
      var element := rest[|rest| - 1];
      rest := rest[..|rest| - 1];
      LinkedAt(blocks, stack, s.stack, |rest|);
      CloseOneMore(s.blocks, s.stack, |rest|, line);
      EndElement(element, line, blocks, s.stack[|rest|]);
    }
  }

  lemma NothingToEnd(blocks: seq<Block>, line: nat)
    ensures SetEnds(blocks, [], line) == blocks
  {}

  method CloseElements(stack: seq<OpenElement>, tagName: string, line: nat, ghost blocks: seq<ParsedBlock>, ghost s: Scanner)
    returns (rest: seq<OpenElement>)
    requires Represents(blocks, stack, s)
    modifies blocks
    ensures Represents(blocks, rest, CloseOpenElements(s, tagName, line))
  {
    var index := FindLastIndex(stack, {tagName}, s.stack);
    if index < 0 {
      return stack;
    }
    rest := PopFrom(stack, index, line, blocks, s);
  }

  method ClosePeer(stack: seq<OpenElement>, peer: string, containers: set<string>, line: nat, ghost blocks: seq<ParsedBlock>,
                   ghost s: Scanner) returns (rest: seq<OpenElement>)
    requires Represents(blocks, stack, s)
    modifies blocks
    ensures Represents(blocks, rest, ClosePeerWithinContainer(s, peer, containers, line))
  {
    var peerIndex := FindLastIndex(stack, {peer}, s.stack);
    var containerIndex := FindLastIndex(stack, containers, s.stack);
    if peerIndex > containerIndex {
      rest := PopFrom(stack, peerIndex, line, blocks, s);
    } else {
      rest := stack;
    }
  }

  method AutoCloseElements(stack: seq<OpenElement>, nextTag: string, line: nat, ghost blocks: seq<ParsedBlock>, ghost s: Scanner)
    returns (rest: seq<OpenElement>)
    requires Represents(blocks, stack, s)
    modifies blocks
    ensures Represents(blocks, rest, AutoCloseOptionalElements(s, nextTag, line))
  {
    rest := stack;
    ghost var p := AutoCloseParagraph(s, nextTag, line);
    if |stack| > 0 && stack[|stack| - 1].tagName == "p" && IsBlockOpeningTag(nextTag) {
      rest := CloseElements(stack, "p", line, blocks, s);
    }
    hide Represents, AutoCloseParagraph;
    ghost var li := p;
    if nextTag == "li" {
      rest := ClosePeer(rest, "li", LIST_TAGS, line, blocks, p);
      li := ClosePeerWithinContainer(p, "li", LIST_TAGS, line);
    }
    if nextTag == "tr" {
      rest := ClosePeer(rest, "tr", TABLE_TAGS, line, blocks, li);
    }
  }

  /** The line of an opening tag matters for blocks only. */
  lemma LineOfOthers(s: Scanner, tag: Token, line: nat, other: nat)
    requires tag.Tag? && !IsCommentBlock(s, tag.name)
    ensures OpenTag(s, tag, line) == OpenTag(s, tag, other)
  {}

  lemma Pushed(blocks: seq<ParsedBlock>, stack: seq<OpenElement>, opens: seq<Open>, element: OpenElement, open: Open)
    requires Linked(blocks, stack, opens) && LinkedElement(blocks, element, open)
    ensures Linked(blocks, stack + [element], opens + [open])
  {
    hide AllDifferent, LinkedElement;
  }

  lemma Listed(blocks: seq<ParsedBlock>, stack: seq<OpenElement>, opens: seq<Open>, block: ParsedBlock)
    requires Linked(blocks, stack, opens) && block !in blocks
    ensures Linked(blocks + [block], stack, opens)
  {
    AddDifferent(blocks, block);
    hide AllDifferent;
    forall i | 0 <= i < |stack|
      ensures LinkedElement(blocks + [block], stack[i], opens[i])
    {
      LinkStays(blocks, block, stack[i], opens[i]);
    }
  }

  lemma ViewsAppend(blocks: seq<ParsedBlock>, block: ParsedBlock)
    ensures Views(blocks + [block]) == Views(blocks) + [block.View()]
  {
    assert (blocks + [block])[..|blocks|] == blocks;
  }

  lemma AddDifferent(blocks: seq<ParsedBlock>, block: ParsedBlock)
    requires AllDifferent(blocks) && block !in blocks
    ensures AllDifferent(blocks + [block])
  {}

  lemma LinkStays(blocks: seq<ParsedBlock>, block: ParsedBlock, element: OpenElement, open: Open)
    requires LinkedElement(blocks, element, open)
    ensures LinkedElement(blocks + [block], element, open)
  {}

  lemma LinkPlain(blocks: seq<ParsedBlock>, tagName: string)
    ensures LinkedElement(blocks, OpenElement(tagName, null), Open(tagName, None))
  {}

  lemma LinkNew(blocks: seq<ParsedBlock>, block: ParsedBlock, tagName: string)
    ensures LinkedElement(blocks + [block], OpenElement(tagName, block), Open(tagName, Some(|blocks|)))
  {}

  /** Appends the block of an opening tag. */
  method AddBlock(blocks: seq<ParsedBlock>, tag: Token, line: nat, ghost stack: seq<OpenElement>, ghost opens: seq<Open>)
    returns (block: ParsedBlock, blocks': seq<ParsedBlock>)
    requires tag.Tag? && Linked(blocks, stack, opens)
    ensures fresh(block) && blocks' == blocks + [block] && Linked(blocks', stack, opens)
    ensures Views(blocks') == Views(blocks) + [Block(tag.name, line, line, tag.start, tag.end + 1)]
    ensures LinkedElement(blocks', OpenElement(tag.name, block), Open(tag.name, Some(|blocks|)))
  {
    hide Views, Linked, LinkedElement;
    block := new ParsedBlock(tag.name, line, tag.start, tag.end + 1);
    blocks' := blocks + [block];
    ViewsAppend(blocks, block);
    Listed(blocks, stack, opens, block);
    LinkNew(blocks, block, tag.name);
  }

  /** The fields of the state behind an opening tag. */
  lemma OpenTagIs(s: Scanner, tag: Token, line: nat)
    requires tag.Tag?
    ensures var after, isBlock := OpenTag(s, tag, line), s.templateDepth == 0 && tag.name != "template" && tag.name in BLOCK_TAGS;
      && after.blocks == (if isBlock then s.blocks + [Block(tag.name, line, line, tag.start, tag.end + 1)] else s.blocks)
      && after.stack == (if tag.selfClosing || tag.name in VOID_TAGS then s.stack
                         else s.stack + [Open(tag.name, if isBlock then Some(|s.blocks|) else None)])
      && after.rawTextTag == (if tag.name in RAW_TEXT_TAGS then Some(tag.name) else s.rawTextTag)
      && after.templateDepth == if tag.name == "template" then s.templateDepth + 1 else s.templateDepth
  {}

  /** Pushes the block of an opening tag, if it is one, and its element, unless it has no content. */
  method PushElement(blocks: seq<ParsedBlock>, stack: seq<OpenElement>, tag: Token, line: nat, rawTextTag: Option<string>,
                     templateDepth: nat, ghost s: Scanner)
    returns (blocks': seq<ParsedBlock>, stack': seq<OpenElement>, rawTextTag': Option<string>, templateDepth': nat)
    requires tag.Tag? && Represents(blocks, stack, s) && rawTextTag == s.rawTextTag && templateDepth == s.templateDepth
    ensures var after := OpenTag(s, tag, line);
      Represents(blocks', stack', after) && rawTextTag' == after.rawTextTag && templateDepth' == after.templateDepth
    ensures blocks <= blocks' && forall i | |blocks| <= i < |blocks'| :: fresh(blocks'[i])
  {
    hide Views, Linked, LinkedElement, OpenTag;
    OpenTagIs(s, tag, line);
    blocks', stack', rawTextTag', templateDepth' := blocks, stack, rawTextTag, templateDepth;
    var insideTemplate := templateDepth > 0;
    if tag.name == "template" { templateDepth' := templateDepth + 1; }
    if tag.name in RAW_TEXT_TAGS { rawTextTag' := Some(tag.name); }
    var block: ParsedBlock? := null;
    if !insideTemplate && tag.name != "template" && tag.name in BLOCK_TAGS {
      block, blocks' := AddBlock(blocks, tag, line, stack, s.stack);
    } else {
      LinkPlain(blocks, tag.name);
    }
    if !(tag.selfClosing || tag.name in VOID_TAGS) {
      Pushed(blocks', stack, s.stack, OpenElement(tag.name, block), Open(tag.name, if block != null then Some(|blocks|) else None));
      stack' := stack + [OpenElement(tag.name, block)];
    }
  }

  // ---------------------------------------------------------------- the parsers

  method ReadTokenFrom(html: string, start: nat) returns (token: Token)
    requires start <= |html|
    ensures token == TokenFrom(html, start)
  {
    hide ParseTag, IsSelfClosing, FindHtmlTagEnd, CommentEnd;
    var found := FindFrom(html, "<", start);
    if found.None? { return Stop; }
    var tagStart := found.value;
    assert html[tagStart..][..1] == "<";
    if StartsWith(html[tagStart..], "<!--") {
      return Skip(CommentEnd(html, tagStart));
    }
    var tagEnd := FindTagEnd(html, tagStart + 1);
    if tagEnd.None? { return Stop; }
    var tag := html[tagStart..tagEnd.value + 1];
    var parsed := ParseTag(tag);
    if parsed.None? { return Skip(tagEnd.value + 1); }
    token := Tag(tagStart, tagEnd.value, parsed.value.0, parsed.value.1, IsSelfClosing(tag));
  }

  /** Finds the next tag; the loops of the scanner search with it. */
  method ReadToken(html: string, lowerHtml: string, cursor: nat, rawTextTag: Option<string>) returns (token: Token)
    requires lowerHtml == LowerAscii(html)
    ensures token == NextToken(html, cursor, rawTextTag)
  {
    hide TokenFrom, LowerAscii;
    if cursor >= |html| { return Stop; }
    var start := cursor;
    if rawTextTag.Some? {
      var closingIndex := FindFrom(lowerHtml, "</" + rawTextTag.value, cursor);
      if closingIndex.None? { return Stop; }
      start := closingIndex.value;
    }
    token := ReadTokenFrom(html, start);
  }

  /** What a closing tag does to the stack and the modes. */
  method ReadClosingTag(html: string, blocks: seq<ParsedBlock>, stack: seq<OpenElement>, token: Token, line: nat,
                        rawTextTag: Option<string>, templateDepth: nat, ghost s: Scanner)
    returns (stack': seq<OpenElement>, rawTextTag': Option<string>, templateDepth': nat)
    requires token.Tag? && token.closing && token.start < token.end < |html| && line == LineAt(html, token.end)
    requires Represents(blocks, stack, s) && rawTextTag == s.rawTextTag && templateDepth == s.templateDepth
    modifies blocks
    ensures var after := ApplyTag(html, s, token);
      Represents(blocks, stack', after) && rawTextTag' == after.rawTextTag && templateDepth' == after.templateDepth
  {
    stack' := CloseElements(stack, token.name, line, blocks, s);
    rawTextTag', templateDepth' := rawTextTag, templateDepth;
    if token.name == "template" && templateDepth > 0 { templateDepth' := templateDepth - 1; }
    if Some(token.name) == rawTextTag { rawTextTag' := None; }
  }

  lemma AutoCloseKeepsModes(s: Scanner, nextTag: string, line: nat)
    ensures var after := AutoCloseOptionalElements(s, nextTag, line);
      after.rawTextTag == s.rawTextTag && after.templateDepth == s.templateDepth
  {}

  /** One turn of the scanner. */
  lemma ScanTurn(html: string, cursor: nat, s: Scanner)
    ensures var token := NextToken(html, cursor, s.rawTextTag);
      Scan(html, cursor, s) ==
        if token.Stop? then s
        else if token.Skip? then Scan(html, token.next, s)
        else Scan(html, token.end + 1, ApplyTag(html, s, token))
  {
    hide ApplyTag, NextToken;
  }

  /** What an opening tag does, its lines asked of the counter: first the line before it, then its own. */
  method ReadOpeningTag(html: string, lineAt: LineCounter, blocks: seq<ParsedBlock>, stack: seq<OpenElement>, token: Token,
                        rawTextTag: Option<string>, templateDepth: nat, ghost s: Scanner)
    returns (blocks': seq<ParsedBlock>, stack': seq<OpenElement>, rawTextTag': Option<string>, templateDepth': nat)
    requires token.Tag? && !token.closing && token.start < token.end < |html|
    requires lineAt.Valid() && lineAt.source == html && lineAt.cursor <= Before(token.start)
    requires Represents(blocks, stack, s) && rawTextTag == s.rawTextTag && templateDepth == s.templateDepth
    modifies lineAt, blocks
    ensures lineAt.Valid() && lineAt.cursor <= token.start
    ensures var after := ApplyTag(html, s, token);
      Represents(blocks', stack', after) && rawTextTag' == after.rawTextTag && templateDepth' == after.templateDepth
    ensures blocks <= blocks' && forall i | |blocks| <= i < |blocks'| :: fresh(blocks'[i])
  {
    hide Views, Linked, OpenTag, AutoCloseOptionalElements, LineAt;
    var before := lineAt.At(Before(token.start));
    assert before == LineAt(html, Before(token.start));
    stack' := AutoCloseElements(stack, token.name, before, blocks, s);
    AutoCloseKeepsModes(s, token.name, before);
    ghost var auto := AutoCloseOptionalElements(s, token.name, before);
    var line := 0;
    if templateDepth == 0 && token.name != "template" && token.name in BLOCK_TAGS {
      line := lineAt.At(token.start);
      assert line == LineAt(html, token.start);
    } else {
      LineOfOthers(auto, token, line, LineAt(html, token.start));
    }
    blocks', stack', rawTextTag', templateDepth' := PushElement(blocks, stack', token, line, rawTextTag, templateDepth, auto);
  }

  /** The parser with the line counter. */
  method ParseRenderedCommentBlocks(html: string) returns (blocks: seq<ParsedBlock>)
    ensures Views(blocks) == ParsedBlocks(html) && fresh(blocks)
  {
    hide Represents, Views, Scan, ApplyTag, NextToken, LineAt, CloseFrom, Linked, LinkedElement, AllDifferent, IsOpen, LowerAscii,
         OpenTag, CloseTag;
    var lowerHtml := LowerAscii(html);
    var cursor, rawTextTag, templateDepth := 0, None, 0;
    var stack: seq<OpenElement> := [];
    blocks := [];
    StartsEmpty();
    var lineAt := new LineCounter(html);
    ghost var s := START;
    while true
      invariant fresh(blocks) && Represents(blocks, stack, s)
      invariant rawTextTag == s.rawTextTag && templateDepth == s.templateDepth
      invariant cursor <= |html| && Scan(html, cursor, s) == Scan(html, 0, START)
      invariant fresh(lineAt) && lineAt.Valid() && lineAt.source == html && lineAt.cursor <= Before(cursor)
      decreases |html| - cursor
    {
      ScanTurn(html, cursor, s);
      var token := ReadToken(html, lowerHtml, cursor, rawTextTag);
      if token.Stop? { break; }
      if token.Skip? {
        cursor := token.next;
        continue;
      }
      if token.closing {
        var line := lineAt.At(token.end);
        assert line == LineAt(html, token.end);
        stack, rawTextTag, templateDepth := ReadClosingTag(html, blocks, stack, token, line, rawTextTag, templateDepth, s);
        s := ApplyTag(html, s, token);
      } else {
        blocks, stack, rawTextTag, templateDepth := ReadOpeningTag(html, lineAt, blocks, stack, token, rawTextTag, templateDepth, s);
        s := ApplyTag(html, s, token);
      }
      cursor := token.end + 1;
    }
    var finalLine := lineAt.At(Before(|html|));
    stack := PopFrom(stack, 0, finalLine, blocks, s);
    RepresentsViews(blocks, stack, CloseFrom(s, 0, finalLine));
  }

  lemma RepresentsViews(blocks: seq<ParsedBlock>, stack: seq<OpenElement>, s: Scanner)
    requires Represents(blocks, stack, s)
    ensures Views(blocks) == s.blocks
  {}

  lemma StartsEmpty()
    ensures Represents([], [], START)
  {}

  /** The parser that recounts the lines. */
  method ParseRenderedCommentBlocksRecounting(html: string) returns (blocks: seq<ParsedBlock>)
    ensures Views(blocks) == ParsedBlocks(html) && fresh(blocks)
  {
    hide Views, Linked, Scan, OpenTag, CloseTag, AutoCloseOptionalElements, NextToken, LineAt, CloseFrom;
    var lowerHtml := LowerAscii(html);
    var cursor, rawTextTag, templateDepth := 0, None, 0;
    var stack: seq<OpenElement> := [];
    blocks := [];
    StartsEmpty();
    ghost var s := START;
    while true
      invariant fresh(blocks) && Represents(blocks, stack, s)
      invariant rawTextTag == s.rawTextTag && templateDepth == s.templateDepth
      invariant cursor <= |html| && Scan(html, cursor, s) == Scan(html, 0, START)
      decreases |html| - cursor
    {
      ScanTurn(html, cursor, s);
      var token := ReadToken(html, lowerHtml, cursor, rawTextTag);
      if token.Stop? { break; }
      if token.Skip? {
        cursor := token.next;
        continue;
      }
      if token.closing {
        var line := LineNumberAt(html, token.end);
        stack, rawTextTag, templateDepth := ReadClosingTag(html, blocks, stack, token, line, rawTextTag, templateDepth, s);
        s := ApplyTag(html, s, token);
      } else {
        var before := LineNumberAt(html, Before(token.start));
        stack := AutoCloseElements(stack, token.name, before, blocks, s);
        AutoCloseKeepsModes(s, token.name, before);
        ghost var auto := AutoCloseOptionalElements(s, token.name, before);
        var line := LineNumberAt(html, token.start);
        blocks, stack, rawTextTag, templateDepth := PushElement(blocks, stack, token, line, rawTextTag, templateDepth, auto);
        s := ApplyTag(html, s, token);
      }
      cursor := token.end + 1;
    }
    var finalLine := LineNumberAt(html, Before(|html|));
    stack := PopFrom(stack, 0, finalLine, blocks, s);
  }

  /** Annotates the opening tags of all blocks, from the last one to the first. */
  method AddRenderedCommentBlockIds(html: string, annotate: Annotator) returns (output: string)
    ensures OpeningsInOrder(html, ParsedBlocks(html), |html|)
    ensures output == Rewrite(html, 0, ParsedBlocks(html), annotate)
  {
    hide Views, ParsedBlocks;
    BlocksOpenInOrder(html);
    var parsed := ParseRenderedCommentBlocks(html);
    output := AnnotateBlocks(html, Views(parsed), annotate);
  }
}
