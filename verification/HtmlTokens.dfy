/** What the comment-block scanner reads next: the tags of an HTML text, comments and raw text skipped. */
module HtmlTokens {
  import opened Sequences

  datatype Token =
    | Stop
    | Skip(next: nat)
    | Tag(start: nat, end: nat, closing: bool, name: string, selfClosing: bool)

  predicate IsHtmlSpace(c: char) {
    c in " \t\n\r" || c as int == 11 || c as int == 12
  }

  const HTML_SPACES := " \t\n\r\U{000B}\U{000C}"

  predicate IsLetter(c: char) {
    'a' <= c <= 'z' || 'A' <= c <= 'Z'
  }

  predicate IsNameChar(c: char) {
    IsLetter(c) || '0' <= c <= '9' || c in "_:-"
  }

  function SkipSpace(s: string): (r: string)
    ensures |r| <= |s|
  {
    if s != "" && IsHtmlSpace(s[0]) then SkipSpace(s[1..]) else s
  }

  function TrimSpaceAtEnd(s: string): (r: string)
    ensures |r| <= |s|
  {
    if s != "" && IsHtmlSpace(s[|s| - 1]) then TrimSpaceAtEnd(s[..|s| - 1]) else s
  }

  function NameAt(s: string): string {
    if s != "" && IsNameChar(s[0]) then [s[0]] + NameAt(s[1..]) else ""
  }

  /** Reads `<`, an optional slash and a name, with white space in between; `tag` starts with `<`. */
  function ParseTag(tag: string): Option<(bool, string)> {
    if tag == "" then None
    else
      var inner := SkipSpace(tag[1..]);
      var closing := inner != "" && inner[0] == '/';
      var name := if closing then SkipSpace(inner[1..]) else inner;
      if name != "" && IsLetter(name[0]) then Some((closing, LowerAscii(NameAt(name)))) else None
  }

  predicate IsSelfClosing(tag: string) {
    tag != "" && tag[|tag| - 1] == '>' &&
    var body := TrimSpaceAtEnd(tag[..|tag| - 1]);
    body != "" && body[|body| - 1] == '/'
  }

  /** The first `>` from `start` on that is outside quotes. */
  function FindHtmlTagEnd(html: string, start: nat, quote: Option<char>): (r: Option<nat>)
    requires start <= |html|
    ensures r.Some? ==> start <= r.value < |html| && html[r.value] == '>'
    decreases |html| - start
  {
    if start == |html| then None
    else
      var c := html[start];
      if quote.Some? then FindHtmlTagEnd(html, start + 1, if Some(c) == quote then None else quote)
      else if c == '"' || c == '\'' then FindHtmlTagEnd(html, start + 1, Some(c))
      else if c == '>' then Some(start)
      else FindHtmlTagEnd(html, start + 1, None)
  }

  function CommentEnd(html: string, start: nat): (r: nat)
    requires start + 4 <= |html|
    ensures start + 4 <= r <= |html|
  {
    match FindFrom(html, "-->", start + 4)
    case None => |html|
    case Some(i) => i + 3
  }

  /** The token at the first `<` from `start` on. */
  function TokenFrom(html: string, start: nat): (t: Token)
    requires start <= |html|
    ensures t.Skip? ==> start < t.next <= |html|
    ensures t.Tag? ==> start <= t.start < t.end < |html| && html[t.start] == '<' && html[t.end] == '>'
  {
    match FindFrom(html, "<", start)
    case None => Stop
    case Some(tagStart) =>
      assert html[tagStart..][..1] == "<";
      if StartsWith(html[tagStart..], "<!--") then Skip(CommentEnd(html, tagStart))
      else
        match FindHtmlTagEnd(html, tagStart + 1, None)
        case None => Stop
        case Some(tagEnd) =>
          var tag := html[tagStart..tagEnd + 1];
          match ParseTag(tag)
          case None => Skip(tagEnd + 1)
          case Some((closing, name)) => Tag(tagStart, tagEnd, closing, name, IsSelfClosing(tag))
  }

  /** The token after `cursor`; raw text runs up to its closing tag. */
  function NextToken(html: string, cursor: nat, rawTextTag: Option<string>): (t: Token)
    ensures t.Skip? ==> cursor < t.next <= |html|
    ensures t.Tag? ==> cursor <= t.start < t.end < |html| && html[t.start] == '<' && html[t.end] == '>'
  {
    if cursor >= |html| then Stop
    else if rawTextTag.None? then TokenFrom(html, cursor)
    else
      match FindFrom(LowerAscii(html), "</" + rawTextTag.value, cursor)
      case None => Stop
      case Some(closingIndex) => TokenFrom(html, closingIndex)
  }

  // ---------------------------------------------------------------- the loops

  method FindTagEnd(html: string, start: nat) returns (r: Option<nat>)
    requires start <= |html|
    ensures r == FindHtmlTagEnd(html, start, None)
  {
    var quote: Option<char> := None;
    var index := start;
    while index < |html|
      invariant start <= index <= |html|
      invariant FindHtmlTagEnd(html, index, quote) == FindHtmlTagEnd(html, start, None)
    {
      var c := html[index];
      if quote.Some? {
        if Some(c) == quote { quote := None; }
      } else if c == '"' || c == '\'' {
        quote := Some(c);
      } else if c == '>' {
        return Some(index);
      }
      index := index + 1;
    }
    return None;
  }

  /** What a text is read as between quotes: the quote that is open behind the first `n` characters. */
  function QuoteAt(html: string, start: nat, n: nat): Option<char>
    requires start <= n <= |html|
    decreases n
  {
    if n == start then None
    else
      var quote, c := QuoteAt(html, start, n - 1), html[n - 1];
      if quote.Some? then (if Some(c) == quote then None else quote)
      else if c == '"' || c == '\'' then Some(c)
      else None
  }

  /** The end of a tag is its first `>` at which no quote is open. */
  lemma {:induction false} TagEndMeans(html: string, start: nat, n: nat)
    requires start <= n <= |html|
    requires forall i | start <= i < n :: html[i] == '>' ==> QuoteAt(html, start, i).Some?
    ensures var r := FindHtmlTagEnd(html, n, QuoteAt(html, start, n));
      && (r.Some? ==> n <= r.value < |html| && html[r.value] == '>' && QuoteAt(html, start, r.value).None?)
      && (forall i | n <= i < (if r.Some? then r.value else |html|) :: html[i] == '>' ==> QuoteAt(html, start, i).Some?)
    decreases |html| - n
  {
    if n < |html| && !(html[n] == '>' && QuoteAt(html, start, n).None?) {
      TagEndMeans(html, start, n + 1);
    }
  }

  // ---------------------------------------------------------------- what is read as a tag

  lemma {:induction false} SkipSpaceOf(space: string, rest: string)
    requires (forall c | c in space :: IsHtmlSpace(c)) && (rest != "" ==> !IsHtmlSpace(rest[0]))
    ensures SkipSpace(space + rest) == rest
  {
    if space == "" {
      assert space + rest == rest;
    } else {
      assert (space + rest)[1..] == space[1..] + rest;
      SkipSpaceOf(space[1..], rest);
    }
  }

  lemma {:induction false} NameOf(name: string, rest: string)
    requires (forall c | c in name :: IsNameChar(c)) && (rest != "" ==> !IsNameChar(rest[0]))
    ensures NameAt(name + rest) == name
  {
    if name == "" {
      assert name + rest == rest;
    } else {
      assert (name + rest)[1..] == name[1..] + rest;
      NameOf(name[1..], rest);
      assert name == [name[0]] + name[1..];
    }
  }

  /** The longest name that is written behind `<`, with a slash for a closing tag and white space between, is the name of the tag. */
  lemma WrittenTagIsRead(space: string, closing: bool, space': string, name: string, rest: string)
    requires (forall c | c in space :: c in HTML_SPACES) && (forall c | c in space' :: c in HTML_SPACES)
    requires name != "" && ('a' <= name[0] <= 'z' || 'A' <= name[0] <= 'Z')
    requires forall c | c in name :: 'a' <= c <= 'z' || 'A' <= c <= 'Z' || '0' <= c <= '9' || c in "_:-"
    requires rest != "" ==> var c := rest[0]; !('a' <= c <= 'z' || 'A' <= c <= 'Z' || '0' <= c <= '9' || c in "_:-")
    ensures ParseTag("<" + (space + ((if closing then "/" + space' else "") + (name + rest)))) == Some((closing, LowerAscii(name)))
  {
    var text := name + rest;
    var inner := (if closing then "/" + space' else "") + text;
    assert text[0] == name[0] && !IsHtmlSpace(text[0]);
    SkipSpaceOf(space, inner);
    SkipSpaceOf(space', text);
    NameOf(name, rest);
    assert ("<" + (space + inner))[1..] == space + inner;
    if closing {
      assert inner == "/" + (space' + text) && inner[1..] == space' + text;
    } else {
      assert inner == text;
    }
  }

  lemma {:induction false} TrimEndMeans(s: string)
    ensures var t := TrimSpaceAtEnd(s);
      && t == s[..|t|] && (t != "" ==> !IsHtmlSpace(t[|t| - 1])) && forall j | |t| <= j < |s| :: IsHtmlSpace(s[j])
  {
    if s != "" && IsHtmlSpace(s[|s| - 1]) {
      TrimEndMeans(s[..|s| - 1]);
    }
  }

  /** Between `start` and `end` the last character that is no white space is a slash. */
  predicate EndsInSlash(html: string, start: nat, end: nat) {
    exists i | start <= i < end && i < |html| :: html[i] == '/' && forall j | i < j < end && j < |html| :: IsHtmlSpace(html[j])
  }

  lemma TrimmedEndsInSlash(body: string)
    ensures var t := TrimSpaceAtEnd(body); (t != "" && t[|t| - 1] == '/') <==> EndsInSlash(body, 0, |body|)
  {
    TrimEndMeans(body);
    hide TrimSpaceAtEnd;
    var n := |TrimSpaceAtEnd(body)|;
    assert forall i | 0 <= i < n :: TrimSpaceAtEnd(body)[i] == body[i];
    assert EndsInSlash(body, 0, |body|) <==> n > 0 && body[n - 1] == '/' by {
      if EndsInSlash(body, 0, |body|) {
        var i :| 0 <= i < |body| && body[i] == '/' && forall j | i < j < |body| :: IsHtmlSpace(body[j]);
        assert i == n - 1;
      }
    }
  }

  lemma EndsInSlashOfPart(html: string, start: nat, end: nat)
    requires start < end <= |html|
    ensures EndsInSlash(html[start..end], 0, end - start) <==> EndsInSlash(html, start, end)
  {
    var body := html[start..end];
    hide IsHtmlSpace;
    if EndsInSlash(body, 0, |body|) {
      var i :| 0 <= i < |body| && body[i] == '/' && forall j | i < j < |body| :: IsHtmlSpace(body[j]);
      assert html[start + i] == '/' && forall j | start + i < j < end :: html[j] == body[j - start];
    }
    if EndsInSlash(html, start, end) {
      var i :| start <= i < end && html[i] == '/' && forall j | i < j < end :: IsHtmlSpace(html[j]);
      assert body[i - start] == '/' && forall j | i - start < j < |body| :: body[j] == html[start + j];
    }
  }

  lemma SelfClosingMeans(html: string, start: nat, end: nat)
    requires start < end < |html| && html[end] == '>'
    ensures IsSelfClosing(html[start..end + 1]) <==> EndsInSlash(html, start, end)
  {
    var tag, body := html[start..end + 1], html[start..end];
    hide EndsInSlash, TrimSpaceAtEnd, IsSelfClosing;
    AllButLast(html, start, end);
    TrimmedEndsInSlash(body);
    EndsInSlashOfPart(html, start, end);
    IsSelfClosingIs(tag);
  }

  lemma AllButLast<T>(s: seq<T>, start: nat, end: nat)
    requires start <= end < |s|
    ensures var part := s[start..end + 1]; part[..|part| - 1] == s[start..end] && part[|part| - 1] == s[end]
  {}

  lemma IsSelfClosingIs(tag: string)
    requires tag != "" && tag[|tag| - 1] == '>'
    ensures var t := TrimSpaceAtEnd(tag[..|tag| - 1]); IsSelfClosing(tag) <==> t != "" && t[|t| - 1] == '/'
  {}

  /** The first `<` starts a tag, which goes on to the first `>` that is not quoted; what is there gives the token. */
  lemma TagIsFound(html: string, cursor: nat, start: nat, end: nat)
    requires cursor <= start < end < |html| && (forall i | cursor <= i < start :: html[i] != '<')
    requires html[start] == '<' && !StartsWith(html[start..], "<!--")
    requires html[end] == '>' && QuoteAt(html, start + 1, end).None?
    requires forall i | start < i < end :: html[i] == '>' ==> QuoteAt(html, start + 1, i).Some?
    ensures var token, read := NextToken(html, cursor, None), ParseTag(html[start..end + 1]);
      && (read.None? ==> token == Skip(end + 1))
      && (read.Some? ==> token == Tag(start, end, read.value.0, read.value.1, EndsInSlash(html, start, end)))
  {
    FirstOpening(html, cursor, start);
    TagEndIs(html, start + 1, end);
    SelfClosingMeans(html, start, end);
    TokenIs(html, cursor, start, end);
    hide TokenFrom, FindHtmlTagEnd, IsSelfClosing, EndsInSlash, ParseTag, FindFrom, QuoteAt, StartsWith;
  }

  lemma TokenIs(html: string, cursor: nat, start: nat, end: nat)
    requires cursor <= start < end < |html| && FindFrom(html, "<", cursor) == Some(start)
    requires !StartsWith(html[start..], "<!--") && FindHtmlTagEnd(html, start + 1, None) == Some(end)
    ensures TokenFrom(html, cursor) ==
      match ParseTag(html[start..end + 1])
      case None => Skip(end + 1)
      case Some((closing, name)) => Tag(start, end, closing, name, IsSelfClosing(html[start..end + 1]))
  {
    hide FindFrom, StartsWith, FindHtmlTagEnd, ParseTag, IsSelfClosing;
  }

  lemma TagEndIs(html: string, start: nat, end: nat)
    requires start <= end < |html| && html[end] == '>' && QuoteAt(html, start, end).None?
    requires forall i | start <= i < end :: html[i] == '>' ==> QuoteAt(html, start, i).Some?
    ensures FindHtmlTagEnd(html, start, None) == Some(end)
  {
    assert QuoteAt(html, start, start) == None;
    hide FindHtmlTagEnd, QuoteAt;
    TagEndMeans(html, start, start);
  }

  /** A comment is skipped up to its end mark, or to the end of the text. */
  lemma CommentIsSkipped(html: string, cursor: nat, start: nat)
    requires cursor <= start && StartsWithAt(html, "<!--", start) && forall i | cursor <= i < start :: html[i] != '<'
    ensures var t := NextToken(html, cursor, None);
      && t.Skip?
      && if forall i | start + 4 <= i <= |html| :: !StartsWith(html[i..], "-->") then t.next == |html|
         else start + 7 <= t.next <= |html| && StartsWith(html[t.next - 3..], "-->")
              && forall i | start + 4 <= i < t.next - 3 :: !StartsWith(html[i..], "-->")
  {
    FirstOpening(html, cursor, start);
  }

  predicate StartsWithAt(html: string, prefix: string, start: nat) {
    start <= |html| && StartsWith(html[start..], prefix)
  }

  lemma FirstOpening(html: string, cursor: nat, start: nat)
    requires cursor <= start < |html| && html[start] == '<' && forall i | cursor <= i < start :: html[i] != '<'
    ensures FindFrom(html, "<", cursor) == Some(start)
  {
    assert html[start..][..1] == "<";
    forall i | cursor <= i < start
      ensures !StartsWith(html[i..], "<")
    {
      assert html[i..][0] == html[i];
    }
  }

  /** In raw text no tag is read before the first closing mark with the name of the raw element, in any case. */
  lemma RawTextHasNoTags(html: string, cursor: nat, name: string)
    requires NextToken(html, cursor, Some(name)).Tag?
    ensures var start := NextToken(html, cursor, Some(name)).start;
      && cursor <= start <= |html| && StartsWith(LowerAscii(html)[start..], "</" + name)
      && forall i | cursor <= i < start :: !StartsWith(LowerAscii(html)[i..], "</" + name)
  {
    var lower, mark := LowerAscii(html), "</" + name;
    var at := FindFrom(lower, mark, cursor).value;
    assert lower[at..][..|mark|][0] == '<' && lower[at] == LowerAsciiChar(html[at]);
    FirstOpening(html, at, at);
  }
}
