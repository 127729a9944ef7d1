/** The comment-stripping automaton of crates/orchestrator-core/src/config/loader.rs, before its
    trailing-comma pass. */
module JsoncComments {

  // ---------------------------------------------------------------- the automaton

  /** What follows a line comment whose `//` has been read: the rest from the newline on. */
  function AfterLine(s: string): (r: string)
    ensures |r| <= |s|
  {
    if s == "" || s[0] == '\n' then s else AfterLine(s[1..])
  }

  /** What follows a block comment whose opening has been read: the rest after its first closing,
      or nothing if it is never closed. */
  function AfterBlock(s: string): (r: string)
    ensures |r| <= |s|
  {
    if s == "" then ""
    else if s[0] == '*' && |s| > 1 && s[1] == '/' then s[2..]
    else AfterBlock(s[1..])
  }

  /** What the loop still appends to its result from a given state on. */
  function Strip(s: string, inString: bool, escapeNext: bool): string
    decreases |s|
  {
    if s == "" then ""
    else if escapeNext then [s[0]] + Strip(s[1..], inString, false)
    else if s[0] == '\\' && inString then [s[0]] + Strip(s[1..], inString, true)
    else if s[0] == '"' then [s[0]] + Strip(s[1..], !inString, false)
    else if !inString && s[0] == '/' && |s| > 1 && s[1] == '/' then Strip(AfterLine(s[2..]), inString, false)
    else if !inString && s[0] == '/' && |s| > 1 && s[1] == '*' then Strip(AfterBlock(s[2..]), inString, false)
    else [s[0]] + Strip(s[1..], inString, false)
  }

  method StripComments(content: string) returns (result: string)
    ensures result == Strip(content, false, false)
  {
    result := "";
    var pos, inString, escapeNext := 0, false, false;
    assert content[0..] == content;
    while pos < |content|
      invariant pos <= |content|
      invariant result + Strip(content[pos..], inString, escapeNext) == Strip(content, false, false)
    {
      var kept;
      kept, pos, inString, escapeNext := OneRound(content, pos, inString, escapeNext);
      result := result + kept;
    }
  }

  /** The body of the loop: what it appends, and the state it leaves. */
  method OneRound(content: string, start: nat, wasInString: bool, wasEscaped: bool)
      returns (kept: string, pos: nat, inString: bool, escapeNext: bool)
    requires start < |content|
    ensures start < pos <= |content|
    ensures Strip(content[start..], wasInString, wasEscaped) == kept + Strip(content[pos..], inString, escapeNext)
  {
    var c := content[start];
    kept, pos, inString, escapeNext := [c], start + 1, wasInString, false;
    if wasEscaped {
      // an escaped character changes nothing
    } else if c == '\\' && inString {
      escapeNext := true;
    } else if c == '"' {
      inString := !inString;
    } else if !inString && c == '/' && pos < |content| && (content[pos] == '/' || content[pos] == '*') {
      kept := "";
      if content[pos] == '/' {
        pos := SkipLine(content, pos + 1);
      } else {
        pos := SkipBlock(content, pos + 1);
      }
    }
  }

  method SkipLine(content: string, start: nat) returns (pos: nat)
    requires start <= |content|
    ensures start <= pos <= |content| && content[pos..] == AfterLine(content[start..])
  {
    pos := start;
    while pos < |content| && content[pos] != '\n'
      invariant start <= pos <= |content| && AfterLine(content[pos..]) == AfterLine(content[start..])
    {
      assert content[pos..][1..] == content[pos + 1..];
      pos := pos + 1;
    }
  }

  method SkipBlock(content: string, start: nat) returns (pos: nat)
    requires start <= |content|
    ensures start <= pos <= |content| && content[pos..] == AfterBlock(content[start..])
  {
    pos := start;
    while pos < |content|
      invariant start <= pos <= |content| && AfterBlock(content[pos..]) == AfterBlock(content[start..])
    {
      ghost var rest := content[pos..];
      assert rest[1..] == content[pos + 1..];
      var c := content[pos];
      pos := pos + 1;
      if c == '*' && pos < |content| && content[pos] == '/' {
        assert rest[2..] == content[pos + 1..];
        pos := pos + 1;
        return;
      }
    }
  }

  // ---------------------------------------------------------------- tokens

  /** A character of a string literal, as section 7 of RFC 8259 has it: unescaped, or a reverse
      solidus and the character that it escapes. */
  datatype StringChar = Raw(c: char) | Escaped(c: char)

  /** The pieces of a JSONC text. Only the last piece can be unterminated. */
  datatype Token =
    | Literal(chars: seq<StringChar>)
    | OpenLiteral(chars: seq<StringChar>, dangling: bool) // unterminated, perhaps ending in a lone reverse solidus
    | Plain(c: char)
    | LineComment(text: string)
    | BlockComment(text: string)
    | OpenBlock(text: string)                             // unterminated

  predicate IsComment(t: Token) {
    t.LineComment? || t.BlockComment? || t.OpenBlock?
  }

  function Unit(ch: StringChar): string {
    if ch.Raw? then [ch.c] else ['\\', ch.c]
  }

  function Body(chars: seq<StringChar>): string {
    if chars == [] then "" else Unit(chars[0]) + Body(chars[1..])
  }

  function RenderToken(t: Token): (r: string)
    ensures r != ""
    ensures IsComment(t) ==> r[0] == '/'
  {
    match t
    case Literal(chars) => "\"" + Body(chars) + "\""
    case OpenLiteral(chars, dangling) => "\"" + Body(chars) + (if dangling then "\\" else "")
    case Plain(c) => [c]
    case LineComment(text) => "//" + text
    case BlockComment(text) => "/*" + text + "*/"
    case OpenBlock(text) => "/*" + text
  }

  function Render(ts: seq<Token>): string {
    if ts == [] then "" else RenderToken(ts[0]) + Render(ts[1..])
  }

  predicate NoClosing(text: string) {
    forall i :: 0 <= i < |text| - 1 ==> !(text[i] == '*' && text[i + 1] == '/')
  }

  /** A token whose own text reads back as that token. */
  predicate Proper(t: Token) {
    match t
    case Literal(chars) => forall c :: c in chars && c.Raw? ==> c.c != '"' && c.c != '\\'
    case OpenLiteral(chars, _) => forall c :: c in chars && c.Raw? ==> c.c != '"' && c.c != '\\'
    case Plain(c) => c != '"'
    case LineComment(text) => '\n' !in text
    case BlockComment(text) => NoClosing(text)
    case OpenBlock(text) => NoClosing(text)
  }

  /** The token reads back as itself in front of `next`: a lone slash does not open a comment, a line
      comment ends with its line, and an unterminated token is the last. */
  predicate Fits(t: Token, next: string) {
    match t
    case Plain(c) => c == '/' ==> next == "" || (next[0] != '/' && next[0] != '*')
    case LineComment(_) => next == "" || next[0] == '\n'
    case OpenLiteral(_, _) | OpenBlock(_) => next == ""
    case _ => true
  }

  predicate WellFormed(ts: seq<Token>) {
    ts == [] || (Proper(ts[0]) && Fits(ts[0], Render(ts[1..])) && WellFormed(ts[1..]))
  }

  function WithoutComments(ts: seq<Token>): seq<Token> {
    if ts == [] then []
    else (if IsComment(ts[0]) then [] else [ts[0]]) + WithoutComments(ts[1..])
  }

  // ---------------------------------------------------------------- exactly the comments go

  lemma UnitIsKept(ch: StringChar, next: string)
    requires ch.Raw? ==> ch.c != '"' && ch.c != '\\'
    ensures Strip(Unit(ch) + next, true, false) == Unit(ch) + Strip(next, true, false)
  {
    var s := Unit(ch) + next;
    if ch.Raw? {
      assert s[1..] == next;
    } else {
      assert s[1..] == [ch.c] + next && s[1..][1..] == next;
      assert Strip(s, true, false) == ['\\'] + Strip(s[1..], true, true);
      assert Strip(s[1..], true, true) == [ch.c] + Strip(next, true, false);
    }
  }

  lemma {:induction false} LiteralIsKept(chars: seq<StringChar>, next: string)
    requires forall c :: c in chars && c.Raw? ==> c.c != '"' && c.c != '\\'
    ensures Strip(Body(chars) + next, true, false) == Body(chars) + Strip(next, true, false)
  {
    if chars == [] {
      assert Body(chars) + next == next;
    } else {
      var unit, body := Unit(chars[0]), Body(chars[1..]);
      assert chars[0] in chars;
      LiteralIsKept(chars[1..], next);
      UnitIsKept(chars[0], body + next);
      assert (unit + body) + next == unit + (body + next);
      assert unit + (body + Strip(next, true, false)) == (unit + body) + Strip(next, true, false);
    }
  }

  lemma {:induction false} LineEnds(text: string, next: string)
    requires '\n' !in text && (next == "" || next[0] == '\n')
    ensures AfterLine(text + next) == next
  {
    if text == "" {
      assert text + next == next;
    } else {
      assert (text + next)[1..] == text[1..] + next;
      LineEnds(text[1..], next);
    }
  }

  lemma {:induction false} BlockEnds(text: string, next: string)
    requires NoClosing(text)
    ensures AfterBlock(text + "*/" + next) == next
    ensures AfterBlock(text) == ""
  {
    if text == "" {
      assert text + "*/" + next == ['*'] + (['/'] + next);
    } else {
      assert (text + "*/" + next)[1..] == text[1..] + "*/" + next;
      BlockEnds(text[1..], next);
    }
  }

  lemma QuoteTurns(next: string, inString: bool)
    ensures Strip("\"" + next, inString, false) == "\"" + Strip(next, !inString, false)
  {
    assert ("\"" + next)[1..] == next;
  }

  lemma ClosedLiteralIsKept(chars: seq<StringChar>, next: string)
    requires Proper(Literal(chars))
    ensures Strip("\"" + Body(chars) + "\"" + next, false, false) == "\"" + Body(chars) + "\"" + Strip(next, false, false)
  {
    var tail := "\"" + next;
    QuoteTurns(Body(chars) + tail, false);
    LiteralIsKept(chars, tail);
    QuoteTurns(next, true);
    assert "\"" + Body(chars) + "\"" + next == "\"" + (Body(chars) + tail);
  }

  lemma OpenLiteralIsKept(chars: seq<StringChar>, dangling: bool)
    requires Proper(OpenLiteral(chars, dangling))
    ensures var s := "\"" + Body(chars) + (if dangling then "\\" else "");
            Strip(s, false, false) == s
  {
    var tail := if dangling then "\\" else "";
    QuoteTurns(Body(chars) + tail, false);
    LiteralIsKept(chars, tail);
    assert dangling ==> tail[1..] == "";
    assert "\"" + Body(chars) + tail == "\"" + (Body(chars) + tail);
  }

  lemma PlainIsKept(c: char, next: string)
    requires Proper(Plain(c)) && Fits(Plain(c), next)
    ensures Strip([c] + next, false, false) == [c] + Strip(next, false, false)
  {
    var s := [c] + next;
    assert s[1..] == next;
    assert next != "" ==> s[1] == next[0];
  }

  lemma OpenersSkip(inner: string)
    ensures Strip("//" + inner, false, false) == Strip(AfterLine(inner), false, false)
    ensures Strip("/*" + inner, false, false) == Strip(AfterBlock(inner), false, false)
  {
    assert ("//" + inner)[2..] == inner && ("/*" + inner)[2..] == inner;
  }

  lemma LineCommentIsDropped(text: string, next: string)
    requires Proper(LineComment(text)) && Fits(LineComment(text), next)
    ensures Strip("//" + (text + next), false, false) == Strip(next, false, false)
  {
    OpenersSkip(text + next);
    LineEnds(text, next);
  }

  lemma BlockCommentIsDropped(text: string, next: string)
    requires Proper(BlockComment(text)) && Fits(BlockComment(text), next)
    ensures Strip("/*" + (text + "*/" + next), false, false) == Strip(next, false, false)
  {
    OpenersSkip(text + "*/" + next);
    BlockEnds(text, next);
  }

  lemma OpenBlockIsDropped(text: string, next: string)
    requires Proper(OpenBlock(text)) && Fits(OpenBlock(text), next)
    ensures Strip("/*" + text, false, false) == Strip(next, false, false)
  {
    OpenersSkip(text);
    BlockEnds(text, next);
  }

  lemma CommentIsDropped(t: Token, next: string)
    requires IsComment(t) && Proper(t) && Fits(t, next)
    ensures Strip(RenderToken(t) + next, false, false) == Strip(next, false, false)
  {
    match t
    case LineComment(text) =>
      LineCommentIsDropped(text, next);
      assert RenderToken(t) + next == "//" + (text + next);
    case BlockComment(text) =>
      BlockCommentIsDropped(text, next);
      assert RenderToken(t) + next == "/*" + (text + "*/" + next);
    case OpenBlock(text) =>
      OpenBlockIsDropped(text, next);
      assert RenderToken(t) + next == "/*" + text;
  }

  /** One token in front of `next` is kept verbatim, or dropped if it is a comment. */
  lemma TokenIsKeptOrDropped(t: Token, next: string)
    requires Proper(t) && Fits(t, next)
    ensures Strip(RenderToken(t) + next, false, false)
         == (if IsComment(t) then "" else RenderToken(t)) + Strip(next, false, false)
  {
    match t
    case Literal(chars) => ClosedLiteralIsKept(chars, next);
    case OpenLiteral(chars, dangling) =>
      OpenLiteralIsKept(chars, dangling);
      assert RenderToken(t) + next == RenderToken(t);
    case Plain(c) => PlainIsKept(c, next);
    case LineComment(_) => CommentIsDropped(t, next);
    case BlockComment(_) => CommentIsDropped(t, next);
    case OpenBlock(_) => CommentIsDropped(t, next);
  }

  /** On any rendering of literals, plain characters and comments, the automaton returns the
      rendering with exactly the comments removed. */
  lemma {:induction false} StripsExactlyComments(ts: seq<Token>)
    requires WellFormed(ts)
    ensures Strip(Render(ts), false, false) == Render(WithoutComments(ts))
  {
    if ts != [] {
      TokenIsKeptOrDropped(ts[0], Render(ts[1..]));
      StripsExactlyComments(ts[1..]);
      assert WithoutComments(ts)[if IsComment(ts[0]) then 0 else 1..] == WithoutComments(ts[1..]);
    }
  }

  // ---------------------------------------------------------------- every text is such a rendering

  lemma {:induction false} SplitLiteral(s: string) returns (chars: seq<StringChar>, closed: bool, dangling: bool, rest: string)
    ensures forall c :: c in chars && c.Raw? ==> c.c != '"' && c.c != '\\'
    ensures if closed then s == Body(chars) + "\"" + rest
            else s == Body(chars) + (if dangling then "\\" else "") && rest == ""
    ensures |rest| <= |s|
    decreases |s|
  {
    if s == "" {
      chars, closed, dangling, rest := [], false, false, "";
    } else if s[0] == '"' {
      chars, closed, dangling, rest := [], true, false, s[1..];
      assert s == [s[0]] + s[1..];
    } else if s == "\\" {
      chars, closed, dangling, rest := [], false, true, "";
    } else {
      var first := if s[0] == '\\' then Escaped(s[1]) else Raw(s[0]);
      var used := if s[0] == '\\' then 2 else 1;
      var more;
      more, closed, dangling, rest := SplitLiteral(s[used..]);
      chars := [first] + more;
      assert chars[1..] == more;
      assert s == s[..used] + s[used..];
      assert Body(chars) == s[..used] + Body(more);
      assert Unit(first) == s[..used];
    }
  }

  lemma {:induction false} SplitLine(s: string) returns (text: string, rest: string)
    ensures s == text + rest && '\n' !in text && (rest == "" || rest[0] == '\n')
  {
    if s == "" || s[0] == '\n' {
      text, rest := "", s;
    } else {
      text, rest := SplitLine(s[1..]);
      text := [s[0]] + text;
      assert s == [s[0]] + s[1..];
    }
  }

  lemma {:induction false} SplitBlock(s: string) returns (text: string, closed: bool, rest: string)
    ensures NoClosing(text)
    ensures if closed then s == text + "*/" + rest else s == text && rest == ""
    ensures s != "" && text != "" ==> text[0] == s[0]
    ensures text == "" && s != "" ==> closed
  {
    if s == "" {
      text, closed, rest := "", false, "";
    } else if s[0] == '*' && |s| > 1 && s[1] == '/' {
      text, closed, rest := "", true, s[2..];
    } else {
      var more;
      more, closed, rest := SplitBlock(s[1..]);
      text := [s[0]] + more;
      assert s == [s[0]] + s[1..];
      forall i | 0 <= i < |text| - 1 ensures !(text[i] == '*' && text[i + 1] == '/') {
        if i > 0 {
          assert text[i] == more[i - 1] && text[i + 1] == more[i];
        }
      }
    }
  }

  lemma FirstLiteral(s: string) returns (t: Token, rest: string)
    requires s != "" && s[0] == '"'
    ensures RenderToken(t) + rest == s && Proper(t) && Fits(t, rest) && |rest| < |s|
  {
    var chars, closed, dangling, r := SplitLiteral(s[1..]);
    rest := r;
    t := if closed then Literal(chars) else OpenLiteral(chars, dangling);
    assert s == "\"" + s[1..];
    if closed {
      assert RenderToken(t) + rest == "\"" + (Body(chars) + "\"" + rest);
    } else {
      assert RenderToken(t) + rest == "\"" + (Body(chars) + if dangling then "\\" else "");
    }
  }

  lemma FirstComment(s: string) returns (t: Token, rest: string)
    requires |s| > 1 && s[0] == '/' && (s[1] == '/' || s[1] == '*')
    ensures RenderToken(t) + rest == s && Proper(t) && Fits(t, rest) && |rest| < |s|
  {
    assert s == s[..2] + s[2..];
    if s[1] == '/' {
      var text, r := SplitLine(s[2..]);
      t, rest := LineComment(text), r;
    } else {
      var text, closed, r := SplitBlock(s[2..]);
      t, rest := if closed then BlockComment(text) else OpenBlock(text), r;
    }
  }

  lemma FirstToken(s: string) returns (t: Token, rest: string)
    requires s != ""
    ensures RenderToken(t) + rest == s && Proper(t) && Fits(t, rest) && |rest| < |s|
  {
    if s[0] == '"' {
      t, rest := FirstLiteral(s);
    } else if s[0] == '/' && |s| > 1 && (s[1] == '/' || s[1] == '*') {
      t, rest := FirstComment(s);
    } else {
      t, rest := Plain(s[0]), s[1..];
      assert s == [s[0]] + s[1..];
    }
  }

  /** Every text whatsoever is a rendering, so the law above covers all inputs. */
  lemma {:induction false} EveryTextIsARendering(s: string) returns (ts: seq<Token>)
    ensures WellFormed(ts) && Render(ts) == s
    decreases |s|
  {
    ts := [];
    if s != "" {
      var t, rest := FirstToken(s);
      var more := EveryTextIsARendering(rest);
      ts := [t] + more;
      assert ts[1..] == more;
    }
  }

  // ---------------------------------------------------------------- idempotence

  /** Removing the comments leaves a well-formed sequence: no slash gets a new neighbour. */
  lemma {:induction false} WithoutCommentsIsWellFormed(ts: seq<Token>)
    requires WellFormed(ts)
    ensures WellFormed(WithoutComments(ts))
    ensures WithoutComments(WithoutComments(ts)) == WithoutComments(ts)
  {
    if ts != [] {
      var rest := ts[1..];
      var kept := WithoutComments(rest);
      WithoutCommentsIsWellFormed(rest);
      if IsComment(ts[0]) {
        assert WithoutComments(ts) == kept;
      } else {
        assert WithoutComments(ts)[1..] == kept;
        if rest != [] && !IsComment(rest[0]) {
          assert Render(kept)[0] == RenderToken(rest[0])[0] == Render(rest)[0];
        }
        assert Fits(ts[0], Render(kept));
      }
    }
  }

  /** Stripping twice is stripping once. */
  lemma StripIsIdempotent(s: string)
    ensures Strip(Strip(s, false, false), false, false) == Strip(s, false, false)
  {
    var ts := EveryTextIsARendering(s);
    StripsExactlyComments(ts);
    WithoutCommentsIsWellFormed(ts);
    StripsExactlyComments(WithoutComments(ts));
  }
}
