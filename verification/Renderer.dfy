// The line renderer and the reusable line processor.
module Renderer {
  import opened Bytes
  import opened SeverityModel
  import opened Parser
  import opened Terminal

  function Ansi(kind: TokenKind): seq<Byte> {
    match kind
    case Timestamp => "\U{1B}[33m"
    case Host => "\U{1B}[36m"
    case Process => "\U{1B}[35m"
    case Key => "\U{1B}[34m"
    case Value => "\U{1B}[32m"
    case WarningText => "\U{1B}[1;33m"
    case ErrorText => "\U{1B}[1;31m"
    case FatalText => "\U{1B}[1;37;41m"
  }

  const RESET: seq<Byte> := "\U{1B}[0m"

  /** SGR parameters of each kind. */
  function Colour(kind: TokenKind): (r: seq<Byte>)
    ensures r != "" && r != "0" && forall i | 0 <= i < |r| :: !IsFinal(r[i])
  {
    match kind
    case Timestamp => "33"
    case Host => "36"
    case Process => "35"
    case Key => "34"
    case Value => "32"
    case WarningText => "1;33"
    case ErrorText => "1;31"
    case FatalText => "1;37;41"
  }

  lemma AnsiIsSgr(kind: TokenKind)
    ensures Ansi(kind) == Sgr(Colour(kind))
  {
  }

  ghost predicate Forward(tokens: seq<Token>) {
    forall k | 0 <= k < |tokens| :: tokens[k].start <= tokens[k].end
  }

  predicate Skips(line: seq<Byte>, t: Token, cursor: nat) {
    t.start < cursor || t.end > |line| || t.start == t.end
  }

  /** Coloured text of `line` from `cursor` on. */
  function Highlight(line: seq<Byte>, tokens: seq<Token>, cursor: nat): seq<Byte>
    requires cursor <= |line| && Forward(tokens)
  {
    if tokens == [] then line[cursor..]
    else
      var t := tokens[0];
      if Skips(line, t, cursor) then Highlight(line, tokens[1..], cursor)
      else
        line[cursor..t.start] + Ansi(t.kind) + line[t.start..t.end] + RESET + Highlight(line, tokens[1..], t.end)
  }

  method Render(input: seq<Byte>, tokens: seq<Token>, color: bool) returns (output: seq<Byte>)
    requires Forward(tokens)
    ensures output == if color then Highlight(input, tokens, 0) else input
  {
    output := [];
    if !color {
      return input;
    }
    hide Ansi, Highlight;
    var cursor: nat := 0;
    for k := 0 to |tokens|
      invariant cursor <= |input|
      invariant output + Highlight(input, tokens[k..], cursor) == Highlight(input, tokens, 0)
    {
      var token := tokens[k];
      HighlightStep(input, tokens, k, cursor);
      if token.start < cursor || token.end > |input| || token.start == token.end {
        continue;
      }
      ghost var rest := Highlight(input, tokens[k + 1..], token.end);
      ghost var before := output;
      output := output + input[cursor..token.start];
      output := output + Ansi(token.kind);
      output := output + input[token.start..token.end];
      output := output + RESET;
      assert output + rest
          == before + (input[cursor..token.start] + Ansi(token.kind) + input[token.start..token.end] + RESET + rest);
      cursor := token.end;
    }
    HighlightEnd(input, tokens[|tokens|..], cursor);
    output := output + input[cursor..];
  }

  lemma HighlightEnd(line: seq<Byte>, tokens: seq<Token>, cursor: nat)
    requires tokens == [] && cursor <= |line|
    ensures Highlight(line, tokens, cursor) == line[cursor..]
  {
  }

  lemma HighlightStep(line: seq<Byte>, tokens: seq<Token>, k: nat, cursor: nat)
    requires k < |tokens| && cursor <= |line| && Forward(tokens)
    ensures var t := tokens[k];
      Highlight(line, tokens[k..], cursor) ==
        if Skips(line, t, cursor) then Highlight(line, tokens[k + 1..], cursor)
        else
          line[cursor..t.start] + Ansi(t.kind) + line[t.start..t.end] + RESET
          + Highlight(line, tokens[k + 1..], t.end)
  {
    assert tokens[k..][0] == tokens[k] && tokens[k..][1..] == tokens[k + 1..];
  }

  // ----- What is painted -----

  /** The tokens that receive a colour: those starting at or after the end of the previous painted one. */
  ghost function Painted(line: seq<Byte>, tokens: seq<Token>, cursor: nat): seq<Token>
    requires cursor <= |line| && Forward(tokens)
  {
    if tokens == [] then []
    else if Skips(line, tokens[0], cursor) then Painted(line, tokens[1..], cursor)
    else [tokens[0]] + Painted(line, tokens[1..], tokens[0].end)
  }

  ghost predicate Separate(line: seq<Byte>, p: seq<Token>, cursor: nat) {
    && (forall k | 0 <= k < |p| :: cursor <= p[k].start < p[k].end <= |line|)
    && (forall j, k | 0 <= j < k < |p| :: p[j].end <= p[k].start)
  }

  /** Painted tokens lie in the line, do not overlap and advance. */
  lemma {:induction false} PaintedIsSeparate(line: seq<Byte>, tokens: seq<Token>, cursor: nat)
    requires cursor <= |line| && Forward(tokens)
    ensures Separate(line, Painted(line, tokens, cursor), cursor)
  {
    if tokens != [] {
      if Skips(line, tokens[0], cursor) {
        PaintedIsSeparate(line, tokens[1..], cursor);
      } else {
        PaintedIsSeparate(line, tokens[1..], tokens[0].end);
      }
    }
  }

  /** Nothing is painted but tokens, each once and in their order. */
  lemma {:induction false} PaintedAreTokens(line: seq<Byte>, tokens: seq<Token>, cursor: nat)
    requires cursor <= |line| && Forward(tokens)
    ensures multiset(Painted(line, tokens, cursor)) <= multiset(tokens)
  {
    if tokens != [] {
      assert tokens == [tokens[0]] + tokens[1..];
      if Skips(line, tokens[0], cursor) {
        PaintedAreTokens(line, tokens[1..], cursor);
      } else {
        PaintedAreTokens(line, tokens[1..], tokens[0].end);
        var later := Painted(line, tokens[1..], tokens[0].end);
        assert Painted(line, tokens, cursor) == [tokens[0]] + later;
        assert multiset([tokens[0]] + later) == multiset{tokens[0]} + multiset(later);
      }
    }
  }

  lemma FirstToken(line: seq<Byte>, tokens: seq<Token>)
    requires tokens != [] && Forward(tokens) && !Skips(line, tokens[0], 0)
    ensures var t := tokens[0];
      Highlight(line, tokens, 0)
        == line[0..t.start] + Ansi(t.kind) + line[t.start..t.end] + RESET + Highlight(line, tokens[1..], t.end)
  {
    hide Ansi;
  }

  lemma SoleToken(text: seq<Byte>, kind: TokenKind, tokens: seq<Token>)
    requires text != [] && tokens == [Token(0, |text|, kind)]
    ensures Highlight(text, tokens, 0) == Ansi(kind) + text + RESET
  {
    hide Ansi, Highlight;
    FirstToken(text, tokens);
    HighlightEnd(text, tokens[1..], |text|);
    Enclosed(text[0..0], Ansi(kind), text[0..|text|], RESET, text[|text|..], text);
  }

  lemma Enclosed(a: seq<Byte>, b: seq<Byte>, c: seq<Byte>, d: seq<Byte>, e: seq<Byte>, text: seq<Byte>)
    requires a == [] && c == text && e == []
    ensures a + b + c + d + e == b + text + d
  {
    assert a + b == b;
    assert b + text + d + [] == b + text + d;
  }

  lemma AnsiIsNumbered(kind: TokenKind, code: seq<Byte>)
    requires (kind, code) in {
      (Timestamp, "33"), (Host, "36"), (Process, "35"), (Key, "34"), (Value, "32"), (WarningText, "1;33"),
      (ErrorText, "1;31"), (FatalText, "1;37;41")}
    ensures Ansi(kind) == [27 as char, '['] + code + ['m'] && Colour(kind) == code
  {
  }

  /** The colours by number: a token alone on a line becomes its text between its colour and a reset. */
  lemma ColourOfKind(text: seq<Byte>, kind: TokenKind, code: seq<Byte>)
    requires text != []
    requires (kind, code) in {
      (Timestamp, "33"), (Host, "36"), (Process, "35"), (Key, "34"), (Value, "32"), (WarningText, "1;33"),
      (ErrorText, "1;31"), (FatalText, "1;37;41")}
    ensures Highlight(text, [Token(0, |text|, kind)], 0)
      == [27 as char, '['] + code + ['m'] + text + [27 as char, '[', '0', 'm']
  {
    hide Highlight, Ansi, Colour;
    SoleToken(text, kind, [Token(0, |text|, kind)]);
    AnsiIsNumbered(kind, code);
    assert RESET == [27 as char, '[', '0', 'm'];
  }

  ghost predicate SortedByStart(tokens: seq<Token>) {
    forall j, k | 0 <= j < k < |tokens| :: tokens[j].start <= tokens[k].start
  }

  ghost predicate Overlaps(u: Token, t: Token) { u.start <= t.start < u.end }

  /** A nonempty token in the line is left out only because a painted token already covers its start. */
  lemma {:induction false} SkippedIsCovered(line: seq<Byte>, tokens: seq<Token>, cursor: nat, t: Token)
    requires cursor <= |line| && Forward(tokens) && SortedByStart(tokens)
    requires t in tokens && t.start < t.end <= |line| && cursor <= t.start
    ensures exists u :: u in Painted(line, tokens, cursor) && Overlaps(u, t)
  {
    var first := tokens[0];
    if Skips(line, first, cursor) {
      SkippedIsCovered(line, tokens[1..], cursor, t);
    } else {
      var rest := Painted(line, tokens[1..], first.end);
      assert Painted(line, tokens, cursor) == [first] + rest;
      if t.start < first.end {
        assert Overlaps(first, t);
      } else {
        SkippedIsCovered(line, tokens[1..], first.end, t);
        var u :| u in rest && Overlaps(u, t);
        assert u in [first] + rest;
      }
    }
  }

  // ----- What the terminal shows -----

  ghost function StyleAt(p: seq<Token>, i: nat): seq<seq<Byte>> {
    if p == [] then []
    else if p[0].start <= i < p[0].end then [Colour(p[0].kind)]
    else StyleAt(p[1..], i)
  }

  /** The line from `cursor` on, each byte in the colour of the painted token that covers it. */
  ghost function Coloured(line: seq<Byte>, p: seq<Token>, cursor: nat): (r: seq<Cell>)
    requires cursor <= |line|
    ensures |r| == |line| - cursor
    ensures forall i | 0 <= i < |r| :: r[i] == Cell(line[cursor + i], StyleAt(p, cursor + i))
  {
    seq(|line| - cursor, i requires 0 <= i < |line| - cursor => Cell(line[cursor + i], StyleAt(p, cursor + i)))
  }

  lemma {:induction false} NoStyleBefore(line: seq<Byte>, p: seq<Token>, cursor: nat, i: nat)
    requires Separate(line, p, cursor) && i < cursor
    ensures StyleAt(p, i) == []
  {
    if p != [] { NoStyleBefore(line, p[1..], cursor, i); }
  }

  lemma FeedSpan(s: Screen, plain: seq<Byte>, kind: TokenKind, text: seq<Byte>)
    requires s.mode == Text && s.style == [] && EscapeFree(plain) && EscapeFree(text)
    ensures FeedAll(s, plain + Ansi(kind) + text + RESET)
      == s.(cells := s.cells + Styled(plain, []) + Styled(text, [Colour(kind)]))
  {
    hide Feed, FeedAll, Styled;
    AnsiIsSgr(kind);
    assert RESET == Sgr("0");
    var s1 := s.(cells := s.cells + Styled(plain, []));
    var s2 := s1.(style := [Colour(kind)]);
    var s3 := s2.(cells := s2.cells + Styled(text, [Colour(kind)]));
    assert FeedAll(s, plain) == s1 by { FeedText(s, plain); }
    assert FeedAll(s1, Ansi(kind)) == s2 by { FeedSgr(s1, Colour(kind)); }
    assert FeedAll(s2, text) == s3 by { FeedText(s2, text); }
    assert FeedAll(s3, RESET) == s3.(style := []) by { FeedSgr(s3, "0"); }
    FeedConcat(s, plain + Ansi(kind) + text, RESET);
    FeedConcat(s, plain + Ansi(kind), text);
    FeedConcat(s, plain, Ansi(kind));
  }

  lemma ColouredSplits(line: seq<Byte>, t: Token, p: seq<Token>, cursor: nat)
    requires cursor <= t.start < t.end <= |line| && Separate(line, p, t.end)
    ensures Coloured(line, [t] + p, cursor)
      == Styled(line[cursor..t.start], []) + Styled(line[t.start..t.end], [Colour(t.kind)]) + Coloured(line, p, t.end)
  {
    var r := Coloured(line, [t] + p, cursor);
    var spans := Styled(line[cursor..t.start], []) + Styled(line[t.start..t.end], [Colour(t.kind)])
      + Coloured(line, p, t.end);
    forall i | 0 <= i < |r| ensures r[i] == spans[i] {
      StyleAtSplits(line, t, p, cursor, cursor + i);
    }
  }

  lemma StyleAtSplits(line: seq<Byte>, t: Token, p: seq<Token>, cursor: nat, i: nat)
    requires cursor <= t.start < t.end <= |line| && Separate(line, p, t.end)
    ensures StyleAt([t] + p, i) == if i < t.start then [] else if i < t.end then [Colour(t.kind)] else StyleAt(p, i)
  {
    assert ([t] + p)[1..] == p;
    if i < t.start { NoStyleBefore(line, p, t.end, i); }
  }

  /** Coloured output shows the line unchanged, each byte in its token's colour, and ends in default style. */
  lemma {:induction false} HighlightShows(s: Screen, line: seq<Byte>, tokens: seq<Token>, cursor: nat)
    requires cursor <= |line| && Forward(tokens) && EscapeFree(line)
    requires s.mode == Text && s.style == []
    ensures FeedAll(s, Highlight(line, tokens, cursor))
      == s.(cells := s.cells + Coloured(line, Painted(line, tokens, cursor), cursor))
    decreases |tokens|
  {
    hide Feed, FeedAll, Ansi, Colour, StyleAt, Separate, EscapeFree;
    if tokens == [] {
      SubTextIsFree(line, cursor, |line|);
      FeedText(s, line[cursor..]);
      NoStyles(line, cursor);
    } else {
      var t, rest := tokens[0], tokens[1..];
      if Skips(line, t, cursor) {
        HighlightShows(s, line, rest, cursor);
      } else {
        var head := line[cursor..t.start] + Ansi(t.kind) + line[t.start..t.end] + RESET;
        var span := Styled(line[cursor..t.start], []) + Styled(line[t.start..t.end], [Colour(t.kind)]);
        var s1 := s.(cells := s.cells + span);
        assert FeedAll(s, head) == s1 by {
          SubTextIsFree(line, cursor, t.start);
          SubTextIsFree(line, t.start, t.end);
          FeedSpan(s, line[cursor..t.start], t.kind, line[t.start..t.end]);
        }
        FeedConcat(s, head, Highlight(line, rest, t.end));
        HighlightShows(s1, line, rest, t.end);
        PaintedIsSeparate(line, rest, t.end);
        var later := Painted(line, rest, t.end);
        ColouredSplits(line, t, later, cursor);
        assert s.cells + (span + Coloured(line, later, t.end)) == s1.cells + Coloured(line, later, t.end);
      }
    }
  }

  lemma SubTextIsFree(line: seq<Byte>, from: nat, to: nat)
    requires EscapeFree(line) && from <= to <= |line|
    ensures EscapeFree(line[from..to])
  {
  }

  lemma NoStyles(line: seq<Byte>, cursor: nat)
    requires cursor <= |line|
    ensures Coloured(line, [], cursor) == Styled(line[cursor..], [])
  {
  }

  /** Deleting the colour sequences gives back the line, whatever the tokens. */
  lemma HighlightErases(line: seq<Byte>, tokens: seq<Token>)
    requires Forward(tokens) && EscapeFree(line)
    ensures Erased(Highlight(line, tokens, 0)) == line
    ensures Display(Highlight(line, tokens, 0)).mode == Text && Display(Highlight(line, tokens, 0)).style == []
  {
    HighlightShows(BLANK, line, tokens, 0);
    assert [] + Coloured(line, Painted(line, tokens, 0), 0) == Coloured(line, Painted(line, tokens, 0), 0);
  }

  // ----- The processor -----

  /** An unstable sort: callers learn the order of starts and nothing about ties. */
  method SortUnstableByStart(tokens: seq<Token>) returns (r: seq<Token>)
    ensures SortedByStart(r) && multiset(r) == multiset(tokens)
  {
    r := [];
    for k := 0 to |tokens|
      invariant SortedByStart(r) && multiset(r) == multiset(tokens[..k])
    {
      assert tokens[..k + 1] == tokens[..k] + [tokens[k]];
      r := InsertByStart(tokens[k], r);
    }
    assert tokens[..|tokens|] == tokens;
  }

  method InsertByStart(t: Token, s: seq<Token>) returns (r: seq<Token>)
    requires SortedByStart(s)
    ensures SortedByStart(r) && multiset(r) == multiset(s) + multiset{t}
  {
    var i := |s|;
    while i > 0 && s[i - 1].start > t.start
      invariant 0 <= i <= |s|
      invariant forall k | i <= k < |s| :: s[k].start > t.start
    {
      i := i - 1;
    }
    r := s[..i] + [t] + s[i..];
    assert multiset(r) == multiset(s) + multiset{t} by { InsertedElements(s, i, t); }
  }

  lemma InsertedElements(s: seq<Token>, i: nat, t: Token)
    requires i <= |s|
    ensures multiset(s[..i] + [t] + s[i..]) == multiset(s) + multiset{t}
  {
    assert s == s[..i] + s[i..];
  }

  class Processor {
    const plugin: Plugin
    var tokens: seq<Token>

    constructor (plugin: Plugin)
      ensures this.plugin == plugin && tokens == []
    {
      this.plugin := plugin;
      tokens := [];
    }

    /** Uncoloured output is the line itself; coloured output shows the line in the sorted tokens' colours. */
    method Process(line: seq<Byte>, color: bool) returns (severity: Severity, output: seq<Byte>)
      modifies `tokens
      ensures severity == SeverityOf(plugin, line)
      ensures multiset(tokens) == multiset(TokensOf(plugin, line)) && SortedByStart(tokens) && InLine(line, tokens)
      ensures !color ==> output == line
      ensures color ==> Forward(tokens) && output == Highlight(line, tokens, 0)
      ensures EscapeFree(line) ==> Erased(output) == line && Display(output).style == [] && Display(output).mode == Text
    {
      hide TokensOf, SeverityOf, Highlight, Display, Erased;
      tokens := [];
      severity, tokens := Parse(plugin, line, tokens);
      assert tokens == TokensOf(plugin, line);
      ghost var found := tokens;
      TokensInLine(plugin, line);
      tokens := SortUnstableByStart(tokens);
      forall t | t in tokens ensures t.start <= t.end <= |line| {
        assert t in multiset(tokens);
        assert t in found;
      }
      output := Render(line, tokens, color);
      if EscapeFree(line) {
        if color { HighlightErases(line, tokens); } else { PlainErases(line); }
      }
    }
  }

  lemma PlainErases(line: seq<Byte>)
    requires EscapeFree(line)
    ensures Erased(line) == line && Display(line).mode == Text && Display(line).style == []
  {
    FeedText(BLANK, line);
  }
}
