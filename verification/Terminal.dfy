// A terminal that understands SGR colour sequences: the reader of coloured output.
// Escape sequences follow ECMA-48: ESC [ parameters final-byte, final bytes being 0x40 to 0x7E.
module Terminal {
  import opened Bytes

  const ESC: Byte := '\U{1B}'

  /** A byte on screen with the SGR parameters in force, oldest first; [] is the default style. */
  datatype Cell = Cell(byte: Byte, style: seq<seq<Byte>>)

  datatype Mode = Text | Escape | Csi(params: seq<Byte>)

  datatype Screen = Screen(cells: seq<Cell>, style: seq<seq<Byte>>, mode: Mode)

  const BLANK := Screen([], [], Text)

  predicate IsFinal(b: Byte) { '\U{40}' <= b <= '\U{7E}' }

  function Feed(s: Screen, b: Byte): Screen {
    match s.mode
    case Text =>
      if b == ESC then s.(mode := Escape) else s.(cells := s.cells + [Cell(b, s.style)])
    case Escape =>
      if b == '[' then s.(mode := Csi([])) else s.(mode := Text)
    case Csi(params) =>
      if !IsFinal(b) then s.(mode := Csi(params + [b]))
      else if b != 'm' then s.(mode := Text)
      else if params == "0" || params == "" then s.(style := [], mode := Text)
      else s.(style := s.style + [params], mode := Text)
  }

  function FeedAll(s: Screen, bytes: seq<Byte>): Screen {
    if bytes == [] then s else Feed(FeedAll(s, bytes[..|bytes| - 1]), bytes[|bytes| - 1])
  }

  function Display(bytes: seq<Byte>): Screen { FeedAll(BLANK, bytes) }

  /** The bytes left when colour sequences are deleted. */
  function Erased(bytes: seq<Byte>): seq<Byte> { TextOf(Display(bytes).cells) }

  function TextOf(cells: seq<Cell>): (r: seq<Byte>)
    ensures |r| == |cells| && forall i | 0 <= i < |r| :: r[i] == cells[i].byte
  {
    seq(|cells|, i requires 0 <= i < |cells| => cells[i].byte)
  }

  predicate EscapeFree(bytes: seq<Byte>) { ESC !in bytes }

  function Styled(bytes: seq<Byte>, style: seq<seq<Byte>>): (r: seq<Cell>)
    ensures |r| == |bytes| && forall i | 0 <= i < |r| :: r[i] == Cell(bytes[i], style)
  {
    seq(|bytes|, i requires 0 <= i < |bytes| => Cell(bytes[i], style))
  }

  lemma {:induction false} FeedConcat(s: Screen, one: seq<Byte>, two: seq<Byte>)
    ensures FeedAll(s, one + two) == FeedAll(FeedAll(s, one), two)
  {
    if two == [] {
      assert one + two == one;
    } else {
      var n := |two| - 1;
      FeedConcat(s, one, two[..n]);
      assert (one + two)[..|one + two| - 1] == one + two[..n];
    }
  }

  /** Text without escapes is shown as it is, in the style in force. */
  lemma {:induction false} FeedText(s: Screen, bytes: seq<Byte>)
    requires s.mode == Text && EscapeFree(bytes)
    ensures FeedAll(s, bytes) == s.(cells := s.cells + Styled(bytes, s.style))
  {
    if bytes == [] {
      assert s.cells + Styled(bytes, s.style) == s.cells;
    } else {
      var n := |bytes| - 1;
      FeedText(s, bytes[..n]);
      assert bytes[n] in bytes;
      assert Styled(bytes, s.style) == Styled(bytes[..n], s.style) + [Cell(bytes[n], s.style)];
    }
  }

  function Sgr(params: seq<Byte>): seq<Byte> { [ESC, '['] + params + ['m'] }

  lemma {:induction false} FeedParams(s: Screen, params: seq<Byte>)
    requires s.mode == Text && forall i | 0 <= i < |params| :: !IsFinal(params[i])
    ensures FeedAll(s, [ESC, '['] + params) == s.(mode := Csi(params))
  {
    if params == [] {
      var lead: seq<Byte> := [ESC, '['];
      assert lead + params == lead;
      assert lead[..1] == [ESC];
      assert FeedAll(s, [ESC]) == s.(mode := Escape);
    } else {
      var n := |params| - 1;
      FeedParams(s, params[..n]);
      var whole := [ESC, '['] + params;
      assert whole[..|whole| - 1] == [ESC, '['] + params[..n];
      assert params == params[..n] + [params[n]];
    }
  }

  /** A colour sequence shows nothing; it pushes its parameters, or with parameter 0 restores the default. */
  lemma FeedSgr(s: Screen, params: seq<Byte>)
    requires s.mode == Text && params != "" && forall i | 0 <= i < |params| :: !IsFinal(params[i])
    ensures FeedAll(s, Sgr(params)) == s.(style := if params == "0" then [] else s.style + [params])
  {
    FeedParams(s, params);
    var whole := Sgr(params);
    assert whole[..|whole| - 1] == [ESC, '['] + params;
  }
}
