/** The exact text of the styled writer: where lines break, how deep they are indented, and which arrays stay on
    one line. */
module Styling {
  import opened Bytes
  import opened JsonValue
  import opened Quoting
  import opened Rendering

  /** How the styled writer is configured. */
  datatype Style = Style(indentation: Text, fmt: Format)

  /** A new line is only begun when there is an indentation. */
  function NewLine(style: Style, margin: Text): Text {
    if style.indentation == [] then [] else [0x0A] + margin
  }

  function Gap(style: Style): Text {
    if style.indentation == [] then [] else [0x20]
  }

  /** The lengths of the elements' texts, added up. */
  function Widths(fmt: Format, es: seq<Value>): nat {
    if es == [] then 0 else Widths(fmt, es[..|es| - 1]) + |ScalarText(fmt, es[|es| - 1])|
  }

  /** An array stays on one line if it has fewer than 25 elements, all of them scalars or empty containers, and
      the line has fewer than 74 bytes. Sizes are counted in 32 bits. */
  predicate OnOneLine(fmt: Format, es: seq<Value>) {
    && |es| * 3 % 0x1_0000_0000 < 74
    && (forall i :: 0 <= i < |es| ==> es[i].IsLeaf())
    && (4 + (|es| - 1) * 2 + Widths(fmt, es)) % 0x1_0000_0000 < 74
  }

  /** The text of a value in a line with this margin; `begun` says that the line has already been begun for it,
      `always` that no array stays on one line. */
  function Styled(style: Style, always: bool, margin: Text, begun: bool, v: Value): Text
    decreases v, 0
  {
    var start := if begun then [] else NewLine(style, margin);
    if v.IsLeaf() then ScalarText(style.fmt, v)
    else if v.Obj? then
      start + [0x7B] + StyledMembers(style, always, margin + style.indentation, v.members)
      + (NewLine(style, margin) + [0x7D])
    else if !always && OnOneLine(style.fmt, v.elems) then
      [0x5B] + Gap(style) + Row(style, v.elems) + Gap(style) + [0x5D]
    else
      start + [0x5B] + StyledElems(style, always, margin + style.indentation, v.elems)
      + (NewLine(style, margin) + [0x5D])
  }

  /** One element to a line. */
  function StyledElems(style: Style, always: bool, margin: Text, es: seq<Value>): Text
    decreases es, 1
  {
    if es == [] then []
    else if |es| == 1 then StyledElem(style, always, margin, es[0])
    else
      StyledElem(style, always, margin, es[0]) + [0x2C] + StyledElems(style, always, margin, es[1..])
  }

  function StyledElem(style: Style, always: bool, margin: Text, v: Value): Text
    decreases v, 1
  {
    NewLine(style, margin) + Styled(style, always, margin, true, v)
  }

  /** One member to a line; a value that needs several lines begins a new one after the colon. */
  function StyledMembers(style: Style, always: bool, margin: Text, ms: seq<Member>): Text
    decreases ms, 2
  {
    if ms == [] then []
    else if |ms| == 1 then StyledMember(style, always, margin, ms[0])
    else StyledMember(style, always, margin, ms[0]) + [0x2C] + StyledMembers(style, always, margin, ms[1..])
  }

  function StyledMember(style: Style, always: bool, margin: Text, m: Member): Text
    decreases m, 1
  {
    NewLine(style, margin) + Quoted(m.name) + style.fmt.colon + Styled(style, always, margin, false, m.value)
  }

  /** The elements of an array on one line. */
  function Row(style: Style, es: seq<Value>): Text {
    if es == [] then []
    else if |es| == 1 then ScalarText(style.fmt, es[0])
    else ScalarText(style.fmt, es[0]) + [0x2C] + (Gap(style) + Row(style, es[1..]))
  }

  // ---------------------------------------------------------------- one more at the end

  lemma {:induction false} OneMoreElem(style: Style, always: bool, margin: Text, es: seq<Value>, v: Value)
    ensures StyledElems(style, always, margin, es + [v])
         == (if es == [] then [] else StyledElems(style, always, margin, es) + [0x2C])
            + StyledElem(style, always, margin, v)
  {
    hide StyledElem;
    var longer := es + [v];
    if |es| > 1 {
      OneMoreElem(style, always, margin, es[1..], v);
      assert longer[1..] == es[1..] + [v];
      var a, b := StyledElem(style, always, margin, es[0]), StyledElems(style, always, margin, es[1..]);
      Assoc(a + [0x2C], b, [0x2C]);
      Assoc(a + [0x2C], b + [0x2C], StyledElem(style, always, margin, v));
    } else if |es| == 1 {
      assert longer[1..] == [v];
    } else {
      assert longer == [v];
    }
  }

  lemma {:induction false} OneMoreMember(style: Style, always: bool, margin: Text, ms: seq<Member>, m: Member)
    ensures StyledMembers(style, always, margin, ms + [m])
         == (if ms == [] then [] else StyledMembers(style, always, margin, ms) + [0x2C])
            + StyledMember(style, always, margin, m)
  {
    hide StyledMember;
    var longer := ms + [m];
    if |ms| > 1 {
      OneMoreMember(style, always, margin, ms[1..], m);
      assert longer[1..] == ms[1..] + [m];
      var a, b := StyledMember(style, always, margin, ms[0]), StyledMembers(style, always, margin, ms[1..]);
      Assoc(a + [0x2C], b, [0x2C]);
      Assoc(a + [0x2C], b + [0x2C], StyledMember(style, always, margin, m));
    } else if |ms| == 1 {
      assert longer[1..] == [m];
    } else {
      assert longer == [m];
    }
  }

  lemma {:induction false} OneMoreInRow(style: Style, es: seq<Value>, v: Value)
    ensures Row(style, es + [v])
         == (if es == [] then [] else Row(style, es) + [0x2C] + Gap(style)) + ScalarText(style.fmt, v)
  {
    hide ScalarText, Gap;
    var longer := es + [v];
    if |es| > 1 {
      OneMoreInRow(style, es[1..], v);
      assert longer[1..] == es[1..] + [v];
      var a, g, b, t := ScalarText(style.fmt, es[0]), Gap(style), Row(style, es[1..]), ScalarText(style.fmt, v);
      Assoc(a + [0x2C], g + b, [0x2C]);
      Assoc(a + [0x2C], g + b + [0x2C], g);
      Assoc(a + [0x2C], g + b + [0x2C] + g, t);
      Assoc(g, b, [0x2C]);
      Assoc(g, b + [0x2C], g);
      Assoc(g, b + [0x2C] + g, t);
    } else if |es| == 1 {
      assert longer[1..] == [v];
      Assoc(ScalarText(style.fmt, es[0]) + [0x2C], Gap(style), ScalarText(style.fmt, v));
    } else {
      assert longer == [v];
    }
  }

  // ---------------------------------------------------------------- the cases of a value

  lemma StyledLeaf(style: Style, always: bool, margin: Text, begun: bool, v: Value)
    requires v.IsLeaf()
    ensures Styled(style, always, margin, begun, v) == ScalarText(style.fmt, v)
  {
  }

  lemma StyledNothing(style: Style, always: bool, margin: Text)
    ensures StyledElems(style, always, margin, []) == [] && StyledMembers(style, always, margin, []) == []
  {
  }

  lemma StyledObject(style: Style, always: bool, margin: Text, begun: bool, ms: seq<Member>)
    requires ms != []
    ensures Styled(style, always, margin, begun, Obj(ms))
         == (if begun then [] else NewLine(style, margin)) + [0x7B]
            + StyledMembers(style, always, margin + style.indentation, ms) + (NewLine(style, margin) + [0x7D])
  {
    hide StyledMembers, NewLine, OnOneLine;
  }

  lemma StyledLines(style: Style, always: bool, margin: Text, begun: bool, es: seq<Value>)
    requires es != [] && (always || !OnOneLine(style.fmt, es))
    ensures Styled(style, always, margin, begun, Arr(es))
         == (if begun then [] else NewLine(style, margin)) + [0x5B]
            + StyledElems(style, always, margin + style.indentation, es) + (NewLine(style, margin) + [0x5D])
  {
    hide StyledElems, NewLine, OnOneLine;
  }

  lemma StyledRow(style: Style, margin: Text, begun: bool, es: seq<Value>)
    requires es != [] && OnOneLine(style.fmt, es)
    ensures Styled(style, false, margin, begun, Arr(es))
         == [] + [0x5B] + (Gap(style) + Row(style, es)) + (Gap(style) + [0x5D])
  {
    hide Row, OnOneLine, Gap;
    var g, r := Gap(style), Row(style, es);
    assert [] + [0x5B] == [0x5B];
    Assoc([0x5B], g, r);
    Assoc([0x5B] + g + r, g, [0x5D]);
  }

  lemma EmptyRow(style: Style)
    ensures Row(style, []) == []
  {
  }

  lemma NoWidths(fmt: Format)
    ensures Widths(fmt, []) == 0
  {
  }

  lemma OneMoreWidth(fmt: Format, es: seq<Value>, i: nat)
    requires i < |es|
    ensures Widths(fmt, es[..i + 1]) == Widths(fmt, es[..i]) + |ScalarText(fmt, es[i])|
  {
    assert es[..i + 1][..i] == es[..i];
  }

  /** A sum that wraps at each step is the sum that wraps once. */
  lemma WrappedSum(a: nat, b: nat)
    ensures (a % 0x1_0000_0000 + b) % 0x1_0000_0000 == (a + b) % 0x1_0000_0000
  {
  }

  // ---------------------------------------------------------------- without an indentation

  /** Without an indentation there are no lines: the styled text is the compact one, wherever it is written. */
  lemma {:induction false} StyledIsCompact(style: Style, always: bool, margin: Text, begun: bool, v: Value)
    requires style.indentation == []
    ensures Styled(style, always, margin, begun, v) == Compact(style.fmt, v)
    decreases v, 0
  {
    hide OnOneLine, ScalarText;
    if v.IsLeaf() {
    } else if v.Obj? {
      StyledMembersAreCompact(style, always, margin + style.indentation, v.members);
    } else if !always && OnOneLine(style.fmt, v.elems) {
      LeavesOnOneLine(style.fmt, v.elems);
      RowIsCompact(style, v.elems);
    } else {
      StyledElemsAreCompact(style, always, margin + style.indentation, v.elems);
    }
  }

  lemma LeavesOnOneLine(fmt: Format, es: seq<Value>)
    requires OnOneLine(fmt, es)
    ensures forall i :: 0 <= i < |es| ==> es[i].IsLeaf()
  {
  }

  lemma {:induction false} StyledElemsAreCompact(style: Style, always: bool, margin: Text, es: seq<Value>)
    requires style.indentation == []
    ensures StyledElems(style, always, margin, es) == CompactElems(style.fmt, es)
    decreases es, 1
  {
    hide Styled, Compact;
    if es != [] {
      StyledIsCompact(style, always, margin, true, es[0]);
      StyledElemsAreCompact(style, always, margin, es[1..]);
    }
  }

  lemma {:induction false} StyledMembersAreCompact(style: Style, always: bool, margin: Text, ms: seq<Member>)
    requires style.indentation == []
    ensures StyledMembers(style, always, margin, ms) == CompactMembers(style.fmt, ms)
    decreases ms, 1
  {
    hide Styled, Compact, Quoted;
    if ms != [] {
      StyledIsCompact(style, always, margin, false, ms[0].value);
      StyledMembersAreCompact(style, always, margin, ms[1..]);
    }
  }

  lemma {:induction false} RowIsCompact(style: Style, es: seq<Value>)
    requires style.indentation == [] && forall i :: 0 <= i < |es| ==> es[i].IsLeaf()
    ensures Row(style, es) == CompactElems(style.fmt, es)
  {
    hide ScalarText;
    if es != [] {
      RowIsCompact(style, es[1..]);
    }
  }
}
