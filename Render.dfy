/**
 * The decisions `create_content_slide` and `add_code_block` make about a
 * slide's content lines, without the drawing. Each line becomes a paragraph,
 * a bullet item or part of a code block. `[CODE_BLOCK]` and `[/CODE_BLOCK]`
 * lines group the lines between them into one code block. A paragraph or
 * bullet item is bold when its line holds one of the fixed keywords.
 */
module Render {
  import opened Text

  const CodeOpen: string := "[CODE_BLOCK]"
  const CodeClose: string := "[/CODE_BLOCK]"
  const BulletPrefix: string := "- "
  const BulletGlyph: string := "• "
  const CodeSeparator: string := "\n"
  const BoldKeywords: seq<string> := ["Цель:", "Задачи:", "Пример", "Задание", "Шаг"]

  /** One paragraph of a content slide's text box. */
  datatype Item =
    | Paragraph(text: string, bold: bool)
    | Bullet(text: string, bold: bool)
    | Code(lines: seq<string>)

  /** The text the paragraph shows. */
  function ItemText(item: Item): string {
    match item
    case Paragraph(text, _) => text
    case Bullet(text, _) => BulletGlyph + text
    case Code(lines) => JoinWith(lines, CodeSeparator)
  }

  /** The line is a code-block delimiter once stripped. */
  predicate IsCodeMarker(line: string) {
    Strip(line) == CodeOpen || Strip(line) == CodeClose
  }

  /** Some keyword occurs in `text`, case-sensitively and anywhere in it. */
  predicate HasBoldKeyword(text: string) {
    exists i | 0 <= i < |BoldKeywords| :: Contains(text, BoldKeywords[i])
  }

  /** `should_bold_text`: tries the keywords in order and answers on the first that occurs. */
  method ShouldBoldText(text: string) returns (bold: bool)
    ensures bold == HasBoldKeyword(text)
  {
    for i := 0 to |BoldKeywords|
      invariant forall j :: 0 <= j < i ==> !Contains(text, BoldKeywords[j])
    {
      if Contains(text, BoldKeywords[i]) {
        return true;
      }
    }
    return false;
  }

  /**
   * A line outside a code block: a bullet item when its stripped form starts
   * with `- `, shown as the glyph and the rest of the stripped line; otherwise
   * a paragraph showing the line as it is. Boldness is decided on the line as
   * it is, `- ` included.
   */
  function TextItem(line: string): Item {
    var stripped := Strip(line);
    if BulletPrefix <= stripped then Bullet(stripped[|BulletPrefix|..], HasBoldKeyword(line))
    else Paragraph(line, HasBoldKeyword(line))
  }

  lemma TextItemShows(line: string)
    ensures var item := TextItem(line);
      && !item.Code?
      && item.bold == HasBoldKeyword(line)
      && (item.Bullet? <==> BulletPrefix <= Strip(line))
      && (item.Bullet? ==> ItemText(item) == BulletGlyph + Strip(line)[|BulletPrefix|..])
      && (item.Paragraph? ==> ItemText(item) == line)
  {
  }

  /** `add_code_block`: an empty block adds nothing; otherwise one paragraph with the lines joined by newlines. */
  function AddCodeBlock(items: seq<Item>, codeLines: seq<string>): (r: seq<Item>)
    ensures codeLines == [] ==> r == items
    ensures codeLines != [] ==> |r| == |items| + 1 && r[..|items|] == items && r[|items|] == Code(codeLines)
    ensures codeLines != [] ==> ItemText(r[|items|]) == JoinWith(codeLines, CodeSeparator)
  {
    if codeLines == [] then items else items + [Code(codeLines)]
  }

  // ---------------------------------------------------------------------------
  // The loop, as a fold over classified lines

  /** What the loop makes of one content line: a delimiter, or a line with the item it shows outside a code block. */
  datatype LineRole = OpenMark | CloseMark | Plain(line: string, item: Item)

  function Role(line: string): LineRole {
    if Strip(line) == CodeOpen then OpenMark
    else if Strip(line) == CodeClose then CloseMark
    else Plain(line, TextItem(line))
  }

  function Roles(lines: seq<string>): seq<LineRole> {
    seq(|lines|, i requires 0 <= i < |lines| => Role(lines[i]))
  }

  /** The loop's variables: the paragraphs made so far, whether a code block is open, and its lines. */
  datatype RenderState = RenderState(items: seq<Item>, inCodeBlock: bool, codeLines: seq<string>)

  const Initial: RenderState := RenderState([], false, [])

  function RenderStep(st: RenderState, role: LineRole): RenderState {
    match role
    case OpenMark => RenderState(st.items, true, [])
    case CloseMark => RenderState(AddCodeBlock(st.items, st.codeLines), false, [])
    case Plain(line, item) =>
      if st.inCodeBlock then RenderState(st.items, true, st.codeLines + [line])
      else RenderState(st.items + [item], false, st.codeLines)
  }

  function RenderFrom(st: RenderState, roles: seq<LineRole>): RenderState
    decreases |roles|
  {
    if roles == [] then st else RenderFrom(RenderStep(st, roles[0]), roles[1..])
  }

  /** The paragraphs `create_content_slide` puts on a slide with these content lines. */
  function RenderItems(lines: seq<string>): seq<Item> {
    RenderFrom(Initial, Roles(lines)).items
  }

  /** `create_content_slide`'s loop over the content lines. */
  method CreateContentItems(contentLines: seq<string>) returns (items: seq<Item>)
    ensures items == RenderItems(contentLines)
    ensures WellFormed(items)
  {
    ghost var roles := Roles(contentLines);
    ghost var target := RenderItems(contentLines);
    items := [];
    var inCodeBlock := false;
    var codeLines: seq<string> := [];
    for i := 0 to |contentLines|
      invariant RenderFrom(RenderState(items, inCodeBlock, codeLines), roles[i..]).items == target
    {
      assert roles[i..][0] == Role(contentLines[i]) && roles[i..][1..] == roles[i + 1..];
      var line := contentLines[i];
      if Strip(line) == CodeOpen {
        inCodeBlock := true;
        codeLines := [];
        continue;
      } else if Strip(line) == CodeClose {
        inCodeBlock := false;
        items := AddCodeBlock(items, codeLines);
        codeLines := [];
        continue;
      }
      if inCodeBlock {
        codeLines := codeLines + [line];
      } else {
        var bold := ShouldBoldText(line);
        if BulletPrefix <= Strip(line) {
          items := items + [Bullet(Strip(line)[|BulletPrefix|..], bold)];
        } else {
          items := items + [Paragraph(line, bold)];
        }
      }
    }
    RenderedWellFormed(contentLines);
  }

  // ---------------------------------------------------------------------------
  // Properties

  /**
   * No delimiter line is ever shown: no paragraph is a delimiter line, no code
   * block holds one, and no code block is empty.
   */
  predicate WellFormed(items: seq<Item>) {
    forall k :: 0 <= k < |items| ==>
      match items[k]
      case Paragraph(text, _) => !IsCodeMarker(text)
      case Bullet(_, _) => true
      case Code(lines) => lines != [] && forall j :: 0 <= j < |lines| ==> !IsCodeMarker(lines[j])
  }

  predicate StateWellFormed(st: RenderState) {
    WellFormed(st.items) && forall j :: 0 <= j < |st.codeLines| ==> !IsCodeMarker(st.codeLines[j])
  }

  /** Each plain role comes from a line that is no delimiter and carries that line's item. */
  predicate Classified(roles: seq<LineRole>) {
    forall j :: 0 <= j < |roles| && roles[j].Plain? ==> !IsCodeMarker(roles[j].line) && roles[j].item == TextItem(roles[j].line)
  }

  lemma RolesClassified(lines: seq<string>)
    ensures Classified(Roles(lines))
  {
  }

  lemma {:induction false} RenderFromWellFormed(st: RenderState, roles: seq<LineRole>)
    requires StateWellFormed(st) && Classified(roles)
    ensures StateWellFormed(RenderFrom(st, roles))
    decreases |roles|
  {
    if roles != [] {
      var next := RenderStep(st, roles[0]);
      if roles[0].Plain? && !st.inCodeBlock {
        var item := roles[0].item;
        assert next.items == st.items + [item];
        assert item.Paragraph? ==> item.text == roles[0].line;
      }
      assert StateWellFormed(next);
      RenderFromWellFormed(next, roles[1..]);
    }
  }

  lemma RenderedWellFormed(lines: seq<string>)
    ensures WellFormed(RenderItems(lines))
  {
    RolesClassified(lines);
    RenderFromWellFormed(Initial, Roles(lines));
  }

  /** Every role is a plain line. */
  predicate AllPlain(roles: seq<LineRole>) {
    forall j :: 0 <= j < |roles| ==> roles[j].Plain?
  }

  function PlainLines(roles: seq<LineRole>): (lines: seq<string>)
    requires AllPlain(roles)
    ensures |lines| == |roles|
    decreases |roles|
  {
    if roles == [] then [] else [roles[0].line] + PlainLines(roles[1..])
  }

  function PlainItems(roles: seq<LineRole>): (items: seq<Item>)
    requires AllPlain(roles)
    ensures |items| == |roles|
    decreases |roles|
  {
    if roles == [] then [] else [roles[0].item] + PlainItems(roles[1..])
  }

  /** One item per line, each read as a line outside any code block. */
  function TextItems(lines: seq<string>): seq<Item> {
    seq(|lines|, i requires 0 <= i < |lines| => TextItem(lines[i]))
  }

  lemma RolesAppend(a: seq<string>, b: seq<string>)
    ensures Roles(a + b) == Roles(a) + Roles(b)
  {
    var l, r := Roles(a + b), Roles(a) + Roles(b);
    assert |l| == |r|;
    forall j | 0 <= j < |l|
      ensures l[j] == r[j]
    {
      if j < |a| {
        assert (a + b)[j] == a[j];
        assert r[j] == Roles(a)[j];
      } else {
        assert (a + b)[j] == b[j - |a|];
        assert r[j] == Roles(b)[j - |a|];
      }
    }
  }

  lemma PlainRole(line: string)
    requires !IsCodeMarker(line)
    ensures Role(line) == Plain(line, TextItem(line))
  {
  }

  /** Plain roles carrying these lines and items give the lines and the items back. */
  lemma {:induction false} PlainOfLines(roles: seq<LineRole>, lines: seq<string>, items: seq<Item>)
    requires |roles| == |lines| == |items|
    requires forall j :: 0 <= j < |roles| ==> roles[j] == Plain(lines[j], items[j])
    ensures AllPlain(roles)
    ensures PlainLines(roles) == lines && PlainItems(roles) == items
    decreases |roles|
  {
    if roles != [] {
      PlainOfLines(roles[1..], lines[1..], items[1..]);
      assert lines == [lines[0]] + lines[1..];
      assert items == [items[0]] + items[1..];
    }
  }

  /** Lines that are no delimiters classify as plain lines that give the lines and their items back. */
  lemma PlainRoles(lines: seq<string>)
    requires forall j :: 0 <= j < |lines| ==> !IsCodeMarker(lines[j])
    ensures AllPlain(Roles(lines))
    ensures PlainLines(Roles(lines)) == lines && PlainItems(Roles(lines)) == TextItems(lines)
  {
    var roles, items := Roles(lines), TextItems(lines);
    forall j | 0 <= j < |lines|
      ensures roles[j] == Plain(lines[j], items[j])
    {
      PlainRole(lines[j]);
    }
    PlainOfLines(roles, lines, items);
  }

  /** Outside a code block, plain lines give one item each, in order, and leave the buffer alone. */
  lemma {:induction false} PlainInOrder(items: seq<Item>, buffer: seq<string>, roles: seq<LineRole>)
    requires AllPlain(roles)
    ensures RenderFrom(RenderState(items, false, buffer), roles) == RenderState(items + PlainItems(roles), false, buffer)
    decreases |roles|
  {
    if roles == [] {
      assert items + [] == items;
    } else {
      var item := roles[0].item;
      PlainInOrder(items + [item], buffer, roles[1..]);
      assert items + [item] + PlainItems(roles[1..]) == items + PlainItems(roles);
    }
  }

  /** A slide without delimiter lines shows one item per content line, in order. */
  lemma PlainSlide(lines: seq<string>)
    requires forall j :: 0 <= j < |lines| ==> !IsCodeMarker(lines[j])
    ensures RenderItems(lines) == TextItems(lines)
  {
    PlainRoles(lines);
    PlainInOrder([], [], Roles(lines));
    assert [] + TextItems(lines) == TextItems(lines);
  }

  /** Inside a code block, plain lines only extend the buffer. */
  lemma {:induction false} PlainBuffered(items: seq<Item>, buffer: seq<string>, roles: seq<LineRole>, rest: seq<LineRole>)
    requires AllPlain(roles)
    ensures RenderFrom(RenderState(items, true, buffer), roles + rest) == RenderFrom(RenderState(items, true, buffer + PlainLines(roles)), rest)
    decreases |roles|
  {
    if roles == [] {
      assert roles + rest == rest && buffer + [] == buffer;
    } else {
      var line := roles[0].line;
      assert (roles + rest)[0] == roles[0] && (roles + rest)[1..] == roles[1..] + rest;
      PlainBuffered(items, buffer + [line], roles[1..], rest);
      assert buffer + [line] + PlainLines(roles[1..]) == buffer + PlainLines(roles);
    }
  }

  /** `[CODE_BLOCK]`, plain lines, `[/CODE_BLOCK]`: one code item with the lines, or nothing when there are none. */
  lemma CodeRolesEmitted(st: RenderState, roles: seq<LineRole>, rest: seq<LineRole>)
    requires AllPlain(roles)
    ensures RenderFrom(st, [OpenMark] + roles + [CloseMark] + rest) ==
            RenderFrom(RenderState(st.items + (if roles == [] then [] else [Code(PlainLines(roles))]), false, []), rest)
  {
    var all := [OpenMark] + roles + [CloseMark] + rest;
    assert all[0] == OpenMark && all[1..] == roles + ([CloseMark] + rest);
    PlainBuffered(st.items, [], roles, [CloseMark] + rest);
    assert ([CloseMark] + rest)[0] == CloseMark && ([CloseMark] + rest)[1..] == rest;
    assert [] + PlainLines(roles) == PlainLines(roles);
    if roles == [] {
      assert st.items + [] == st.items;
    }
  }

  lemma RolesOfBlock(open: string, body: seq<string>, close: string, rest: seq<string>)
    requires Strip(open) == CodeOpen && Strip(close) == CodeClose
    ensures Roles([open] + body + [close] + rest) == [OpenMark] + Roles(body) + [CloseMark] + Roles(rest)
  {
    RolesAppend([open] + body + [close], rest);
    RolesAppend([open] + body, [close]);
    RolesAppend([open], body);
    assert Roles([open]) == [OpenMark] && Roles([close]) == [CloseMark];
  }

  /**
   * A delimited block emits exactly one code item holding its interior lines
   * in order, or nothing when it has none; the delimiters themselves are not
   * shown and the lines after the block go on as before.
   */
  lemma CodeBlockEmitted(st: RenderState, open: string, body: seq<string>, close: string, rest: seq<string>)
    requires Strip(open) == CodeOpen && Strip(close) == CodeClose
    requires forall j :: 0 <= j < |body| ==> !IsCodeMarker(body[j])
    ensures RenderFrom(st, Roles([open] + body + [close] + rest)) ==
            RenderFrom(RenderState(st.items + (if body == [] then [] else [Code(body)]), false, []), Roles(rest))
  {
    RolesOfBlock(open, body, close, rest);
    PlainRoles(body);
    CodeRolesEmitted(st, Roles(body), Roles(rest));
  }

  /** The shown text of a code block splits back into its lines. */
  lemma CodeTextRoundTrip(lines: seq<string>)
    requires lines != []
    requires forall j :: 0 <= j < |lines| ==> '\n' !in lines[j]
    ensures SplitOn(ItemText(Code(lines)), '\n') == lines
  {
    SplitOnJoin(lines, '\n');
  }

  /** Inside a code block that is never closed, nothing more is emitted. */
  lemma {:induction false} UnclosedBlockLost(items: seq<Item>, buffer: seq<string>, roles: seq<LineRole>)
    requires forall j :: 0 <= j < |roles| ==> !roles[j].CloseMark?
    ensures RenderFrom(RenderState(items, true, buffer), roles).items == items
    decreases |roles|
  {
    if roles != [] {
      var next := RenderStep(RenderState(items, true, buffer), roles[0]);
      assert next.items == items && next.inCodeBlock;
      UnclosedBlockLost(items, next.codeLines, roles[1..]);
    }
  }

  /** The lines after a `[CODE_BLOCK]` line with no closing line after it are never emitted. */
  lemma UnterminatedBlockLost(st: RenderState, open: string, body: seq<string>)
    requires Strip(open) == CodeOpen
    requires forall j :: 0 <= j < |body| ==> Strip(body[j]) != CodeClose
    ensures RenderFrom(st, Roles([open] + body)).items == st.items
  {
    RolesAppend([open], body);
    var roles := Roles(body);
    assert Roles([open] + body) == [OpenMark] + roles;
    assert ([OpenMark] + roles)[0] == OpenMark && ([OpenMark] + roles)[1..] == roles;
    forall j | 0 <= j < |roles|
      ensures !roles[j].CloseMark?
    {
      assert Strip(body[j]) != CodeClose;
    }
    UnclosedBlockLost(st.items, [], roles);
  }
}
