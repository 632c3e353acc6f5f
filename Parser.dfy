/**
 * `PresentationGenerator.parse_content`: one forward pass over the lines of
 * the input text that groups them into presentations, slides and content
 * lines.
 *
 * The pass itself is the method `ParseContent`. It is proved equal to `Parse`,
 * a fold of `Step` over the classified lines that follows the source's
 * branches one by one. `Parse` is in turn proved equal to `Reference`, an
 * independent description: cut the lines at topic markers, cut each topic at
 * slide markers, and read every field as the last value written to it.
 */
module Parser {
  import opened Text

  const TopicMarker: string := "##-TOPIC-START-##"
  const SlideMarker: string := "#-SLIDE-START-#"
  const SlideTitlePrefix: string := "TITLE::"
  const PresentationTitlePrefix: string := "Практическая работа"
  const LevelPrefix: string := "Уровень:"
  const ModulePrefix: string := "Модуль"

  datatype Option<T> = None | Some(value: T)

  /** A slide: its title and its content lines, each stripped and non-empty. */
  datatype Slide = Slide(title: string, content: seq<string>)

  /** One topic: the title, level and module lines and the slides, in input order. */
  datatype Presentation = Presentation(title: string, level: string, moduleName: string, slides: seq<Slide>)

  const EmptySlide: Slide := Slide("", [])
  const EmptyPresentation: Presentation := Presentation("", "", "", [])

  /** What a line means to the parser, decided by the first test of the chain that matches. */
  datatype LineKind =
    | TopicStart
    | SlideStart
    | SlideTitle(title: string)
    | PresentationTitle(title: string)
    | Level(level: string)
    | ModuleLine(moduleName: string)
    | Content(text: string)
    | Blank

  /** The line starts with one of the six prefixes the parser tests before treating it as content. */
  predicate HasReservedPrefix(line: string) {
    || TopicMarker <= line || SlideMarker <= line || SlideTitlePrefix <= line
    || PresentationTitlePrefix <= line || LevelPrefix <= line || ModulePrefix <= line
  }

  /**
   * The `if/elif` chain of the loop body, applied to the stripped line. The
   * presentation title and the module are the whole line; the slide title and
   * the level are the line with every occurrence of their prefix removed, then
   * stripped.
   */
  function Classify(raw: string): (k: LineKind)
    ensures k.TopicStart? <==> TopicMarker <= Strip(raw)
    ensures k.SlideStart? <==> !(TopicMarker <= Strip(raw)) && SlideMarker <= Strip(raw)
    ensures k.SlideTitle? ==> k.title == Strip(RemoveAll(Strip(raw), SlideTitlePrefix))
    ensures k.Level? ==> k.level == Strip(RemoveAll(Strip(raw), LevelPrefix))
    ensures k.Blank? <==> Strip(raw) == []
    ensures k.Content? <==> Strip(raw) != [] && !HasReservedPrefix(Strip(raw))
    ensures k.Content? ==> k.text == Strip(raw)
    ensures k.PresentationTitle? ==> k.title == Strip(raw) && PresentationTitlePrefix <= k.title
    ensures k.ModuleLine? ==> k.moduleName == Strip(raw) && ModulePrefix <= k.moduleName
  {
    var line := Strip(raw);
    if TopicMarker <= line then TopicStart
    else if SlideMarker <= line then SlideStart
    else if SlideTitlePrefix <= line then SlideTitle(Strip(RemoveAll(line, SlideTitlePrefix)))
    else if PresentationTitlePrefix <= line then PresentationTitle(line)
    else if LevelPrefix <= line then Level(Strip(RemoveAll(line, LevelPrefix)))
    else if ModulePrefix <= line then ModuleLine(line)
    else if line != [] then Content(line)
    else Blank
  }

  /**
   * Each metadata prefix leads to its own kind, and only when no prefix tested
   * before it matches: the first test of the chain that matches wins.
   */
  lemma ClassifyMetadata(raw: string)
    ensures var line, k := Strip(raw), Classify(raw);
      && (k.SlideTitle? <==>
            !(TopicMarker <= line) && !(SlideMarker <= line) && SlideTitlePrefix <= line)
      && (k.PresentationTitle? <==>
            !(TopicMarker <= line) && !(SlideMarker <= line) && !(SlideTitlePrefix <= line)
            && PresentationTitlePrefix <= line)
      && (k.Level? <==>
            !(TopicMarker <= line) && !(SlideMarker <= line) && !(SlideTitlePrefix <= line)
            && !(PresentationTitlePrefix <= line) && LevelPrefix <= line)
      && (k.ModuleLine? <==>
            !(TopicMarker <= line) && !(SlideMarker <= line) && !(SlideTitlePrefix <= line)
            && !(PresentationTitlePrefix <= line) && !(LevelPrefix <= line) && ModulePrefix <= line)
  {
  }

  function Kinds(lines: seq<string>): (ks: seq<LineKind>)
    ensures |ks| == |lines|
  {
    seq(|lines|, i requires 0 <= i < |lines| => Classify(lines[i]))
  }

  /** The lines of the input text, as `content.split('\n')` gives them. */
  function Lines(content: string): seq<string> {
    SplitOn(content, '\n')
  }

  // ---------------------------------------------------------------------------
  // The pass, as a fold over the classified lines

  /** The loop's variables: the finished presentations, the open presentation and the open slide. */
  datatype ParserState = ParserState(done: seq<Presentation>, current: Option<Presentation>, slide: Option<Slide>)

  const Start: ParserState := ParserState([], None, None)

  /** `p` with the open slide, if there is one, appended to its slides. */
  function Flush(p: Presentation, slide: Option<Slide>): Presentation {
    if slide.Some? then p.(slides := p.slides + [slide.value]) else p
  }

  /** One iteration of the loop. */
  function Step(st: ParserState, k: LineKind): ParserState {
    match k
    case TopicStart =>
      var done := if st.current.Some? then st.done + [Flush(st.current.value, st.slide)] else st.done;
      ParserState(done, Some(EmptyPresentation), None)
    case SlideStart =>
      var current := if st.current.Some? then Some(Flush(st.current.value, st.slide)) else None;
      ParserState(st.done, current, Some(EmptySlide))
    case SlideTitle(t) =>
      if st.slide.Some? then st.(slide := Some(st.slide.value.(title := t))) else st
    case PresentationTitle(t) =>
      if st.current.Some? then st.(current := Some(st.current.value.(title := t))) else st
    case Level(v) =>
      if st.current.Some? then st.(current := Some(st.current.value.(level := v))) else st
    case ModuleLine(m) =>
      if st.current.Some? then st.(current := Some(st.current.value.(moduleName := m))) else st
    case Content(text) =>
      if st.slide.Some? then st.(slide := Some(st.slide.value.(content := st.slide.value.content + [text]))) else st
    case Blank => st
  }

  function RunFrom(st: ParserState, ks: seq<LineKind>): ParserState
    decreases |ks|
  {
    if ks == [] then st else RunFrom(Step(st, ks[0]), ks[1..])
  }

  /** What happens after the loop: the open slide and the open presentation are flushed. */
  function Finish(st: ParserState): seq<Presentation> {
    if st.current.Some? then st.done + [Flush(st.current.value, st.slide)] else st.done
  }

  function ParseKinds(ks: seq<LineKind>): seq<Presentation> {
    Finish(RunFrom(Start, ks))
  }

  /** The value `parse_content(content)` returns. */
  function Parse(content: string): seq<Presentation> {
    ParseKinds(Kinds(Lines(content)))
  }

  /** `parse_content`: the loop itself, over the lines of `content`. */
  method ParseContent(content: string) returns (presentations: seq<Presentation>)
    ensures presentations == Parse(content)
    ensures presentations == Reference(Kinds(Lines(content)))
    ensures |presentations| == Count(Kinds(Lines(content)), TopicStart)
  {
    var lines := Lines(content);
    ghost var ks := Kinds(lines);
    ghost var target := ParseKinds(ks);
    presentations := [];
    var current: Option<Presentation> := None;
    var slide: Option<Slide> := None;
    for i := 0 to |lines|
      invariant Finish(RunFrom(ParserState(presentations, current, slide), ks[i..])) == target
    {
      assert ks[i..][0] == ks[i] == Classify(lines[i]) && ks[i..][1..] == ks[i + 1..];
      presentations, current, slide := ParseLine(presentations, current, slide, Classify(lines[i]));
    }
    if slide.Some? && current.Some? {
      current := Some(current.value.(slides := current.value.slides + [slide.value]));
    }
    if current.Some? {
      presentations := presentations + [current.value];
    }
    assert presentations == ParseKinds(ks);
    assert presentations == Reference(ks) && |presentations| == Count(ks, TopicStart) by {
      ParseMatchesReference(ks);
      ReferenceCount(ks);
    }
  }

  /** The body of the loop, for one classified line. */
  method ParseLine(presentations: seq<Presentation>, current: Option<Presentation>, slide: Option<Slide>, kind: LineKind)
    returns (presentations': seq<Presentation>, current': Option<Presentation>, slide': Option<Slide>)
    ensures ParserState(presentations', current', slide') == Step(ParserState(presentations, current, slide), kind)
  {
    presentations', current', slide' := presentations, current, slide;
    match kind {
      case TopicStart =>
        if current.Some? {
          var p := current.value;
          if slide.Some? {
            p := p.(slides := p.slides + [slide.value]);
          }
          presentations' := presentations + [p];
        }
        current' := Some(EmptyPresentation);
        slide' := None;
      case SlideStart =>
        if slide.Some? && current.Some? {
          current' := Some(current.value.(slides := current.value.slides + [slide.value]));
        }
        slide' := Some(EmptySlide);
      case SlideTitle(t) =>
        if slide.Some? {
          slide' := Some(slide.value.(title := t));
        }
      case PresentationTitle(t) =>
        if current.Some? {
          current' := Some(current.value.(title := t));
        }
      case Level(v) =>
        if current.Some? {
          current' := Some(current.value.(level := v));
        }
      case ModuleLine(m) =>
        if current.Some? {
          current' := Some(current.value.(moduleName := m));
        }
      case Content(text) =>
        if slide.Some? {
          slide' := Some(slide.value.(content := slide.value.content + [text]));
        }
      case Blank =>
    }
  }

  // ---------------------------------------------------------------------------
  // The reference description

  /** The lines before the first marker, and for each marker the lines up to the next one. */
  datatype Sections = Sections(before: seq<LineKind>, groups: seq<seq<LineKind>>)

  function SplitAt(ks: seq<LineKind>, marker: LineKind): Sections
    decreases |ks|
  {
    if ks == [] then Sections([], [])
    else
      var rest := SplitAt(ks[1..], marker);
      if ks[0] == marker then Sections([], [rest.before] + rest.groups)
      else Sections([ks[0]] + rest.before, rest.groups)
  }

  /** Puts the sections back together, writing the marker in front of each group. */
  function Unsplit(sec: Sections, marker: LineKind): seq<LineKind>
    decreases |sec.groups|
  {
    if sec.groups == [] then sec.before
    else sec.before + Unsplit(Sections([marker] + sec.groups[0], sec.groups[1..]), marker)
  }

  function Count(ks: seq<LineKind>, marker: LineKind): nat
    decreases |ks|
  {
    if ks == [] then 0 else (if ks[0] == marker then 1 else 0) + Count(ks[1..], marker)
  }

  /** The fields a line may set. */
  datatype Field = PresentationTitleField | LevelField | ModuleField | SlideTitleField

  /** The value line kind `k` writes to field `f`, if any. */
  function Written(k: LineKind, f: Field): Option<string> {
    match (k, f)
    case (PresentationTitle(t), PresentationTitleField) => Some(t)
    case (Level(v), LevelField) => Some(v)
    case (ModuleLine(m), ModuleField) => Some(m)
    case (SlideTitle(t), SlideTitleField) => Some(t)
    case _ => None
  }

  /** The last value any of `ks` writes to `f`, or `initial` when none does. */
  function LastWritten(ks: seq<LineKind>, f: Field, initial: string): string
    decreases |ks|
  {
    if ks == [] then initial
    else LastWritten(ks[1..], f, if Written(ks[0], f).Some? then Written(ks[0], f).value else initial)
  }

  /** The content lines among `ks`, in order. */
  function ContentOf(ks: seq<LineKind>): seq<string>
    decreases |ks|
  {
    if ks == [] then []
    else (if ks[0].Content? then [ks[0].text] else []) + ContentOf(ks[1..])
  }

  /** The slide made of the lines after one slide marker. */
  function BuildSlide(ks: seq<LineKind>): Slide {
    Slide(LastWritten(ks, SlideTitleField, ""), ContentOf(ks))
  }

  function BuildSlides(groups: seq<seq<LineKind>>): (r: seq<Slide>)
    ensures |r| == |groups|
    decreases |groups|
  {
    if groups == [] then [] else [BuildSlide(groups[0])] + BuildSlides(groups[1..])
  }

  /**
   * The presentation made of the lines after one topic marker: metadata lines
   * anywhere in it, inside slides too, set its fields; the lines before its
   * first slide marker contribute nothing else.
   */
  function BuildPresentation(ks: seq<LineKind>): Presentation {
    Presentation(
      LastWritten(ks, PresentationTitleField, ""),
      LastWritten(ks, LevelField, ""),
      LastWritten(ks, ModuleField, ""),
      BuildSlides(SplitAt(ks, SlideStart).groups))
  }

  function BuildPresentations(groups: seq<seq<LineKind>>): (r: seq<Presentation>)
    ensures |r| == |groups|
    decreases |groups|
  {
    if groups == [] then [] else [BuildPresentation(groups[0])] + BuildPresentations(groups[1..])
  }

  /** One presentation per topic marker, built from the lines up to the next; the lines before the first are ignored. */
  function Reference(ks: seq<LineKind>): seq<Presentation> {
    BuildPresentations(SplitAt(ks, TopicStart).groups)
  }

  // ---------------------------------------------------------------------------
  // The fold equals the reference

  /** Slide `s`, left open, after the further lines `ks` (which hold no marker). */
  function ResumeSlide(s: Slide, ks: seq<LineKind>): Slide {
    Slide(LastWritten(ks, SlideTitleField, s.title), s.content + ContentOf(ks))
  }

  /** Presentation `p` with open slide `slide`, after the further lines `ks` (which hold no topic marker). */
  function Resume(p: Presentation, slide: Option<Slide>, ks: seq<LineKind>): Presentation {
    var sec := SplitAt(ks, SlideStart);
    Presentation(
      LastWritten(ks, PresentationTitleField, p.title),
      LastWritten(ks, LevelField, p.level),
      LastWritten(ks, ModuleField, p.moduleName),
      p.slides + (if slide.Some? then [ResumeSlide(slide.value, sec.before)] else []) + BuildSlides(sec.groups))
  }

  function Pending(st: ParserState, ks: seq<LineKind>): seq<Presentation> {
    if st.current.Some? then [Resume(st.current.value, st.slide, ks)] else []
  }

  lemma ResumeFromEmpty(ks: seq<LineKind>)
    ensures Resume(EmptyPresentation, None, ks) == BuildPresentation(ks)
    ensures ResumeSlide(EmptySlide, ks) == BuildSlide(ks)
  {
    assert [] + [] + BuildSlides(SplitAt(ks, SlideStart).groups) == BuildSlides(SplitAt(ks, SlideStart).groups);
    assert [] + ContentOf(ks) == ContentOf(ks);
  }

  lemma ResumeSlideNothing(s: Slide)
    ensures ResumeSlide(s, []) == s
  {
    assert s.content + [] == s.content;
  }

  lemma ResumeNothing(p: Presentation, slide: Option<Slide>)
    ensures Resume(p, slide, []) == Flush(p, slide)
  {
    if slide.Some? {
      ResumeSlideNothing(slide.value);
    }
  }

  /** A slide marker closes the open slide and opens an empty one. */
  lemma ResumeSlideStart(p: Presentation, slide: Option<Slide>, ks: seq<LineKind>)
    ensures Resume(p, slide, [SlideStart] + ks) == Resume(Flush(p, slide), Some(EmptySlide), ks)
  {
    var sec := SplitAt(ks, SlideStart);
    assert ([SlideStart] + ks)[1..] == ks;
    assert SplitAt([SlideStart] + ks, SlideStart) == Sections([], [sec.before] + sec.groups);
    ResumeFromEmpty(sec.before);
    var done := if slide.Some? then [ResumeSlide(slide.value, [])] else [];
    if slide.Some? {
      ResumeSlideNothing(slide.value);
    }
    assert done == (if slide.Some? then [slide.value] else []);
    assert BuildSlides([sec.before] + sec.groups) == [BuildSlide(sec.before)] + BuildSlides(sec.groups);
    assert Flush(p, slide).slides == p.slides + done;
  }

  /** Any other line updates the open presentation and slide as `Step` does. */
  lemma ResumeOther(st: ParserState, k: LineKind, ks: seq<LineKind>)
    requires k != TopicStart && k != SlideStart
    requires st.current.Some?
    ensures Pending(Step(st, k), ks) == Pending(st, [k] + ks)
  {
    var p, slide := st.current.value, st.slide;
    var sec := SplitAt(ks, SlideStart);
    assert ([k] + ks)[1..] == ks;
    assert SplitAt([k] + ks, SlideStart) == Sections([k] + sec.before, sec.groups);
    assert ([k] + sec.before)[1..] == sec.before;
    if slide.Some? {
      var s := slide.value;
      assert ContentOf([k] + sec.before) == (if k.Content? then [k.text] else []) + ContentOf(sec.before);
      if k.Content? {
        assert s.content + ([k.text] + ContentOf(sec.before)) == (s.content + [k.text]) + ContentOf(sec.before);
      } else {
        assert s.content + ([] + ContentOf(sec.before)) == s.content + ContentOf(sec.before);
      }
    }
  }

  /** What one step of the pass does to the expected output. */
  lemma StepMatches(st: ParserState, k: LineKind, rest: seq<LineKind>)
    ensures var st', tail, sec := Step(st, k), SplitAt(rest, TopicStart), SplitAt([k] + rest, TopicStart);
      st'.done + Pending(st', tail.before) + BuildPresentations(tail.groups) ==
      st.done + Pending(st, sec.before) + BuildPresentations(sec.groups)
  {
    var tail := SplitAt(rest, TopicStart);
    assert ([k] + rest)[0] == k && ([k] + rest)[1..] == rest;
    if k == TopicStart {
      assert SplitAt([k] + rest, TopicStart) == Sections([], [tail.before] + tail.groups);
      TopicStartMatches(st, tail);
    } else {
      assert SplitAt([k] + rest, TopicStart) == Sections([k] + tail.before, tail.groups);
      if st.current.Some? {
        if k == SlideStart {
          ResumeSlideStart(st.current.value, st.slide, tail.before);
        } else {
          ResumeOther(st, k, tail.before);
        }
      }
    }
  }

  /** A topic marker closes the open presentation and opens an empty one. */
  lemma TopicStartMatches(st: ParserState, tail: Sections)
    ensures var st' := Step(st, TopicStart);
      st'.done + Pending(st', tail.before) + BuildPresentations(tail.groups) ==
      st.done + Pending(st, []) + BuildPresentations([tail.before] + tail.groups)
  {
    if st.current.Some? {
      ResumeNothing(st.current.value, st.slide);
    }
    ResumeFromEmpty(tail.before);
    assert BuildPresentations([tail.before] + tail.groups) == [BuildPresentation(tail.before)] + BuildPresentations(tail.groups);
  }

  /**
   * From any state, the rest of the pass yields the presentations already
   * done, the open one resumed through the lines before the next topic marker,
   * and one presentation per remaining topic marker.
   */
  lemma {:induction false} RunFromMatches(st: ParserState, ks: seq<LineKind>)
    ensures Finish(RunFrom(st, ks)) ==
            st.done + Pending(st, SplitAt(ks, TopicStart).before) + BuildPresentations(SplitAt(ks, TopicStart).groups)
    decreases |ks|
  {
    if ks == [] {
      if st.current.Some? {
        ResumeNothing(st.current.value, st.slide);
      }
    } else {
      RunFromMatches(Step(st, ks[0]), ks[1..]);
      StepMatches(st, ks[0], ks[1..]);
      assert [ks[0]] + ks[1..] == ks;
    }
  }

  /** The pass computes the reference description. */
  lemma ParseMatchesReference(ks: seq<LineKind>)
    ensures ParseKinds(ks) == Reference(ks)
  {
    RunFromMatches(Start, ks);
  }

  // ---------------------------------------------------------------------------
  // Properties of the reference

  /** Cutting at a marker loses nothing and reorders nothing, and no piece holds the marker. */
  lemma {:induction false} SplitAtRoundTrip(ks: seq<LineKind>, marker: LineKind)
    ensures Unsplit(SplitAt(ks, marker), marker) == ks
    ensures marker !in SplitAt(ks, marker).before
    ensures forall g :: g in SplitAt(ks, marker).groups ==> marker !in g
    decreases |ks|
  {
    if ks != [] {
      var rest := SplitAt(ks[1..], marker);
      SplitAtRoundTrip(ks[1..], marker);
      if ks[0] == marker {
        assert Unsplit(SplitAt(ks, marker), marker) == [] + Unsplit(Sections([marker] + rest.before, rest.groups), marker);
        UnsplitPrepend(rest, [marker], marker);
        assert ks == [marker] + ks[1..];
      } else {
        UnsplitPrepend(rest, [ks[0]], marker);
        assert ks == [ks[0]] + ks[1..];
      }
    }
  }

  lemma UnsplitPrepend(sec: Sections, pre: seq<LineKind>, marker: LineKind)
    ensures Unsplit(Sections(pre + sec.before, sec.groups), marker) == pre + Unsplit(sec, marker)
  {
    if sec.groups != [] {
      assert pre + sec.before + Unsplit(Sections([marker] + sec.groups[0], sec.groups[1..]), marker)
          == pre + (sec.before + Unsplit(Sections([marker] + sec.groups[0], sec.groups[1..]), marker));
    }
  }

  /** There is one group per marker. */
  lemma {:induction false} SplitAtCount(ks: seq<LineKind>, marker: LineKind)
    ensures |SplitAt(ks, marker).groups| == Count(ks, marker)
    decreases |ks|
  {
    if ks != [] {
      SplitAtCount(ks[1..], marker);
    }
  }

  /** The number of presentations is the number of topic-marker lines. */
  lemma ReferenceCount(ks: seq<LineKind>)
    ensures |Reference(ks)| == Count(ks, TopicStart)
  {
    SplitAtCount(ks, TopicStart);
  }

  lemma {:induction false} SplitAtWithPreamble(pre: seq<LineKind>, ks: seq<LineKind>, marker: LineKind)
    requires marker !in pre
    ensures SplitAt(pre + ks, marker).groups == SplitAt(ks, marker).groups
    decreases |pre|
  {
    if pre == [] {
      assert pre + ks == ks;
    } else {
      assert (pre + ks)[0] == pre[0] != marker;
      assert (pre + ks)[1..] == pre[1..] + ks;
      SplitAtWithPreamble(pre[1..], ks, marker);
    }
  }

  /**
   * Lines before the first topic marker, slide markers and content among them,
   * never reach the output: a slide opened there is never flushed.
   */
  lemma PreambleIgnored(pre: seq<LineKind>, ks: seq<LineKind>)
    requires TopicStart !in pre
    ensures ParseKinds(pre + ks) == ParseKinds(ks)
  {
    ParseMatchesReference(pre + ks);
    ParseMatchesReference(ks);
    SplitAtWithPreamble(pre, ks, TopicStart);
  }

  /** Without a topic marker the output is empty, whatever slides the text opens. */
  lemma {:induction false} NoTopicNoPresentations(ks: seq<LineKind>)
    requires TopicStart !in ks
    ensures ParseKinds(ks) == []
  {
    PreambleIgnored(ks, []);
    assert ks + [] == ks;
  }

  /** Last write wins: a field holds the value of the last line that writes it. */
  lemma {:induction false} LastWrittenAppend(ks: seq<LineKind>, k: LineKind, f: Field, initial: string)
    ensures LastWritten(ks + [k], f, initial) ==
            if Written(k, f).Some? then Written(k, f).value else LastWritten(ks, f, initial)
    decreases |ks|
  {
    if ks != [] {
      assert (ks + [k])[1..] == ks[1..] + [k];
      LastWrittenAppend(ks[1..], k, f, if Written(ks[0], f).Some? then Written(ks[0], f).value else initial);
    }
  }

  /** A field no line writes keeps its initial value. */
  lemma {:induction false} LastWrittenUntouched(ks: seq<LineKind>, f: Field, initial: string)
    requires forall i :: 0 <= i < |ks| ==> Written(ks[i], f).None?
    ensures LastWritten(ks, f, initial) == initial
    decreases |ks|
  {
    if ks != [] {
      LastWrittenUntouched(ks[1..], f, initial);
    }
  }

  /** The content lines kept are exactly the `Content` lines, in order. */
  lemma {:induction false} ContentOfAppend(ks: seq<LineKind>, k: LineKind)
    ensures ContentOf(ks + [k]) == ContentOf(ks) + (if k.Content? then [k.text] else [])
    decreases |ks|
  {
    if ks != [] {
      assert (ks + [k])[1..] == ks[1..] + [k];
      ContentOfAppend(ks[1..], k);
    }
  }
}
