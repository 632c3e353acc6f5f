/**
 * `PresentationGenerator.generate_presentations` without the drawing and the
 * saving: each parsed presentation, numbered from 1, becomes a deck with a
 * title slide (the title and the subtitle), one content slide per parsed
 * slide (its title and its paragraphs), and the file name it is saved under.
 */
module Generator {
  import opened Text
  import opened Parser
  import opened Render
  import opened Naming

  /** A content slide as drawn: its title and the paragraphs of its text box. */
  datatype ContentSlide = ContentSlide(title: string, items: seq<Item>)

  /** One saved deck. An empty subtitle is not shown on the title slide. */
  datatype Deck = Deck(fileName: string, title: string, subtitle: string, slides: seq<ContentSlide>)

  function SlideOf(s: Slide): ContentSlide {
    ContentSlide(s.title, RenderItems(s.content))
  }

  function SlidesOf(slides: seq<Slide>): seq<ContentSlide> {
    seq(|slides|, m requires 0 <= m < |slides| => SlideOf(slides[m]))
  }

  /** The deck for the presentation numbered `index`. */
  function DeckOf(index: nat, p: Presentation): Deck {
    Deck(FileName(index, p.title), p.title, Subtitle(p.level, p.moduleName), SlidesOf(p.slides))
  }

  /** `enumerate(..., 1)`: the number of the presentation at position `j`. */
  function Number(j: nat): (n: nat)
    ensures n > 0
  {
    j + 1
  }

  /** The decks made from the parsed presentations, numbered from 1 in order. */
  function Decks(ps: seq<Presentation>): seq<Deck> {
    seq(|ps|, j requires 0 <= j < |ps| => DeckOf(Number(j), ps[j]))
  }

  lemma DeckAt(ps: seq<Presentation>, j: nat)
    requires j < |ps|
    ensures |Decks(ps)| == |ps| && Decks(ps)[j] == DeckOf(Number(j), ps[j])
  {
  }

  /** One more element of `s` extends its prefix by that element. */
  lemma PrefixStep<T>(s: seq<T>, i: nat)
    requires i < |s|
    ensures s[..i + 1] == s[..i] + [s[i]]
  {
  }

  /** The inner loop of `generate_presentations`: one content slide per parsed slide, in order. */
  method MakeSlides(slides: seq<Slide>) returns (contentSlides: seq<ContentSlide>)
    ensures contentSlides == SlidesOf(slides)
  {
    ghost var target := SlidesOf(slides);
    contentSlides := [];
    for m := 0 to |slides|
      invariant contentSlides == target[..m]
    {
      var items := CreateContentItems(slides[m].content);
      PrefixStep(target, m);
      contentSlides := contentSlides + [ContentSlide(slides[m].title, items)];
    }
  }

  /** The body of `generate_presentations`' loop for one presentation, without the drawing. */
  method MakeDeck(index: nat, p: Presentation) returns (deck: Deck)
    ensures deck == DeckOf(index, p)
  {
    var subtitle := Subtitle(p.level, p.moduleName);
    var slides := MakeSlides(p.slides);
    deck := Deck(FileName(index, p.title), p.title, subtitle, slides);
  }

  /** `generate_presentations`' loop: one deck per presentation, numbered from 1, in order. */
  method MakeDecks(presentations: seq<Presentation>) returns (decks: seq<Deck>)
    ensures decks == Decks(presentations)
  {
    ghost var target := Decks(presentations);
    decks := [];
    for i := 0 to |presentations|
      invariant decks == target[..i]
    {
      var deck := MakeDeck(Number(i), presentations[i]);
      PrefixStep(target, i);
      decks := decks + [deck];
    }
  }

  /** Decks with different numbers are saved under different names, and each name gives back its number and slug. */
  lemma DeckNames(i: nat, j: nat, p: Presentation, q: Presentation)
    ensures ParseFileName(DeckOf(i, p).fileName) == PresentationFile(i, Slug(p.title))
    ensures i != j ==> DeckOf(i, p).fileName != DeckOf(j, q).fileName
  {
    FileNameRoundTrip(i, p.title);
    FileNameRoundTrip(j, q.title);
  }

  lemma DeckPairApart(ps: seq<Presentation>, j: nat, k: nat)
    requires j < k < |ps|
    ensures Decks(ps)[j].fileName != Decks(ps)[k].fileName
  {
    DeckAt(ps, j);
    DeckAt(ps, k);
    DeckNames(Number(j), Number(k), ps[j], ps[k]);
  }

  /** No two decks are saved under the same name. */
  lemma DecksNamedApart(ps: seq<Presentation>)
    ensures forall j, k :: 0 <= j < k < |Decks(ps)| ==> Decks(ps)[j].fileName != Decks(ps)[k].fileName
  {
    forall j, k | 0 <= j < k < |Decks(ps)|
      ensures Decks(ps)[j].fileName != Decks(ps)[k].fileName
    {
      DeckPairApart(ps, j, k);
    }
  }

  /** `generate_presentations`: parse, then make the decks; no two are saved under the same name. */
  method GeneratePresentations(content: string) returns (decks: seq<Deck>)
    ensures decks == Decks(Parse(content))
    ensures |decks| == Count(Kinds(Lines(content)), TopicStart)
    ensures forall j, k :: 0 <= j < k < |decks| ==> decks[j].fileName != decks[k].fileName
  {
    var presentations := ParseContent(content);
    decks := MakeDecks(presentations);
    DecksNamedApart(presentations);
  }

  /** No slide of a deck shows a delimiter line or an empty code block. */
  lemma DeckWellFormed(index: nat, p: Presentation)
    ensures forall m :: 0 <= m < |DeckOf(index, p).slides| ==> WellFormed(DeckOf(index, p).slides[m].items)
  {
    forall m | 0 <= m < |p.slides|
      ensures WellFormed(DeckOf(index, p).slides[m].items)
    {
      RenderedWellFormed(p.slides[m].content);
    }
  }
}
