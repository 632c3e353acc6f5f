# Presentation generator — a Dafny model of its text processing

`presentation_generator.py` turns one structured text file into a series of
PowerPoint decks. Lines starting with `##-TOPIC-START-##` open a presentation,
`#-SLIDE-START-#` opens a slide, and `TITLE::`, `Практическая работа`,
`Уровень:` and `Модуль` lines fill in titles and metadata. Every other
non-empty line is slide content. Inside a slide, `[CODE_BLOCK]` …
`[/CODE_BLOCK]` groups lines into one code paragraph, `- ` lines become
bullet items, and lines holding one of five keywords are bold. Each deck is
saved as `presentation_{i:02d}_{slug}.pptx`.

This project models everything the program decides about the text. The
drawing and the saving are not modelled. The modules follow the program:

- `Text`: the Python string operations the program uses, written out over
  `seq<char>`. These are `str.isspace`, `strip`, `startswith`, `in`,
  `replace(old, '')`, `split('\n')` and `join`.
- `Parser`: `parse_content`. The loop is the method `ParseContent`. It is
  proved equal to a fold of one step per line (`Parse`). The fold is proved
  equal to an independent description (`Reference`): cut the lines at topic
  markers, cut each topic at slide markers, and let every field take the
  last value written to it.
- `Render`: what `create_content_slide` and `add_code_block` put in a
  slide's text box, as a list of items: paragraph, bullet or code block,
  each with its bold flag. It also covers `should_bold_text`.
- `Naming`: the subtitle of the title slide, and the file name with its
  slug and zero-padded index.
- `Generator`: `generate_presentations`' loops, which build one deck value
  per parsed presentation.

`PresentationGenerator` has no field that changes after construction. So the
model has no class; its constants are module constants. `parse_content`
builds dictionaries and lists and mutates them. Each dictionary is added to
its list only after its last update, so the model uses immutable values that
the loop reassigns.

## Model

| member | source | states |
|---|---|---|
| Text.Strip | presentation_generator.py:45 | `strip()` never lengthens a line, and the result neither starts nor ends with whitespace |
| Text.StripIsSlice | presentation_generator.py:45 | the stripped line is a contiguous slice of the line, starting where the leading whitespace ends |
| Text.StripRemovesBackSpace | presentation_generator.py:45 | every character `strip()` drops after the kept slice is whitespace |
| Text.StripUnchanged | presentation_generator.py:45 | a line with no whitespace at either end is its own strip |
| Text.StripIdempotent | presentation_generator.py:45 | stripping twice is stripping once |
| Text.ContainsIffOccurs | presentation_generator.py:129 | `keyword in text` holds exactly when the keyword occurs at some position of the text |
| Text.Contains | presentation_generator.py:129 | the `in` substring test; what it means is stated by `ContainsIffOccurs` |
| Text.RemoveAll | presentation_generator.py:77 | `replace(p, '')` never lengthens the string and leaves a string without `p` unchanged |
| Text.RemoveFirst | presentation_generator.py:77 | `replace(p, '')` keeps the text before the first occurrence of `p`, deletes that occurrence and treats the rest alike; with the unchanged case this deletes every non-overlapping occurrence, left to right, wherever it is |
| Text.RemoveAllOfPrefix | presentation_generator.py:87 | a line with the prefix once, at its start, loses exactly that prefix |
| Text.SplitOn | presentation_generator.py:42 | `split('\n')` gives at least one piece, and no piece holds a newline |
| Text.JoinSplitOn | presentation_generator.py:42 | joining the pieces of `split('\n')` with newlines gives back the text |
| Text.SplitOnJoin | presentation_generator.py:42 | splitting newline-free pieces joined by newlines gives back the pieces |
| Text.JoinWith | presentation_generator.py:215 | `sep.join(parts)`, used for code blocks and the subtitle; its inverse is stated by `JoinSplitOn` and `SplitOnJoin`, its subtitle cases by `SubtitleCases` |
| Text.WordIsNotSeparator | presentation_generator.py:252-253 | a word character is neither whitespace nor `-` |
| Parser.Classify | presentation_generator.py:45-96 | the first matching test decides a line's kind (the metadata kinds in `ClassifyMetadata`): a topic start iff the stripped line starts with `##-TOPIC-START-##`, a slide start iff it starts with `#-SLIDE-START-#` and not the topic marker, blank iff it is empty, content iff it is non-empty and has none of the six prefixes; the slide title and level are the stripped line with every `TITLE::` or `Уровень:` deleted, stripped again; content, presentation-title and module values are the stripped line |
| Parser.ClassifyMetadata | presentation_generator.py:74-92 | a line is a slide title, presentation title, level or module line exactly when its stripped form starts with that prefix and with none of the prefixes tested before it |
| Parser.ParseContent | presentation_generator.py:36-104 | the loop returns the fold over the lines, equals the reference description, and returns one presentation per topic marker |
| Parser.ParseLine | presentation_generator.py:47-96 | one iteration of the `if/elif` chain updates the three loop variables as one step of the fold |
| Parser.Step | presentation_generator.py:47-96 | one iteration of the loop as a function; `StepMatches` and `RunFromMatches` relate it to the reference description |
| Parser.Flush | presentation_generator.py:49-52 | the open slide is appended to the presentation before it is saved or a new slide starts; its effect is stated by `ResumeNothing` and `ResumeSlideStart` |
| Parser.ParseMatchesReference | presentation_generator.py:36-104 | the fold equals the split-at-markers, last-write-wins description for every sequence of lines |
| Parser.RunFromMatches | presentation_generator.py:44-104 | from any state, the rest of the loop plus the final flush give the pending presentation followed by the reference presentations of the remaining topics |
| Parser.StepMatches | presentation_generator.py:47-96 | one step keeps the loop state in agreement with the reference description |
| Parser.ReferenceCount | presentation_generator.py:47-61 | there are as many presentations as topic markers |
| Parser.SplitAtRoundTrip | presentation_generator.py:47-72 | cutting at a marker loses no line; no piece holds the marker |
| Parser.SplitAtCount | presentation_generator.py:47-61 | cutting at a marker gives one group per marker |
| Parser.PreambleIgnored | presentation_generator.py:61-72 | lines before the first topic marker change nothing: a slide opened there may take a title and content, but it is never flushed, because line 65 needs an open presentation and line 61 drops the open slide |
| Parser.NoTopicNoPresentations | presentation_generator.py:101-104 | text without a topic marker yields no presentation |
| Parser.LastWrittenAppend | presentation_generator.py:74-92 | a later title, level or module line overwrites the field it writes, and any other line leaves it |
| Parser.LastWrittenUntouched | presentation_generator.py:74-92 | a field no line writes keeps its initial empty value |
| Parser.ContentOfAppend | presentation_generator.py:94-96 | content lines are appended to the slide in input order |
| Render.ShouldBoldText | presentation_generator.py:126-131 | the keyword loop answers true exactly when one of the keywords of line 34 occurs in the text |
| Render.TextItemShows | presentation_generator.py:191-206 | a line outside a code block is a bullet iff its stripped form starts with `- `; a bullet shows `• ` and the stripped line after `- `; a paragraph shows the line as it is; bold iff a keyword occurs in the line |
| Render.TextItem | presentation_generator.py:191-206 | the item a line outside a code block becomes; stated by `TextItemShows` |
| Render.AddCodeBlock | presentation_generator.py:210-215 | an empty block adds nothing; otherwise exactly one code paragraph is appended, showing the lines joined by newlines, and the earlier items are kept |
| Render.CreateContentItems | presentation_generator.py:165-206 | the loop gives the fold's items, and the result holds neither an empty code block nor a delimiter line |
| Render.RenderedWellFormed | presentation_generator.py:165-215 | no slide shows an empty code block or a `[CODE_BLOCK]`/`[/CODE_BLOCK]` line |
| Render.RenderFromWellFormed | presentation_generator.py:169-182 | the loop keeps its state well formed: no delimiter is ever buffered or shown |
| Render.RenderStep | presentation_generator.py:169-182 | one iteration of the content loop; stated by `RenderFromWellFormed`, `PlainInOrder`, `PlainBuffered`, `CodeRolesEmitted` and `UnclosedBlockLost` |
| Render.RolesClassified | presentation_generator.py:170-179 | a line that is not taken as a delimiter is not one once stripped |
| Render.PlainRole | presentation_generator.py:170-197 | a line that is not a delimiter is shown as its text item |
| Render.PlainSlide | presentation_generator.py:181-206 | content with no delimiter shows one item per line, in order |
| Render.PlainInOrder | presentation_generator.py:181-206 | outside a code block, each plain line adds its item after the earlier ones |
| Render.PlainBuffered | presentation_generator.py:181-182 | inside a code block, plain lines are buffered unchanged and in order |
| Render.CodeBlockEmitted | presentation_generator.py:170-182 | an opening line, plain lines and a closing line add one code paragraph of exactly those lines, or nothing when there are none, and the loop goes on outside a block |
| Render.CodeRolesEmitted | presentation_generator.py:170-182 | the same step over classified lines |
| Render.RolesOfBlock | presentation_generator.py:170-174 | the delimiters of a block are classified as such and the lines between keep their own classification |
| Render.CodeTextRoundTrip | presentation_generator.py:215 | splitting a code paragraph's text at newlines gives back its newline-free lines |
| Render.UnterminatedBlockLost | presentation_generator.py:170-182 | a code block that is never closed adds nothing to the slide |
| Render.UnclosedBlockLost | presentation_generator.py:181-182 | with no closing line left, nothing more is shown once a block is open |
| Naming.SubtitleCases | presentation_generator.py:236-242 | the subtitle is empty iff level and module are both empty; it is `Уровень: <level>`, `<module>` or `Уровень: <level> \| <module>` as the fields are present |
| Naming.Subtitle | presentation_generator.py:236-242 | the subtitle of the title slide; its four cases are stated by `SubtitleCases` |
| Naming.KeepSlugCharsKept | presentation_generator.py:252 | after the first substitution only word, whitespace and `-` characters remain |
| Naming.KeepSlugChars | presentation_generator.py:252 | `re.sub(r'[^\w\s-]', '', title)`; stated by `KeepKept`, `KeepNone`, `KeepAppend` and `KeepSlugCharsKept` |
| Naming.DropSeparators | presentation_generator.py:253 | a run of separators is a prefix made only of whitespace and `-`, and what follows does not start with one |
| Naming.KeepKept | presentation_generator.py:252 | the first substitution keeps every word, whitespace and `-` character (so `_` too) |
| Naming.KeepNone | presentation_generator.py:252 | the first substitution deletes every character outside words, whitespace and `-` |
| Naming.KeepAppend | presentation_generator.py:252 | the first substitution decides each character on its own, so with the two lemmas above it is exactly the `[\w\s-]` filter |
| Naming.DropRun | presentation_generator.py:253 | a maximal run of separators is consumed whole, leaving what follows it |
| Naming.CollapseRun | presentation_generator.py:253 | a maximal run of `-` and whitespace becomes exactly one `_` |
| Naming.CollapseCopies | presentation_generator.py:253 | characters other than `-` and whitespace are copied unchanged |
| Naming.SlugOfTwoWords | presentation_generator.py:252-253 | two words apart by any run of `-` and whitespace become the words joined by one `_` |
| Naming.CollapseChars | presentation_generator.py:253 | after the second substitution each character is an inserted `_` or a non-separator from its input |
| Naming.CollapseSeparators | presentation_generator.py:253 | `re.sub(r'[-\s]+', '_', ...)`; stated by `CollapseRun`, `CollapseCopies` and `CollapseChars` |
| Naming.Slug | presentation_generator.py:252-253 | the safe title; stated by `SlugIsWord`, `SlugKeepsSignificant`, `SlugOfTwoWords`, `WordsAreSlug` and `SlugIdempotent` |
| Naming.StripKeepsKept | presentation_generator.py:252 | `strip()` keeps only characters the first substitution kept |
| Naming.SlugIsWord | presentation_generator.py:252-253 | every character of the slug is a word character, so it holds no whitespace and no `-` |
| Naming.KeepPreservesSignificant | presentation_generator.py:252 | the first substitution keeps every letter and digit, in order |
| Naming.StripPreservesSignificant | presentation_generator.py:252 | `strip()` keeps every letter and digit, in order |
| Naming.CollapsePreservesSignificant | presentation_generator.py:253 | the second substitution keeps every letter and digit, in order |
| Naming.SlugKeepsSignificant | presentation_generator.py:252-253 | the slug has exactly the title's letters and digits, in order |
| Naming.WordsAreSlug | presentation_generator.py:252-253 | a title made only of word characters is its own slug |
| Naming.SlugIdempotent | presentation_generator.py:252-253 | the slug of a slug is itself |
| Naming.Decimal | presentation_generator.py:254 | the decimal form of a number is a non-empty digit string (value in `DecimalRoundTrip`, no leading zero in `NoLeadingZero`) |
| Naming.NoLeadingZero | presentation_generator.py:254 | the decimal form of a number starts with `0` only when the number is below 10 |
| Naming.ZeroPad2 | presentation_generator.py:254 | `{i:02d}` is at least two digits (exact form in `ZeroPad2Width`) |
| Naming.DecimalRoundTrip | presentation_generator.py:254 | reading the decimal form back gives the number |
| Naming.LeadingZero | presentation_generator.py:254 | a leading `0` does not change the value of a digit string |
| Naming.ZeroPad2RoundTrip | presentation_generator.py:254 | reading `{i:02d}` back gives `i` |
| Naming.ZeroPad2Width | presentation_generator.py:254 | `{i:02d}` puts one `0` before a single digit and nothing before two or more digits, so it has exactly two digits below 100 and, from 10 on, no leading zero |
| Naming.TakeDigits | presentation_generator.py:254 | the leading digits of a string: a prefix, all digits, followed by a non-digit or the end |
| Naming.TakeDigitsOf | presentation_generator.py:254 | the leading digits of digits followed by a non-digit are those digits |
| Naming.NumberedRoundTrip | presentation_generator.py:254 | `<digits>_<slug>` reads back as the number and the slug |
| Naming.FramedRoundTrip | presentation_generator.py:254 | a name with the `presentation_` prefix and `.pptx` suffix is read by its middle part |
| Naming.FileNameRoundTrip | presentation_generator.py:252-254 | the file name reads back as the presentation's index and its title's slug |
| Naming.FileName | presentation_generator.py:254 | the file name; stated by `FileNameRoundTrip` and `FileNamesDistinct` |
| Naming.FileNamesDistinct | presentation_generator.py:254 | presentations with different indices get different file names, whatever their titles |
| Generator.Number | presentation_generator.py:230 | `enumerate(..., 1)` numbers every presentation with a positive number |
| Generator.DeckAt | presentation_generator.py:230 | there is one deck per presentation; the deck at position `j` is presentation `j`'s, numbered `j + 1` |
| Generator.MakeSlides | presentation_generator.py:246-249 | one content slide per parsed slide, in order, each with the slide's title and the items its content renders to |
| Generator.MakeDeck | presentation_generator.py:234-254 | a deck has the presentation's title, its subtitle, its content slides and its file name |
| Generator.DeckOf | presentation_generator.py:234-254 | the deck of one presentation; `MakeDeck` computes it, and `DeckNames` and `DeckWellFormed` state its name and slides |
| Generator.MakeDecks | presentation_generator.py:230-254 | one deck per presentation, numbered from 1 in order |
| Generator.GeneratePresentations | presentation_generator.py:221-259 | parse then build the decks: one per topic marker, and no two saved under the same name |
| Generator.DeckNames | presentation_generator.py:251-254 | a deck's file name reads back as its number and slug, and decks with different numbers have different names |
| Generator.DeckPairApart | presentation_generator.py:230-254 | two decks at different positions have different file names |
| Generator.DecksNamedApart | presentation_generator.py:230-254 | no two decks of one run are saved under the same name, so none overwrites another |
| Generator.DeckWellFormed | presentation_generator.py:246-249 | no content slide of a deck shows a delimiter line or an empty code block |

## Left out

- Drawing with python-pptx is not modelled: layouts, text boxes, positions, fonts, sizes and colours (lines 106-124, 133-163, 199-202, 216-219). Neither is `create_title_slide`; a deck records the title and subtitle it would show.
- `first_paragraph` (lines 167, 178, 185-189) only decides whether a paragraph reuses the text frame's first, empty paragraph or adds a new one. So the model does not capture one thing: line 178 clears `first_paragraph` on every `[/CODE_BLOCK]` line, even when `add_code_block` adds nothing. Whenever such a line comes before the first line shown outside a block, the frame keeps an empty paragraph before the items.
- File-system and console effects are not modelled: `os.makedirs`, `prs.save`, `print` and the returned list of paths (lines 226, 255-262). `os.path.join(output_dir, filename)` is modelled by the file name alone.
- The command-line entry point is not modelled: `argparse`, reading the input file and `main`.
- `Text.IsWord`: counts only ASCII letters and digits, `_` and the basic Cyrillic letters as word characters. Python's `\w` also matches letters and digits of every other script, which the model's slug drops.
- `Generator.DeckOf`: the defaults of `get('title', f'Презентация {i}')`, `get('slides', [])`, `get('title', 'Слайд')` and `get('content', [])` (lines 235, 246-248) are not modelled. `parse_content` always sets those keys, so the defaults are never used.
- `Generator.GeneratePresentations`: proves that names differ within one run. It says nothing about files already in the output directory, which `prs.save` would overwrite.
