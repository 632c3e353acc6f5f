/**
 * The texts `generate_presentations` derives from a parsed presentation: the
 * title slide's subtitle and the name of the file the deck is saved under,
 * `presentation_{i:02d}_{slug}.pptx`.
 *
 * The slug is the title after `re.sub(r'[^\w\s-]', '', title).strip()` and
 * then `re.sub(r'[-\s]+', '_', ...)`: characters outside words, whitespace and
 * `-` are deleted, whitespace is stripped at both ends, and every run of `-`
 * and whitespace becomes one `_`.
 */
module Naming {
  import opened Text

  const LevelLabel: string := "Уровень: "
  const SubtitleSeparator: string := " | "
  const FilePrefix: string := "presentation_"
  const FileSuffix: string := ".pptx"

  // ---------------------------------------------------------------------------
  // Subtitle

  /** The non-empty ones among the level, labelled, and the module, in that order. */
  function SubtitleParts(level: string, moduleName: string): seq<string> {
    (if level != [] then [LevelLabel + level] else []) + (if moduleName != [] then [moduleName] else [])
  }

  /** `' | '.join(subtitle_parts) if subtitle_parts else ""`. */
  function Subtitle(level: string, moduleName: string): string {
    var parts := SubtitleParts(level, moduleName);
    if parts != [] then JoinWith(parts, SubtitleSeparator) else ""
  }

  /**
   * The subtitle is empty exactly when both fields are; otherwise it shows the
   * labelled level, the module, or both with ` | ` between them.
   */
  lemma SubtitleCases(level: string, moduleName: string)
    ensures Subtitle(level, moduleName) == "" <==> level == "" && moduleName == ""
    ensures level != "" && moduleName == "" ==> Subtitle(level, moduleName) == LevelLabel + level
    ensures level == "" ==> Subtitle(level, moduleName) == moduleName
    ensures level != "" && moduleName != "" ==>
      Subtitle(level, moduleName) == LevelLabel + level + SubtitleSeparator + moduleName
  {
    if level != "" && moduleName != "" {
      var parts := SubtitleParts(level, moduleName);
      assert parts == [LevelLabel + level, moduleName] && parts[1..] == [moduleName];
      assert JoinWith(parts[1..], SubtitleSeparator) == moduleName;
    } else if level != "" {
      assert SubtitleParts(level, moduleName) == [LevelLabel + level];
    } else if moduleName != "" {
      assert SubtitleParts(level, moduleName) == [moduleName];
    }
  }

  // ---------------------------------------------------------------------------
  // Slug

  /** The characters `[-\s]` matches. */
  predicate IsSeparator(c: char) {
    IsSpace(c) || c == '-'
  }

  /** The characters `[\w\s-]` matches. */
  predicate Kept(c: char) {
    IsWord(c) || IsSeparator(c)
  }

  /** `re.sub(r'[^\w\s-]', '', s)`: deletes every character outside words, whitespace and `-`. */
  function KeepSlugChars(s: string): string {
    if s == [] then []
    else (if Kept(s[0]) then [s[0]] else []) + KeepSlugChars(s[1..])
  }

  lemma {:induction false} KeepSlugCharsKept(s: string)
    ensures forall k :: 0 <= k < |KeepSlugChars(s)| ==> Kept(KeepSlugChars(s)[k])
  {
    if s != [] {
      KeepSlugCharsKept(s[1..]);
    }
  }

  /** The longest prefix of separators, dropped. */
  function DropSeparators(s: string): (r: string)
    ensures |r| <= |s| && r == s[|s| - |r|..]
    ensures forall k :: 0 <= k < |s| - |r| ==> IsSeparator(s[k])
    ensures r == [] || !IsSeparator(r[0])
  {
    if s != [] && IsSeparator(s[0]) then DropSeparators(s[1..]) else s
  }

  /** `re.sub(r'[-\s]+', '_', s)`: every maximal run of separators becomes one `_`. */
  function CollapseSeparators(s: string): string
    decreases |s|
  {
    if s == [] then []
    else if IsSeparator(s[0]) then "_" + CollapseSeparators(DropSeparators(s))
    else [s[0]] + CollapseSeparators(s[1..])
  }

  /** Collapsing leaves no separator: each character is a new `_` or one of `s` that is no separator. */
  lemma {:induction false} CollapseChars(s: string)
    ensures forall k :: 0 <= k < |CollapseSeparators(s)| ==>
      CollapseSeparators(s)[k] == '_' || (CollapseSeparators(s)[k] in s && !IsSeparator(CollapseSeparators(s)[k]))
    decreases |s|
  {
    if s != [] {
      if IsSeparator(s[0]) {
        var rest := DropSeparators(s);
        CollapseChars(rest);
        assert forall c :: c in rest ==> c in s;
      } else {
        CollapseChars(s[1..]);
        assert forall c :: c in s[1..] ==> c in s;
      }
    }
  }

  /** The `safe_title` of the file name. */
  function Slug(title: string): string {
    CollapseSeparators(Strip(KeepSlugChars(title)))
  }

  /** Stripping keeps only characters of the string it strips. */
  lemma StripKeepsKept(s: string)
    requires forall k :: 0 <= k < |s| ==> Kept(s[k])
    ensures forall k :: 0 <= k < |Strip(s)| ==> Kept(Strip(s)[k])
  {
    forall k | 0 <= k < |Strip(s)|
      ensures Kept(Strip(s)[k])
    {
      StripChar(s, k);
    }
  }

  /** Every character of a slug is a word character, so a slug holds no `-` and no whitespace. */
  lemma SlugIsWord(title: string)
    ensures forall k :: 0 <= k < |Slug(title)| ==> IsWord(Slug(title)[k])
    ensures forall k :: 0 <= k < |Slug(title)| ==> Slug(title)[k] != '-' && !IsSpace(Slug(title)[k])
  {
    var kept := KeepSlugChars(title);
    var stripped := Strip(kept);
    KeepSlugCharsKept(title);
    StripKeepsKept(kept);
    CollapseChars(stripped);
    forall c | c in stripped
      ensures Kept(c)
    {
    }
    forall k | 0 <= k < |Slug(title)|
      ensures IsWord(Slug(title)[k])
    {
    }
    forall k | 0 <= k < |Slug(title)|
      ensures Slug(title)[k] != '-' && !IsSpace(Slug(title)[k])
    {
      WordIsNotSeparator(Slug(title)[k]);
    }
  }

  /** A letter or digit: a word character other than `_`. */
  predicate Significant(c: char) {
    IsWord(c) && c != '_'
  }

  /** The letters and digits of `s`, in order. */
  function SignificantChars(s: string): string {
    if s == [] then []
    else (if Significant(s[0]) then [s[0]] else []) + SignificantChars(s[1..])
  }

  lemma {:induction false} SignificantAppend(a: string, b: string)
    ensures SignificantChars(a + b) == SignificantChars(a) + SignificantChars(b)
  {
    if a == [] {
      assert a + b == b;
    } else {
      assert (a + b)[0] == a[0] && (a + b)[1..] == a[1..] + b;
      SignificantAppend(a[1..], b);
    }
  }

  lemma {:induction false} NoSignificant(s: string)
    requires forall k :: 0 <= k < |s| ==> !Significant(s[k])
    ensures SignificantChars(s) == []
  {
    if s != [] {
      NoSignificant(s[1..]);
    }
  }

  lemma {:induction false} KeepPreservesSignificant(s: string)
    ensures SignificantChars(KeepSlugChars(s)) == SignificantChars(s)
  {
    if s != [] {
      var head := if Kept(s[0]) then [s[0]] else [];
      KeepPreservesSignificant(s[1..]);
      SignificantAppend(head, KeepSlugChars(s[1..]));
    }
  }

  lemma StripPreservesSignificant(s: string)
    ensures SignificantChars(Strip(s)) == SignificantChars(s)
  {
    StripIsSlice(s);
    StripRemovesBackSpace(s);
    var off := StripOffset(s);
    var end := off + |Strip(s)|;
    assert forall k :: 0 <= k < off ==> IsSpace(s[k]);
    SignificantOfSlice(s, off, end);
  }

  /** Dropping characters that are no letter or digit at both ends of `s` keeps its letters and digits. */
  lemma SignificantOfSlice(s: string, off: nat, end: nat)
    requires off <= end <= |s|
    requires forall k :: 0 <= k < off ==> IsSpace(s[k])
    requires forall k :: end <= k < |s| ==> IsSpace(s[k])
    ensures SignificantChars(s[off..end]) == SignificantChars(s)
  {
    var front, mid, back := s[..off], s[off..end], s[end..];
    SliceParts(s, off, end);
    forall k | 0 <= k < |front|
      ensures !Significant(front[k])
    {
      SpaceNotSignificant(s[k]);
    }
    forall k | 0 <= k < |back|
      ensures !Significant(back[k])
    {
      SpaceNotSignificant(s[end + k]);
    }
    SignificantAround(front, mid, back);
  }

  lemma SliceParts<T>(s: seq<T>, i: nat, j: nat)
    requires i <= j <= |s|
    ensures s == s[..i] + s[i..j] + s[j..]
  {
  }

  lemma SpaceNotSignificant(c: char)
    requires IsSpace(c)
    ensures !Significant(c)
  {
    if IsWord(c) {
      WordIsNotSeparator(c);
    }
  }

  /** Characters that are no letter or digit, on either side, add none. */
  lemma SignificantAround(front: string, mid: string, back: string)
    requires forall k :: 0 <= k < |front| ==> !Significant(front[k])
    requires forall k :: 0 <= k < |back| ==> !Significant(back[k])
    ensures SignificantChars(front + mid + back) == SignificantChars(mid)
  {
    NoSignificant(front);
    NoSignificant(back);
    SignificantAppend(front + mid, back);
    SignificantAppend(front, mid);
  }

  lemma {:induction false} CollapsePreservesSignificant(s: string)
    ensures SignificantChars(CollapseSeparators(s)) == SignificantChars(s)
    decreases |s|
  {
    if s != [] {
      if IsSeparator(s[0]) {
        var rest := DropSeparators(s);
        var run := s[..|s| - |rest|];
        assert s == run + rest;
        NoSignificant(run);
        SignificantAppend(run, rest);
        CollapsePreservesSignificant(rest);
        SignificantAppend("_", CollapseSeparators(rest));
      } else {
        CollapsePreservesSignificant(s[1..]);
        SignificantAppend([s[0]], CollapseSeparators(s[1..]));
      }
    }
  }

  /** The slug keeps every letter and digit of the title, in order, and adds none. */
  lemma SlugKeepsSignificant(title: string)
    ensures SignificantChars(Slug(title)) == SignificantChars(title)
  {
    KeepPreservesSignificant(title);
    StripPreservesSignificant(KeepSlugChars(title));
    CollapsePreservesSignificant(Strip(KeepSlugChars(title)));
  }

  /** The first substitution keeps every word, whitespace and `-` character. */
  lemma {:induction false} KeepKept(s: string)
    requires forall k :: 0 <= k < |s| ==> Kept(s[k])
    ensures KeepSlugChars(s) == s
  {
    if s != [] {
      KeepKept(s[1..]);
      assert [s[0]] + s[1..] == s;
    }
  }

  /** The first substitution deletes every character outside words, whitespace and `-`. */
  lemma {:induction false} KeepNone(s: string)
    requires forall k :: 0 <= k < |s| ==> !Kept(s[k])
    ensures KeepSlugChars(s) == []
  {
    if s != [] {
      KeepNone(s[1..]);
    }
  }

  lemma KeepCons(c: char, s: string)
    ensures KeepSlugChars([c] + s) == (if Kept(c) then [c] else []) + KeepSlugChars(s)
  {
    assert ([c] + s)[0] == c && ([c] + s)[1..] == s;
  }

  /** The first substitution treats each character on its own. */
  lemma {:induction false} KeepAppend(a: string, b: string)
    ensures KeepSlugChars(a + b) == KeepSlugChars(a) + KeepSlugChars(b)
  {
    if a == [] {
      assert a + b == b;
    } else {
      var c, rest := a[0], a[1..];
      assert a + b == [c] + (rest + b);
      KeepCons(c, rest + b);
      KeepCons(c, rest);
      assert a == [c] + rest;
      KeepAppend(rest, b);
    }
  }

  lemma {:induction false} CollapseNoSeparator(s: string)
    requires forall k :: 0 <= k < |s| ==> !IsSeparator(s[k])
    ensures CollapseSeparators(s) == s
  {
    if s != [] {
      CollapseNoSeparator(s[1..]);
      assert [s[0]] + s[1..] == s;
    }
  }

  /** A string of word characters is its own slug. */
  lemma WordsAreSlug(s: string)
    requires forall k :: 0 <= k < |s| ==> IsWord(s[k])
    ensures Slug(s) == s
  {
    assert KeepSlugChars(s) == s by {
      KeepKept(s);
    }
    assert Strip(s) == s by {
      if s != [] {
        WordIsNotSeparator(s[0]);
        WordIsNotSeparator(s[|s| - 1]);
      }
      StripUnchanged(s);
    }
    assert CollapseSeparators(s) == s by {
      forall k | 0 <= k < |s|
        ensures !IsSeparator(s[k])
      {
        WordIsNotSeparator(s[k]);
      }
      CollapseNoSeparator(s);
    }
  }

  /** Dropping a maximal run of separators leaves what follows it. */
  lemma {:induction false} DropRun(run: string, t: string)
    requires forall k :: 0 <= k < |run| ==> IsSeparator(run[k])
    requires t == [] || !IsSeparator(t[0])
    ensures DropSeparators(run + t) == t
  {
    if run == [] {
      assert run + t == t;
    } else {
      assert (run + t)[0] == run[0] && (run + t)[1..] == run[1..] + t;
      DropRun(run[1..], t);
    }
  }

  /** A maximal run of `-` and whitespace becomes exactly one `_`. */
  lemma CollapseRun(run: string, t: string)
    requires run != [] && forall k :: 0 <= k < |run| ==> IsSeparator(run[k])
    requires t == [] || !IsSeparator(t[0])
    ensures CollapseSeparators(run + t) == "_" + CollapseSeparators(t)
  {
    assert (run + t)[0] == run[0];
    DropRun(run, t);
  }

  /** Characters other than separators are copied as they are. */
  lemma {:induction false} CollapseCopies(w: string, t: string)
    requires forall k :: 0 <= k < |w| ==> !IsSeparator(w[k])
    ensures CollapseSeparators(w + t) == w + CollapseSeparators(t)
  {
    if w == [] {
      assert w + t == t;
    } else {
      var c, rest := w[0], w[1..];
      assert w + t == [c] + (rest + t);
      CollapseCons(c, rest + t);
      CollapseCopies(rest, t);
      assert [c] + rest == w;
    }
  }

  lemma CollapseCons(c: char, t: string)
    requires !IsSeparator(c)
    ensures CollapseSeparators([c] + t) == [c] + CollapseSeparators(t)
  {
    assert ([c] + t)[0] == c && ([c] + t)[1..] == t;
  }

  /** Two words apart by any run of `-` and whitespace give the words joined by one `_`. */
  lemma SlugOfTwoWords(a: string, sep: string, b: string)
    requires a != [] && forall k :: 0 <= k < |a| ==> IsWord(a[k])
    requires sep != [] && forall k :: 0 <= k < |sep| ==> IsSeparator(sep[k])
    requires b != [] && forall k :: 0 <= k < |b| ==> IsWord(b[k])
    ensures Slug(a + sep + b) == a + "_" + b
  {
    TwoWordsKept(a, sep, b);
    TwoWordsStripped(a, sep, b);
    TwoWordsCollapsed(a, sep, b);
  }

  lemma TwoWordsKept(a: string, sep: string, b: string)
    requires forall k :: 0 <= k < |a| ==> IsWord(a[k])
    requires forall k :: 0 <= k < |sep| ==> IsSeparator(sep[k])
    requires forall k :: 0 <= k < |b| ==> IsWord(b[k])
    ensures KeepSlugChars(a + sep + b) == a + sep + b
  {
    var s := a + sep + b;
    forall k | 0 <= k < |s|
      ensures Kept(s[k])
    {
      if k < |a| {
        assert s[k] == a[k];
      } else if k < |a| + |sep| {
        assert s[k] == sep[k - |a|];
      } else {
        assert s[k] == b[k - |a| - |sep|];
      }
    }
    KeepKept(s);
  }

  lemma TwoWordsStripped(a: string, sep: string, b: string)
    requires a != [] && IsWord(a[0])
    requires b != [] && IsWord(b[|b| - 1])
    ensures Strip(a + sep + b) == a + sep + b
  {
    var s := a + sep + b;
    assert s[0] == a[0] && s[|s| - 1] == b[|b| - 1];
    WordIsNotSeparator(a[0]);
    WordIsNotSeparator(b[|b| - 1]);
    StripUnchanged(s);
  }

  lemma TwoWordsCollapsed(a: string, sep: string, b: string)
    requires forall k :: 0 <= k < |a| ==> IsWord(a[k])
    requires sep != [] && forall k :: 0 <= k < |sep| ==> IsSeparator(sep[k])
    requires b != [] && forall k :: 0 <= k < |b| ==> IsWord(b[k])
    ensures CollapseSeparators(a + sep + b) == a + "_" + b
  {
    forall k | 0 <= k < |a|
      ensures !IsSeparator(a[k])
    {
      WordIsNotSeparator(a[k]);
    }
    forall k | 0 <= k < |b|
      ensures !IsSeparator(b[k])
    {
      WordIsNotSeparator(b[k]);
    }
    assert a + sep + b == a + (sep + b);
    CollapseCopies(a, sep + b);
    CollapseRun(sep, b);
    CollapseNoSeparator(b);
  }

  /** A slug is its own slug. */
  lemma SlugIdempotent(title: string)
    ensures Slug(Slug(title)) == Slug(title)
  {
    SlugIsWord(title);
    WordsAreSlug(Slug(title));
  }

  // ---------------------------------------------------------------------------
  // The index, `{i:02d}`

  predicate IsDigit(c: char) {
    '0' <= c <= '9'
  }

  predicate AllDigits(s: string) {
    forall k :: 0 <= k < |s| ==> IsDigit(s[k])
  }

  function DigitChar(d: nat): (c: char)
    requires d < 10
    ensures IsDigit(c)
  {
    (('0' as int) + d) as char
  }

  function DigitValue(c: char): nat
    requires IsDigit(c)
  {
    (c as int) - ('0' as int)
  }

  /** `str(n)` for a natural number. */
  function Decimal(n: nat): (s: string)
    ensures |s| >= 1 && AllDigits(s)
  {
    if n < 10 then [DigitChar(n)] else Decimal(n / 10) + [DigitChar(n % 10)]
  }

  /** `f"{n:02d}"`: the decimal digits, padded on the left with `0` to at least two. */
  function ZeroPad2(n: nat): (s: string)
    ensures |s| >= 2 && AllDigits(s)
  {
    var digits := Decimal(n);
    if |digits| < 2 then "0" + digits else digits
  }

  /** The number a string of decimal digits denotes. */
  function ParseDecimal(s: string): nat
    requires AllDigits(s)
  {
    if s == [] then 0 else ParseDecimal(s[..|s| - 1]) * 10 + DigitValue(s[|s| - 1])
  }

  lemma {:induction false} DecimalRoundTrip(n: nat)
    ensures ParseDecimal(Decimal(n)) == n
  {
    if n >= 10 {
      DecimalRoundTrip(n / 10);
      var s := Decimal(n);
      assert s[..|s| - 1] == Decimal(n / 10);
    }
  }

  lemma {:induction false} LeadingZero(s: string)
    requires AllDigits(s)
    ensures ParseDecimal("0" + s) == ParseDecimal(s)
  {
    if s != [] {
      LeadingZero(s[..|s| - 1]);
      assert ("0" + s)[..|s|] == "0" + s[..|s| - 1];
    }
  }

  /** The decimal form has one digit below 10, two below 100, and at least two from 10 on. */
  lemma DecimalLength(n: nat)
    ensures n < 10 ==> |Decimal(n)| == 1
    ensures 10 <= n < 100 ==> |Decimal(n)| == 2
    ensures n >= 10 ==> |Decimal(n)| >= 2
  {
  }

  /** `{i:02d}` pads only to width two: one `0` before a single digit, nothing from 10 on. */
  lemma ZeroPad2Width(n: nat)
    ensures n < 10 ==> ZeroPad2(n) == "0" + Decimal(n)
    ensures n >= 10 ==> ZeroPad2(n) == Decimal(n)
    ensures n < 100 ==> |ZeroPad2(n)| == 2
    ensures n >= 10 ==> ZeroPad2(n)[0] != '0'
  {
    DecimalLength(n);
    NoLeadingZero(n);
  }

  /** `str(n)` has no leading zero: only `0` itself starts with `0`. */
  lemma {:induction false} NoLeadingZero(n: nat)
    ensures n < 10 || Decimal(n)[0] != '0'
  {
    if n >= 10 {
      NoLeadingZero(n / 10);
      assert Decimal(n)[0] == Decimal(n / 10)[0];
    }
  }

  /** Reading the padded index back gives the index. */
  lemma ZeroPad2RoundTrip(n: nat)
    ensures ParseDecimal(ZeroPad2(n)) == n
  {
    DecimalRoundTrip(n);
    LeadingZero(Decimal(n));
  }

  /** The longest prefix of decimal digits. */
  function TakeDigits(s: string): (r: string)
    ensures r <= s && AllDigits(r)
    ensures |r| == |s| || !IsDigit(s[|r|])
  {
    if s != [] && IsDigit(s[0]) then [s[0]] + TakeDigits(s[1..]) else []
  }

  lemma {:induction false} TakeDigitsOf(digits: string, rest: string)
    requires AllDigits(digits)
    requires rest == [] || !IsDigit(rest[0])
    ensures TakeDigits(digits + rest) == digits
  {
    if digits == [] {
      assert digits + rest == rest;
    } else {
      TakeDigitsOf(digits[1..], rest);
      assert (digits + rest)[0] == digits[0] && (digits + rest)[1..] == digits[1..] + rest;
      assert [digits[0]] + digits[1..] == digits;
    }
  }

  // ---------------------------------------------------------------------------
  // The file name

  /** `f"presentation_{i:02d}_{safe_title}.pptx"`. */
  function FileName(index: nat, title: string): string {
    FilePrefix + ZeroPad2(index) + "_" + Slug(title) + FileSuffix
  }

  /** What a file name says about the presentation saved under it. */
  datatype NameParts = NotPresentationFile | PresentationFile(index: nat, slug: string)

  /** Reads the `<digits>_<slug>` between the prefix and the suffix. */
  function ParseNumbered(middle: string): NameParts {
    var digits := TakeDigits(middle);
    if digits == [] || |digits| == |middle| || middle[|digits|] != '_' then NotPresentationFile
    else PresentationFile(ParseDecimal(digits), middle[|digits| + 1..])
  }

  /** Reads a name of the form `presentation_<digits>_<slug>.pptx`. */
  function ParseFileName(name: string): NameParts {
    if |name| < |FilePrefix| + |FileSuffix| || !(FilePrefix <= name) || name[|name| - |FileSuffix|..] != FileSuffix then
      NotPresentationFile
    else
      ParseNumbered(name[|FilePrefix|..|name| - |FileSuffix|])
  }

  lemma NumberedRoundTrip(digits: string, slug: string)
    requires digits != [] && AllDigits(digits)
    ensures ParseNumbered(digits + "_" + slug) == PresentationFile(ParseDecimal(digits), slug)
  {
    var middle := digits + "_" + slug;
    assert middle == digits + ("_" + slug);
    TakeDigitsOf(digits, "_" + slug);
    assert middle[|digits|] == '_' && middle[|digits| + 1..] == slug;
  }

  lemma FramedRoundTrip(middle: string)
    ensures ParseFileName(FilePrefix + middle + FileSuffix) == ParseNumbered(middle)
  {
    var name := FilePrefix + middle + FileSuffix;
    assert FilePrefix <= name;
    assert name[|FilePrefix|..|name| - |FileSuffix|] == middle;
    assert name[|name| - |FileSuffix|..] == FileSuffix;
  }

  lemma Regroup(a: string, b: string, c: string, d: string, e: string)
    ensures a + b + c + d + e == a + (b + c + d) + e
  {
  }

  /** A file name gives back the index and the slug it was made from. */
  lemma FileNameRoundTrip(index: nat, title: string)
    ensures ParseFileName(FileName(index, title)) == PresentationFile(index, Slug(title))
  {
    var pad, slug := ZeroPad2(index), Slug(title);
    Regroup(FilePrefix, pad, "_", slug, FileSuffix);
    FramedRoundTrip(pad + "_" + slug);
    NumberedRoundTrip(pad, slug);
    ZeroPad2RoundTrip(index);
  }

  /** Presentations with different indices are saved under different names, whatever their titles. */
  lemma FileNamesDistinct(i: nat, j: nat, title1: string, title2: string)
    requires i != j
    ensures FileName(i, title1) != FileName(j, title2)
  {
    FileNameRoundTrip(i, title1);
    FileNameRoundTrip(j, title2);
  }
}
