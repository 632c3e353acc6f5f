/**
 * The string primitives the generator relies on, written out over `seq<char>`:
 * Python's `str.isspace`, `str.strip`, `str.startswith`, the `in` substring
 * test, `str.replace(old, '')`, `str.split(sep)` and `sep.join(parts)`.
 */
module Text {

  /** Python's `str.isspace`, which is also the class `\s` matches in a `str` pattern. */
  predicate IsSpace(c: char) {
    || ('\t' <= c <= '\r')
    || ('\U{1C}' <= c <= ' ')
    || c == '\U{85}' || c == '\U{A0}' || c == '\U{1680}'
    || ('\U{2000}' <= c <= '\U{200A}')
    || c == '\U{2028}' || c == '\U{2029}' || c == '\U{202F}' || c == '\U{205F}'
    || c == '\U{3000}'
  }

  /**
   * The word class `\w`: letters, digits and the underscore. Only the ASCII and
   * the basic Cyrillic letters are listed; every other character counts as a
   * non-word character.
   */
  predicate IsWord(c: char) {
    || ('a' <= c <= 'z') || ('A' <= c <= 'Z') || ('0' <= c <= '9') || c == '_'
    || ('\U{410}' <= c <= '\U{44F}') || c == '\U{401}' || c == '\U{451}'
  }

  lemma WordIsNotSeparator(c: char)
    requires IsWord(c)
    ensures !IsSpace(c) && c != '-'
  {
  }

  /** `s.lstrip()`: drops the leading whitespace and nothing else. */
  function StripStart(s: string): (r: string)
    ensures |r| <= |s| && r == s[|s| - |r|..]
    ensures forall k :: 0 <= k < |s| - |r| ==> IsSpace(s[k])
    ensures r == [] || !IsSpace(r[0])
  {
    if s == [] || !IsSpace(s[0]) then s else StripStart(s[1..])
  }

  /** `s.rstrip()`: drops the trailing whitespace and nothing else. */
  function StripEnd(s: string): (r: string)
    ensures r <= s
    ensures forall k :: |r| <= k < |s| ==> IsSpace(s[k])
    ensures r == [] || !IsSpace(r[|r| - 1])
  {
    if s == [] || !IsSpace(s[|s| - 1]) then s else StripEnd(s[..|s| - 1])
  }

  /** How many whitespace characters `s.strip()` removes at the front. */
  function StripOffset(s: string): nat
    ensures StripOffset(s) <= |s|
  {
    |s| - |StripStart(s)|
  }

  /** `s.strip()`: neither starts nor ends with whitespace (see `StripIsSlice`). */
  function Strip(s: string): (r: string)
    ensures |r| <= |s|
    ensures r == [] || (!IsSpace(r[0]) && !IsSpace(r[|r| - 1]))
  {
    var t := StripStart(s);
    var r := StripEnd(t);
    assert r != [] ==> r[0] == t[0];
    r
  }

  /** `s.strip()` is a slice of `s`. */
  lemma StripIsSlice(s: string)
    ensures StripOffset(s) + |Strip(s)| <= |s|
    ensures Strip(s) == s[StripOffset(s)..StripOffset(s) + |Strip(s)|]
  {
    var t := StripStart(s);
    var r := StripEnd(t);
    var off := |s| - |t|;
    assert r == t[..|r|] && t == s[off..];
    assert r == s[off..off + |r|];
  }

  /** The characters of `s.strip()` are those of `s` from the offset on. */
  lemma StripChar(s: string, k: nat)
    requires k < |Strip(s)|
    ensures StripOffset(s) + k < |s| && Strip(s)[k] == s[StripOffset(s) + k]
  {
    StripIsSlice(s);
  }

  /** Everything `s.strip()` removes at the back is whitespace. */
  lemma StripRemovesBackSpace(s: string)
    ensures forall k :: StripOffset(s) + |Strip(s)| <= k < |s| ==> IsSpace(s[k])
  {
    var t := StripStart(s);
    var r := StripEnd(t);
    var off := |s| - |t|;
    assert Strip(s) == r && StripOffset(s) == off;
    forall k | off + |r| <= k < |s|
      ensures IsSpace(s[k])
    {
      assert t[k - off] == s[k];
    }
  }

  /** A string with no whitespace at either end is its own `strip()`. */
  lemma StripUnchanged(s: string)
    requires s == [] || (!IsSpace(s[0]) && !IsSpace(s[|s| - 1]))
    ensures Strip(s) == s
  {
  }

  lemma StripIdempotent(s: string)
    ensures Strip(Strip(s)) == Strip(s)
  {
    StripUnchanged(Strip(s));
  }

  /** `k` occurs in `text` starting at index `i`. */
  predicate OccursAt(text: string, k: string, i: nat) {
    i + |k| <= |text| && text[i..i + |k|] == k
  }

  /** Python's `k in text`: a case-sensitive substring test (see `ContainsIffOccurs`). */
  function Contains(text: string, k: string): bool
    decreases |text|
  {
    if |k| > |text| then false
    else if k <= text then true
    else Contains(text[1..], k)
  }

  /** `k in text` holds exactly when `k` occurs at some index of `text`; the empty string occurs everywhere. */
  lemma {:induction false} ContainsIffOccurs(text: string, k: string)
    ensures Contains(text, k) <==> exists i: nat :: OccursAt(text, k, i)
    decreases |text|
  {
    if |k| > |text| {
      assert forall i: nat :: !OccursAt(text, k, i);
    } else if k <= text {
      assert OccursAt(text, k, 0);
    } else {
      ContainsIffOccurs(text[1..], k);
      if Contains(text[1..], k) {
        var i: nat :| OccursAt(text[1..], k, i);
        SliceOfTail(text, i + 1, i + 1 + |k|);
        assert OccursAt(text, k, i + 1);
      } else {
        assert !OccursAt(text, k, 0);
        forall i: nat | 0 < i && OccursAt(text, k, i)
          ensures OccursAt(text[1..], k, i - 1)
        {
          SliceOfTail(text, i, i + |k|);
        }
      }
    }
  }

  /** A slice of the tail of `s` is the slice of `s` one further on. */
  lemma SliceOfTail<T>(s: seq<T>, i: nat, j: nat)
    requires 1 <= i <= j <= |s|
    ensures s[1..][i - 1..j - 1] == s[i..j]
  {
  }

  /**
   * Python's `s.replace(pat, '')`: scans left to right and deletes every
   * non-overlapping occurrence of `pat`; occurrences that only appear once
   * the deletions join the pieces are not deleted.
   */
  function RemoveAll(s: string, pat: string): (r: string)
    requires pat != []
    ensures |r| <= |s|
    ensures !Contains(s, pat) ==> r == s
    decreases |s|
  {
    if s == [] then []
    else if pat <= s then RemoveAll(s[|pat|..], pat)
    else
      [s[0]] + RemoveAll(s[1..], pat)
  }

  /**
   * On a string that starts with `pat` and holds no further occurrence of it,
   * `replace(pat, '')` is exactly the text after the prefix.
   */
  lemma RemoveAllOfPrefix(s: string, pat: string)
    requires pat != [] && pat <= s
    requires !Contains(s[|pat|..], pat)
    ensures RemoveAll(s, pat) == s[|pat|..]
  {
  }

  /**
   * `replace(pat, '')` deletes the first occurrence of `pat` and goes on after
   * it: the text before that occurrence is kept and the rest is treated alike.
   * With the unchanged case of `RemoveAll`, this deletes every occurrence, left
   * to right and without overlaps.
   */
  lemma {:induction false} RemoveFirst(a: string, pat: string, b: string)
    requires pat != []
    requires forall i :: 0 <= i < |a| ==> !(pat <= (a + pat + b)[i..])
    ensures RemoveAll(a + pat + b, pat) == a + RemoveAll(b, pat)
    decreases |a|
  {
    if a == [] {
      assert a + pat + b == pat + b;
      RemovePrefix(pat, b);
    } else {
      var c, rest := a[0], a[1..];
      assert a + pat + b == [c] + (rest + pat + b) && a == [c] + rest;
      calc {
        RemoveAll(a + pat + b, pat);
        { assert !(pat <= (a + pat + b)[0..]) by { assert (a + pat + b)[0..] == a + pat + b; }
          RemoveCons(c, rest + pat + b, pat); }
        [c] + RemoveAll(rest + pat + b, pat);
        { NoEarlierOccurrence(a, pat, b); RemoveFirst(rest, pat, b); }
        [c] + (rest + RemoveAll(b, pat));
        a + RemoveAll(b, pat);
      }
    }
  }

  /** Dropping the first character keeps "no occurrence of `pat` before the one after `a`". */
  lemma NoEarlierOccurrence(a: string, pat: string, b: string)
    requires a != []
    requires forall i :: 0 <= i < |a| ==> !(pat <= (a + pat + b)[i..])
    ensures forall i :: 0 <= i < |a[1..]| ==> !(pat <= (a[1..] + pat + b)[i..])
  {
    var s := a + pat + b;
    assert s[1..] == a[1..] + pat + b;
    forall i | 0 <= i < |a[1..]|
      ensures !(pat <= (a[1..] + pat + b)[i..])
    {
      assert s[1..][i..] == s[i + 1..];
    }
  }

  lemma RemoveCons(c: char, t: string, pat: string)
    requires pat != [] && !(pat <= [c] + t)
    ensures RemoveAll([c] + t, pat) == [c] + RemoveAll(t, pat)
  {
    assert ([c] + t)[0] == c && ([c] + t)[1..] == t;
  }

  lemma RemovePrefix(pat: string, b: string)
    requires pat != []
    ensures RemoveAll(pat + b, pat) == RemoveAll(b, pat)
  {
    assert (pat + b)[|pat|..] == b;
  }

  /**
   * Python's `sep.join(parts)`: the parts in order with one `sep` between
   * each two of them.
   */
  function JoinWith(parts: seq<string>, sep: string): string
  {
    if |parts| == 0 then []
    else if |parts| == 1 then parts[0]
    else parts[0] + sep + JoinWith(parts[1..], sep)
  }

  /** Python's `s.split(sep)` for a one-character separator: never empty, and no piece holds the separator. */
  function SplitOn(s: string, sep: char): (r: seq<string>)
    ensures |r| >= 1
    ensures forall k :: 0 <= k < |r| ==> sep !in r[k]
  {
    if s == [] then [[]]
    else
      var rest := SplitOn(s[1..], sep);
      if s[0] == sep then [[]] + rest
      else [[s[0]] + rest[0]] + rest[1..]
  }

  /** Joining the pieces of `s.split(sep)` with `sep` gives `s` back. */
  lemma {:induction false} JoinSplitOn(s: string, sep: char)
    ensures JoinWith(SplitOn(s, sep), [sep]) == s
  {
    if s != [] {
      var rest := SplitOn(s[1..], sep);
      JoinSplitOn(s[1..], sep);
      assert s == [s[0]] + s[1..];
      if s[0] != sep {
        var r := [[s[0]] + rest[0]] + rest[1..];
        assert r[1..] == rest[1..];
        if |rest| > 1 {
          assert JoinWith(r, [sep]) == ([s[0]] + rest[0]) + [sep] + JoinWith(rest[1..], [sep]);
          assert JoinWith(r, [sep]) == [s[0]] + (rest[0] + [sep] + JoinWith(rest[1..], [sep]));
        }
      }
    }
  }

  lemma {:induction false} SplitOnSeparatorFree(s: string, sep: char)
    requires sep !in s
    ensures SplitOn(s, sep) == [s]
  {
    if s != [] {
      SplitOnSeparatorFree(s[1..], sep);
      assert s[0] != sep && [s[0]] + s[1..] == s;
    }
  }

  lemma {:induction false} SplitOnAfterPiece(a: string, b: string, sep: char)
    requires sep !in a
    ensures SplitOn(a + [sep] + b, sep) == [a] + SplitOn(b, sep)
  {
    var s := a + [sep] + b;
    if a == [] {
      assert s[0] == sep && s[1..] == b;
    } else {
      SplitOnAfterPiece(a[1..], b, sep);
      assert s[0] == a[0] != sep;
      assert s[1..] == a[1..] + [sep] + b;
      assert [a[0]] + a[1..] == a;
    }
  }

  /**
   * The other half of the round trip: splitting a join of separator-free
   * pieces gives the pieces back.
   */
  lemma {:induction false} SplitOnJoin(parts: seq<string>, sep: char)
    requires |parts| >= 1
    requires forall k :: 0 <= k < |parts| ==> sep !in parts[k]
    ensures SplitOn(JoinWith(parts, [sep]), sep) == parts
  {
    if |parts| == 1 {
      SplitOnSeparatorFree(parts[0], sep);
    } else {
      SplitOnJoin(parts[1..], sep);
      SplitOnAfterPiece(parts[0], JoinWith(parts[1..], [sep]), sep);
      assert [parts[0]] + parts[1..] == parts;
    }
  }
}
