/** The filename sanitiser `sanitize_filename` of bot.py (lines 23-30):
    transliterate the title, delete every character outside `[\w\s-]`,
    strip surrounding whitespace, and replace every run of `-`/whitespace
    with one `_`.

    The transliteration is a foreign library call and is kept abstract as a
    parameter `translit`.  The regular-expression classes `\w` and `\s` are
    kept abstract too, as the two predicates of a `CharClass`; the proofs
    rely only on the facts listed in `CharClass.Valid`. */
module Sanitize {
  import opened Seqs

  /** The character classes `\w` (isWord) and `\s` (isSpace) of Python's
      `re` module on `str` patterns; `str.strip()` removes the same
      whitespace characters as `\s` matches. */
  datatype CharClass = CharClass(isWord: char -> bool, isSpace: char -> bool) {

    /** What the sanitiser relies on: no character is both a word character
        and whitespace, `_` is a word character, `-` is neither. */
    predicate Valid() {
      && (forall c :: !(isWord(c) && isSpace(c)))
      && isWord('_')
      && !isWord('-') && !isSpace('-')
    }

    /** Survives the deletion `re.sub(r'[^\w\s-]', '', ...)`. */
    predicate Kept(c: char) {
      isWord(c) || isSpace(c) || c == '-'
    }

    /** Matched by the class `[-\s]` of the run replacement. */
    predicate IsSep(c: char) {
      c == '-' || isSpace(c)
    }

    /** A word character other than `_`.  For Python's `\w` this is every
        character for which `str.isalnum()` holds: letters, digits and other
        numeric characters such as `½` or `Ⅻ`.  The lemmas below say
        "letters and digits" for short. */
    predicate IsLetterOrDigit(c: char) {
      isWord(c) && c != '_'
    }

    function KeptFn(): char -> bool {
      c => Kept(c)
    }

    function SepFn(): char -> bool {
      c => IsSep(c)
    }

    function LetterOrDigitFn(): char -> bool {
      c => IsLetterOrDigit(c)
    }
  }

  /** The classes `\w` and `\s` on ASCII characters, where Python's agree
      with these exactly; they meet the facts of `Valid`.  Python's tables
      for the rest of Unicode are not part of this model. */
  function AsciiClasses(): (cc: CharClass)
    ensures cc.Valid()
  {
    CharClass(
      c => 'a' <= c <= 'z' || 'A' <= c <= 'Z' || '0' <= c <= '9' || c == '_',
      c => c == ' ' || '\t' <= c <= '\r' || '\U{1C}' <= c <= '\U{1F}')
  }

  /** Step one (bot.py:27): `re.sub(r'[^\w\s-]', '', t)` deletes every
      character that is not a word character, whitespace or `-`. */
  function Filter(cc: CharClass, t: string): (r: string)
    ensures |r| <= |t|
    ensures forall c :: c in r <==> c in t && cc.Kept(c)
  {
    SelectMembers(t, cc.KeptFn());
    Select(t, cc.KeptFn())
  }

  /** Step two (bot.py:27): `.strip()` removes leading and trailing
      whitespace. */
  function Strip(cc: CharClass, s: string): (r: string)
    ensures |r| <= |s|
    ensures forall i :: 0 <= i < |r| ==> r[i] in s
    ensures exists k :: IsStripped(cc, s, k, r)
    ensures r == [] || (!cc.isSpace(r[0]) && !cc.isSpace(r[|r| - 1]))
    ensures r == [] <==> AllSpace(cc, s)
    ensures s == [] || (!cc.isSpace(s[0]) && !cc.isSpace(s[|s| - 1])) ==> r == s
  {
    var front := DropWhile(s, cc.isSpace);
    StripFacts(cc, s);
    StripEnds(cc, s, front, DropLastWhile(front, cc.isSpace));
    DropLastWhile(front, cc.isSpace)
  }

  /** Every character of `s` is whitespace. */
  predicate AllSpace(cc: CharClass, s: string) {
    forall i :: 0 <= i < |s| ==> cc.isSpace(s[i])
  }

  /** `r` is the slice of `s` that starts at `k`, and everything of `s`
      before and after that slice is whitespace. */
  predicate IsStripped(cc: CharClass, s: string, k: nat, r: string) {
    && k + |r| <= |s|
    && r == s[k..k + |r|]
    && (forall i :: 0 <= i < k ==> cc.isSpace(s[i]))
    && (forall i :: k + |r| <= i < |s| ==> cc.isSpace(s[i]))
  }

  /** What dropping leading and then trailing whitespace leaves, from the
      contracts of the two drops. */
  lemma {:induction false} StripFacts(cc: CharClass, s: string)
    ensures var r := DropLastWhile(DropWhile(s, cc.isSpace), cc.isSpace);
      && IsStripped(cc, s, |s| - |DropWhile(s, cc.isSpace)|, r)
      && (r == [] <==> AllSpace(cc, s))
      && (s == [] || (!cc.isSpace(s[0]) && !cc.isSpace(s[|s| - 1])) ==> r == s)
  {
    var front := DropWhile(s, cc.isSpace);
    var r := DropLastWhile(front, cc.isSpace);
    StripSlice(cc, s, front, r, |s| - |front|);
    if s != [] && !cc.isSpace(s[0]) && !cc.isSpace(s[|s| - 1]) {
      StripUntouched(cc, s);
    }
  }

  /** The stripped string is made of characters of `s` and has no
      whitespace at either end. */
  lemma {:induction false} StripEnds(cc: CharClass, s: string, front: string, r: string)
    requires front == DropWhile(s, cc.isSpace)
    requires r == DropLastWhile(front, cc.isSpace)
    ensures forall i :: 0 <= i < |r| ==> r[i] in s
    ensures r == [] || (!cc.isSpace(r[0]) && !cc.isSpace(r[|r| - 1]))
  {
    var k := |s| - |front|;
    assert front == s[k..];
    assert r == front[..|r|];
    forall i | 0 <= i < |r|
      ensures r[i] in s
    {
      assert r[i] == s[k + i];
    }
    if r != [] {
      assert r[0] == front[0];
    }
  }

  /** Neither drop removes anything from a string whose ends are not
      whitespace. */
  lemma {:induction false} StripUntouched(cc: CharClass, s: string)
    requires s != [] && !cc.isSpace(s[0]) && !cc.isSpace(s[|s| - 1])
    ensures DropLastWhile(DropWhile(s, cc.isSpace), cc.isSpace) == s
  {
    assert DropWhile(s, cc.isSpace) == s;
    assert DropLastWhile(s, cc.isSpace) == s;
  }

  /** The slice left by dropping leading whitespace (`front`) and then
      trailing whitespace (`r`), stated from the two drops' contracts. */
  lemma {:induction false} StripSlice(cc: CharClass, s: string, front: string, r: string, k: nat)
    requires k + |front| == |s| && front == s[k..]
    requires forall i :: 0 <= i < k ==> cc.isSpace(s[i])
    requires front == [] || !cc.isSpace(front[0])
    requires |r| <= |front| && r == front[..|r|]
    requires forall i :: |r| <= i < |front| ==> cc.isSpace(front[i])
    ensures IsStripped(cc, s, k, r)
    ensures r == [] <==> AllSpace(cc, s)
  {
    assert r == s[k..k + |r|];
    forall i | k + |r| <= i < |s|
      ensures cc.isSpace(s[i])
    {
      assert s[i] == front[i - k];
    }
    if front != [] {
      assert front[0] == s[k];
    }
  }

  /** Step three (bot.py:29): `re.sub(r'[-\s]+', '_', s)` scans left to
      right and replaces every maximal run of `-`/whitespace by one `_`. */
  function Collapse(cc: CharClass, s: string): (r: string)
    ensures |r| <= |s|
    ensures r == [] <==> s == []
    ensures forall i :: 0 <= i < |r| ==> r[i] == '_' || (r[i] in s && !cc.IsSep(r[i]))
    decreases |s|
  {
    if s == [] then []
    else if cc.IsSep(s[0]) then
      var rest := DropWhile(s, cc.SepFn());
      assert forall c :: c in rest ==> c in s;
      "_" + Collapse(cc, rest)
    else
      [s[0]] + Collapse(cc, s[1..])
  }

  /** The three rewrites after transliteration (bot.py:27-29); what they
      produce is stated by `NormalizeWordChars`, `NormalizeErase`,
      `NormalizeIdempotent` and `NormalizeEmptyIff`. */
  function Normalize(cc: CharClass, t: string): (r: string)
    ensures |r| <= |t|
  {
    Collapse(cc, Strip(cc, Filter(cc, t)))
  }

  /** `sanitize_filename` (bot.py:23-30), with `translit` standing for
      `translit(filename, 'ru', reversed=True)`.  The name it returns is
      made of word characters only, is never longer than the
      transliterated title, and is empty exactly when the transliterated
      title holds no word character and no `-`. */
  function SanitizeFilename(cc: CharClass, translit: string -> string, title: string): (r: string)
    requires cc.Valid()
    ensures |r| <= |translit(title)|
    ensures forall i :: 0 <= i < |r| ==> cc.isWord(r[i]) && !cc.isSpace(r[i]) && r[i] != '-'
    ensures r == [] <==> NoWordOrHyphen(cc, translit(title))
  {
    NormalizeWordChars(cc, translit(title));
    NormalizeEmptyIff(cc, translit(title));
    Normalize(cc, translit(title))
  }

  /** `t` holds no word character and no `-`. */
  predicate NoWordOrHyphen(cc: CharClass, t: string) {
    forall i :: 0 <= i < |t| ==> !cc.isWord(t[i]) && t[i] != '-'
  }

  /** Every character of the result is a word character, so none is
      whitespace and none is `-`. */
  lemma {:induction false} NormalizeWordChars(cc: CharClass, t: string)
    requires cc.Valid()
    ensures forall i :: 0 <= i < |Normalize(cc, t)| ==> cc.isWord(Normalize(cc, t)[i])
  {
    var f := Filter(cc, t);
    var s := Strip(cc, f);
    assert forall c :: c in s ==> cc.Kept(c);
  }

  /** The result is empty exactly when the transliterated title holds no
      word character and no `-`: there is no non-empty fallback name. */
  lemma {:induction false} NormalizeEmptyIff(cc: CharClass, t: string)
    requires cc.Valid()
    ensures Normalize(cc, t) == [] <==> NoWordOrHyphen(cc, t)
  {
    var f := Filter(cc, t);
    if NoWordOrHyphen(cc, t) {
      forall i | 0 <= i < |f|
        ensures cc.isSpace(f[i])
      {
        assert f[i] in t;
      }
    } else {
      var i :| 0 <= i < |t| && (cc.isWord(t[i]) || t[i] == '-');
      assert t[i] in f;
      var j :| 0 <= j < |f| && f[j] == t[i];
      assert !cc.isSpace(f[j]);
    }
  }

  /** Strip deletes only whitespace, so the letters and digits are those
      of its input. */
  lemma {:induction false} StripKeepsLetters(cc: CharClass, s: string)
    requires cc.Valid()
    ensures Select(Strip(cc, s), cc.LetterOrDigitFn()) == Select(s, cc.LetterOrDigitFn())
  {
    var r := Strip(cc, s);
    var k: nat :| IsStripped(cc, s, k, r);
    StrippedKeepsLetters(cc, s, k, r);
  }

  /** A string that differs from `r` only by whitespace at its ends has
      the same letters and digits as `r`, in the same order. */
  lemma {:induction false} StrippedKeepsLetters(cc: CharClass, s: string, k: nat, r: string)
    requires cc.Valid()
    requires IsStripped(cc, s, k, r)
    ensures Select(r, cc.LetterOrDigitFn()) == Select(s, cc.LetterOrDigitFn())
  {
    var p := cc.LetterOrDigitFn();
    var before, after := s[..k], s[k + |r|..];
    assert s[k..] == r + after;
    assert s == before + s[k..];
    forall i | 0 <= i < |before|
      ensures !p(before[i])
    {
      assert before[i] == s[i];
    }
    forall i | 0 <= i < |after|
      ensures !p(after[i])
    {
      assert after[i] == s[k + |r| + i];
    }
    SelectNone(before, p);
    SelectNone(after, p);
    SelectAppend(r, after, p);
    SelectAppend(before, r + after, p);
  }

  /** Erasing every `_` from the collapsed string leaves exactly the letters
      and digits of its input, in order: each run of separators became one
      `_`, and every other character survived. */
  lemma {:induction false} CollapseErase(cc: CharClass, s: string)
    requires cc.Valid()
    requires forall i :: 0 <= i < |s| ==> cc.Kept(s[i])
    ensures Without(Collapse(cc, s), '_') == Select(s, cc.LetterOrDigitFn())
    decreases |s|
  {
    if s == [] {
    } else if cc.IsSep(s[0]) {
      var rest := DropWhile(s, cc.SepFn());
      assert rest == s[|s| - |rest|..];
      CollapseErase(cc, rest);
      DropSepsKeepsLetters(cc, s);
      WithoutAppend("_", Collapse(cc, rest), '_');
    } else {
      CollapseErase(cc, s[1..]);
      assert s == [s[0]] + s[1..];
      SelectAppend([s[0]], s[1..], cc.LetterOrDigitFn());
      WithoutAppend([s[0]], Collapse(cc, s[1..]), '_');
    }
  }

  /** A run of `-`/whitespace holds no letter or digit. */
  lemma {:induction false} DropSepsKeepsLetters(cc: CharClass, s: string)
    requires cc.Valid()
    ensures Select(DropWhile(s, cc.SepFn()), cc.LetterOrDigitFn()) == Select(s, cc.LetterOrDigitFn())
  {
    var p := cc.LetterOrDigitFn();
    var rest := DropWhile(s, cc.SepFn());
    var k := |s| - |rest|;
    assert s == s[..k] + rest;
    SelectAppend(s[..k], rest, p);
    SelectNone(s[..k], p);
  }

  /** Erasing every `_` from the sanitised name gives exactly the letters
      and digits of the transliterated title, in their original order: the
      only characters the name adds are underscores. */
  lemma {:induction false} NormalizeErase(cc: CharClass, t: string)
    requires cc.Valid()
    ensures Without(Normalize(cc, t), '_') == Select(t, cc.LetterOrDigitFn())
  {
    var p := cc.LetterOrDigitFn();
    var f := Filter(cc, t);
    var s := Strip(cc, f);
    assert Normalize(cc, t) == Collapse(cc, s);
    SelectWeaker(t, cc.KeptFn(), p);
    assert Select(f, p) == Select(t, p);
    StripKeepsLetters(cc, f);
    assert forall i :: 0 <= i < |s| ==> cc.Kept(s[i]) by {
      forall i | 0 <= i < |s|
        ensures cc.Kept(s[i])
      {
        assert s[i] in f;
      }
    }
    CollapseErase(cc, s);
  }

  /** A string without `-` and whitespace has no run to replace. */
  lemma {:induction false} CollapseNoSep(cc: CharClass, s: string)
    requires forall i :: 0 <= i < |s| ==> !cc.IsSep(s[i])
    ensures Collapse(cc, s) == s
  {
    if s != [] {
      CollapseNoSep(cc, s[1..]);
      assert s == [s[0]] + s[1..];
    }
  }

  /** A maximal run of `-`/whitespace after a separator-free word becomes
      exactly one `_`, and the replacement then goes on after the run.
      With `CollapseNoSep` this fixes the result on every split of the
      input into words and runs. */
  lemma {:induction false} CollapseRun(cc: CharClass, w: string, run: string, rest: string)
    requires forall i :: 0 <= i < |w| ==> !cc.IsSep(w[i])
    requires run != [] && forall i :: 0 <= i < |run| ==> cc.IsSep(run[i])
    requires rest == [] || !cc.IsSep(rest[0])
    ensures Collapse(cc, w + run + rest) == w + "_" + Collapse(cc, rest)
  {
    assert w + run + rest == w + (run + rest);
    CollapseWord(cc, w, run + rest);
    CollapseRunHead(cc, run, rest);
    assert w + ("_" + Collapse(cc, rest)) == w + "_" + Collapse(cc, rest);
  }

  /** Characters outside `[-\s]` are copied one by one, whatever follows
      them. */
  lemma {:induction false} CollapseWord(cc: CharClass, w: string, s: string)
    requires forall i :: 0 <= i < |w| ==> !cc.IsSep(w[i])
    ensures Collapse(cc, w + s) == w + Collapse(cc, s)
    decreases |w|
  {
    if w == [] {
      assert w + s == s;
    } else {
      HeadAppend(w, s, Collapse(cc, s));
      CollapseWordChar(cc, w[0], w[1..] + s);
      CollapseWord(cc, w[1..], s);
    }
  }

  /** A character outside `[-\s]` is copied. */
  lemma {:induction false} CollapseWordChar(cc: CharClass, c: char, s: string)
    requires !cc.IsSep(c)
    ensures Collapse(cc, [c] + s) == [c] + Collapse(cc, s)
  {
    assert ([c] + s)[1..] == s;
  }

  /** A run of `-`/whitespace at the front becomes one `_`. */
  lemma {:induction false} CollapseRunHead(cc: CharClass, run: string, rest: string)
    requires run != [] && forall i :: 0 <= i < |run| ==> cc.IsSep(run[i])
    requires rest == [] || !cc.IsSep(rest[0])
    ensures Collapse(cc, run + rest) == "_" + Collapse(cc, rest)
  {
    assert (run + rest)[0] == run[0];
    assert All(run, cc.SepFn());
    DropWhileRun(run, rest, cc.SepFn());
  }

  /** Sanitising an already sanitised name changes nothing: the filter
      keeps every word character, there is no whitespace to strip and no
      run of `-`/whitespace to replace. */
  lemma {:induction false} NormalizeIdempotent(cc: CharClass, t: string)
    requires cc.Valid()
    ensures Normalize(cc, Normalize(cc, t)) == Normalize(cc, t)
  {
    NormalizeWordChars(cc, t);
    WordCharsFixed(cc, Normalize(cc, t));
  }

  /** A string of word characters only passes the three rewrites
      unchanged. */
  lemma {:induction false} WordCharsFixed(cc: CharClass, r: string)
    requires cc.Valid()
    requires forall i :: 0 <= i < |r| ==> cc.isWord(r[i])
    ensures Normalize(cc, r) == r
  {
    assert All(r, cc.KeptFn());
    SelectAll(r, cc.KeptFn());
    assert Filter(cc, r) == r;
    assert Strip(cc, r) == r;
    CollapseNoSep(cc, r);
  }
}
