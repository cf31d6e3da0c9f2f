/** The link test of `handle_message` (bot.py:88): a message is treated as
    a video link exactly when its text contains "youtube.com" or "youtu.be";
    every other message gets the fixed "send a YouTube link" reply. */
module LinkFilter {
  import opened Seqs

  const LongHost: string := "youtube.com"
  const ShortHost: string := "youtu.be"

  /** Python's `pattern in text` on strings: try every start position from
      left to right. */
  predicate Occurs(pattern: string, text: string)
    decreases |text|
  {
    HasPrefix(text, pattern) || (text != [] && Occurs(pattern, text[1..]))
  }

  /** The independent reading of "occurs": some contiguous slice of `text`
      equals `pattern`. */
  predicate OccursAt(pattern: string, text: string, i: int) {
    0 <= i && i + |pattern| <= |text| && text[i..i + |pattern|] == pattern
  }

  /** bot.py:88 — the message is handed to the downloader. */
  predicate Accepted(link: string) {
    Occurs(LongHost, link) || Occurs(ShortHost, link)
  }

  /** The scan finds the pattern exactly when it is a contiguous slice of
      the text. */
  lemma {:induction false} OccursIff(pattern: string, text: string)
    ensures Occurs(pattern, text) <==> exists i :: OccursAt(pattern, text, i)
    decreases |text|
  {
    if HasPrefix(text, pattern) {
      assert OccursAt(pattern, text, 0);
    } else if text == [] {
    } else {
      OccursIff(pattern, text[1..]);
      if exists i :: OccursAt(pattern, text[1..], i) {
        var i :| OccursAt(pattern, text[1..], i);
        assert text[1..][i..i + |pattern|] == text[i + 1..i + 1 + |pattern|];
        assert OccursAt(pattern, text, i + 1);
      }
      if exists i :: OccursAt(pattern, text, i) {
        var i :| OccursAt(pattern, text, i);
        assert i != 0;
        assert text[1..][i - 1..i - 1 + |pattern|] == text[i..i + |pattern|];
        assert OccursAt(pattern, text[1..], i - 1);
      }
    }
  }

  /** A link is accepted exactly when one of the two host markers is a
      contiguous substring of it. */
  lemma AcceptedIff(link: string)
    ensures Accepted(link) <==>
      (exists i :: OccursAt(LongHost, link, i)) || (exists i :: OccursAt(ShortHost, link, i))
  {
    OccursIff(LongHost, link);
    OccursIff(ShortHost, link);
  }

  /** An occurrence stays an occurrence when text is added on either side. */
  lemma OccursExtend(pattern: string, prefix: string, text: string, suffix: string)
    requires Occurs(pattern, text)
    ensures Occurs(pattern, prefix + text + suffix)
  {
    OccursIff(pattern, text);
    var i :| OccursAt(pattern, text, i);
    var whole := prefix + text + suffix;
    assert whole[|prefix| + i..|prefix| + i + |pattern|] == text[i..i + |pattern|];
    assert OccursAt(pattern, whole, |prefix| + i);
    OccursIff(pattern, whole);
  }

  /** An accepted link stays accepted whatever is written before or after
      it in the message. */
  lemma AcceptedExtend(prefix: string, link: string, suffix: string)
    requires Accepted(link)
    ensures Accepted(prefix + link + suffix)
  {
    if Occurs(LongHost, link) {
      OccursExtend(LongHost, prefix, link, suffix);
    } else {
      OccursExtend(ShortHost, prefix, link, suffix);
    }
  }
}
