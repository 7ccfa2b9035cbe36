/**
 * `extractJsonBlock` in api/api/generate-dinner.js: the first match of the
 * regular expression `\{[\s\S]*\}\s*$` in the reply, which the webhook
 * treats as the machine-readable meal plan at the end of the text.
 */
module JsonBlock {
  import opened Wrappers
  import opened Text

  /** The index of the first `c` in `s`, if any. */
  function FirstIndex(s: string, c: char): (r: Option<nat>)
    ensures r.None? <==> c !in s
    ensures r.Some? ==> r.value < |s| && s[r.value] == c && c !in s[..r.value]
  {
    if |s| == 0 then None
    else if s[0] == c then Some(0)
    else
      match FirstIndex(s[1..], c)
      case None => None
      case Some(i) =>
        assert s[..i + 1] == [s[0]] + s[1..][..i];
        Some(i + 1)
  }

  /**
   * The block: when the text, without its trailing whitespace, ends in `}`
   * and has a `{` before that brace, the suffix from the first `{` on
   * (trailing whitespace included); otherwise None (`null`).
   */
  function ExtractJsonBlock(text: string): (r: Option<string>)
    ensures r.Some? ==>
      |r.value| >= 2 && StartsWith(r.value, "{") && EndsWith(TrimEnd(r.value), "}") &&
      EndsWith(text, r.value) && '{' !in text[..|text| - |r.value|]
  {
    var e := TrimEnd(text);
    if |e| == 0 || e[|e| - 1] != '}' then None
    else
      match FirstIndex(e[..|e| - 1], '{')
      case None => None
      case Some(i) =>
        assert text[..i] == e[..|e| - 1][..i];
        TrimEndDrop(text, i);
        Some(text[i..])
  }

  /**
   * Where the pattern `\{[\s\S]*\}\s*$` can start: a `{` at `i` and a later
   * `}` after which the text holds only whitespace. Without the `m` flag `$`
   * is the end of the input, so a match starting at `i` is always `text[i..]`.
   */
  ghost predicate MatchesAt(text: string, i: int) {
    0 <= i < |text| && text[i] == '{' &&
    exists k :: i < k < |text| && text[k] == '}' && AllSpace(text[k + 1..])
  }

  /** The only `}` that can end a match is the last non-whitespace character. */
  lemma ClosingBraceIsLast(text: string, k: int)
    requires 0 <= k < |text| && text[k] == '}' && AllSpace(text[k + 1..])
    ensures k == |TrimEnd(text)| - 1
  {
    TrimEndUnique(text, k + 1);
  }

  /** When the model finds a block, the pattern can start there and nowhere before. */
  lemma BlockIsLeftmostMatch(text: string)
    requires ExtractJsonBlock(text).Some?
    ensures var i := |text| - |ExtractJsonBlock(text).value|;
      MatchesAt(text, i) && ExtractJsonBlock(text).value == text[i..] &&
      forall h :: 0 <= h < i ==> !MatchesAt(text, h)
  {
    var e := TrimEnd(text);
    var b := ExtractJsonBlock(text).value;
    var i := |text| - |b|;
    assert text[i..] == b;
    assert text[|e| - 1] == '}' && AllSpace(text[|e|..]);
    assert MatchesAt(text, i);
    forall h | 0 <= h < i
      ensures !MatchesAt(text, h)
    {
      assert text[..i][h] == text[h];
    }
  }

  /** When the model finds no block, the pattern can start nowhere. */
  lemma NoBlockNoMatch(text: string)
    requires ExtractJsonBlock(text).None?
    ensures forall i :: 0 <= i < |text| ==> !MatchesAt(text, i)
  {
    forall i | 0 <= i < |text|
      ensures !MatchesAt(text, i)
    {
      if MatchesAt(text, i) {
        var k :| i < k < |text| && text[k] == '}' && AllSpace(text[k + 1..]);
        ClosingBraceIsLast(text, k);
      }
    }
  }

  /**
   * `text.match(/\{[\s\S]*\}\s*$/)` agrees with the model: there is no match
   * exactly when the pattern can start nowhere, and otherwise the result is
   * the suffix from the leftmost place it can start.
   */
  lemma ExtractJsonBlockIsRegexMatch(text: string)
    ensures ExtractJsonBlock(text).None? <==> forall i :: 0 <= i < |text| ==> !MatchesAt(text, i)
    ensures ExtractJsonBlock(text).Some? ==>
      exists i :: MatchesAt(text, i) && ExtractJsonBlock(text).value == text[i..] &&
        forall h :: 0 <= h < i ==> !MatchesAt(text, h)
  {
    if ExtractJsonBlock(text).Some? {
      BlockIsLeftmostMatch(text);
    } else {
      NoBlockNoMatch(text);
    }
  }

  /** The leftmost place the pattern can start determines the block. */
  lemma LeftmostMatchIsBlock(text: string, i: int)
    requires MatchesAt(text, i)
    requires forall h :: 0 <= h < i ==> !MatchesAt(text, h)
    ensures ExtractJsonBlock(text) == Some(text[i..])
  {
    ExtractJsonBlockIsRegexMatch(text);
    var b := ExtractJsonBlock(text).value;
    var i' :| MatchesAt(text, i') && b == text[i'..] && forall h :: 0 <= h < i' ==> !MatchesAt(text, h);
    assert !(i < i') && !(i' < i);
  }
}
