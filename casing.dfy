/**
 * First-letter and word casing (unicode-tools.php lines 63-136). The Unicode
 * case tables behind `mb_convert_case` are parameters: a case map takes one
 * codepoint to its full mapping, which can be longer than one codepoint.
 */
module Casing {
  import opened Codepoints
  import opened Words

  /** A per-codepoint case mapping, as MB_CASE_UPPER or MB_CASE_LOWER apply it. */
  type CaseMap = Codepoint -> Text

  /** `mb_convert_case($s, ...)`: each codepoint replaced by its mapping. */
  function ConvertCase(m: CaseMap, s: Text): (r: Text)
    ensures s == [] ==> r == []
    ensures |s| == 1 ==> r == m(s[0])
  {
    if s == [] then [] else m(s[0]) + ConvertCase(m, s[1..])
  }

  /** `str_replace($x, $y, $s)` for one-codepoint search and replacement strings. */
  function ReplaceChar(s: Text, x: Codepoint, y: Codepoint): (r: Text)
    ensures |r| == |s|
    ensures forall i :: 0 <= i < |s| ==> r[i] == if s[i] == x then y else s[i]
  {
    if s == [] then [] else [if s[0] == x then y else s[0]] + ReplaceChar(s[1..], x, y)
  }

  /**
   * `lcfirst_unicode`: `mb_substr($str, 0, 1)` lowered, then `mb_substr($str, 1)`.
   * The first codepoint is converted and the rest is copied verbatim.
   */
  function Lcfirst(lower: CaseMap, s: Text): (r: Text)
    ensures s == [] ==> r == []
    ensures s != [] ==> r == lower(s[0]) + s[1..]
  {
    ConvertCase(lower, Slice(s, 0, Some(1))) + Slice(s, 1, None)
  }

  /** `ucfirst_unicode`: as `lcfirst_unicode`, with MB_CASE_UPPER. */
  function Ucfirst(upper: CaseMap, s: Text): (r: Text)
    ensures s == [] ==> r == []
    ensures s != [] ==> r == upper(s[0]) + s[1..]
  {
    ConvertCase(upper, Slice(s, 0, Some(1))) + Slice(s, 1, None)
  }

  /**
   * `ucfirst_turkish`: a leading ASCII 'i' is first replaced by ASCII 'I', then
   * the first codepoint is upper-cased; the rest is copied verbatim.
   */
  function UcfirstTurkish(upper: CaseMap, s: Text): (r: Text)
    ensures s == [] ==> r == []
    ensures s != [] ==> r == upper(if s[0] == 'i' then 'I' else s[0]) + s[1..]
  {
    ConvertCase(upper, ReplaceChar(Slice(s, 0, Some(1)), 'i', 'I')) + Slice(s, 1, None)
  }

  /** `lcfirst_turkish`: a leading ASCII 'I' is first replaced by ASCII 'i', then lowered. */
  function LcfirstTurkish(lower: CaseMap, s: Text): (r: Text)
    ensures s == [] ==> r == []
    ensures s != [] ==> r == lower(if s[0] == 'I' then 'i' else s[0]) + s[1..]
  {
    ConvertCase(lower, ReplaceChar(Slice(s, 0, Some(1)), 'I', 'i')) + Slice(s, 1, None)
  }

  /**
   * The Turkish variants differ from the plain ones only on a leading 'i'
   * (upper) or 'I' (lower), where they convert the other ASCII letter instead.
   */
  lemma TurkishVersusPlain(upper: CaseMap, lower: CaseMap, s: Text)
    ensures s == [] || s[0] != 'i' ==> UcfirstTurkish(upper, s) == Ucfirst(upper, s)
    ensures s != [] && s[0] == 'i' ==> UcfirstTurkish(upper, s) == Ucfirst(upper, ['I'] + s[1..])
    ensures s == [] || s[0] != 'I' ==> LcfirstTurkish(lower, s) == Lcfirst(lower, s)
    ensures s != [] && s[0] == 'I' ==> LcfirstTurkish(lower, s) == Lcfirst(lower, ['i'] + s[1..])
  {
    if s != [] {
      assert (['I'] + s[1..])[1..] == s[1..];
      assert (['i'] + s[1..])[1..] == s[1..];
    }
  }

  /** `$tmp[k]` on a PHP list: a missing index reads null, which concatenates as ''. */
  function ItemOr(ps: seq<Text>, k: nat): Text
  {
    if k < |ps| then ps[k] else []
  }

  /**
   * `ucfirst_turkish_v2`: `preg_split('//u', $str, 2, PREG_SPLIT_NO_EMPTY)`
   * gives the first codepoint and the rest as at most two pieces.
   */
  function UcfirstTurkishV2(upper: CaseMap, s: Text): Text
  {
    var tmp := SegmentAtMost(s, 2);
    ConvertCase(upper, ReplaceChar(ItemOr(tmp, 0), 'i', 'I')) + ItemOr(tmp, 1)
  }

  /** `lcfirst_turkish_v2`. */
  function LcfirstTurkishV2(lower: CaseMap, s: Text): Text
  {
    var tmp := SegmentAtMost(s, 2);
    ConvertCase(lower, ReplaceChar(ItemOr(tmp, 0), 'I', 'i')) + ItemOr(tmp, 1)
  }

  /** The two pieces of a split with limit 2: the first codepoint and the rest. */
  lemma SplitInTwo(s: Text)
    ensures ItemOr(SegmentAtMost(s, 2), 0) == Slice(s, 0, Some(1))
    ensures ItemOr(SegmentAtMost(s, 2), 1) == Slice(s, 1, None)
  {
    if s != [] {
      var tmp := SegmentAtMost(s, 2);
      assert tmp == [[s[0]]] + SegmentAtMost(s[1..], 1);
      assert [s[0]] == s[..1];
    }
  }

  /** Each `_v2` variant agrees with its first version on every input. */
  lemma TurkishV2Agrees(upper: CaseMap, lower: CaseMap, s: Text)
    ensures UcfirstTurkishV2(upper, s) == UcfirstTurkish(upper, s)
    ensures LcfirstTurkishV2(lower, s) == LcfirstTurkish(lower, s)
  {
    SplitInTwo(s);
  }

  /** The callbacks of the `*words_*` functions, as values. */
  function UcfirstOf(upper: CaseMap): Text -> Text { w => Ucfirst(upper, w) }

  function LcfirstOf(lower: CaseMap): Text -> Text { w => Lcfirst(lower, w) }

  function UcfirstTurkishOf(upper: CaseMap): Text -> Text { w => UcfirstTurkish(upper, w) }

  function LcfirstTurkishOf(lower: CaseMap): Text -> Text { w => LcfirstTurkish(lower, w) }

  /** `lcwords_unicode`: `lcfirst_unicode` on every maximal `\w+` run. */
  function Lcwords(lower: CaseMap, isWord: Codepoint -> bool, s: Text): Text
  {
    ReplaceRuns(isWord, LcfirstOf(lower), s)
  }

  /** `ucwords_unicode`: `ucfirst_unicode` on every maximal `\w+` run. */
  function Ucwords(upper: CaseMap, isWord: Codepoint -> bool, s: Text): Text
  {
    ReplaceRuns(isWord, UcfirstOf(upper), s)
  }

  /** `ucwords_turkish`: `ucfirst_turkish` on every maximal `\w+` run. */
  function UcwordsTurkish(upper: CaseMap, isWord: Codepoint -> bool, s: Text): Text
  {
    ReplaceRuns(isWord, UcfirstTurkishOf(upper), s)
  }

  /** `lcwords_turkish`: `lcfirst_turkish` on every maximal `\w+` run. */
  function LcwordsTurkish(lower: CaseMap, isWord: Codepoint -> bool, s: Text): Text
  {
    ReplaceRuns(isWord, LcfirstTurkishOf(lower), s)
  }

  /**
   * `ucwords_unicode` converts the first codepoint of a word and copies the
   * rest; a non-word codepoint is copied and separates what is on either side.
   */
  lemma UcwordsLaws(upper: CaseMap, isWord: Codepoint -> bool, u: Text, c: Codepoint, v: Text)
    ensures Ucwords(upper, isWord, []) == []
    ensures u != [] && AllIn(isWord, u) ==> Ucwords(upper, isWord, u) == upper(u[0]) + u[1..]
    ensures !isWord(c) ==> Ucwords(upper, isWord, u + [c] + v) == Ucwords(upper, isWord, u) + [c] + Ucwords(upper, isWord, v)
  {
    if u != [] && AllIn(isWord, u) { ReplaceWord(isWord, UcfirstOf(upper), u); }
    if !isWord(c) { ReplaceAtGap(isWord, UcfirstOf(upper), u, c, v); }
  }

  /** The same laws for `lcwords_unicode`. */
  lemma LcwordsLaws(lower: CaseMap, isWord: Codepoint -> bool, u: Text, c: Codepoint, v: Text)
    ensures Lcwords(lower, isWord, []) == []
    ensures u != [] && AllIn(isWord, u) ==> Lcwords(lower, isWord, u) == lower(u[0]) + u[1..]
    ensures !isWord(c) ==> Lcwords(lower, isWord, u + [c] + v) == Lcwords(lower, isWord, u) + [c] + Lcwords(lower, isWord, v)
  {
    if u != [] && AllIn(isWord, u) { ReplaceWord(isWord, LcfirstOf(lower), u); }
    if !isWord(c) { ReplaceAtGap(isWord, LcfirstOf(lower), u, c, v); }
  }

  /** The same laws for `ucwords_turkish`, with a leading 'i' of a word converted as 'I'. */
  lemma UcwordsTurkishLaws(upper: CaseMap, isWord: Codepoint -> bool, u: Text, c: Codepoint, v: Text)
    ensures UcwordsTurkish(upper, isWord, []) == []
    ensures u != [] && AllIn(isWord, u) ==>
      UcwordsTurkish(upper, isWord, u) == upper(if u[0] == 'i' then 'I' else u[0]) + u[1..]
    ensures !isWord(c) ==>
      UcwordsTurkish(upper, isWord, u + [c] + v) == UcwordsTurkish(upper, isWord, u) + [c] + UcwordsTurkish(upper, isWord, v)
  {
    if u != [] && AllIn(isWord, u) { ReplaceWord(isWord, UcfirstTurkishOf(upper), u); }
    if !isWord(c) { ReplaceAtGap(isWord, UcfirstTurkishOf(upper), u, c, v); }
  }

  /** The same laws for `lcwords_turkish`, with a leading 'I' of a word converted as 'i'. */
  lemma LcwordsTurkishLaws(lower: CaseMap, isWord: Codepoint -> bool, u: Text, c: Codepoint, v: Text)
    ensures LcwordsTurkish(lower, isWord, []) == []
    ensures u != [] && AllIn(isWord, u) ==>
      LcwordsTurkish(lower, isWord, u) == lower(if u[0] == 'I' then 'i' else u[0]) + u[1..]
    ensures !isWord(c) ==>
      LcwordsTurkish(lower, isWord, u + [c] + v) == LcwordsTurkish(lower, isWord, u) + [c] + LcwordsTurkish(lower, isWord, v)
  {
    if u != [] && AllIn(isWord, u) { ReplaceWord(isWord, LcfirstTurkishOf(lower), u); }
    if !isWord(c) { ReplaceAtGap(isWord, LcfirstTurkishOf(lower), u, c, v); }
  }

  /** A text without word codepoints is left unchanged by all four word functions. */
  lemma WordsCasingNoWords(upper: CaseMap, lower: CaseMap, isWord: Codepoint -> bool, s: Text)
    requires forall i :: 0 <= i < |s| ==> !isWord(s[i])
    ensures Ucwords(upper, isWord, s) == s && Lcwords(lower, isWord, s) == s
    ensures UcwordsTurkish(upper, isWord, s) == s && LcwordsTurkish(lower, isWord, s) == s
  {
    ReplaceNoWords(isWord, UcfirstOf(upper), s);
    ReplaceNoWords(isWord, LcfirstOf(lower), s);
    ReplaceNoWords(isWord, UcfirstTurkishOf(upper), s);
    ReplaceNoWords(isWord, LcfirstTurkishOf(lower), s);
  }

  /**
   * When every codepoint maps to a single codepoint, the word functions keep
   * the length of the text.
   */
  lemma UcwordsLength(upper: CaseMap, isWord: Codepoint -> bool, s: Text)
    requires forall c :: |upper(c)| == 1
    ensures |Ucwords(upper, isWord, s)| == |s| && |UcwordsTurkish(upper, isWord, s)| == |s|
  {
    ReplaceLength(isWord, UcfirstOf(upper), s);
    ReplaceLength(isWord, UcfirstTurkishOf(upper), s);
  }

  /**
   * The example of the source, 'iyilik güzelLİK': the code hands ASCII 'I' to
   * the case map in place of the leading 'i', and copies the rest.
   */
  lemma UcfirstTurkishExample(upper: CaseMap)
    ensures UcfirstTurkish(upper, "iyilik güzelLİK") == upper('I') + "yilik güzelLİK"
  {
  }
}
