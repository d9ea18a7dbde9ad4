/**
 * `str_pad_unicode` (unicode-tools.php lines 180-209): padding measured in
 * codepoints, with PHP's three directions.
 *
 * Two models are given. `StrPadAsWritten` follows the source line for line,
 * including the repeat count `str_len - pad_str_len + pad_len` of line 198,
 * which is too small (zero or negative) for long pad strings; the text then
 * comes back unpadded. `StrPad` is the
 * same function with a repeat count that always covers the deficit; the
 * padding properties are proved about it, and `AsWrittenAgrees` shows that the
 * two coincide whenever line 198's count is positive.
 */
module Padding {
  import opened Codepoints

  /** STR_PAD_LEFT, STR_PAD_RIGHT and STR_PAD_BOTH. */
  datatype PadDir = Left | Right | Both

  /** `str_repeat(p, k)`. */
  function Repeat(p: Text, k: nat): Text
  {
    if k == 0 then [] else p + Repeat(p, k - 1)
  }

  lemma {:induction false} RepeatLength(p: Text, k: nat)
    ensures |Repeat(p, k)| == k * |p|
  {
    if k > 0 {
      RepeatLength(p, k - 1);
      MulSucc(k - 1, |p|);
    }
  }

  lemma MulAtLeast(k: int, q: nat)
    requires k >= 1
    ensures k * q >= q
  {
  }

  /** Euclidean remainders are unique. */
  lemma ModUnique(y: int, q: nat, a: int, b: int)
    requires q >= 1 && y == a * q + b && 0 <= b < q
    ensures y % q == b
  {
    var a2, b2 := y / q, y % q;
    assert y == a2 * q + b2;
    if a2 > a {
      assert (a2 - a) * q >= q by { MulAtLeast(a2 - a, q); }
      assert false;
    }
    if a2 < a {
      assert (a - a2) * q >= q by { MulAtLeast(a - a2, q); }
      assert false;
    }
  }

  /** Shifting by one period does not change a remainder. */
  lemma ModShift(x: int, q: nat)
    requires q >= 1
    ensures (x - q) % q == x % q
  {
    var a, b := x / q, x % q;
    assert x == a * q + b;
    assert x - q == (a - 1) * q + b;
    ModUnique(x - q, q, a - 1, b);
  }

  /** Shifting by whole periods does not change a remainder. */
  lemma {:induction false} ModShiftMany(x: int, k: nat, q: nat)
    requires q >= 1
    ensures (k * q + x) % q == x % q
  {
    if k > 0 {
      ModShiftMany(x, k - 1, q);
      MulSucc(k - 1, q);
      ModShift(k * q + x, q);
    }
  }

  /** The `i`-th codepoint of `p` repeated is `p[i mod |p|]`. */
  lemma {:induction false} RepeatAt(p: Text, k: nat, i: nat)
    requires i < |Repeat(p, k)|
    ensures |p| >= 1 && Repeat(p, k)[i] == p[i % |p|]
  {
    assert k > 0;
    var rest := Repeat(p, k - 1);
    assert Repeat(p, k) == p + rest;
    if i < |p| {
      assert i % |p| == i by { ModUnique(i, |p|, 0, i); }
    } else {
      RepeatAt(p, k - 1, i - |p|);
      ModShift(i, |p|);
    }
  }

  /** `ceil(a / b)` in integers. */
  function CeilDiv(a: nat, b: nat): nat
    requires b >= 1
  {
    (a + b - 1) / b
  }

  lemma CeilDivCovers(a: nat, b: nat)
    requires b >= 1
    ensures CeilDiv(a, b) * b >= a
  {
    var c, m := (a + b - 1) / b, (a + b - 1) % b;
    assert a + b - 1 == c * b + m;
    assert 0 <= m < b;
  }

  /**
   * The length `str_pad_unicode` works with (lines 181-185): the number of
   * codepoints, except that an empty text counts as one codepoint when padding
   * to the left or to the right (but not on both sides).
   */
  function EffectiveLength(s: Text, dir: PadDir): nat
  {
    if |s| == 0 && (dir == Right || dir == Left) then 1 else |s|
  }

  /** Line 186: the cases in which the text is returned unchanged. */
  predicate IsNoop(s: Text, padLen: int, p: Text, dir: PadDir)
  {
    padLen == 0 || |p| == 0 || padLen <= EffectiveLength(s, dir)
  }

  /**
   * Lines 190-206 once padding is due, with `repeat` the number of copies of
   * the pad string that line 198 prepares for LEFT and RIGHT. BOTH splits the
   * deficit `d` into floor(d/2) codepoints before and ceil(d/2) after, each a
   * prefix of `ceil((d/2) / |p|)` copies of `p`; RIGHT cuts text-then-padding
   * to `padLen` codepoints from the front, LEFT cuts padding-then-text to the
   * last `padLen` codepoints.
   */
  function PadBody(s: Text, padLen: int, p: Text, dir: PadDir, repeat: nat): Text
    requires !IsNoop(s, padLen, p, dir)
  {
    match dir
    case Both =>
      var d := padLen - |s|;
      var fill := Repeat(p, CeilDiv(d, 2 * |p|));
      Slice(fill, 0, Some(d / 2)) + s + Slice(fill, 0, Some((d + 1) / 2))
    case Right =>
      Slice(s + Repeat(p, repeat), 0, Some(padLen))
    case Left =>
      Slice(Repeat(p, repeat) + s, -padLen, None)
  }

  /** Line 198 as written: `str_len - pad_str_len + pad_len`. */
  function AsWrittenRepeat(s: Text, padLen: int, p: Text, dir: PadDir): int
  {
    EffectiveLength(s, dir) - |p| + padLen
  }

  /**
   * `str_pad_unicode` exactly as written, as PHP 7 runs it: `str_repeat` with
   * a negative count warns and returns null, which concatenates as the empty
   * string, so a negative count of line 198 acts as a count of 0. LEFT and
   * RIGHT then cut the unpadded text, which gives it back unchanged.
   */
  function StrPadAsWritten(s: Text, padLen: int, p: Text, dir: PadDir): (r: Text)
    ensures IsNoop(s, padLen, p, dir) ==> r == s
    ensures dir != Both && AsWrittenRepeat(s, padLen, p, dir) <= 0 ==> r == s
  {
    if IsNoop(s, padLen, p, dir) then s
    else if dir == Both then PadBody(s, padLen, p, dir, 0)
    else
      var repeat := AsWrittenRepeat(s, padLen, p, dir);
      PadUnfilled(s, padLen, p, dir);
      PadBody(s, padLen, p, dir, if repeat < 0 then 0 else repeat)
  }

  /** LEFT and RIGHT with no copies of the pad string cut the text to itself. */
  lemma PadUnfilled(s: Text, padLen: int, p: Text, dir: PadDir)
    requires !IsNoop(s, padLen, p, dir) && dir != Both
    ensures PadBody(s, padLen, p, dir, 0) == s
  {
    assert Repeat(p, 0) == [];
    assert s + [] == s && [] + s == s;
  }

  /**
   * `str_pad_unicode` with the repeat count of LEFT and RIGHT corrected to the
   * fewest copies of `p` that cover the deficit `padLen - |s|`.
   */
  function StrPad(s: Text, padLen: int, p: Text, dir: PadDir): Text
  {
    if IsNoop(s, padLen, p, dir) then s
    else PadBody(s, padLen, p, dir, CeilDiv(padLen - |s|, |p|))
  }

  /** `x` is made of copies of `p` laid from its first codepoint on. */
  ghost predicate FilledFromStart(x: Text, p: Text)
    requires |p| >= 1
  {
    forall i :: 0 <= i < |x| ==> x[i] == p[i % |p|]
  }

  /** `x` is made of copies of `p` laid so that a whole copy ends it. */
  ghost predicate FilledToEnd(x: Text, p: Text)
    requires |p| >= 1
  {
    forall i :: 0 <= i < |x| ==> x[i] == p[(i - |x|) % |p|]
  }

  lemma PrefixOfRepeat(p: Text, k: nat, n: nat)
    requires |p| >= 1 && n <= k * |p|
    ensures n <= |Repeat(p, k)| && FilledFromStart(Repeat(p, k)[..n], p)
  {
    RepeatLength(p, k);
    forall i | 0 <= i < n ensures Repeat(p, k)[..n][i] == p[i % |p|] {
      RepeatAt(p, k, i);
    }
  }

  lemma SuffixOfRepeat(p: Text, k: nat, n: nat)
    requires |p| >= 1 && n <= k * |p|
    ensures |Repeat(p, k)| == k * |p|
    ensures FilledToEnd(Repeat(p, k)[|Repeat(p, k)| - n..], p)
  {
    RepeatLength(p, k);
    var x := Repeat(p, k)[k * |p| - n..];
    forall i | 0 <= i < n ensures x[i] == p[(i - n) % |p|] {
      RepeatAt(p, k, k * |p| - n + i);
      ModShiftMany(i - n, k, |p|);
    }
  }

  /** The text comes back unchanged exactly in the no-op cases of line 186. */
  lemma StrPadNoop(s: Text, padLen: int, p: Text, dir: PadDir)
    ensures StrPad(s, padLen, p, dir) == s <==> IsNoop(s, padLen, p, dir)
  {
    if !IsNoop(s, padLen, p, dir) {
      StrPadShape(s, padLen, p, dir);
    }
  }

  /** The quirk of line 183: an empty text padded to one codepoint stays empty. */
  lemma StrPadEmptyQuirk(p: Text)
    ensures StrPad([], 1, p, Left) == [] && StrPad([], 1, p, Right) == []
    ensures |p| >= 1 ==> |StrPad([], 1, p, Both)| == 1
  {
    if |p| >= 1 { StrPadShape([], 1, p, Both); }
  }

  /** BOTH: floor(d/2) codepoints of padding, the text, ceil(d/2) codepoints of padding. */
  lemma PadBothShape(s: Text, padLen: int, p: Text)
    requires !IsNoop(s, padLen, p, Both)
    ensures |PadBody(s, padLen, p, Both, 0)| == padLen
    ensures var d, r := padLen - |s|, PadBody(s, padLen, p, Both, 0);
      r[d / 2..d / 2 + |s|] == s &&
      FilledFromStart(r[..d / 2], p) && FilledFromStart(r[d / 2 + |s|..], p)
  {
    var d := padLen - |s|;
    var fill := Repeat(p, CeilDiv(d, 2 * |p|));
    PadBothPieces(s, padLen, p);
    var r := PadBody(s, padLen, p, Both, 0);
    assert r[..d / 2] == fill[..d / 2];
    assert r[d / 2 + |s|..] == fill[..(d + 1) / 2];
  }

  /** BOTH cuts both sides from the same fill, long enough for the wider side. */
  lemma PadBothPieces(s: Text, padLen: int, p: Text)
    requires !IsNoop(s, padLen, p, Both)
    ensures var d, fill := padLen - |s|, Repeat(p, CeilDiv(padLen - |s|, 2 * |p|));
      d / 2 <= (d + 1) / 2 <= |fill| &&
      PadBody(s, padLen, p, Both, 0) == fill[..d / 2] + s + fill[..(d + 1) / 2] &&
      FilledFromStart(fill[..d / 2], p) && FilledFromStart(fill[..(d + 1) / 2], p)
  {
    var d := padLen - |s|;
    var k := CeilDiv(d, 2 * |p|);
    CeilDivCovers(d, 2 * |p|);
    assert k * (2 * |p|) == 2 * (k * |p|);
    PrefixOfRepeat(p, k, d / 2);
    PrefixOfRepeat(p, k, (d + 1) / 2);
  }

  /** RIGHT with enough copies: the text, then padding from the start of `p`. */
  lemma PadRightShape(s: Text, padLen: int, p: Text, k: nat)
    requires !IsNoop(s, padLen, p, Right) && k * |p| >= padLen - |s|
    ensures |PadBody(s, padLen, p, Right, k)| == padLen
    ensures PadBody(s, padLen, p, Right, k) == s + Repeat(p, k)[..padLen - |s|]
    ensures FilledFromStart(PadBody(s, padLen, p, Right, k)[|s|..], p)
  {
    var d := padLen - |s|;
    PrefixOfRepeat(p, k, d);
    var x := s + Repeat(p, k);
    assert x[..padLen] == s + Repeat(p, k)[..d];
    assert (s + Repeat(p, k)[..d])[|s|..] == Repeat(p, k)[..d];
  }

  /** LEFT with enough copies: padding that ends on a whole copy of `p`, then the text. */
  lemma PadLeftShape(s: Text, padLen: int, p: Text, k: nat)
    requires !IsNoop(s, padLen, p, Left) && k * |p| >= padLen - |s|
    ensures |PadBody(s, padLen, p, Left, k)| == padLen
    ensures |Repeat(p, k)| == k * |p|
    ensures PadBody(s, padLen, p, Left, k) == Repeat(p, k)[|Repeat(p, k)| - (padLen - |s|)..] + s
    ensures FilledToEnd(PadBody(s, padLen, p, Left, k)[..padLen - |s|], p)
  {
    var d := padLen - |s|;
    SuffixOfRepeat(p, k, d);
    var y := Repeat(p, k);
    var x := y + s;
    assert |x| - padLen == |y| - d >= 0;
    assert SliceLo(|x|, -padLen) == |x| - padLen;
    assert PadBody(s, padLen, p, Left, k) == x[|x| - padLen..];
    assert x[|x| - padLen..] == y[|y| - d..] + s;
    assert (y[|y| - d..] + s)[..d] == y[|y| - d..];
  }

  /**
   * Once padding is due the result has exactly `padLen` codepoints: RIGHT puts
   * the text first and fills after it from the start of `p`; LEFT puts the
   * text last and fills before it so that a whole copy of `p` ends the
   * padding; BOTH puts floor(d/2) codepoints of `p` before the text and
   * ceil(d/2) after it, each side a prefix of `p` repeated, where `d` is the
   * deficit.
   */
  lemma StrPadShape(s: Text, padLen: int, p: Text, dir: PadDir)
    requires !IsNoop(s, padLen, p, dir)
    ensures padLen > |s| && |p| >= 1
    ensures |StrPad(s, padLen, p, dir)| == padLen
    ensures dir == Right ==>
      StrPad(s, padLen, p, dir)[..|s|] == s &&
      FilledFromStart(StrPad(s, padLen, p, dir)[|s|..], p)
    ensures dir == Left ==>
      StrPad(s, padLen, p, dir)[padLen - |s|..] == s &&
      FilledToEnd(StrPad(s, padLen, p, dir)[..padLen - |s|], p)
    ensures dir == Both ==>
      var d, r := padLen - |s|, StrPad(s, padLen, p, dir);
      r[d / 2..d / 2 + |s|] == s &&
      FilledFromStart(r[..d / 2], p) && FilledFromStart(r[d / 2 + |s|..], p)
  {
    var d := padLen - |s|;
    var k := CeilDiv(d, |p|);
    CeilDivCovers(d, |p|);
    match dir
    case Both => PadBothShape(s, padLen, p);
    case Right => PadRightShape(s, padLen, p, k);
    case Left => PadLeftShape(s, padLen, p, k);
  }

  /**
   * Whenever line 198's count is positive (or no padding is due, or the
   * direction is BOTH), the source computes the corrected result.
   */
  lemma AsWrittenAgrees(s: Text, padLen: int, p: Text, dir: PadDir)
    requires IsNoop(s, padLen, p, dir) || dir == Both || AsWrittenRepeat(s, padLen, p, dir) >= 1
    ensures StrPadAsWritten(s, padLen, p, dir) == StrPad(s, padLen, p, dir)
  {
    if !IsNoop(s, padLen, p, dir) && dir != Both {
      var d := padLen - |s|;
      var k := CeilDiv(d, |p|);
      var w := AsWrittenRepeat(s, padLen, p, dir);
      CeilDivCovers(d, |p|);
      WrittenCountCovers(s, padLen, p, dir);
      if dir == Right {
        PadRightShape(s, padLen, p, k);
        PadRightShape(s, padLen, p, w);
        RepeatPrefix(p, k, w, d);
      } else {
        PadLeftShape(s, padLen, p, k);
        PadLeftShape(s, padLen, p, w);
        RepeatSuffix(p, k, w, d);
      }
    }
  }

  /** A positive count from line 198 always covers the deficit. */
  lemma WrittenCountCovers(s: Text, padLen: int, p: Text, dir: PadDir)
    requires dir != Both
    requires !IsNoop(s, padLen, p, dir) && AsWrittenRepeat(s, padLen, p, dir) >= 1
    ensures AsWrittenRepeat(s, padLen, p, dir) * |p| >= padLen - |s|
  {
    var w, q := AsWrittenRepeat(s, padLen, p, dir), |p|;
    assert w * q == (w - 1) * (q - 1) + w + q - 1;
    assert (w - 1) * (q - 1) >= 0 by { MulNonNeg(w - 1, q - 1); }
  }

  lemma MulNonNeg(a: nat, b: nat)
    ensures a * b >= 0
  {
  }

  /** Two repetitions long enough agree on their first `n` codepoints. */
  lemma RepeatPrefix(p: Text, k: nat, w: nat, n: nat)
    requires |p| >= 1 && n <= k * |p| && n <= w * |p|
    ensures n <= |Repeat(p, k)| && n <= |Repeat(p, w)|
    ensures Repeat(p, k)[..n] == Repeat(p, w)[..n]
  {
    PrefixOfRepeat(p, k, n);
    PrefixOfRepeat(p, w, n);
    var x, y := Repeat(p, k)[..n], Repeat(p, w)[..n];
    assert forall i :: 0 <= i < n ==> x[i] == y[i];
  }

  /** Two repetitions long enough agree on their last `n` codepoints. */
  lemma RepeatSuffix(p: Text, k: nat, w: nat, n: nat)
    requires |p| >= 1 && n <= k * |p| && n <= w * |p|
    ensures |Repeat(p, k)| == k * |p| && |Repeat(p, w)| == w * |p|
    ensures Repeat(p, k)[|Repeat(p, k)| - n..] == Repeat(p, w)[|Repeat(p, w)| - n..]
  {
    SuffixOfRepeat(p, k, n);
    SuffixOfRepeat(p, w, n);
    var x, y := Repeat(p, k)[|Repeat(p, k)| - n..], Repeat(p, w)[|Repeat(p, w)| - n..];
    assert forall i :: 0 <= i < n ==> x[i] == y[i];
  }

  /**
   * Line 198's count is zero when the pad string has exactly as many
   * codepoints as `str_len + pad_len`: the source then returns 'a' where two
   * codepoints were asked for, while the corrected count gives 'aa'.
   */
  lemma AsWrittenTooShort()
    ensures AsWrittenRepeat("a", 2, "abc", Right) == 0
    ensures StrPadAsWritten("a", 2, "abc", Right) == "a"
    ensures StrPad("a", 2, "abc", Right) == "aa"
  {
    assert CeilDiv(1, 3) == 1;
    assert Repeat("abc", 1) == "abc" + Repeat("abc", 0) == "abc";
    assert StrPad("a", 2, "abc", Right) == PadBody("a", 2, "abc", Right, 1);
    assert "a" + "abc" == "aabc";
  }

  /**
   * A longer pad string makes line 198's count negative: `str_repeat` returns
   * null, and the source gives 'a' back unpadded where the corrected count
   * gives 'da'.
   */
  lemma AsWrittenNegative()
    ensures AsWrittenRepeat("a", 2, "abcd", Left) == -1
    ensures StrPadAsWritten("a", 2, "abcd", Left) == "a"
    ensures StrPad("a", 2, "abcd", Left) == "da"
  {
    assert CeilDiv(1, 4) == 1;
    assert Repeat("abcd", 1) == "abcd" + Repeat("abcd", 0) == "abcd";
    assert StrPad("a", 2, "abcd", Left) == PadBody("a", 2, "abcd", Left, 1);
    assert "abcd" + "a" == "abcda";
  }

  /**
   * The source as written returns the text unpadded exactly in the no-op cases
   * of line 186 and when line 198's count is not positive.
   */
  lemma AsWrittenUnpadded(s: Text, padLen: int, p: Text, dir: PadDir)
    ensures StrPadAsWritten(s, padLen, p, dir) == s <==>
      IsNoop(s, padLen, p, dir) || (dir != Both && AsWrittenRepeat(s, padLen, p, dir) <= 0)
  {
    if !IsNoop(s, padLen, p, dir) && (dir == Both || AsWrittenRepeat(s, padLen, p, dir) >= 1) {
      AsWrittenAgrees(s, padLen, p, dir);
      StrPadShape(s, padLen, p, dir);
    }
  }
}
