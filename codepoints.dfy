/**
 * Text as a sequence of Unicode codepoints, and the PHP primitives that every
 * operation of unicode-tools.php goes through: splitting a string into its
 * codepoints (`preg_split('//u', ..., PREG_SPLIT_NO_EMPTY)`), joining pieces
 * back together (`join('', ...)`), and the clipping rules shared by
 * `array_slice` and `mb_substr`.
 *
 * A string is modelled directly by its codepoints, so segmentation is lossless
 * by construction; invalid UTF-8 is not representable.
 */
module Codepoints {

  /** A Unicode scalar value; Dafny's `char` is exactly that. */
  type Codepoint = char

  /** A PHP string, seen as the sequence of its codepoints. */
  type Text = seq<Codepoint>

  datatype Option<+T> = None | Some(value: T)

  function Min(a: int, b: int): int { if a <= b then a else b }

  function Max(a: int, b: int): int { if a >= b then a else b }

  /** `join('', ps)`: the concatenation of the pieces, in order. */
  function Join(ps: seq<Text>): (r: Text)
    ensures ps == [] ==> r == []
  {
    if ps == [] then [] else ps[0] + Join(ps[1..])
  }

  lemma {:induction false} JoinAppend(a: seq<Text>, b: seq<Text>)
    ensures Join(a + b) == Join(a) + Join(b)
  {
    if a == [] {
      assert a + b == b;
    } else {
      assert (a + b)[1..] == a[1..] + b;
      JoinAppend(a[1..], b);
    }
  }

  lemma MulSucc(n: int, m: int)
    ensures (n + 1) * m == n * m + m
  {
  }

  /**
   * `preg_split('//u', t, -1, PREG_SPLIT_NO_EMPTY)`: the codepoints of `t`,
   * each as a string of its own.
   */
  function Segment(t: Text): (r: seq<Text>)
    ensures |r| == |t|
  {
    if t == [] then [] else [[t[0]]] + Segment(t[1..])
  }

  /** Segmentation is lossless: joining the codepoints gives the text back. */
  lemma {:induction false} JoinSegment(t: Text)
    ensures Join(Segment(t)) == t
  {
    if t != [] {
      JoinSegment(t[1..]);
      assert ([[t[0]]] + Segment(t[1..]))[1..] == Segment(t[1..]);
    }
  }

  /** Every piece of a segmentation is the codepoint at its position. */
  lemma {:induction false} SegmentAt(t: Text, i: nat)
    requires i < |t|
    ensures Segment(t)[i] == [t[i]]
  {
    if i > 0 { SegmentAt(t[1..], i - 1); }
  }

  /** Segmentation commutes with concatenation. */
  lemma {:induction false} SegmentAppend(a: Text, b: Text)
    ensures Segment(a + b) == Segment(a) + Segment(b)
  {
    if a == [] {
      assert a + b == b;
    } else {
      assert (a + b)[1..] == a[1..] + b;
      SegmentAppend(a[1..], b);
    }
  }

  /**
   * `preg_split('//u', t, limit, PREG_SPLIT_NO_EMPTY)` with `limit >= 1`: the
   * first `limit - 1` codepoints one by one, then the rest of the text as a
   * single last piece.
   */
  function SegmentAtMost(t: Text, limit: nat): (r: seq<Text>)
    requires limit >= 1
    ensures |r| == Min(|t|, limit)
    ensures forall i :: 0 <= i < |r| ==> r[i] != []
    ensures forall i :: 0 <= i < |r| - 1 ==> |r[i]| == 1
    ensures Join(r) == t
    decreases limit
  {
    if t == [] then []
    else if limit == 1 then [t]
    else [[t[0]]] + SegmentAtMost(t[1..], limit - 1)
  }

  /** Where a slice of a sequence of length `n` starts, after clipping. */
  function SliceLo(n: nat, offset: int): (lo: nat)
    ensures lo <= n
  {
    if offset >= 0 then Min(offset, n) else Max(0, n + offset)
  }

  /** Where a slice of a sequence of length `n` ends, after clipping. */
  function SliceHi(n: nat, offset: int, length: Option<int>): (hi: nat)
    ensures SliceLo(n, offset) <= hi <= n
  {
    var lo := SliceLo(n, offset);
    match length
    case None => n
    case Some(l) => if l >= 0 then Min(lo + l, n) else Max(lo, n + l)
  }

  /**
   * `array_slice(xs, offset, length)`, written as PHP evaluates it: an offset
   * past the end gives nothing, a negative offset counts from the end (and
   * stops at the front), a missing length takes the rest, a negative length
   * leaves that many elements off the end, and a length that runs past the end
   * is cut there. `mb_substr` clips its arguments by the same rules.
   */
  function Slice<T>(xs: seq<T>, offset: int, length: Option<int>): (r: seq<T>)
    ensures r == xs[SliceLo(|xs|, offset)..SliceHi(|xs|, offset, length)]
  {
    var n := |xs|;
    if offset > n then []
    else
      var start := if offset < 0 then Max(0, n + offset) else offset;
      var len := match length
        case None => n - start
        case Some(l) => if l < 0 then n - start + l else Min(l, n - start);
      if len <= 0 then [] else xs[start..start + len]
  }
}
