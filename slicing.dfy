/**
 * Slicing and splitting by codepoint: `substr_unicode`, `str_split_unicode`
 * and `chunk_split_unicode` (unicode-tools.php lines 25-58 and 145-153).
 */
module Slicing {
  import opened Codepoints

  lemma {:induction false} SegmentDrop(t: Text, a: nat)
    requires a <= |t|
    ensures Segment(t)[a..] == Segment(t[a..])
  {
    if a > 0 {
      SegmentDrop(t[1..], a - 1);
      assert t[1..][a - 1..] == t[a..];
    }
  }

  lemma {:induction false} SegmentTake(t: Text, b: nat)
    requires b <= |t|
    ensures Segment(t)[..b] == Segment(t[..b])
  {
    if b > 0 {
      SegmentTake(t[1..], b - 1);
      assert t[..b][1..] == t[1..][..b - 1];
    }
  }

  /** A slice of the segmentation is the segmentation of the slice. */
  lemma SegmentSlice(t: Text, a: nat, b: nat)
    requires a <= b <= |t|
    ensures Segment(t)[a..b] == Segment(t[a..b])
  {
    SegmentTake(t, b);
    SegmentDrop(t[..b], a);
    assert Segment(t)[a..b] == Segment(t)[..b][a..];
    assert t[a..b] == t[..b][a..];
  }

  /**
   * `substr_unicode($str, $s, $l)`: `array_slice` on the codepoints, joined
   * back. The result is the run of codepoints between the clipped start and
   * the clipped end, so it never splits a codepoint and never fails.
   */
  function SubstrUnicode(t: Text, s: int, l: Option<int>): (r: Text)
    ensures r == t[SliceLo(|t|, s)..SliceHi(|t|, s, l)]
  {
    var r := Join(Slice(Segment(t), s, l));
    SegmentSlice(t, SliceLo(|t|, s), SliceHi(|t|, s, l));
    JoinSegment(t[SliceLo(|t|, s)..SliceHi(|t|, s, l)]);
    r
  }

  /** The clipping rules of `array_slice`, case by case. */
  lemma SubstrCases(t: Text, s: int, l: Option<int>)
    ensures s > |t| ==> SubstrUnicode(t, s, l) == []
    ensures s < 0 && l == None ==> SubstrUnicode(t, s, l) == t[Max(0, |t| + s)..]
    ensures 0 <= s <= |t| && l == None ==> SubstrUnicode(t, s, l) == t[s..]
    ensures 0 <= s <= |t| && l.Some? && l.value >= 0 ==>
      SubstrUnicode(t, s, l) == t[s..s + Min(l.value, |t| - s)]
    ensures SubstrUnicode(t, 0, None) == t && SubstrUnicode(t, 0, Some(|t|)) == t
  {
  }

  /** Taking `k` codepoints and then the rest gives the whole tail back. */
  lemma SubstrSplit(t: Text, s: nat, k: nat)
    ensures SubstrUnicode(t, s, Some(k)) + SubstrUnicode(t, s + k, None) == SubstrUnicode(t, s, None)
  {
  }

  /** The documented example: three codepoints of 'Büyük', not three bytes. */
  lemma SubstrExample()
    ensures SubstrUnicode("Büyük", 0, Some(3)) == "Büy"
  {
  }

  /**
   * `array_chunk(xs, l)`: consecutive chunks of `l` codepoints, the last one
   * possibly shorter. `array_chunk` rejects `l < 1`.
   */
  function Chunks(t: Text, l: nat): seq<Text>
    requires l >= 1
    decreases |t|
  {
    if t == [] then []
    else if |t| <= l then [t]
    else [t[..l]] + Chunks(t[l..], l)
  }

  /** Concatenating the chunks gives the text back. */
  lemma {:induction false} ChunksJoin(t: Text, l: nat)
    requires l >= 1
    ensures Join(Chunks(t, l)) == t
    decreases |t|
  {
    if |t| > l {
      ChunksJoin(t[l..], l);
      assert ([t[..l]] + Chunks(t[l..], l))[1..] == Chunks(t[l..], l);
      assert t == t[..l] + t[l..];
    } else if t != [] {
      assert Join([t]) == t + Join([]);
    }
  }

  /** Every chunk has exactly `l` codepoints except the last, which has 1 to `l`. */
  lemma {:induction false} ChunksShape(t: Text, l: nat)
    requires l >= 1
    ensures forall i :: 0 <= i < |Chunks(t, l)| ==> 1 <= |Chunks(t, l)[i]| <= l
    ensures forall i :: 0 <= i < |Chunks(t, l)| - 1 ==> |Chunks(t, l)[i]| == l
    decreases |t|
  {
    if |t| > l {
      ChunksShape(t[l..], l);
      assert Chunks(t, l) == [t[..l]] + Chunks(t[l..], l);
    }
  }

  /** There are ceil(n / l) chunks: the fewest runs of `l` that cover the text. */
  lemma {:induction false} ChunksCount(t: Text, l: nat)
    requires l >= 1
    ensures t == [] <==> |Chunks(t, l)| == 0
    ensures t != [] ==> (|Chunks(t, l)| - 1) * l < |t| <= |Chunks(t, l)| * l
    decreases |t|
  {
    if |t| > l {
      var c, rest := Chunks(t, l), Chunks(t[l..], l);
      assert c == [t[..l]] + rest;
      ChunksCount(t[l..], l);
      MulSucc(|rest| - 1, l);
      MulSucc(|rest|, l);
    } else if t != [] {
      assert |Chunks(t, l)| == 1;
      assert 0 * l == 0 && 1 * l == l;
    }
  }

  /** A run of `l` inside the tail after the first `l` codepoints, located in the whole text. */
  lemma SliceOfDrop(t: Text, l: nat, a: nat)
    requires l <= |t| && a < |t| - l
    ensures t[l..][a..Min(a + l, |t| - l)] == t[a + l..Min(a + l + l, |t|)]
  {
  }

  /** Past the first chunk, the chunks are those of the rest of the text. */
  lemma ChunksTail(t: Text, l: nat, k: nat)
    requires l >= 1 && 0 < k < |Chunks(t, l)|
    ensures |t| > l && k - 1 < |Chunks(t[l..], l)|
    ensures Chunks(t, l)[k] == Chunks(t[l..], l)[k - 1]
  {
  }

  /** Chunk `k` is the `k`-th run of `l` codepoints, cut at the end of the text. */
  lemma {:induction false} ChunkAt(t: Text, l: nat, k: nat)
    requires l >= 1 && k < |Chunks(t, l)|
    ensures k * l < |t|
    ensures Chunks(t, l)[k] == t[k * l..Min(k * l + l, |t|)]
    decreases k
  {
    if k == 0 {
      if |t| <= l { assert t[0..|t|] == t; } else { assert t[..l] == t[0..l]; }
    } else {
      ChunksTail(t, l, k);
      ChunkAt(t[l..], l, k - 1);
      MulSucc(k - 1, l);
      SliceOfDrop(t, l, (k - 1) * l);
    }
  }

  /** One step of `str_split_unicode`'s loop: the chunk at `i`, then the rest. */
  lemma ChunksStep(t: Text, l: nat, i: nat)
    requires l >= 1 && i < |t|
    ensures Chunks(t[i..], l) == [Slice(t, i, Some(l))] + Chunks(t[Min(i + l, |t|)..], l)
  {
    if |t[i..]| > l {
      assert t[i..][..l] == t[i..i + l];
      assert t[i..][l..] == t[i + l..];
    } else {
      assert Min(i + l, |t|) == |t|;
      assert t[i..|t|] == t[i..];
      assert t[|t|..] == [];
    }
  }

  /**
   * `str_split_unicode($str, $l)`. For `l > 0` the loop appends
   * `mb_substr($str, $i, $l)` for `i = 0, l, 2l, ...`; the list `$ret` only
   * comes into being at its first append, so an empty text returns an
   * undefined variable (PHP's null, `None` here). For `l <= 0` the text is
   * split into its codepoints.
   */
  method StrSplit(t: Text, l: int) returns (r: Option<seq<Text>>)
    ensures l > 0 && t == [] ==> r == None
    ensures l > 0 && t != [] ==> r.Some? && Join(r.value) == t
    ensures l > 0 && t != [] ==> r == Some(Chunks(t, l))
    ensures l <= 0 ==> r.Some? && |r.value| == |t|
    ensures l <= 0 ==> r.Some? && forall i :: 0 <= i < |t| ==> r.value[i] == [t[i]]
  {
    if l > 0 {
      var ret: Option<seq<Text>> := None;
      var i, len := 0, |t|;
      while i < len
        invariant 0 <= i
        invariant ret == None <==> i == 0
        invariant len == 0 ==> i == 0
        invariant i == 0 ==> Chunks(t[i..], l) == Chunks(t, l)
        invariant ret.Some? ==> ret.value + Chunks(t[Min(i, len)..], l) == Chunks(t, l)
        decreases len - i
      {
        ChunksStep(t, l, i);
        var piece := Slice(t, i, Some(l));
        ret := Some((if ret.None? then [] else ret.value) + [piece]);
        i := i + l;
      }
      if ret.Some? {
        assert t[Min(i, len)..] == [];
        assert ret.value + [] == ret.value;
        ChunksJoin(t, l);
      }
      return ret;
    }
    r := Some(Segment(t));
    forall i | 0 <= i < |t| ensures r.value[i] == [t[i]] {
      SegmentAt(t, i);
    }
  }

  /** Each piece followed by the separator `e`, all joined. */
  function Separated(ps: seq<Text>, e: Text): Text
  {
    if ps == [] then [] else Separated(ps[..|ps| - 1], e) + ps[|ps| - 1] + e
  }

  lemma {:induction false} SeparatedLength(ps: seq<Text>, e: Text)
    ensures |Separated(ps, e)| == |Join(ps)| + |ps| * |e|
    decreases |ps|
  {
    if ps != [] {
      var init := ps[..|ps| - 1];
      SeparatedLength(init, e);
      assert ps == init + [ps[|ps| - 1]];
      JoinAppend(init, [ps[|ps| - 1]]);
      assert |ps| * |e| == |init| * |e| + |e|;
    }
  }

  lemma {:induction false} SeparatedBySilence(ps: seq<Text>)
    ensures Separated(ps, []) == Join(ps)
    decreases |ps|
  {
    if ps != [] {
      var init := ps[..|ps| - 1];
      SeparatedBySilence(init);
      assert ps == init + [ps[|ps| - 1]];
      JoinAppend(init, [ps[|ps| - 1]]);
    }
  }

  /**
   * `chunk_split_unicode($str, $l, $e)`: the loop over the chunks appends each
   * chunk and then `e`, so `e` follows every chunk including the last, and an
   * empty text gives an empty result.
   */
  method ChunkSplit(t: Text, l: int, e: Text) returns (r: Text)
    requires l >= 1
    ensures r == Separated(Chunks(t, l), e)
    ensures t == [] <==> r == []
    ensures |r| == |t| + |Chunks(t, l)| * |e|
    ensures e == [] ==> r == t
    ensures t != [] ==> |r| >= |e| && r[|r| - |e|..] == e
  {
    var tmp := Chunks(t, l);
    var str: Text := [];
    for k := 0 to |tmp|
      invariant str == Separated(tmp[..k], e)
    {
      assert tmp[..k + 1][..k] == tmp[..k];
      str := str + tmp[k] + e;
    }
    assert tmp[..|tmp|] == tmp;
    r := str;
    SeparatedLength(tmp, e);
    ChunksCount(t, l);
    ChunksJoin(t, l);
    SeparatedBySilence(tmp);
  }
}
