/**
 * Counting and permuting codepoints: `count_chars_unicode` and
 * `str_shuffle_unicode` (unicode-tools.php lines 37-41 and 163-171).
 */
module Counting {
  import opened Codepoints

  /** The distinct codepoints of `t`, in the order in which they first occur. */
  function FirstOccurrences(t: Text): (r: Text)
    ensures forall c :: c in r <==> c in t
    ensures forall i, j :: 0 <= i < j < |r| ==> r[i] != r[j]
    decreases |t|
  {
    if t == [] then []
    else
      var d := FirstOccurrences(t[..|t| - 1]);
      if t[|t| - 1] in d then d else d + [t[|t| - 1]]
  }

  /** The position of the first occurrence of `c` in `t`. */
  function IndexOf(t: Text, c: Codepoint): (k: nat)
    requires c in t
    ensures k < |t| && t[k] == c && c !in t[..k]
  {
    if t[0] == c then 0 else IndexOf(t[1..], c) + 1
  }

  lemma {:induction false} IndexOfPrefix(t: Text, n: nat, c: Codepoint)
    requires n <= |t| && c in t[..n]
    ensures IndexOf(t, c) == IndexOf(t[..n], c)
  {
    if t[0] != c {
      assert t[..n][1..] == t[1..][..n - 1];
      IndexOfPrefix(t[1..], n - 1, c);
    }
  }

  /**
   * The keys of `count_chars_unicode`'s table come in the order in which the
   * codepoints first occur in the text.
   */
  lemma {:induction false} FirstOccurrencesInOrder(t: Text)
    ensures forall i, j :: 0 <= i < j < |FirstOccurrences(t)| ==>
      IndexOf(t, FirstOccurrences(t)[i]) < IndexOf(t, FirstOccurrences(t)[j])
    decreases |t|
  {
    if t != [] {
      var n := |t| - 1;
      var init := t[..n];
      var d := FirstOccurrences(init);
      FirstOccurrencesInOrder(init);
      forall c | c in d ensures IndexOf(t, c) == IndexOf(init, c) < n {
        IndexOfPrefix(t, n, c);
      }
      if t[n] !in d {
        assert t[n] !in init;
        assert IndexOf(t, t[n]) == n by {
          assert t[..n] == init;
        }
      }
    }
  }

  /** The sum of the occurrence counts of the codepoints in `keys`. */
  function SumCounts(keys: Text, m: multiset<Codepoint>): nat
  {
    if keys == [] then 0 else m[keys[0]] + SumCounts(keys[1..], m)
  }

  lemma {:induction false} SumCountsAdd(keys: Text, m: multiset<Codepoint>, x: Codepoint)
    requires forall i, j :: 0 <= i < j < |keys| ==> keys[i] != keys[j]
    ensures SumCounts(keys, m + multiset{x}) == SumCounts(keys, m) + (if x in keys then 1 else 0)
  {
    if keys != [] {
      SumCountsAdd(keys[1..], m, x);
      if keys[0] == x {
        assert x !in keys[1..] by {
          forall j | 0 <= j < |keys[1..]| ensures keys[1..][j] != x {
            assert keys[j + 1] != keys[0];
          }
        }
      }
    }
  }

  lemma {:induction false} SumCountsAppend(keys: Text, x: Codepoint, m: multiset<Codepoint>)
    ensures SumCounts(keys + [x], m) == SumCounts(keys, m) + m[x]
  {
    if keys == [] {
      assert [] + [x] == [x];
    } else {
      assert (keys + [x])[1..] == keys[1..] + [x];
      SumCountsAppend(keys[1..], x, m);
    }
  }

  /** The counts of the distinct codepoints add up to the length of the text. */
  lemma {:induction false} CountsSumToLength(t: Text)
    ensures SumCounts(FirstOccurrences(t), multiset(t)) == |t|
    decreases |t|
  {
    if t == [] {
    } else {
      var n := |t| - 1;
      var init, x := t[..n], t[n];
      assert t == init + [x];
      var d := FirstOccurrences(init);
      CountsSumToLength(init);
      SumCountsAdd(d, multiset(init), x);
      if x !in d {
        SumCountsAppend(d, x, multiset(t));
        assert multiset(init)[x] == 0;
      }
    }
  }

  /** How `count_chars_unicode` is asked: `$x === false`, `$x === true`, or a key. */
  datatype CountMode = CountDistinct | FullTable | Lookup(key: Text)

  /**
   * What `count_chars_unicode` returns. The PHP array `$chr` is an ordered
   * table: its keys in insertion order and a count for each. `Undefined` is
   * PHP's null from reading a variable or a key that was never set.
   */
  datatype CharCount =
    | DistinctCount(n: nat)
    | Table(keys: Text, freq: map<Codepoint, nat>)
    | Frequency(n: nat)
    | Undefined

  /**
   * The loop of `count_chars_unicode` (lines 165-167): it adds a key with
   * count 1 the first time a codepoint is seen and increments it afterwards,
   * so the keys come in first-occurrence order and each count is exact.
   */
  method BuildTable(t: Text) returns (keys: Text, freq: map<Codepoint, nat>)
    ensures keys == FirstOccurrences(t)
    ensures forall c :: c in freq <==> c in t
    ensures forall c :: c in freq ==> freq[c] == multiset(t)[c]
  {
    keys, freq := [], map[];
    for i := 0 to |t|
      invariant keys == FirstOccurrences(t[..i])
      invariant forall c :: c in freq <==> c in t[..i]
      invariant forall c :: c in freq ==> freq[c] == multiset(t[..i])[c]
    {
      var c := t[i];
      assert t[..i + 1] == t[..i] + [c];
      assert t[..i + 1][..i] == t[..i];
      if c in freq {
        freq := freq[c := freq[c] + 1];
      } else {
        keys := keys + [c];
        freq := freq[c := 1];
      }
    }
    assert t[..|t|] == t;
  }

  /**
   * `count_chars_unicode($str, $x)`. An empty text never assigns `$chr`: the
   * table and the lookup then read an undefined variable, while `count` of it
   * gives 0 (as PHP before version 8 does). A lookup of a key that is not one
   * of the text's codepoints reads an undefined key.
   */
  method CountChars(t: Text, mode: CountMode) returns (r: CharCount)
    ensures t == [] && mode != CountDistinct ==> r == Undefined
    ensures t != [] && mode == FullTable ==>
      r.Table? && r.keys == FirstOccurrences(t) &&
      (forall c :: c in r.freq <==> c in t) &&
      (forall c :: c in r.freq ==> r.freq[c] == multiset(t)[c])
    ensures mode == CountDistinct ==> r == DistinctCount(|FirstOccurrences(t)|)
    ensures t != [] && mode.Lookup? ==>
      r == if |mode.key| == 1 && mode.key[0] in t then Frequency(multiset(t)[mode.key[0]]) else Undefined
  {
    if t == [] {
      return if mode == CountDistinct then DistinctCount(0) else Undefined;
    }
    var keys, freq := BuildTable(t);
    match mode
    case FullTable => r := Table(keys, freq);
    case CountDistinct => r := DistinctCount(|keys|);
    case Lookup(key) =>
      r := if |key| == 1 && key[0] in freq then Frequency(freq[key[0]]) else Undefined;
  }

  /**
   * PHP's `shuffle`: Fisher-Yates from the last position down, swapping
   * position `j` with a position drawn from `0..j`. The random source is the
   * parameter `draw`; only its value modulo `j + 1` is used.
   */
  method Shuffle(a: array<Codepoint>, draw: nat -> nat)
    modifies a
    ensures multiset(a[..]) == old(multiset(a[..]))
  {
    var j := a.Length - 1;
    while j > 0
      invariant j < a.Length
      invariant multiset(a[..]) == old(multiset(a[..]))
    {
      var k := draw(j) % (j + 1);
      a[j], a[k] := a[k], a[j];
      j := j - 1;
    }
  }

  /** `str_shuffle_unicode`: the codepoints, shuffled in place, joined back. */
  method StrShuffle(t: Text, draw: nat -> nat) returns (r: Text)
    ensures |r| == |t| && multiset(r) == multiset(t)
  {
    var tmp := new Codepoint[|t|](i requires 0 <= i < |t| => t[i]);
    assert tmp[..] == t;
    Shuffle(tmp, draw);
    r := tmp[..];
  }

  /**
   * The documented lookup: 'â' occurs once in 'şeker şeker yâriiiiiiiiiimmmmm'.
   * The text is a parameter pinned by `requires`, in three pieces, which keeps
   * the proof about the long literal cheap.
   */
  method CountExample(t: Text) returns (r: CharCount)
    requires t == "şeker şeker y" + "â" + "riiiiiiiiiimmmmm"
    ensures r == Frequency(1)
  {
    OccursOnce("şeker şeker y", 'â', "riiiiiiiiiimmmmm");
    r := CountChars(t, Lookup("â"));
  }

  /** A codepoint found on neither side of itself occurs exactly once. */
  lemma OccursOnce(a: Text, c: Codepoint, b: Text)
    requires c !in a && c !in b
    ensures c in a + [c] + b && multiset(a + [c] + b)[c] == 1
  {
    assert (a + [c] + b)[|a|] == c;
    assert multiset(a + [c] + b) == multiset(a) + multiset{c} + multiset(b);
  }

  /** The number of distinct codepoints of the empty text is 0, its table is undefined. */
  method CountEmptyExample() returns (n: CharCount, table: CharCount)
    ensures n == DistinctCount(0) && table == Undefined
  {
    n := CountChars([], CountDistinct);
    table := CountChars([], FullTable);
  }

  /**
   * A lookup of a codepoint that does not occur reads an undefined key. The
   * text is pinned by `requires` because a literal argument makes the proof
   * much costlier.
   */
  method CountMissingExample(t: Text) returns (r: CharCount)
    requires t == "şeker"
    ensures r == Undefined
  {
    r := CountChars(t, Lookup("â"));
  }
}
