/**
 * Runs of word codepoints: the `preg_replace_callback('/(\w+)/u', ...)` scan
 * behind the `*words_*` functions (unicode-tools.php lines 74-84 and 126-136)
 * and the `preg_split` behind `str_word_count_unicode` (lines 245-248).
 *
 * The Unicode classes `\w` and `\s` are parameters: `Codepoint -> bool`.
 */
module Words {
  import opened Codepoints

  /** Every codepoint of `w` is in the class `p`. */
  predicate AllIn(p: Codepoint -> bool, w: Text)
  {
    forall i :: 0 <= i < |w| ==> p(w[i])
  }

  /** The length of the longest prefix of `s` made of codepoints in `p`. */
  function RunLength(p: Codepoint -> bool, s: Text): (n: nat)
    ensures n <= |s|
    ensures s != [] && p(s[0]) ==> n >= 1
  {
    if s == [] || !p(s[0]) then 0 else 1 + RunLength(p, s[1..])
  }

  /** The run is made of codepoints in `p` and is maximal: what follows it is not in `p`. */
  lemma {:induction false} RunLengthMaximal(p: Codepoint -> bool, s: Text)
    ensures AllIn(p, s[..RunLength(p, s)])
    ensures RunLength(p, s) < |s| ==> !p(s[RunLength(p, s)])
  {
    if s != [] && p(s[0]) {
      RunLengthMaximal(p, s[1..]);
      var n := RunLength(p, s);
      assert s[..n] == [s[0]] + s[1..][..n - 1];
    }
  }

  /** A text made only of codepoints in `p` is one run. */
  lemma {:induction false} RunLengthAll(p: Codepoint -> bool, w: Text)
    requires AllIn(p, w)
    ensures RunLength(p, w) == |w|
  {
    if w != [] {
      RunLengthAll(p, w[1..]);
    }
  }

  /** A run stops at the first codepoint outside the class, whatever follows it. */
  lemma {:induction false} RunLengthAppend(p: Codepoint -> bool, u: Text, v: Text)
    requires v != [] && !p(v[0])
    ensures RunLength(p, u + v) == RunLength(p, u)
  {
    if u == [] {
      assert u + v == v;
    } else if p(u[0]) {
      assert (u + v)[1..] == u[1..] + v;
      RunLengthAppend(p, u[1..], v);
    }
  }

  /**
   * `preg_replace_callback` with the pattern `(\w+)` and callback `f`: scanning
   * left to right, each maximal run of codepoints in `p` is replaced by `f` of
   * that run, and every other codepoint is copied.
   */
  function ReplaceRuns(p: Codepoint -> bool, f: Text -> Text, s: Text): Text
    decreases |s|
  {
    if s == [] then []
    else if !p(s[0]) then [s[0]] + ReplaceRuns(p, f, s[1..])
    else
      var n := RunLength(p, s);
      f(s[..n]) + ReplaceRuns(p, f, s[n..])
  }

  /** A text that is one whole run is handed to the callback as it is. */
  lemma ReplaceWord(p: Codepoint -> bool, f: Text -> Text, w: Text)
    requires w != [] && AllIn(p, w)
    ensures ReplaceRuns(p, f, w) == f(w)
  {
    RunLengthAll(p, w);
    var n := RunLength(p, w);
    assert w[..n] == w && w[n..] == [];
  }

  /** A codepoint outside the class ends any run: the scan splits there. */
  lemma {:induction false} ReplaceAtGap(p: Codepoint -> bool, f: Text -> Text, u: Text, c: Codepoint, v: Text)
    requires !p(c)
    ensures ReplaceRuns(p, f, u + [c] + v) == ReplaceRuns(p, f, u) + [c] + ReplaceRuns(p, f, v)
    decreases |u|
  {
    var s := u + [c] + v;
    if u == [] {
      assert s == [c] + v && s[1..] == v;
    } else if !p(u[0]) {
      assert s[1..] == u[1..] + [c] + v;
      ReplaceAtGap(p, f, u[1..], c, v);
    } else {
      assert s == u + ([c] + v);
      RunLengthAppend(p, u, [c] + v);
      var n := RunLength(p, u);
      assert s[..n] == u[..n];
      assert s[n..] == u[n..] + [c] + v;
      ReplaceAtGap(p, f, u[n..], c, v);
    }
  }

  /** A text without word codepoints is left as it is. */
  lemma {:induction false} ReplaceNoWords(p: Codepoint -> bool, f: Text -> Text, s: Text)
    requires forall i :: 0 <= i < |s| ==> !p(s[i])
    ensures ReplaceRuns(p, f, s) == s
  {
    if s != [] {
      ReplaceNoWords(p, f, s[1..]);
    }
  }

  /** A callback that gives every run back unchanged leaves the text unchanged. */
  lemma {:induction false} ReplaceIdentity(p: Codepoint -> bool, f: Text -> Text, s: Text)
    requires forall w :: w != [] && AllIn(p, w) ==> f(w) == w
    ensures ReplaceRuns(p, f, s) == s
    decreases |s|
  {
    if s != [] {
      if !p(s[0]) {
        ReplaceIdentity(p, f, s[1..]);
      } else {
        var n := RunLength(p, s);
        RunLengthMaximal(p, s);
        ReplaceIdentity(p, f, s[n..]);
        assert s == s[..n] + s[n..];
      }
    }
  }

  /** A callback that keeps lengths keeps the length of the text. */
  lemma {:induction false} ReplaceLength(p: Codepoint -> bool, f: Text -> Text, s: Text)
    requires forall w :: w != [] && AllIn(p, w) ==> |f(w)| == |w|
    ensures |ReplaceRuns(p, f, s)| == |s|
    decreases |s|
  {
    if s != [] {
      if !p(s[0]) {
        ReplaceLength(p, f, s[1..]);
      } else {
        var n := RunLength(p, s);
        RunLengthMaximal(p, s);
        ReplaceLength(p, f, s[n..]);
      }
    }
  }

  /** The maximal runs of codepoints in `p`, in order. */
  function Runs(p: Codepoint -> bool, s: Text): (r: seq<Text>)
    decreases |s|
  {
    if s == [] then []
    else if !p(s[0]) then Runs(p, s[1..])
    else
      var n := RunLength(p, s);
      [s[..n]] + Runs(p, s[n..])
  }

  /** Every run is non-empty and made of codepoints in `p`. */
  lemma {:induction false} RunsShape(p: Codepoint -> bool, s: Text)
    ensures forall i :: 0 <= i < |Runs(p, s)| ==> Runs(p, s)[i] != [] && AllIn(p, Runs(p, s)[i])
    decreases |s|
  {
    if s != [] {
      if !p(s[0]) {
        RunsShape(p, s[1..]);
      } else {
        RunLengthMaximal(p, s);
        RunsShape(p, s[RunLength(p, s)..]);
      }
    }
  }

  /** Runs of a single word, and the split of the runs at a codepoint outside `p`. */
  lemma RunsWord(p: Codepoint -> bool, w: Text)
    requires w != [] && AllIn(p, w)
    ensures Runs(p, w) == [w]
  {
    RunLengthAll(p, w);
    var n := RunLength(p, w);
    assert w[..n] == w && w[n..] == [];
  }

  lemma {:induction false} RunsAtGap(p: Codepoint -> bool, u: Text, c: Codepoint, v: Text)
    requires !p(c)
    ensures Runs(p, u + [c] + v) == Runs(p, u) + Runs(p, v)
    decreases |u|
  {
    var s := u + [c] + v;
    if u == [] {
      assert s == [c] + v && s[1..] == v;
    } else if !p(u[0]) {
      assert s[1..] == u[1..] + [c] + v;
      RunsAtGap(p, u[1..], c, v);
    } else {
      assert s == u + ([c] + v);
      RunLengthAppend(p, u, [c] + v);
      var n := RunLength(p, u);
      assert s[..n] == u[..n];
      assert s[n..] == u[n..] + [c] + v;
      RunsAtGap(p, u[n..], c, v);
    }
  }

  /**
   * `preg_split` at every codepoint outside `p`, without PREG_SPLIT_NO_EMPTY:
   * the pieces between consecutive delimiters, empty ones included, so one
   * more piece than there are delimiters.
   */
  function SplitAtDelimiters(p: Codepoint -> bool, s: Text): (r: seq<Text>)
    ensures |r| >= 1
  {
    if s == [] then [[]]
    else
      var rest := SplitAtDelimiters(p, s[1..]);
      if !p(s[0]) then [[]] + rest else [[s[0]] + rest[0]] + rest[1..]
  }

  /** PREG_SPLIT_NO_EMPTY: the pieces that are not empty. */
  function NonEmpty(ps: seq<Text>): (r: seq<Text>)
    ensures forall i :: 0 <= i < |r| ==> r[i] != []
  {
    if ps == [] then [] else (if ps[0] == [] then [] else [ps[0]]) + NonEmpty(ps[1..])
  }

  /** The first piece of a split is the leading run; the rest starts after its delimiter. */
  lemma {:induction false} SplitFirst(p: Codepoint -> bool, s: Text)
    ensures var n := RunLength(p, s);
      SplitAtDelimiters(p, s) == [s[..n]] + (if n == |s| then [] else SplitAtDelimiters(p, s[n + 1..]))
  {
    if s != [] && p(s[0]) {
      SplitFirst(p, s[1..]);
      var n := RunLength(p, s);
      assert s[1..][..n - 1] == s[1..n];
      assert [s[0]] + s[1..n] == s[..n];
      if n < |s| {
        assert s[1..][n..] == s[n + 1..];
      }
    } else if s != [] {
      assert s[1..] == s[0 + 1..];
    }
  }

  /** `preg_split` with PREG_SPLIT_NO_EMPTY yields exactly the maximal runs. */
  lemma {:induction false} SplitIsRuns(p: Codepoint -> bool, s: Text)
    ensures NonEmpty(SplitAtDelimiters(p, s)) == Runs(p, s)
    decreases |s|
  {
    if s != [] {
      if !p(s[0]) {
        SplitIsRuns(p, s[1..]);
        assert NonEmpty([[]] + SplitAtDelimiters(p, s[1..])) == NonEmpty(SplitAtDelimiters(p, s[1..])) by {
          assert ([[]] + SplitAtDelimiters(p, s[1..]))[1..] == SplitAtDelimiters(p, s[1..]);
        }
      } else {
        var n := RunLength(p, s);
        RunLengthMaximal(p, s);
        SplitFirst(p, s);
        var tail: seq<Text> := if n == |s| then [] else SplitAtDelimiters(p, s[n + 1..]);
        assert NonEmpty([s[..n]] + tail) == [s[..n]] + NonEmpty(tail) by {
          assert ([s[..n]] + tail)[1..] == tail;
        }
        if n == |s| {
          assert s[n..] == [];
        } else {
          SplitIsRuns(p, s[n + 1..]);
          assert s[n..][1..] == s[n + 1..];
        }
      }
    }
  }

  /**
   * A codepoint belongs to a word of `str_word_count_unicode` when it matches
   * neither alternative of the delimiter pattern `[\s0-9_]|[^\w]`.
   */
  function CountedWordChar(isWord: Codepoint -> bool, isSpace: Codepoint -> bool): Codepoint -> bool
  {
    c => isWord(c) && !isSpace(c) && !('0' <= c <= '9') && c != '_'
  }

  /** What `str_word_count_unicode` returns: a count for format 0, the list otherwise. */
  datatype WordCountResult = Count(n: nat) | WordList(words: seq<Text>)

  /** `str_word_count_unicode($str, $format)`. */
  function WordCount(isWord: Codepoint -> bool, isSpace: Codepoint -> bool, s: Text, format: int): (r: WordCountResult)
    ensures format == 0 <==> r.Count?
  {
    var words := NonEmpty(SplitAtDelimiters(CountedWordChar(isWord, isSpace), s));
    if format == 0 then Count(|words|) else WordList(words)
  }

  /**
   * The words listed are the maximal runs of codepoints that are word
   * characters and not whitespace, ASCII digits or '_'; and the count is the
   * length of that list.
   */
  lemma WordCountIsRuns(isWord: Codepoint -> bool, isSpace: Codepoint -> bool, s: Text, format: int)
    requires format != 0
    ensures WordCount(isWord, isSpace, s, format) == WordList(Runs(CountedWordChar(isWord, isSpace), s))
    ensures WordCount(isWord, isSpace, s, 0) == Count(|WordCount(isWord, isSpace, s, format).words|)
  {
    SplitIsRuns(CountedWordChar(isWord, isSpace), s);
  }

  /**
   * Every listed word is non-empty and made of word characters that are not
   * whitespace, ASCII digits or '_'.
   */
  lemma WordCountWords(isWord: Codepoint -> bool, isSpace: Codepoint -> bool, s: Text, format: int)
    requires format != 0
    ensures forall i :: 0 <= i < |WordCount(isWord, isSpace, s, format).words| ==>
      var w := WordCount(isWord, isSpace, s, format).words[i];
      w != [] && forall j :: 0 <= j < |w| ==> isWord(w[j]) && !isSpace(w[j]) && !('0' <= w[j] <= '9') && w[j] != '_'
  {
    var q := CountedWordChar(isWord, isSpace);
    SplitIsRuns(q, s);
    RunsShape(q, s);
  }

  /**
   * The example of the source, 'äb"c äb3c a_b!', written as its words and the
   * five codepoints between them: it has six words ('äb', 'c', 'äb', 'c', 'a'
   * and 'b') for any `\w` and `\s` that classify its letters, its space and
   * its punctuation the usual way. The text is pinned by `requires`, in
   * pieces, so that the proof can split it at each delimiter; a literal
   * argument is much costlier.
   */
  lemma WordCountExample(isWord: Codepoint -> bool, isSpace: Codepoint -> bool, s: Text)
    requires s == "äb" + ['"'] + ("c" + [' '] + ("äb" + ['3'] + ("c" + [' '] + ("a" + ['_'] + ("b" + ['!'] + [])))))
    requires isWord('ä') && isWord('b') && isWord('c') && isWord('a')
    requires !isSpace('ä') && !isSpace('b') && !isSpace('c') && !isSpace('a')
    requires isSpace(' ') && !isWord('"') && !isWord('!')
    ensures s == "äb\"c äb3c a_b!"
    ensures WordCount(isWord, isSpace, s, 0) == Count(6)
  {
    var q := CountedWordChar(isWord, isSpace);
    SplitIsRuns(q, s);
    RunsExample(q);
  }

  /** The runs of the example text, counted piece by piece from the right. */
  lemma RunsExample(q: Codepoint -> bool)
    requires q('ä') && q('b') && q('c') && q('a')
    requires !q(' ') && !q('"') && !q('!') && !q('3') && !q('_')
    ensures |Runs(q, "äb" + ['"'] + ("c" + [' '] + ("äb" + ['3'] + ("c" + [' '] + ("a" + ['_'] + ("b" + ['!'] + []))))))| == 6
  {
    var ab, c, a, b: Text := "äb", "c", "a", "b";
    assert AllIn(q, ab) && AllIn(q, c) && AllIn(q, a) && AllIn(q, b);
    RunsWord(q, ab);
    RunsWord(q, c);
    RunsWord(q, a);
    RunsWord(q, b);
    assert Runs(q, []) == [];
    var s1 := b + ['!'] + [];
    RunsAtGap(q, b, '!', []);
    var s2 := a + ['_'] + s1;
    RunsAtGap(q, a, '_', s1);
    var s3 := c + [' '] + s2;
    RunsAtGap(q, c, ' ', s2);
    var s4 := ab + ['3'] + s3;
    RunsAtGap(q, ab, '3', s3);
    var s5 := c + [' '] + s4;
    RunsAtGap(q, c, ' ', s4);
    RunsAtGap(q, ab, '"', s5);
  }
}
