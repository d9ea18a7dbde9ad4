/**
 * `strtr_unicode` (unicode-tools.php lines 221-233): codepoint-for-string
 * replacement, either from a table or from two strings zipped position by
 * position.
 */
module Translation {
  import opened Codepoints

  /** `a[i]` is not repeated later in `a`: under `array_combine` its value wins. */
  predicate IsLastOccurrence(a: Text, i: nat)
    requires i < |a|
  {
    forall j :: i < j < |a| ==> a[j] != a[i]
  }

  /**
   * `array_combine($a, $b)` over the codepoints of two strings of the same
   * length: `a[i]` maps to the one-codepoint string `b[i]`, and when `a`
   * repeats a codepoint the later pair overwrites the earlier one.
   */
  function Combine(a: Text, b: Text): (m: map<Codepoint, Text>)
    requires |a| == |b|
    ensures forall c :: c in m <==> c in a
    ensures forall c :: c in m ==> |m[c]| == 1
    decreases |a|
  {
    if a == [] then map[]
    else
      var n := |a| - 1;
      Combine(a[..n], b[..n])[a[n] := [b[n]]]
  }

  /** Under `array_combine`, the last pair with a given key is the one kept. */
  lemma {:induction false} CombineLast(a: Text, b: Text, i: nat)
    requires |a| == |b| && i < |a| && IsLastOccurrence(a, i)
    ensures a[i] in Combine(a, b) && Combine(a, b)[a[i]] == [b[i]]
    decreases |a|
  {
    var n := |a| - 1;
    if i < n {
      assert a[i] != a[n];
      assert IsLastOccurrence(a[..n], i) by {
        forall j | i < j < n ensures a[..n][j] != a[..n][i] {
          assert a[j] != a[i];
        }
      }
      CombineLast(a[..n], b[..n], i);
    }
  }

  /** What `strtr` puts in place of one codepoint. */
  function Image(m: map<Codepoint, Text>, c: Codepoint): Text
  {
    if c in m then m[c] else [c]
  }

  /**
   * `strtr($str, $table)` for a table whose keys are single codepoints: each
   * codepoint that is a key is replaced by its value, every other codepoint is
   * copied.
   */
  function Strtr(t: Text, m: map<Codepoint, Text>): (r: Text)
    ensures (forall c :: c in m ==> m[c] == [c]) ==> r == t
  {
    if t == [] then [] else Image(m, t[0]) + Strtr(t[1..], m)
  }

  /** `strtr` works codepoint by codepoint, so it distributes over concatenation. */
  lemma {:induction false} StrtrAppend(t: Text, u: Text, m: map<Codepoint, Text>)
    ensures Strtr(t + u, m) == Strtr(t, m) + Strtr(u, m)
  {
    if t == [] {
      assert t + u == u;
    } else {
      assert (t + u)[1..] == t[1..] + u;
      StrtrAppend(t[1..], u, m);
    }
  }

  /** With one-codepoint values the result is the image of the text position by position. */
  lemma {:induction false} StrtrPointwise(t: Text, m: map<Codepoint, Text>)
    requires forall c :: c in m ==> |m[c]| == 1
    ensures |Strtr(t, m)| == |t|
    ensures forall i :: 0 <= i < |t| ==> [Strtr(t, m)[i]] == Image(m, t[i])
  {
    if t != [] {
      StrtrPointwise(t[1..], m);
      var r := Strtr(t, m);
      assert r == Image(m, t[0]) + Strtr(t[1..], m);
      forall i | 0 <= i < |t| ensures [r[i]] == Image(m, t[i]) {
        if i > 0 { assert r[i] == Strtr(t[1..], m)[i - 1]; }
      }
    }
  }

  /** The two forms of `strtr_unicode`'s second argument. */
  datatype Translation = Table(m: map<Codepoint, Text>) | Pairs(from: Text, to: Text)

  /**
   * `strtr_unicode($str, $a, $b)`. A table is handed to `strtr` as it is; two
   * strings are split into codepoints and combined, which `array_combine` only
   * allows when they have the same number of codepoints.
   */
  function StrtrUnicode(t: Text, tr: Translation): (r: Text)
    requires tr.Pairs? ==> |tr.from| == |tr.to|
    ensures tr.Pairs? ==> |r| == |t|
  {
    match tr
    case Table(m) => Strtr(t, m)
    case Pairs(a, b) =>
      StrtrPointwise(t, Combine(a, b));
      Strtr(t, Combine(a, b))
  }

  /**
   * The two-string form: the result has as many codepoints as the text; a
   * codepoint equal to `a[i]` becomes `b[i]` for the last such `i`, and every
   * other codepoint is copied unchanged.
   */
  lemma StrtrPairs(t: Text, a: Text, b: Text)
    requires |a| == |b|
    ensures |StrtrUnicode(t, Pairs(a, b))| == |t|
    ensures forall i, j :: 0 <= i < |t| && 0 <= j < |a| && t[i] == a[j] && IsLastOccurrence(a, j) ==>
      StrtrUnicode(t, Pairs(a, b))[i] == b[j]
    ensures forall i :: 0 <= i < |t| && t[i] !in a ==> StrtrUnicode(t, Pairs(a, b))[i] == t[i]
  {
    var m := Combine(a, b);
    StrtrPointwise(t, m);
    var r := StrtrUnicode(t, Pairs(a, b));
    forall i, j | 0 <= i < |t| && 0 <= j < |a| && t[i] == a[j] && IsLastOccurrence(a, j)
      ensures r[i] == b[j]
    {
      CombineLast(a, b, j);
      assert [r[i]] == Image(m, t[i]) == [b[j]];
    }
    forall i | 0 <= i < |t| && t[i] !in a ensures r[i] == t[i] {
      assert [r[i]] == Image(m, t[i]) == [t[i]];
    }
  }

  /** Translating a string to itself changes nothing. */
  lemma StrtrSelf(t: Text, a: Text)
    ensures StrtrUnicode(t, Pairs(a, a)) == t
  {
    var m := Combine(a, a);
    forall c | c in m ensures m[c] == [c] {
      var i := LastIndex(a, c);
      CombineLast(a, a, i);
    }
  }

  /** The position of the last occurrence of `c` in `a`. */
  function LastIndex(a: Text, c: Codepoint): (i: nat)
    requires c in a
    ensures i < |a| && a[i] == c && IsLastOccurrence(a, i)
  {
    if a[|a| - 1] == c then |a| - 1 else LastIndex(a[..|a| - 1], c)
  }

  /**
   * The example of the source: 'ä' translated to 'a' in 'äbc äbc', by a pair
   * of strings or by a table. The text is pinned by `requires`, in pieces, so
   * that the proof can go piece by piece; a literal argument is much costlier.
   */
  lemma StrtrExample(t: Text)
    requires t == "äbc" + " " + "äbc"
    ensures StrtrUnicode(t, Pairs("ä", "a")) == "abc abc"
    ensures StrtrUnicode(t, Table(map['ä' := "a"])) == "abc abc"
  {
    var m := map['ä' := "a"];
    assert Combine("ä", "a") == m;
    var w := Strtr("äbc", m);
    assert w == "abc";
    assert Strtr(" ", m) == " ";
    StrtrAppend("äbc", " ", m);
    StrtrAppend("äbc" + " ", "äbc", m);
  }

  /** The second example of the source: 'äåö' translated to itself. */
  lemma StrtrSelfExample()
    ensures StrtrUnicode("äbc äbc", Pairs("äåö", "äåö")) == "äbc äbc"
  {
    StrtrSelf("äbc äbc", "äåö");
  }
}
