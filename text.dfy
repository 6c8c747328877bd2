/** Text operations the generator relies on: `string.Join`, concatenation of
    template fragments, substring occurrence, and a splitter that inverts
    `string.Join` so the rendered member lists can be read back. */
module Text {

  /** `w` occurs in `s` starting at index `i`. */
  predicate OccursAt(s: string, w: string, i: int)
  {
    0 <= i && i + |w| <= |s| && s[i..i + |w|] == w
  }

  /** `s.Contains(w)` */
  predicate Contains(s: string, w: string)
  {
    exists i :: 0 <= i <= |s| && OccursAt(s, w, i)
  }

  /** The characters of `x` are all different from `c`. */
  predicate Avoids(x: string, c: char)
  {
    forall k :: 0 <= k < |x| ==> x[k] != c
  }

  lemma OccursInMiddle(a: string, w: string, b: string)
    ensures OccursAt(a + w + b, w, |a|)
  {
    assert (a + w + b)[|a|..|a| + |w|] == w;
  }

  /** An occurrence inside an occurrence is an occurrence. */
  lemma OccursWithin(s: string, w: string, i: int, t: string, j: int)
    requires OccursAt(s, w, i) && OccursAt(t, s, j)
    ensures OccursAt(t, w, i + j)
  {
    forall k | 0 <= k < |w|
      ensures t[i + j + k] == w[k]
    {
      assert t[i + j + k] == t[j..j + |s|][i + k] == s[i..i + |w|][k];
    }
  }

  lemma ContainsMiddle(a: string, w: string, b: string)
    ensures Contains(a + w + b, w)
  {
    OccursInMiddle(a, w, b);
  }

  lemma ContainsTransitive(w: string, s: string, t: string)
    requires Contains(s, w) && Contains(t, s)
    ensures Contains(t, w)
  {
    var i :| 0 <= i <= |s| && OccursAt(s, w, i);
    var j :| 0 <= j <= |t| && OccursAt(t, s, j);
    OccursWithin(s, w, i, t, j);
  }

  /** A mismatching character rules out an occurrence. */
  lemma Mismatch(s: string, w: string, p: int, k: int)
    requires 0 <= k < |w| && 0 <= p + k < |s| && s[p + k] != w[k]
    ensures !OccursAt(s, w, p)
  {
    if 0 <= p && p + |w| <= |s| {
      assert s[p..p + |w|][k] == s[p + k];
    }
  }

  // ---------------------------------------------------------------------------
  // Concatenation of fragments (an interpolated string is the concatenation of
  // its literal fragments and its holes).

  function Concat(pieces: seq<string>): string
  {
    if pieces == [] then "" else pieces[0] + Concat(pieces[1..])
  }

  lemma {:induction false} ConcatAppend(a: seq<string>, b: seq<string>)
    ensures Concat(a + b) == Concat(a) + Concat(b)
  {
    if a == [] {
      assert a + b == b;
    } else {
      assert (a + b)[1..] == a[1..] + b;
      ConcatAppend(a[1..], b);
    }
  }

  lemma ConcatSingle(p: string)
    ensures Concat([p]) == p
  {
    assert [p][1..] == [];
  }

  /** Any run of consecutive pieces occurs in the concatenation, at the
      combined length of the pieces before it. */
  lemma PiecesOccur(pieces: seq<string>, i: nat, j: nat)
    requires i <= j <= |pieces|
    ensures OccursAt(Concat(pieces), Concat(pieces[i..j]), |Concat(pieces[..i])|)
  {
    assert pieces == pieces[..i] + pieces[i..j] + pieces[j..];
    ConcatAppend(pieces[..i] + pieces[i..j], pieces[j..]);
    ConcatAppend(pieces[..i], pieces[i..j]);
    OccursInMiddle(Concat(pieces[..i]), Concat(pieces[i..j]), Concat(pieces[j..]));
  }

  /** Each section occurs in the concatenation of all sections. */
  lemma SectionOccurs(sections: seq<string>, k: nat)
    requires k < |sections|
    ensures OccursAt(Concat(sections), sections[k], |Concat(sections[..k])|)
  {
    PiecesOccur(sections, k, k + 1);
    assert sections[k..k + 1] == [sections[k]];
    ConcatSingle(sections[k]);
  }

  /** A run of pieces of one section occurs in the concatenation of all
      sections, where `sections[k]` is the concatenation of `pieces`. */
  lemma NestedPiecesOccur(sections: seq<string>, k: nat, pieces: seq<string>, i: nat, j: nat)
    requires k < |sections| && sections[k] == Concat(pieces)
    requires i <= j <= |pieces|
    ensures OccursAt(Concat(sections), Concat(pieces[i..j]),
                     |Concat(pieces[..i])| + |Concat(sections[..k])|)
  {
    var section, phrase, whole := sections[k], Concat(pieces[i..j]), Concat(sections);
    var inner, outer := |Concat(pieces[..i])|, |Concat(sections[..k])|;
    assert OccursAt(section, phrase, inner) by {
      PiecesOccur(pieces, i, j);
    }
    assert OccursAt(whole, section, outer) by {
      SectionOccurs(sections, k);
    }
    OccursWithin(section, phrase, inner, whole, outer);
  }

  /** The offset of a later run is the offset of an earlier one plus the
      length of the pieces in between. */
  lemma PieceOffsets(pieces: seq<string>, i: nat, j: nat)
    requires i <= j <= |pieces|
    ensures |Concat(pieces[..j])| == |Concat(pieces[..i])| + |Concat(pieces[i..j])|
  {
    assert pieces[..j] == pieces[..i] + pieces[i..j];
    ConcatAppend(pieces[..i], pieces[i..j]);
  }

  lemma AvoidsAppend(a: string, b: string, c: char)
    requires Avoids(a, c) && Avoids(b, c)
    ensures Avoids(a + b, c)
  {
    forall k | 0 <= k < |a + b|
      ensures (a + b)[k] != c
    {
      if k >= |a| {
        assert (a + b)[k] == b[k - |a|];
      }
    }
  }

  // ---------------------------------------------------------------------------
  // string.Join

  /** `string.Join(sep, xs)`: the items with `sep` between neighbours, the
      empty string for no items. */
  function Join(sep: string, xs: seq<string>): string
  {
    if |xs| == 0 then ""
    else if |xs| == 1 then xs[0]
    else xs[0] + sep + Join(sep, xs[1..])
  }

  function TotalLength(xs: seq<string>): nat
  {
    if xs == [] then 0 else |xs[0]| + TotalLength(xs[1..])
  }

  /** A join of n >= 1 items holds the items and exactly n - 1 separators. */
  lemma {:induction false} JoinLength(sep: string, xs: seq<string>)
    requires |xs| > 0
    ensures |Join(sep, xs)| == TotalLength(xs) + (|xs| - 1) * |sep|
  {
    if |xs| > 1 {
      JoinLength(sep, xs[1..]);
    }
  }

  // ---------------------------------------------------------------------------
  // Searching and splitting

  /** The first index at or after `from` where `w` occurs, or `|s|` if none. */
  function IndexFrom(s: string, w: string, from: nat): (r: nat)
    requires from <= |s|
    ensures from <= r <= |s|
    ensures r < |s| ==> OccursAt(s, w, r)
    ensures forall p :: from <= p < r ==> !OccursAt(s, w, p)
    decreases |s| - from
  {
    if from == |s| then |s|
    else if OccursAt(s, w, from) then from
    else IndexFrom(s, w, from + 1)
  }

  function IndexOf(s: string, w: string): nat
  {
    IndexFrom(s, w, 0)
  }

  lemma IndexOfFirst(s: string, w: string, k: nat)
    requires k < |s| && OccursAt(s, w, k)
    requires forall p :: 0 <= p < k ==> !OccursAt(s, w, p)
    ensures IndexOf(s, w) == k
  {
  }

  lemma IndexOfNone(s: string, w: string)
    requires |w| > 0
    requires forall p :: 0 <= p < |s| ==> !OccursAt(s, w, p)
    ensures IndexOf(s, w) == |s|
  {
  }

  /** `s.Split(sep)`: the pieces of `s` between occurrences of `sep`,
      scanning left to right. */
  function Split(s: string, sep: string): (parts: seq<string>)
    requires |sep| > 0
    ensures |parts| > 0
    decreases |s|
  {
    var i := IndexOf(s, sep);
    if i == |s| then [s] else [s[..i]] + Split(s[i + |sep|..], sep)
  }

  /** Joining the pieces of a split gives back the string, for every string. */
  lemma {:induction false} JoinSplit(s: string, sep: string)
    requires |sep| > 0
    ensures Join(sep, Split(s, sep)) == s
    decreases |s|
  {
    var i := IndexOf(s, sep);
    if i < |s| {
      var rest := s[i + |sep|..];
      JoinSplit(rest, sep);
      assert Split(s, sep) == [s[..i]] + Split(rest, sep);
      assert s == s[..i] + sep + rest;
    }
  }

  /** In `x + sep + tail`, where `x` lacks the separator's second character
      (and the separator does not start with two equal characters), the first
      occurrence of the separator is the one right after `x`. */
  lemma FirstSeparator(x: string, sep: string, tail: string)
    requires |sep| >= 2 && sep[0] != sep[1] && Avoids(x, sep[1])
    ensures IndexOf(x + sep + tail, sep) == |x|
  {
    var s := x + sep + tail;
    forall p | 0 <= p < |x|
      ensures !OccursAt(s, sep, p)
    {
      if p + 1 < |x| {
        assert s[p + 1] == x[p + 1];
      } else {
        assert s[p + 1] == sep[0];
      }
      Mismatch(s, sep, p, 1);
    }
    OccursInMiddle(x, sep, tail);
    IndexOfFirst(s, sep, |x|);
  }

  /** A single item lacking the separator's second character holds no
      separator. */
  lemma NoSeparator(x: string, sep: string)
    requires |sep| >= 2 && Avoids(x, sep[1])
    ensures IndexOf(x, sep) == |x|
  {
    forall p | 0 <= p < |x|
      ensures !OccursAt(x, sep, p)
    {
      if p + 1 < |x| {
        Mismatch(x, sep, p, 1);
      }
    }
    IndexOfNone(x, sep);
  }

  /** Splitting a join gives back the items, when no item contains the
      separator's second character. */
  lemma {:induction false} SplitJoin(sep: string, xs: seq<string>)
    requires |xs| > 0
    requires |sep| >= 2 && sep[0] != sep[1]
    requires forall k :: 0 <= k < |xs| ==> Avoids(xs[k], sep[1])
    ensures Split(Join(sep, xs), sep) == xs
  {
    if |xs| == 1 {
      NoSeparator(xs[0], sep);
    } else {
      var tail := Join(sep, xs[1..]);
      FirstSeparator(xs[0], sep, tail);
      var s := xs[0] + sep + tail;
      assert s[..|xs[0]|] == xs[0];
      assert s[|xs[0]| + |sep|..] == tail;
      SplitJoin(sep, xs[1..]);
    }
  }
}
