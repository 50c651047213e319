/** The window matcher: how well a seed pattern of moras is echoed by some
    contiguous window of the sentence's mora stream. */
module Window {
  import opened Moras
  import opened Maxima

  /** The window of `stream` at `i`, as long as `pattern`. */
  function Slice(stream: seq<Mora>, pattern: seq<Mora>, i: nat): (w: seq<Mora>)
    requires i + |pattern| <= |stream|
    ensures |w| == |pattern|
  {
    stream[i..i + |pattern|]
  }

  predicate VowelsAgree(w: seq<Mora>, pattern: seq<Mora>)
    requires |w| == |pattern|
  {
    forall j :: 0 <= j < |pattern| ==> w[j].vowel == pattern[j].vowel
  }

  /** The vowel gate: the window at `i` exists and agrees with the pattern on every vowel. */
  predicate Qualifies(stream: seq<Mora>, pattern: seq<Mora>, i: nat)
  {
    i + |pattern| <= |stream| && VowelsAgree(Slice(stream, pattern, i), pattern)
  }

  /** Number of positions whose consonants agree. */
  function Hits(w: seq<Mora>, pattern: seq<Mora>): (n: nat)
    requires |w| == |pattern|
    ensures n <= |pattern|
    ensures n == |pattern| <==> forall j :: 0 <= j < |pattern| ==> w[j].consonant == pattern[j].consonant
    decreases |pattern|
  {
    if |pattern| == 0 then 0
    else
      var rest := Hits(w[1..], pattern[1..]);
      assert forall j :: 1 <= j < |pattern| ==> w[j] == w[1..][j - 1] && pattern[j] == pattern[1..][j - 1];
      (if w[0].consonant == pattern[0].consonant then 1 else 0) + rest
  }

  /** Fraction of consonants that agree. */
  function WindowScore(w: seq<Mora>, pattern: seq<Mora>): (x: real)
    requires |w| == |pattern| > 0
    ensures 0.0 <= x <= 1.0
    ensures x == 1.0 <==> Hits(w, pattern) == |pattern|
  {
    var h := Hits(w, pattern) as real;
    var n := |pattern| as real;
    RatioBounds(h, n);
    h / n
  }

  lemma RatioBounds(h: real, n: real)
    requires 0.0 <= h <= n && n >= 1.0
    ensures 0.0 <= h / n <= 1.0
    ensures h / n == 1.0 <==> h == n
  {
  }

  /** The scores of the qualifying windows starting at `i` or later, in order. */
  function QualifyingScores(stream: seq<Mora>, pattern: seq<Mora>, i: nat): (res: seq<real>)
    requires |pattern| > 0
    ensures forall k :: 0 <= k < |res| ==> 0.0 <= res[k] <= 1.0
    decreases |stream| - i
  {
    if i + |pattern| > |stream| then []
    else
      (if Qualifies(stream, pattern, i) then [WindowScore(Slice(stream, pattern, i), pattern)] else [])
      + QualifyingScores(stream, pattern, i + 1)
  }

  /** The source's `__calc`: 0 for a pattern of at most one mora, otherwise
      the best qualifying window's score, or 0 when none qualifies. */
  function WindowMatch(stream: seq<Mora>, pattern: seq<Mora>): (r: real)
    ensures 0.0 <= r <= 1.0
    ensures |pattern| <= 1 ==> r == 0.0
  {
    if |pattern| <= 1 then 0.0
    else
      var res := QualifyingScores(stream, pattern, 0);
      if |res| > 0 then Max(res) else 0.0
  }

  lemma {:induction false} QualifyingScoresSound(stream: seq<Mora>, pattern: seq<Mora>, i: nat, x: real)
    requires |pattern| > 0
    requires x in QualifyingScores(stream, pattern, i)
    ensures exists j :: i <= j && Qualifies(stream, pattern, j) && x == WindowScore(Slice(stream, pattern, j), pattern)
    decreases |stream| - i
  {
    if i + |pattern| <= |stream| {
      if Qualifies(stream, pattern, i) && x == WindowScore(Slice(stream, pattern, i), pattern) {
      } else {
        QualifyingScoresSound(stream, pattern, i + 1, x);
      }
    }
  }

  lemma {:induction false} QualifyingScoresComplete(stream: seq<Mora>, pattern: seq<Mora>, i: nat, j: nat)
    requires |pattern| > 0
    requires i <= j && Qualifies(stream, pattern, j)
    ensures WindowScore(Slice(stream, pattern, j), pattern) in QualifyingScores(stream, pattern, i)
    decreases j - i
  {
    if i < j {
      QualifyingScoresComplete(stream, pattern, i + 1, j);
    }
  }

  /** Every qualifying window is bounded by the result. */
  lemma WindowMatchIsMaximum(stream: seq<Mora>, pattern: seq<Mora>, i: nat)
    requires |pattern| >= 2 && Qualifies(stream, pattern, i)
    ensures WindowScore(Slice(stream, pattern, i), pattern) <= WindowMatch(stream, pattern)
  {
    QualifyingScoresComplete(stream, pattern, 0, i);
  }

  /** With no window passing the vowel gate the result is 0, whatever the
      consonants. */
  lemma NoWindowScoresZero(stream: seq<Mora>, pattern: seq<Mora>)
    requires |pattern| >= 2
    requires forall i :: !Qualifies(stream, pattern, i)
    ensures WindowMatch(stream, pattern) == 0.0
  {
    var res := QualifyingScores(stream, pattern, 0);
    if |res| > 0 {
      QualifyingScoresSound(stream, pattern, 0, res[0]);
      assert false;
    }
  }

  /** Once some window passes the vowel gate, the result is attained: it is
      the score, hits over pattern length, of some passing window. */
  lemma WindowMatchAttained(stream: seq<Mora>, pattern: seq<Mora>, k: nat)
    requires |pattern| >= 2 && Qualifies(stream, pattern, k)
    ensures exists i :: (Qualifies(stream, pattern, i)
      && WindowMatch(stream, pattern) == Hits(Slice(stream, pattern, i), pattern) as real / |pattern| as real)
  {
    var res := QualifyingScores(stream, pattern, 0);
    QualifyingScoresComplete(stream, pattern, 0, k);
    QualifyingScoresSound(stream, pattern, 0, Max(res));
  }

  /** A stream shorter than the pattern has no window at all. */
  lemma ShortStream(stream: seq<Mora>, pattern: seq<Mora>)
    requires |stream| < |pattern|
    ensures WindowMatch(stream, pattern) == 0.0
  {
  }

  /** A pattern of two or more moras that occurs verbatim scores 1. */
  lemma ExactOccurrence(stream: seq<Mora>, pattern: seq<Mora>, i: nat)
    requires |pattern| >= 2 && i + |pattern| <= |stream|
    requires Slice(stream, pattern, i) == pattern
    ensures WindowMatch(stream, pattern) == 1.0
  {
    assert Qualifies(stream, pattern, i);
    WindowMatchIsMaximum(stream, pattern, i);
  }
}
