/** The sentence scorer: every eligible seed word is blanked out of the
    sentence and its mora pattern, with a fixed set of phonetic variants, is
    looked for in what remains. */
module DajareScore {
  import opened Moras
  import opened Words
  import opened Sentences
  import opened Maxima
  import opened Window

  /** The moras a variant may insert after any position. */
  const AdditionalMoras: seq<Mora> := [DoubleConsonantMora, SyllabicNasalMora]

  function InsertAfter(seed: seq<Mora>, k: nat, m: Mora): seq<Mora>
    requires k < |seed|
  {
    seed[..k + 1] + [m] + seed[k + 1..]
  }

  function DeleteAt(seed: seq<Mora>, k: nat): seq<Mora>
    requires k < |seed|
  {
    seed[..k] + seed[k + 1..]
  }

  /** The variants contributed by positions `k` and later, in the source's order. */
  function VariantsFrom(seed: seq<Mora>, k: nat): seq<seq<Mora>>
    requires k <= |seed|
    decreases |seed| - k
  {
    if k == |seed| then []
    else
      [InsertAfter(seed, k, AdditionalMoras[0]), InsertAfter(seed, k, AdditionalMoras[1])]
      + (if IsOnlyVowel(seed[k]) then [InsertAfter(seed, k, seed[k])]
         else if IsDoubleConsonant(seed[k]) || IsSyllabicNasal(seed[k]) then [DeleteAt(seed, k)]
         else [])
      + VariantsFrom(seed, k + 1)
  }

  /** Every pattern scored for a seed: the seed itself, then its variants. */
  function Variants(seed: seq<Mora>): seq<seq<Mora>>
  {
    [seed] + VariantsFrom(seed, 0)
  }

  /** A geminate or syllabic nasal inserted after some position (never before the first). */
  ghost predicate IsInsertion(seed: seq<Mora>, v: seq<Mora>)
  {
    exists k :: 0 <= k < |seed| && (v == InsertAfter(seed, k, DoubleConsonantMora) || v == InsertAfter(seed, k, SyllabicNasalMora))
  }

  /** A vowel-only mora doubled in place. */
  ghost predicate IsDuplication(seed: seq<Mora>, v: seq<Mora>)
  {
    exists k :: 0 <= k < |seed| && IsOnlyVowel(seed[k]) && v == InsertAfter(seed, k, seed[k])
  }

  /** A geminate or syllabic nasal deleted. */
  ghost predicate IsDeletion(seed: seq<Mora>, v: seq<Mora>)
  {
    exists k :: 0 <= k < |seed| && (IsDoubleConsonant(seed[k]) || IsSyllabicNasal(seed[k])) && v == DeleteAt(seed, k)
  }

  /** `v` is one of the variants position `j` contributes. */
  predicate VariantAt(seed: seq<Mora>, j: nat, v: seq<Mora>)
    requires j < |seed|
  {
    || v == InsertAfter(seed, j, DoubleConsonantMora)
    || v == InsertAfter(seed, j, SyllabicNasalMora)
    || (IsOnlyVowel(seed[j]) && v == InsertAfter(seed, j, seed[j]))
    || ((IsDoubleConsonant(seed[j]) || IsSyllabicNasal(seed[j])) && v == DeleteAt(seed, j))
  }

  lemma {:induction false} VariantsFromMembers(seed: seq<Mora>, k: nat, v: seq<Mora>)
    requires k <= |seed|
    ensures v in VariantsFrom(seed, k) <==> exists j :: k <= j < |seed| && VariantAt(seed, j, v)
    decreases |seed| - k
  {
    if k < |seed| {
      VariantsFromMembers(seed, k + 1, v);
      ClassifiersExclusive(seed[k]);
      var local :=
        [InsertAfter(seed, k, AdditionalMoras[0]), InsertAfter(seed, k, AdditionalMoras[1])]
        + (if IsOnlyVowel(seed[k]) then [InsertAfter(seed, k, seed[k])]
           else if IsDoubleConsonant(seed[k]) || IsSyllabicNasal(seed[k]) then [DeleteAt(seed, k)]
           else []);
      assert VariantsFrom(seed, k) == local + VariantsFrom(seed, k + 1);
      assert v in local <==> VariantAt(seed, k, v);
      if v in VariantsFrom(seed, k) && !VariantAt(seed, k, v) {
        assert v in VariantsFrom(seed, k + 1);
      }
    }
  }

  /** Exactly the base pattern, the insertions, the duplications and the
      deletions are scored; nothing else. */
  lemma VariantsExactly(seed: seq<Mora>, v: seq<Mora>)
    ensures v in Variants(seed) <==>
      v == seed || IsInsertion(seed, v) || IsDuplication(seed, v) || IsDeletion(seed, v)
  {
    VariantsFromMembers(seed, 0, v);
    if exists j :: 0 <= j < |seed| && VariantAt(seed, j, v) {
      var j :| 0 <= j < |seed| && VariantAt(seed, j, v);
      assert IsInsertion(seed, v) || IsDuplication(seed, v) || IsDeletion(seed, v);
    }
    if IsInsertion(seed, v) {
      var j :| 0 <= j < |seed| && (v == InsertAfter(seed, j, DoubleConsonantMora) || v == InsertAfter(seed, j, SyllabicNasalMora));
      assert VariantAt(seed, j, v);
    }
    if IsDuplication(seed, v) {
      var j :| 0 <= j < |seed| && IsOnlyVowel(seed[j]) && v == InsertAfter(seed, j, seed[j]);
      assert VariantAt(seed, j, v);
    }
    if IsDeletion(seed, v) {
      var j :| 0 <= j < |seed| && (IsDoubleConsonant(seed[j]) || IsSyllabicNasal(seed[j])) && v == DeleteAt(seed, j);
      assert VariantAt(seed, j, v);
    }
  }

  function CountOnlyVowel(seed: seq<Mora>): nat
  {
    if |seed| == 0 then 0 else (if IsOnlyVowel(seed[0]) then 1 else 0) + CountOnlyVowel(seed[1..])
  }

  function CountSpecial(seed: seq<Mora>): nat
  {
    if |seed| == 0 then 0
    else (if IsDoubleConsonant(seed[0]) || IsSyllabicNasal(seed[0]) then 1 else 0) + CountSpecial(seed[1..])
  }

  lemma {:induction false} VariantsFromCount(seed: seq<Mora>, k: nat)
    requires k <= |seed|
    ensures |VariantsFrom(seed, k)| == 2 * (|seed| - k) + CountOnlyVowel(seed[k..]) + CountSpecial(seed[k..])
    decreases |seed| - k
  {
    if k < |seed| {
      VariantsFromCount(seed, k + 1);
      ClassifiersExclusive(seed[k]);
      assert seed[k..][1..] == seed[k + 1..];
    }
  }

  /** 1 + 2n + (vowel-only moras) + (geminate and nasal moras) patterns per seed of n moras. */
  lemma VariantsCount(seed: seq<Mora>)
    ensures |Variants(seed)| == 1 + 2 * |seed| + CountOnlyVowel(seed) + CountSpecial(seed)
  {
    VariantsFromCount(seed, 0);
    assert seed[0..] == seed;
  }

  /** All moras of the words, in order. */
  function Flatten(ws: seq<Word>): seq<Mora>
  {
    if |ws| == 0 then [] else ws[0].moras + Flatten(ws[1..])
  }

  lemma {:induction false} FlattenAppend(a: seq<Word>, b: seq<Word>)
    ensures Flatten(a + b) == Flatten(a) + Flatten(b)
    decreases |a|
  {
    if |a| == 0 {
      assert a + b == b;
    } else {
      assert (a + b)[1..] == a[1..] + b;
      FlattenAppend(a[1..], b);
    }
  }

  /** The mora stream for seed `i`: the sentence with the seed replaced by `NullWord`. */
  function Stream(ws: seq<Word>, i: nat): seq<Mora>
    requires i < |ws|
  {
    Flatten(ws[..i] + [NullWord] + ws[i + 1..])
  }

  lemma FlattenSingle(w: Word)
    ensures Flatten([w]) == w.moras
  {
  }

  /** The moras of a word list around position `i`. */
  lemma FlattenAround(pre: seq<Word>, w: Word, post: seq<Word>)
    ensures Flatten(pre + [w] + post) == Flatten(pre) + w.moras + Flatten(post)
  {
    FlattenAppend(pre + [w], post);
    FlattenAppend(pre, [w]);
    FlattenSingle(w);
  }

  /** The seed's moras become a single placeholder, so the stream is one
      mora longer than the other words' moras together. */
  lemma StreamShape(ws: seq<Word>, i: nat)
    requires i < |ws|
    ensures Stream(ws, i) == Flatten(ws[..i]) + [PlaceholderMora] + Flatten(ws[i + 1..])
    ensures |Stream(ws, i)| == |Flatten(ws)| - |ws[i].moras| + 1
  {
    FlattenAround(ws[..i], NullWord, ws[i + 1..]);
    assert ws == ws[..i] + [ws[i]] + ws[i + 1..];
    FlattenAround(ws[..i], ws[i], ws[i + 1..]);
  }

  /** A seed: a content word of more than one mora. */
  predicate Eligible(w: Word, contentPos: set<string>)
  {
    IsContentWord(w, contentPos) && |w.moras| > 1
  }

  /** The best window match over all patterns scored for the seed. */
  function SeedScore(stream: seq<Mora>, seed: seq<Mora>): (r: real)
    ensures 0.0 <= r <= 1.0
    ensures forall v :: v in Variants(seed) ==> WindowMatch(stream, v) <= r
    ensures r == 0.0 || exists v :: v in Variants(seed) && r == WindowMatch(stream, v)
  {
    var vs := Variants(seed);
    var xs := seq(|vs|, j requires 0 <= j < |vs| => WindowMatch(stream, vs[j]));
    var r := MaxFold(0.0, xs);
    assert forall v :: v in vs ==> WindowMatch(stream, v) <= r by {
      forall v | v in vs
        ensures WindowMatch(stream, v) <= r
      {
        var j :| 0 <= j < |vs| && vs[j] == v;
        assert xs[j] == WindowMatch(stream, v);
      }
    }
    assert r != 0.0 ==> exists v :: v in vs && r == WindowMatch(stream, v) by {
      if r != 0.0 {
        var j :| 0 <= j < |xs| && xs[j] == r;
        assert vs[j] in vs;
      }
    }
    r
  }

  /** The running maximum over the seeds at `i` and later. */
  function ScoreFrom(ws: seq<Word>, contentPos: set<string>, i: nat, acc: real): (r: real)
    requires i <= |ws|
    requires 0.0 <= acc <= 1.0
    ensures acc <= r <= 1.0
    decreases |ws| - i
  {
    if i == |ws| then acc
    else if !Eligible(ws[i], contentPos) then ScoreFrom(ws, contentPos, i + 1, acc)
    else ScoreFrom(ws, contentPos, i + 1, RMax(acc, SeedScore(Stream(ws, i), ws[i].moras)))
  }

  /** `v` is a pattern scored for seed `j`, which is eligible. */
  predicate Evaluated(ws: seq<Word>, contentPos: set<string>, j: nat, v: seq<Mora>)
  {
    j < |ws| && Eligible(ws[j], contentPos) && v in Variants(ws[j].moras)
  }

  lemma {:induction false} ScoreFromIsMaximum(ws: seq<Word>, contentPos: set<string>, i: nat, acc: real, j: nat, v: seq<Mora>)
    requires i <= j && 0.0 <= acc <= 1.0
    requires Evaluated(ws, contentPos, j, v)
    ensures WindowMatch(Stream(ws, j), v) <= ScoreFrom(ws, contentPos, i, acc)
    decreases |ws| - i
  {
    if i < j {
      if !Eligible(ws[i], contentPos) {
        ScoreFromIsMaximum(ws, contentPos, i + 1, acc, j, v);
      } else {
        ScoreFromIsMaximum(ws, contentPos, i + 1, RMax(acc, SeedScore(Stream(ws, i), ws[i].moras)), j, v);
      }
    } else {
      var seed := SeedScore(Stream(ws, j), ws[j].moras);
      assert WindowMatch(Stream(ws, j), v) <= seed;
      assert ScoreFrom(ws, contentPos, i, acc) == ScoreFrom(ws, contentPos, j + 1, RMax(acc, seed));
      assert seed <= RMax(acc, seed);
    }
  }

  lemma {:induction false} ScoreFromAttained(ws: seq<Word>, contentPos: set<string>, i: nat, acc: real)
    requires i <= |ws| && 0.0 <= acc <= 1.0
    ensures var r := ScoreFrom(ws, contentPos, i, acc);
      r == acc || exists j, v :: i <= j && Evaluated(ws, contentPos, j, v) && r == WindowMatch(Stream(ws, j), v)
    decreases |ws| - i
  {
    if i < |ws| {
      if !Eligible(ws[i], contentPos) {
        ScoreFromAttained(ws, contentPos, i + 1, acc);
      } else {
        var seed := SeedScore(Stream(ws, i), ws[i].moras);
        var acc' := RMax(acc, seed);
        ScoreFromAttained(ws, contentPos, i + 1, acc');
        var r := ScoreFrom(ws, contentPos, i, acc);
        if r == acc' && acc' != acc {
          assert r == seed && seed != 0.0;
          var v :| v in Variants(ws[i].moras) && seed == WindowMatch(Stream(ws, i), v);
          assert Evaluated(ws, contentPos, i, v);
        }
      }
    }
  }

  /** The source's `calc_score`: the running maximum, from 0, of the best
      match of each eligible seed's patterns against that seed's stream,
      over the symbol-free words. */
  function CalcScore(s: Sentence, contentPos: set<string>): (r: real)
    ensures 0.0 <= r <= 1.0
    ensures forall i, v :: Evaluated(RemovedSymbol(s).words, contentPos, i, v) ==>
      WindowMatch(Stream(RemovedSymbol(s).words, i), v) <= r
    ensures r == 0.0 || (exists i, v :: Evaluated(RemovedSymbol(s).words, contentPos, i, v) &&
                                     r == WindowMatch(Stream(RemovedSymbol(s).words, i), v))
  {
    var ws := RemovedSymbol(s).words;
    ScoreFromAttained(ws, contentPos, 0, 0.0);
    assert forall i, v :: Evaluated(ws, contentPos, i, v) ==> WindowMatch(Stream(ws, i), v) <= ScoreFrom(ws, contentPos, 0, 0.0) by {
      forall i, v | Evaluated(ws, contentPos, i, v)
        ensures WindowMatch(Stream(ws, i), v) <= ScoreFrom(ws, contentPos, 0, 0.0)
      {
        ScoreFromIsMaximum(ws, contentPos, 0, 0.0, i, v);
      }
    }
    ScoreFrom(ws, contentPos, 0, 0.0)
  }

  /** With no seed the score is 0. */
  lemma NoSeedScoresZero(s: Sentence, contentPos: set<string>)
    requires forall w :: w in RemovedSymbol(s).words ==> !Eligible(w, contentPos)
    ensures CalcScore(s, contentPos) == 0.0
  {
  }
}
