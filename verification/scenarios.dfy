/** Worked examples: the 布団が吹っ飛んだ pun, end to end from its readings. */
module Scenarios {
  import opened Results
  import opened Moras
  import opened Reading
  import opened Words
  import opened Sentences
  import opened Window
  import opened DajareScore

  const Fu: Mora := Mora("f", "u")
  const To: Mora := Mora("t", "o")
  const Ga: Mora := Mora("g", "a")
  const Da: Mora := Mora("d", "a")

  /** A romanisation table covering the kana of the example. */
  function ExampleRoma(kana: string): string
  {
    if |kana| != 1 then "" else KanaRoma(kana[0])
  }

  function KanaRoma(c: char): string
  {
    match c
    case 'フ' => "fu"
    case 'ト' => "to"
    case 'ン' => "n"
    case 'ガ' => "ga"
    case 'ッ' => "xtsu"
    case 'ダ' => "da"
    case _ => ""
  }

  lemma FutonMoras()
    ensures WordMoras(ExampleRoma, "フトン", "布団", "名詞") == Ok([Fu, To, SyllabicNasalMora])
  {
    var y := "フトン";
    assert forall j :: 0 <= j < |y| ==> !Attaches(y[j]);
    PlainReadingMoras(ExampleRoma, y, "布団", "名詞");
    var ms := WordMoras(ExampleRoma, y, "布団", "名詞").value;
    assert y[0] == 'フ' && y[1] == 'ト' && y[2] == 'ン';
    assert ParseMora("fu") == Fu && ParseMora("to") == To;
    assert ms[0] == Fu && ms[1] == To && ms[2] == SyllabicNasalMora;
    assert ms == [Fu, To, SyllabicNasalMora];
  }

  lemma FuttondaKana(y: string)
    requires y == "フットンダ"
    ensures |y| == 5
    ensures forall j :: 0 <= j < |y| ==> !Attaches(y[j])
    ensures forall j :: 0 <= j < |y| ==> ParseMora(ExampleRoma([y[j]])) == [Fu, DoubleConsonantMora, To, SyllabicNasalMora, Da][j]
  {
    assert y[0] == 'フ' && y[1] == 'ッ' && y[2] == 'ト' && y[3] == 'ン' && y[4] == 'ダ';
    assert ParseMora("fu") == Fu && ParseMora("to") == To && ParseMora("da") == Da;
    assert ParseMora("xtsu") == DoubleConsonantMora && ParseMora("n") == SyllabicNasalMora;
  }

  lemma FuttondaMoras()
    ensures WordMoras(ExampleRoma, "フットンダ", "吹っ飛ぶ", "動詞") == Ok([Fu, DoubleConsonantMora, To, SyllabicNasalMora, Da])
  {
    var y := "フットンダ";
    FuttondaKana(y);
    PlainReadingMoras(ExampleRoma, y, "吹っ飛ぶ", "動詞");
    var ms := WordMoras(ExampleRoma, y, "吹っ飛ぶ", "動詞").value;
    assert ms == [Fu, DoubleConsonantMora, To, SyllabicNasalMora, Da];
  }

  lemma GaMoras()
    ensures WordMoras(ExampleRoma, "ガ", "が", "助詞") == Ok([Ga])
  {
    var y := "ガ";
    assert !Attaches(y[0]);
    PlainReadingMoras(ExampleRoma, y, "が", "助詞");
    var ms := WordMoras(ExampleRoma, y, "が", "助詞").value;
    assert ParseMora("ga") == Ga;
    assert ms[0] == Ga;
    assert ms == [Ga];
  }

  const Futon: Word := Word("布団", "フトン", "布団", "名詞", [Fu, To, SyllabicNasalMora])
  const GaWord: Word := Word("が", "ガ", "が", "助詞", [Ga])
  const Futtonda: Word := Word("吹っ飛んだ", "フットンダ", "吹っ飛ぶ", "動詞", [Fu, DoubleConsonantMora, To, SyllabicNasalMora, Da])
  const ContentPos: set<string> := {"名詞", "動詞", "形容詞"}

  /** Inserting a geminate after the first mora of ふとん reproduces the
      middle of ふっとんだ exactly. */
  lemma GeminateVariantMatches()
    ensures WindowMatch([PlaceholderMora, Ga, Fu, DoubleConsonantMora, To, SyllabicNasalMora, Da],
                        InsertAfter([Fu, To, SyllabicNasalMora], 0, DoubleConsonantMora)) == 1.0
  {
    var stream := [PlaceholderMora, Ga, Fu, DoubleConsonantMora, To, SyllabicNasalMora, Da];
    var v := InsertAfter([Fu, To, SyllabicNasalMora], 0, DoubleConsonantMora);
    assert v == [Fu, DoubleConsonantMora, To, SyllabicNasalMora];
    assert Slice(stream, v, 2) == v;
    ExactOccurrence(stream, v, 2);
  }

  /** 布団が吹っ飛んだ scores 1, the highest possible score. */
  lemma FutonGaFuttonda()
    ensures CalcScore(FromWords([Futon, GaWord, Futtonda]), ContentPos) == 1.0
  {
    var s := FromWords([Futon, GaWord, Futtonda]);
    var ws := s.words;
    RemoveSymbolsNoSymbols(ws);
    assert RemovedSymbol(s).words == ws;
    var seed := Futon.moras;
    var v := InsertAfter(seed, 0, DoubleConsonantMora);
    VariantsExactly(seed, v);
    assert IsInsertion(seed, v);
    assert Evaluated(ws, ContentPos, 0, v);
    StreamShape(ws, 0);
    assert ws[1..] == [GaWord, Futtonda];
    assert [GaWord, Futtonda][1..] == [Futtonda];
    assert Flatten([Futtonda]) == Futtonda.moras + Flatten([]);
    assert Flatten([GaWord, Futtonda]) == GaWord.moras + Flatten([Futtonda]);
    assert Flatten(ws[1..]) == [Ga, Fu, DoubleConsonantMora, To, SyllabicNasalMora, Da];
    assert Stream(ws, 0) == [PlaceholderMora, Ga, Fu, DoubleConsonantMora, To, SyllabicNasalMora, Da];
    GeminateVariantMatches();
  }
}

/** 今日は晴れ: no content word's sound recurs, so the score is 0. */
module ScenarioPlain {
  import opened Results
  import opened Moras
  import opened Reading
  import opened Words
  import opened Sentences
  import opened Window
  import opened DajareScore
  import Scenarios

  const Kyo: Mora := Mora("ky", "o")
  const U: Mora := Mora(Null, "u")
  const Wa: Mora := Mora("w", "a")
  const Ha: Mora := Mora("h", "a")
  const Re: Mora := Mora("r", "e")

  const Kyou: Word := Word("今日", "キョウ", "今日", "名詞", [Kyo, U])
  const WaWord: Word := Word("は", "ハ", "は", "助詞", [Wa])
  const Hare: Word := Word("晴れ", "ハレ", "晴れ", "名詞", [Ha, Re])
  /** A romanisation table covering the kana of this example, キョ included
      as one glide unit. */
  function PlainRoma(kana: string): string
  {
    if |kana| == 2 && kana[0] == 'キ' && kana[1] == 'ョ' then "kyo"
    else if |kana| != 1 then ""
    else
      match kana[0]
      case 'ウ' => "u"
      case 'ハ' => "ha"
      case 'レ' => "re"
      case _ => ""
  }

  /** キョウ: the glide pair キョ is one mora, then the vowel-only ウ. */
  lemma KyouMoras()
    ensures WordMoras(PlainRoma, "キョウ", "今日", "名詞") == Ok([Kyo, U])
  {
    var y := "キョウ";
    assert y == ['キ', 'ョ'] + "ウ";
    GlidePair(PlainRoma, 'キ', 'ョ', "ウ");
    PlainReading(PlainRoma, "ウ");
    assert PlainRoma(['キ', 'ョ']) == "kyo";
    assert PlainRoma("ウ") == "u";
    assert ["ウ"[0]] == "ウ";
    var t := Tokenize(PlainRoma, "ウ").value;
    assert t[0] == "u";
    assert t == ["u"];
    assert ["kyo"] + ["u"] == ["kyo", "u"];
    assert Tokenize(PlainRoma, y) == Ok(["kyo", "u"]);
    assert ParseMora("kyo") == Kyo;
    assert ParseMora("u") == U;
    assert ParseAll(["kyo", "u"]) == [Kyo, U];
  }

  /** The topic particle は is "wa", whatever its reading ハ gives. */
  lemma WaMoras()
    ensures WordMoras(PlainRoma, "ハ", "は", "助詞") == Ok([Wa])
  {
  }

  /** ハレ: a plain reading, one mora per kana. */
  lemma HareMoras()
    ensures WordMoras(PlainRoma, "ハレ", "晴れ", "名詞") == Ok([Ha, Re])
  {
    var y := "ハレ";
    assert !Attaches(y[0]) && !Attaches(y[1]);
    PlainReadingMoras(PlainRoma, y, "晴れ", "名詞");
    var ms := WordMoras(PlainRoma, y, "晴れ", "名詞").value;
    assert ParseMora("ha") == Ha && ParseMora("re") == Re;
    assert ms[0] == Ha && ms[1] == Re;
    assert ms == [Ha, Re];
  }

  /** A pattern whose first vowel occurs nowhere in the stream never passes the vowel gate. */
  lemma FirstVowelAbsent(stream: seq<Mora>, pattern: seq<Mora>)
    requires |pattern| >= 2
    requires forall i :: 0 <= i < |stream| ==> stream[i].vowel != pattern[0].vowel
    ensures WindowMatch(stream, pattern) == 0.0
  {
    forall i: nat
      ensures !Qualifies(stream, pattern, i)
    {
      if i + |pattern| <= |stream| {
        assert Slice(stream, pattern, i)[0] == stream[i];
      }
    }
    NoWindowScoresZero(stream, pattern);
  }

  /** Variants never touch the first mora unless they delete it. */
  lemma VariantHead(seed: seq<Mora>, v: seq<Mora>)
    requires |seed| >= 2 && v in Variants(seed)
    requires !IsDoubleConsonant(seed[0]) && !IsSyllabicNasal(seed[0])
    ensures |v| >= |seed| - 1 && v[0] == seed[0]
  {
    VariantsExactly(seed, v);
    if IsInsertion(seed, v) {
      var k :| 0 <= k < |seed| && (v == InsertAfter(seed, k, DoubleConsonantMora) || v == InsertAfter(seed, k, SyllabicNasalMora));
      assert v[0] == seed[..k + 1][0];
    } else if IsDuplication(seed, v) {
      var k :| 0 <= k < |seed| && IsOnlyVowel(seed[k]) && v == InsertAfter(seed, k, seed[k]);
      assert v[0] == seed[..k + 1][0];
    } else if IsDeletion(seed, v) {
      var k :| 0 <= k < |seed| && (IsDoubleConsonant(seed[k]) || IsSyllabicNasal(seed[k])) && v == DeleteAt(seed, k);
      assert k > 0;
      assert v[0] == seed[..k][0];
    }
  }

  lemma HareVariants(v: seq<Mora>)
    requires v in Variants([Ha, Re])
    ensures v == [Ha, Re] || |v| == 3
    ensures |v| >= 2 && v[0] == Ha
  {
    var seed := [Ha, Re];
    VariantHead(seed, v);
    VariantsExactly(seed, v);
    assert !IsOnlyVowel(seed[0]) && !IsOnlyVowel(seed[1]);
    assert !IsDuplication(seed, v);
    assert !IsDeletion(seed, v);
  }

  lemma KyouSeedScoresZero(v: seq<Mora>)
    requires v in Variants([Kyo, U])
    ensures WindowMatch([PlaceholderMora, Wa, Ha, Re], v) == 0.0
  {
    VariantHead([Kyo, U], v);
    if |v| >= 2 {
      FirstVowelAbsent([PlaceholderMora, Wa, Ha, Re], v);
    }
  }

  lemma HareSeedScoresZero(v: seq<Mora>)
    requires v in Variants([Ha, Re])
    ensures WindowMatch([Kyo, U, Wa, PlaceholderMora], v) == 0.0
  {
    var stream := [Kyo, U, Wa, PlaceholderMora];
    HareVariants(v);
    forall i: nat
      ensures !Qualifies(stream, v, i)
    {
      if i + |v| <= |stream| {
        var w := Slice(stream, v, i);
        assert w[0] == stream[i];
        if i == 2 {
          assert v == [Ha, Re];
          assert w[1] == PlaceholderMora;
        }
      }
    }
    NoWindowScoresZero(stream, v);
  }

  lemma KyouWaHare()
    ensures CalcScore(FromWords([Kyou, WaWord, Hare]), Scenarios.ContentPos) == 0.0
  {
    var s := FromWords([Kyou, WaWord, Hare]);
    var ws := s.words;
    RemoveSymbolsNoSymbols(ws);
    assert RemovedSymbol(s).words == ws;
    StreamShape(ws, 0);
    assert ws[1..] == [WaWord, Hare];
    assert [WaWord, Hare][1..] == [Hare];
    assert Flatten([Hare]) == Hare.moras + Flatten([]);
    assert Stream(ws, 0) == [PlaceholderMora, Wa, Ha, Re];
    StreamShape(ws, 2);
    assert ws[..2] == [Kyou, WaWord];
    assert [Kyou, WaWord][1..] == [WaWord];
    assert Flatten([WaWord]) == WaWord.moras + Flatten([]);
    assert ws[3..] == [];
    assert Stream(ws, 2) == [Kyo, U, Wa, PlaceholderMora];
    forall i: nat, v | Evaluated(ws, Scenarios.ContentPos, i, v)
      ensures WindowMatch(Stream(ws, i), v) == 0.0
    {
      if i == 0 {
        KyouSeedScoresZero(v);
      } else {
        assert i == 2;
        HareSeedScoresZero(v);
      }
    }
  }
}
