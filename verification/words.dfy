/** A word is one tagged morpheme: surface form, kana reading, base form,
    part of speech (the outermost segment of the tagger's hierarchical tag)
    and the moras derived once from the reading. */
module Words {
  import opened Results
  import opened Text
  import opened Moras
  import opened Reading

  const SymbolPos: string := "記号"
  const ParticlePos: string := "助詞"
  const TopicParticle: string := "は"

  datatype Word = Word(surface: string, yomi: string, baseForm: string, partOfSpeech: string, moras: seq<Mora>)

  /** `contentPos` is the configured set of content-word categories. */
  predicate IsContentWord(w: Word, contentPos: set<string>) { w.partOfSpeech in contentPos }

  predicate IsSymbol(w: Word) { w.partOfSpeech == SymbolPos }

  /** The romanised units of a general-path reading, as `RomanizeReading` computes them. */
  function Romanize(roma: string -> string, yomi: string): Result<seq<string>>
  {
    if |yomi| == 0 then Err(EmptyReading) else Tokenize(roma, yomi)
  }

  function ParseAll(units: seq<string>): (ms: seq<Mora>)
    ensures |ms| == |units|
    ensures forall i :: 0 <= i < |units| ==> ms[i] == ParseMora(units[i])
  {
    seq(|units|, i requires 0 <= i < |units| => ParseMora(units[i]))
  }

  /** The moras of a word. The topic particle は is pronounced "wa" whatever
      its reading; a symbol is one placeholder whatever its reading; every
      other word goes through the reading scan. The result is never empty. */
  function WordMoras(roma: string -> string, yomi: string, baseForm: string, pos: string): (r: Result<seq<Mora>>)
    ensures pos == SymbolPos ==> r == Ok([PlaceholderMora])
    ensures baseForm == TopicParticle && pos == ParticlePos ==> r == Ok([Mora("w", "a")])
    ensures r.Ok? ==> |r.value| >= 1
    ensures r.Err? ==> r.error in {EmptyReading, EmptyBeforeLongMark}
  {
    if baseForm == TopicParticle && pos == ParticlePos then
      assert "wa"[..1] == "w" && "wa"[1..] == "a";
      assert ParseMora("wa") == Mora("w", "a");
      assert ParseAll(["wa"]) == [ParseMora("wa")];
      Ok(ParseAll(["wa"]))
    else if pos == SymbolPos then
      Ok([ParseMora("")])
    else
      match Romanize(roma, yomi)
      case Ok(units) => Ok(ParseAll(units))
      case Err(e) => Err(e)
  }

  /** Parses one tab-separated line of tagger output: surface, reading, base
      form, tag, then fields that are ignored. */
  function ParseWord(roma: string -> string, line: string): (r: Result<Word>)
    ensures r == Err(MissingField) <==> |Split(line, '\t')| < 4
    ensures r.Ok? ==> |r.value.moras| >= 1
    ensures r.Ok? && IsSymbol(r.value) ==> r.value.moras == [PlaceholderMora]
    ensures r.Err? ==> r.error in {MissingField, EmptyReading, EmptyBeforeLongMark}
  {
    var fields := Split(line, '\t');
    if |fields| < 4 then Err(MissingField)
    else
      var pos := Split(fields[3], '-')[0];
      match WordMoras(roma, fields[1], fields[2], pos)
      case Ok(ms) => Ok(Word(fields[0], fields[1], fields[2], pos, ms))
      case Err(e) => Err(e)
  }

  /** The fields land where the source reads them from, and the part of
      speech is the tag up to its first '-'. */
  lemma ParseWordFields(roma: string -> string, surface: string, yomi: string, baseForm: string, tag: string, extra: seq<string>)
    requires '\t' !in surface && '\t' !in yomi && '\t' !in baseForm && '\t' !in tag
    requires forall i :: 0 <= i < |extra| ==> '\t' !in extra[i]
    ensures var r := ParseWord(roma, Join([surface, yomi, baseForm, tag] + extra, '\t'));
      && r != Err(MissingField)
      && (r.Ok? ==>
            && r.value.surface == surface
            && r.value.yomi == yomi
            && r.value.baseForm == baseForm
            && r.value.partOfSpeech <= tag
            && '-' !in r.value.partOfSpeech
            && (|r.value.partOfSpeech| == |tag| || tag[|r.value.partOfSpeech|] == '-'))
  {
    var parts := [surface, yomi, baseForm, tag] + extra;
    assert forall i :: 0 <= i < |parts| ==> '\t' !in parts[i] by {
      forall i | 0 <= i < |parts|
        ensures '\t' !in parts[i]
      {
        if i >= 4 {
          assert parts[i] == extra[i - 4];
        }
      }
    }
    SplitJoin(parts, '\t');
    FirstPiece(tag, '-');
  }

  /** A general-path word with a plain reading has one mora per kana. */
  lemma PlainReadingMoras(roma: string -> string, yomi: string, baseForm: string, pos: string)
    requires pos != SymbolPos && !(baseForm == TopicParticle && pos == ParticlePos)
    requires |yomi| > 0
    requires forall j :: 0 <= j < |yomi| ==> !Attaches(yomi[j])
    ensures WordMoras(roma, yomi, baseForm, pos).Ok?
    ensures |WordMoras(roma, yomi, baseForm, pos).value| == |yomi|
    ensures forall j :: 0 <= j < |yomi| ==>
      WordMoras(roma, yomi, baseForm, pos).value[j] == ParseMora(roma([yomi[j]]))
  {
    PlainReading(roma, yomi);
  }

  /** The blanked-out seed: a symbol word with a single placeholder mora. */
  const NullWord: Word := Word("*", "*", "*", SymbolPos, [PlaceholderMora])

  lemma NullLineFields()
    ensures Split("*\t*\t*\t記号-一般\t\t", '\t') == ["*", "*", "*", "記号-一般", "", ""]
  {
    var parts := ["*", "*", "*", "記号-一般", "", ""];
    assert Join(parts, '\t') == "*\t*\t*\t記号-一般\t\t" by {
      assert Join(parts[5..], '\t') == "";
      assert Join(parts[4..], '\t') == "\t";
      assert Join(parts[3..], '\t') == "記号-一般\t\t";
      assert Join(parts[2..], '\t') == "*\t記号-一般\t\t";
      assert Join(parts[1..], '\t') == "*\t*\t記号-一般\t\t";
    }
    assert forall i :: 0 <= i < |parts| ==> '\t' !in parts[i] by {
      forall i | 0 <= i < |parts|
        ensures '\t' !in parts[i]
      {
        assert parts[i] in {"*", "記号-一般", ""};
      }
    }
    SplitJoin(parts, '\t');
  }

  lemma NullTagCategory()
    ensures Split("記号-一般", '-')[0] == SymbolPos
  {
  }

  /** `NullWord` is what the source's literal tagged line parses to. */
  lemma NullWordParses(roma: string -> string)
    ensures ParseWord(roma, "*\t*\t*\t記号-一般\t\t") == Ok(NullWord)
  {
    NullLineFields();
    NullTagCategory();
  }
}
