/** A sentence is an ordered sequence of words with two cached counts:
    the number of words and the number of surface characters outside
    symbol words. */
module Sentences {
  import opened Results
  import opened Text
  import opened Words

  datatype Sentence = Sentence(words: seq<Word>, wordLen: nat, charLen: nat)

  /** Total surface length of the non-symbol words. */
  function CharCount(ws: seq<Word>): nat
  {
    if |ws| == 0 then 0
    else (if IsSymbol(ws[0]) then 0 else |ws[0].surface|) + CharCount(ws[1..])
  }

  /** The cached counts agree with the words. */
  predicate Valid(s: Sentence)
  {
    s.wordLen == |s.words| && s.charLen == CharCount(s.words)
  }

  function FromWords(ws: seq<Word>): (s: Sentence)
    ensures Valid(s) && s.words == ws
  {
    Sentence(ws, |ws|, CharCount(ws))
  }

  /** The non-symbol words, in their original order. */
  function RemoveSymbols(ws: seq<Word>): seq<Word>
  {
    if |ws| == 0 then []
    else (if IsSymbol(ws[0]) then [] else [ws[0]]) + RemoveSymbols(ws[1..])
  }

  lemma {:induction false} RemoveSymbolsMembers(ws: seq<Word>)
    ensures forall w :: w in RemoveSymbols(ws) <==> w in ws && !IsSymbol(w)
    ensures |RemoveSymbols(ws)| <= |ws|
    decreases |ws|
  {
    if |ws| > 0 {
      RemoveSymbolsMembers(ws[1..]);
      assert ws == [ws[0]] + ws[1..];
    }
  }

  /** Filtering distributes over concatenation, so order is kept. */
  lemma {:induction false} RemoveSymbolsAppend(a: seq<Word>, b: seq<Word>)
    ensures RemoveSymbols(a + b) == RemoveSymbols(a) + RemoveSymbols(b)
    decreases |a|
  {
    if |a| == 0 {
      assert a + b == b;
    } else {
      assert (a + b)[0] == a[0];
      assert (a + b)[1..] == a[1..] + b;
      RemoveSymbolsAppend(a[1..], b);
    }
  }

  /** Without symbols there is nothing to remove. */
  lemma {:induction false} RemoveSymbolsNoSymbols(ws: seq<Word>)
    requires forall w :: w in ws ==> !IsSymbol(w)
    ensures RemoveSymbols(ws) == ws
    decreases |ws|
  {
    if |ws| > 0 {
      assert ws[0] in ws;
      assert forall w :: w in ws[1..] ==> w in ws;
      RemoveSymbolsNoSymbols(ws[1..]);
      assert ws == [ws[0]] + ws[1..];
    }
  }

  /** Symbol words carry no characters, so removing them keeps the count. */
  lemma {:induction false} CharCountRemoveSymbols(ws: seq<Word>)
    ensures CharCount(RemoveSymbols(ws)) == CharCount(ws)
    decreases |ws|
  {
    if |ws| > 0 {
      CharCountRemoveSymbols(ws[1..]);
      var head := if IsSymbol(ws[0]) then [] else [ws[0]];
      var r := head + RemoveSymbols(ws[1..]);
      if !IsSymbol(ws[0]) {
        assert r[0] == ws[0];
        assert r[1..] == RemoveSymbols(ws[1..]);
      } else {
        assert r == RemoveSymbols(ws[1..]);
      }
    }
  }

  /** The source's `removed_symbol`: a new sentence of the non-symbol words. */
  function RemovedSymbol(s: Sentence): (r: Sentence)
    ensures Valid(r)
    ensures forall w :: w in r.words <==> w in s.words && !IsSymbol(w)
    ensures |r.words| <= |s.words|
    ensures Valid(s) ==> r.charLen == s.charLen
  {
    RemoveSymbolsMembers(s.words);
    CharCountRemoveSymbols(s.words);
    FromWords(RemoveSymbols(s.words))
  }

  /** Removing symbols twice is removing them once. */
  lemma RemovedSymbolIdempotent(s: Sentence)
    ensures RemovedSymbol(RemovedSymbol(s)) == RemovedSymbol(s)
  {
    var r := RemovedSymbol(s);
    RemoveSymbolsNoSymbols(r.words);
  }

  /** The source's `__repr__`: all surface forms, symbols included, in order. */
  function Render(ws: seq<Word>): string
  {
    if |ws| == 0 then "" else ws[0].surface + Render(ws[1..])
  }

  /** The cached character count never exceeds the rendered length, and
      equals it once the symbols are gone. */
  lemma {:induction false} CharCountRender(ws: seq<Word>)
    ensures CharCount(ws) <= |Render(ws)|
    ensures (forall w :: w in ws ==> !IsSymbol(w)) ==> CharCount(ws) == |Render(ws)|
    decreases |ws|
  {
    if |ws| > 0 {
      CharCountRender(ws[1..]);
      assert ws[0] in ws;
      assert forall w :: w in ws[1..] ==> w in ws;
    }
  }

  /** Every line is parsed; the first line that fails decides the error. */
  function ParseLines(roma: string -> string, lines: seq<string>): (r: Result<seq<Word>>)
    ensures r.Ok? ==> |r.value| == |lines| && forall i :: 0 <= i < |lines| ==> ParseWord(roma, lines[i]) == Ok(r.value[i])
    ensures r.Ok? <==> forall i :: 0 <= i < |lines| ==> ParseWord(roma, lines[i]).Ok?
    ensures r.Err? ==> r.error != EmptyInput
    decreases |lines|
  {
    if |lines| == 0 then Ok([])
    else
      match ParseWord(roma, lines[0])
      case Err(e) => Err(e)
      case Ok(w) =>
        match ParseLines(roma, lines[1..])
        case Err(e) => Err(e)
        case Ok(ws) =>
          assert forall i :: 1 <= i < |lines| ==> lines[i] == lines[1..][i - 1];
          Ok([w] + ws)
  }

  const EndOfSentence: string := "EOS"

  /** The source's `from_sentence`: split the tagger's text into lines, drop
      one trailing end marker, and parse every remaining line as a word.
      Text without any line fails. */
  function FromSentence(roma: string -> string, text: string): (r: Result<Sentence>)
    ensures text == "" <==> r == Err(EmptyInput)
    ensures r.Ok? ==> Valid(r.value)
  {
    var lines := SplitLines(text);
    if |lines| == 0 then Err(EmptyInput)
    else
      var body := if lines[|lines| - 1] == EndOfSentence then lines[..|lines| - 1] else lines;
      match ParseLines(roma, body)
      case Ok(ws) => Ok(FromWords(ws))
      case Err(e) =>
        assert e != EmptyInput;
        Err(e)
  }

  lemma EndMarkerIsOneLine()
    ensures NoLineBreak(EndOfSentence)
  {
  }

  lemma SplitTaggedText(lines: seq<string>)
    requires forall line :: line in lines ==> NoLineBreak(line)
    ensures SplitLines(JoinLines(lines + [EndOfSentence])) == lines + [EndOfSentence]
  {
    var all := lines + [EndOfSentence];
    EndMarkerIsOneLine();
    assert forall line :: line in all ==> line in lines || line == EndOfSentence;
    SplitJoinLines(all);
  }

  /** Text the tagger prints: the word lines, then the end marker. Exactly
      that one marker is dropped and each word line becomes one word. */
  lemma FromSentenceDropsEndMarker(roma: string -> string, lines: seq<string>)
    requires forall line :: line in lines ==> NoLineBreak(line)
    ensures var r := FromSentence(roma, JoinLines(lines + [EndOfSentence]));
      && (r.Ok? <==> forall i :: 0 <= i < |lines| ==> ParseWord(roma, lines[i]).Ok?)
      && (r.Ok? ==> r.value.wordLen == |lines|
                    && forall i :: 0 <= i < |lines| ==> ParseWord(roma, lines[i]) == Ok(r.value.words[i]))
  {
    var all := lines + [EndOfSentence];
    SplitTaggedText(lines);
    assert all[|all| - 1] == EndOfSentence;
    assert all[..|all| - 1] == lines;
    var r := FromSentence(roma, JoinLines(all));
    assert r == (match ParseLines(roma, lines)
                 case Ok(ws) => Ok(FromWords(ws))
                 case Err(e) => Err(e));
  }

  /** Without a trailing end marker every line is a word, the last included. */
  lemma FromSentenceKeepsLastLine(roma: string -> string, lines: seq<string>)
    requires |lines| > 0 && lines[|lines| - 1] != EndOfSentence
    requires forall line :: line in lines ==> NoLineBreak(line)
    ensures var r := FromSentence(roma, JoinLines(lines));
      && (r.Ok? <==> forall i :: 0 <= i < |lines| ==> ParseWord(roma, lines[i]).Ok?)
      && (r.Ok? ==> r.value.wordLen == |lines|
                    && forall i :: 0 <= i < |lines| ==> ParseWord(roma, lines[i]) == Ok(r.value.words[i]))
  {
    SplitJoinLines(lines);
    var r := FromSentence(roma, JoinLines(lines));
    assert r == (match ParseLines(roma, lines)
                 case Ok(ws) => Ok(FromWords(ws))
                 case Err(e) => Err(e));
  }

  /** The source's `from_sentences`: one sentence per text, failing on the
      first text that fails. */
  function FromSentences(roma: string -> string, texts: seq<string>): (r: Result<seq<Sentence>>)
    ensures r.Ok? ==> |r.value| == |texts| && forall i :: 0 <= i < |texts| ==> FromSentence(roma, texts[i]) == Ok(r.value[i])
    ensures r.Ok? <==> forall i :: 0 <= i < |texts| ==> FromSentence(roma, texts[i]).Ok?
    decreases |texts|
  {
    if |texts| == 0 then Ok([])
    else
      match FromSentence(roma, texts[0])
      case Err(e) => Err(e)
      case Ok(s) =>
        match FromSentences(roma, texts[1..])
        case Err(e) => Err(e)
        case Ok(ss) =>
          assert forall i :: 1 <= i < |texts| ==> texts[i] == texts[1..][i - 1];
          Ok([s] + ss)
  }
}
