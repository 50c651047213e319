/** Splitting a kana reading into romanised units, one per mora. */
module Reading {
  import opened Results

  const SmallGlides: set<char> := {'ャ', 'ュ', 'ョ', 'ヮ'}
  const LongMark: char := 'ー'

  /** Kana that join the kana before them into one step of the scan. */
  predicate Attaches(ch: char) { ch in SmallGlides || ch == LongMark }

  /** Greedy left-to-right segmentation: the kana at a unit start merges with
      the next one when that is a small glide (one unit for the pair) or the
      prolonged-sound mark (the start's romanisation, then its last letter).
      Any other start is romanised alone. `roma` is the romanisation library. */
  function Tokenize(roma: string -> string, kanas: string): (r: Result<seq<string>>)
    ensures r.Ok? ==> (|r.value| == 0 <==> |kanas| == 0)
    ensures r.Ok? ==> |r.value| <= |kanas| <= 2 * |r.value|
    ensures r.Err? ==> r.error == EmptyBeforeLongMark
    decreases |kanas|
  {
    if |kanas| == 0 then Ok([])
    else if |kanas| >= 2 && kanas[1] in SmallGlides then
      Prepend([roma(kanas[..2])], Tokenize(roma, kanas[2..]))
    else if |kanas| >= 2 && kanas[1] == LongMark then
      var roman := roma(kanas[..1]);
      if |roman| == 0 then Err(EmptyBeforeLongMark)
      else Prepend([roman, roman[|roman| - 1..]], Tokenize(roma, kanas[2..]))
    else
      Prepend([roma(kanas[..1])], Tokenize(roma, kanas[1..]))
  }

  /** The source's one-pass scan over `(prev, now)` pairs with its skip flag.
      It computes exactly the greedy segmentation; an empty reading fails. */
  method RomanizeReading(roma: string -> string, kanas: string) returns (r: Result<seq<string>>)
    ensures |kanas| == 0 ==> r == Err(EmptyReading)
    ensures |kanas| > 0 ==> r == Tokenize(roma, kanas)
  {
    var units: seq<string> := [];
    var addedNow := false;
    var i := 1;
    assert kanas[0..] == kanas;
    assert Tokenize(roma, kanas) == Prepend(units, Tokenize(roma, kanas)) by {
      match Tokenize(roma, kanas)
      case Ok(v) => assert [] + v == v;
      case Err(_) =>
    }
    while i < |kanas|
      invariant 1 <= i
      invariant i <= |kanas| || i == 1
      invariant |kanas| > 0 ==> i <= |kanas|
      invariant addedNow ==> i <= |kanas|
      invariant |kanas| == 0 ==> units == [] && !addedNow
      invariant Tokenize(roma, kanas) == Prepend(units, Tokenize(roma, kanas[if addedNow then i else i - 1..]))
    {
      if addedNow {
        addedNow := false;
      } else {
        var prev := kanas[i - 1];
        var now := kanas[i];
        var tail := kanas[i - 1..];
        assert tail[1] == now && tail[..1] == [prev];
        if now in SmallGlides {
          assert tail[..2] == [prev, now];
          assert tail[2..] == kanas[i + 1..];
          PrependPrepend(units, [roma([prev, now])], Tokenize(roma, kanas[i + 1..]));
          units := units + [roma([prev, now])];
          addedNow := true;
        } else if now == LongMark {
          var roman := roma([prev]);
          if |roman| == 0 {
            return Err(EmptyBeforeLongMark);
          }
          assert tail[2..] == kanas[i + 1..];
          PrependPrepend(units, [roman, roman[|roman| - 1..]], Tokenize(roma, kanas[i + 1..]));
          units := units + [roman, roman[|roman| - 1..]];
          addedNow := true;
        } else {
          assert tail[1..] == kanas[i..];
          PrependPrepend(units, [roma([prev])], Tokenize(roma, kanas[i..]));
          units := units + [roma([prev])];
        }
      }
      i := i + 1;
    }
    if !addedNow {
      if |kanas| == 0 {
        return Err(EmptyReading);
      }
      var tail := kanas[i - 1..];
      assert i == |kanas|;
      assert tail == [kanas[|kanas| - 1]];
      assert tail[..1] == kanas[|kanas| - 1..];
      assert tail[1..] == [];
      assert Tokenize(roma, tail) == Prepend([roma(kanas[|kanas| - 1..])], Ok([]));
      var last := roma(kanas[|kanas| - 1..]);
      PrependPrepend(units, [last], Ok([]));
      assert units + [last] + [] == units + [last];
      units := units + [last];
      assert Tokenize(roma, kanas) == Ok(units);
    } else {
      assert kanas[i..] == [];
      assert units + [] == units;
      assert Tokenize(roma, kanas) == Ok(units);
    }
    return Ok(units);
  }

  /** A reading without glides or prolonged-sound marks gives one unit per
      kana, each the romanisation of that kana alone. */
  lemma {:induction false} PlainReading(roma: string -> string, kanas: string)
    requires forall j :: 0 <= j < |kanas| ==> !Attaches(kanas[j])
    ensures Tokenize(roma, kanas).Ok?
    ensures |Tokenize(roma, kanas).value| == |kanas|
    ensures forall j :: 0 <= j < |kanas| ==> Tokenize(roma, kanas).value[j] == roma([kanas[j]])
    decreases |kanas|
  {
    if |kanas| > 0 {
      var rest := kanas[1..];
      forall j | 0 <= j < |rest|
        ensures !Attaches(rest[j])
      {
        assert rest[j] == kanas[j + 1];
      }
      PlainReading(roma, rest);
      if |kanas| >= 2 {
        assert kanas[1] == rest[0];
      }
      assert kanas[..1] == [kanas[0]];
      var v := Tokenize(roma, kanas).value;
      assert v == [roma([kanas[0]])] + Tokenize(roma, rest).value;
      forall j | 0 <= j < |kanas|
        ensures v[j] == roma([kanas[j]])
      {
        if j > 0 {
          assert v[j] == Tokenize(roma, rest).value[j - 1];
          assert rest[j - 1] == kanas[j];
        }
      }
    }
  }

  /** Units never straddle a boundary before a kana that does not attach:
      the segmentation of `a + b` is that of `a` followed by that of `b`. */
  lemma {:induction false} TokenizeAppend(roma: string -> string, a: string, b: string)
    requires |b| == 0 || !Attaches(b[0])
    ensures Tokenize(roma, a + b) == Concat(Tokenize(roma, a), Tokenize(roma, b))
    decreases |a|
  {
    var s := a + b;
    if |a| == 0 {
      assert s == b;
      match Tokenize(roma, b)
      case Ok(v) => assert [] + v == v;
      case Err(_) =>
    } else if |a| == 1 {
      assert s[..1] == a;
      assert s[1..] == b;
      if |s| >= 2 {
        assert s[1] == b[0];
      }
      assert Tokenize(roma, a) == Ok([roma(a)]) by {
        assert a[..1] == a;
        assert a[1..] == [];
        assert Tokenize(roma, a) == Prepend([roma(a)], Ok([]));
        assert [roma(a)] + [] == [roma(a)];
      }
    } else {
      assert s[1] == a[1];
      assert s[..1] == a[..1] && s[..2] == a[..2];
      assert s[1..] == a[1..] + b;
      assert s[2..] == a[2..] + b;
      if a[1] in SmallGlides {
        TokenizeAppend(roma, a[2..], b);
        PrependConcat([roma(a[..2])], Tokenize(roma, a[2..]), Tokenize(roma, b));
      } else if a[1] == LongMark {
        var roman := roma(a[..1]);
        if |roman| > 0 {
          TokenizeAppend(roma, a[2..], b);
          PrependConcat([roman, roman[|roman| - 1..]], Tokenize(roma, a[2..]), Tokenize(roma, b));
        }
      } else {
        TokenizeAppend(roma, a[1..], b);
        PrependConcat([roma(a[..1])], Tokenize(roma, a[1..]), Tokenize(roma, b));
      }
    }
  }

  /** A glide pair is one unit, and the scan starts afresh right after it,
      whatever the next kana is. */
  lemma GlidePair(roma: string -> string, x: char, g: char, rest: string)
    requires g in SmallGlides
    ensures Tokenize(roma, [x, g] + rest) == Prepend([roma([x, g])], Tokenize(roma, rest))
  {
  }

  /** Hence the kana right after a merged pair starts a unit of its own, even
      when it is itself a glide or a prolonged-sound mark: キャー gives the
      units of キャ and of ー, not a repeated vowel. */
  lemma PairThenAttaching(roma: string -> string, x: char, g: char, y: char)
    requires g in SmallGlides
    ensures Tokenize(roma, [x, g, y]) == Ok([roma([x, g]), roma([y])])
  {
    GlidePair(roma, x, g, [y]);
    assert [x, g] + [y] == [x, g, y];
    assert [y][..1] == [y];
    assert [y][1..] == [];
    assert Tokenize(roma, [y]) == Prepend([roma([y])], Ok([]));
    assert [roma([y])] + [] == [roma([y])];
    assert [roma([x, g])] + [roma([y])] == [roma([x, g]), roma([y])];
  }

  /** A prolonged-sound mark repeats the last letter of the preceding kana's
      romanisation as a unit of its own, and the scan starts afresh after the
      mark, whatever the next kana is. When that romanisation is empty the
      last letter does not exist and the reading fails. */
  lemma LongVowel(roma: string -> string, x: char, rest: string)
    ensures |roma([x])| == 0 ==> Tokenize(roma, [x, LongMark] + rest) == Err(EmptyBeforeLongMark)
    ensures |roma([x])| > 0 ==>
      Tokenize(roma, [x, LongMark] + rest)
        == Prepend([roma([x]), [roma([x])[|roma([x])| - 1]]], Tokenize(roma, rest))
  {
    var s := [x, LongMark] + rest;
    assert s[1] == LongMark && s[1] !in SmallGlides;
    assert s[..1] == [x];
    assert s[2..] == rest;
    var roman := roma([x]);
    if |roman| > 0 {
      assert roman[|roman| - 1..] == [roman[|roman| - 1]];
    }
  }
}
