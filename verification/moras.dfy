/** A mora is a (consonant, vowel) pair of romanised strings. Three strings
    are reserved: "Q" for the geminate consonant, "N" for the syllabic nasal
    and "*" for "none". */
module Moras {

  const DoubleConsonant: string := "Q"
  const SyllabicNasal: string := "N"
  const Null: string := "*"

  /** Equality is structural, as the source's `__eq__` compares both fields. */
  datatype Mora = Mora(consonant: string, vowel: string)

  const DoubleConsonantMora: Mora := Mora(DoubleConsonant, Null)
  const SyllabicNasalMora: Mora := Mora(SyllabicNasal, Null)
  /** What the empty unit parses to; it stands for symbols and the blanked-out seed. */
  const PlaceholderMora: Mora := Mora("", "")

  predicate IsOnlyVowel(m: Mora) { m.consonant == Null }
  predicate IsDoubleConsonant(m: Mora) { m.consonant == DoubleConsonant }
  predicate IsSyllabicNasal(m: Mora) { m.consonant == SyllabicNasal }

  /** Parses one romanised unit. The placeholder comes from the empty unit
      and from nothing else; a longer unit is split before its last letter. */
  function ParseMora(unit: string): (m: Mora)
    ensures m == PlaceholderMora <==> unit == ""
    ensures unit == "xtsu" ==> m == DoubleConsonantMora
    ensures unit == "n" ==> m == SyllabicNasalMora
    ensures |unit| == 1 && unit != "n" ==> IsOnlyVowel(m) && m.vowel == unit
    ensures |unit| > 1 && unit != "xtsu" ==> m.consonant + m.vowel == unit && |m.vowel| == 1
  {
    if unit == "" then PlaceholderMora
    else if unit == "xtsu" then DoubleConsonantMora
    else if unit == "n" then SyllabicNasalMora
    else if |unit| > 1 then Mora(unit[..|unit| - 1], unit[|unit| - 1..])
    else Mora(Null, unit[|unit| - 1..])
  }

  /** The romanised unit a mora stands for: the inverse of `ParseMora`. */
  function Render(m: Mora): string
  {
    if m == DoubleConsonantMora then "xtsu"
    else if m == SyllabicNasalMora then "n"
    else if m.consonant == Null then m.vowel
    else m.consonant + m.vowel
  }

  /** On units free of the reserved "*", which romanisation never produces,
      parsing loses nothing. */
  lemma RenderParseMora(unit: string)
    requires '*' !in unit
    ensures Render(ParseMora(unit)) == unit
  {
  }

  /** Hence distinct "*"-free units give distinct moras. */
  lemma ParseMoraInjective(u: string, v: string)
    requires '*' !in u && '*' !in v
    requires ParseMora(u) == ParseMora(v)
    ensures u == v
  {
  }

  /** The three classifiers test the consonant against distinct constants. */
  lemma ClassifiersExclusive(m: Mora)
    ensures !(IsOnlyVowel(m) && IsDoubleConsonant(m))
    ensures !(IsOnlyVowel(m) && IsSyllabicNasal(m))
    ensures !(IsDoubleConsonant(m) && IsSyllabicNasal(m))
  {
  }

  /** The special-mora constructors agree with parsing the markers. */
  lemma SpecialMorasParse()
    ensures ParseMora("xtsu") == DoubleConsonantMora && IsDoubleConsonant(DoubleConsonantMora)
    ensures ParseMora("n") == SyllabicNasalMora && IsSyllabicNasal(SyllabicNasalMora)
    ensures !IsOnlyVowel(PlaceholderMora) && !IsDoubleConsonant(PlaceholderMora) && !IsSyllabicNasal(PlaceholderMora)
  {
  }
}
