/** The style state of a run of text (doc/doc.go `TextColour`,
    `Decoration`, `Equals`, `DefaultDecoration`). */
module Decorations {

  /** The eight text colours, in the source's declaration order; `W` is the
      zero value and so the default colour. */
  datatype TextColour = W | R | G | B | C | M | Y | K

  /** The upper-case name `TextColour.String` gives a colour. */
  function ColourName(c: TextColour): string
  {
    match c
    case W => "W"
    case R => "R"
    case G => "G"
    case B => "B"
    case C => "C"
    case M => "M"
    case Y => "Y"
    case K => "K"
  }

  /** ASCII lower-casing of one character, as `strings.ToLower` does for
      the names above. */
  function LowerChar(ch: char): char
  {
    if 'A' <= ch <= 'Z' then (ch as int + 32) as char else ch
  }

  function ToLower(s: string): (r: string)
    ensures |r| == |s|
    ensures forall i :: 0 <= i < |s| ==> r[i] == LowerChar(s[i])
  {
    seq(|s|, i requires 0 <= i < |s| => LowerChar(s[i]))
  }

  /** The tag the emitter writes for a colour:
      `strings.ToLower(c.String())`. */
  function ColourTag(c: TextColour): (r: string)
    ensures |r| == 1 && 'a' <= r[0] <= 'z'
  {
    ToLower(ColourName(c))
  }

  /** The tag names `ColourTag` yields, letter by letter. */
  lemma ColourTagLetters(c: TextColour)
    ensures ColourTag(c) == match c
      case W => "w" case R => "r" case G => "g" case B => "b"
      case C => "c" case M => "m" case Y => "y" case K => "k"
  {
  }

  /** Distinct colours get distinct tags. */
  lemma ColourTagInjective(c1: TextColour, c2: TextColour)
    ensures ColourTag(c1) == ColourTag(c2) ==> c1 == c2
  {
    ColourTagLetters(c1);
    ColourTagLetters(c2);
  }

  /** A style state. Field by field: `bold` is B, `em` is Em, `italic` is I,
      `strike` is S, `tt` is Tt (typewriter text, kept as one token),
      `underline` is U, `size` is Size and `colour` is Color. */
  datatype Decoration = Decoration(
    bold: bool,
    em: bool,
    italic: bool,
    strike: bool,
    tt: bool,
    underline: int,
    size: int,
    colour: TextColour)

  /** The zero state every document starts from. */
  function DefaultDecoration(): Decoration
  {
    Decoration(false, false, false, false, false, 0, 0, W)
  }

  /** The source's custom equality: every field must match, except that
      `em` is not compared when the receiver has `strike` set (and then,
      since `strike` must match too, both have it). */
  function Equals(a: Decoration, b: Decoration): (r: bool)
    ensures r <==> if a.strike && b.strike then a.(em := b.em) == b else a == b
  {
    a.bold == b.bold
    && (a.strike || a.em == b.em)
    && a.italic == b.italic
    && a.strike == b.strike
    && a.tt == b.tt
    && a.underline == b.underline
    && a.size == b.size
    && a.colour == b.colour
  }

  /** `Equals` is an equivalence relation. */
  lemma EqualsIsEquivalence(a: Decoration, b: Decoration, c: Decoration)
    ensures Equals(a, a)
    ensures Equals(a, b) <==> Equals(b, a)
    ensures Equals(a, b) && Equals(b, c) ==> Equals(a, c)
  {
  }

  /** Two states are `Equals` exactly when they differ at most in `em`,
      and in `em` only when both have `strike` set. */
  lemma EqualsIgnoresOnlyStruckEmphasis(a: Decoration, b: Decoration)
    ensures Equals(a, b) && a != b ==> a.strike && b.strike && a.em != b.em
    ensures a.strike ==> Equals(a, a.(em := !a.em))
    ensures !a.strike ==> !Equals(a, a.(em := !a.em))
  {
  }
}
