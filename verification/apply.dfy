/** Tag application: how the tag names of one `Apply` call update a
    `Decoration` (doc/doc.go `Apply`). */
module Tags {
  import opened Results
  import opened Decorations

  /** Tags naming a flag or `PL` (plain). */
  const FlagTags: set<string> := {"B", "EM", "I", "PL", "S", "TT", "U"}

  /** Single-digit size tags. */
  const DigitTags: set<string> := {"0", "1", "2", "3", "4", "5", "6", "7", "8", "9"}

  /** The lower-case colour letters. */
  const ColourTags: set<string> := {"w", "r", "g", "b", "c", "y", "m", "k"}

  predicate KnownTag(tag: string)
  {
    tag in FlagTags || tag in DigitTags || tag in ColourTags
  }

  /** The value of a decimal digit (`strconv.Atoi` on a one-digit string). */
  function DigitValue(ch: char): (n: int)
    requires '0' <= ch <= '9'
    ensures 0 <= n <= 9
  {
    ch as int - '0' as int
  }

  /** The colour a colour letter selects. */
  function ColourOfTag(tag: string): (r: Option<TextColour>)
    ensures r.Some? <==> tag in ColourTags
  {
    if tag == "w" then Some(W)
    else if tag == "r" then Some(R)
    else if tag == "g" then Some(G)
    else if tag == "b" then Some(B)
    else if tag == "c" then Some(C)
    else if tag == "y" then Some(Y)
    else if tag == "m" then Some(M)
    else if tag == "k" then Some(K)
    else None
  }

  /** One iteration of the switch in `Apply`: `src` is the state the call
      started from (the reference point of `EM`), `out` the state built so
      far. An unknown tag is the source's panic. */
  function ApplyTag(src: Decoration, out: Decoration, tag: string): (r: Result<Decoration, string>)
    ensures r.Success? <==> KnownTag(tag)
    ensures r.Failure? ==> r.error == tag
  {
    if tag == "B" then Success(out.(bold := true))
    else if tag == "EM" then Success(out.(em := !src.em))
    else if tag == "I" then Success(out.(italic := true))
    else if tag == "PL" then
      Success(out.(underline := 0, bold := false, em := false, strike := false, tt := false))
    else if tag == "S" then Success(out.(strike := true))
    else if tag == "TT" then Success(out.(tt := true))
    else if tag == "U" then
      Success(if out.underline < 3 then out.(underline := out.underline + 1) else out)
    else if |tag| == 1 && '0' <= tag[0] <= '9' then
      assert tag in DigitTags by { assert tag == [tag[0]]; }
      Success(out.(size := DigitValue(tag[0])))
    else
      match ColourOfTag(tag)
      case Some(c) => Success(out.(colour := c))
      case None =>
        assert tag !in DigitTags;
        Failure(tag)
  }

  predicate AllKnown(tags: seq<string>)
  {
    forall i :: 0 <= i < |tags| ==> KnownTag(tags[i])
  }

  /** Every tag before position `i` is known and the tag at `i` is not:
      `e` is the tag the loop in `Apply` stops at. */
  predicate FirstUnknownIs(tags: seq<string>, e: string)
  {
    exists i :: 0 <= i < |tags| && tags[i] == e && !KnownTag(e) && AllKnown(tags[..i])
  }

  /** A known tag in front keeps the first unknown tag of the rest. */
  lemma FirstUnknownCons(t: string, tags: seq<string>, e: string)
    requires KnownTag(t) && FirstUnknownIs(tags, e)
    ensures FirstUnknownIs([t] + tags, e)
  {
    var i :| 0 <= i < |tags| && tags[i] == e && !KnownTag(e) && AllKnown(tags[..i]);
    var u := [t] + tags;
    assert u[i + 1] == e;
    var p := u[..i + 1];
    assert p == [t] + tags[..i];
    forall j | 0 <= j < |p|
      ensures KnownTag(p[j])
    {
      if j > 0 {
        assert p[j] == tags[..i][j - 1];
      }
    }
  }

  /** An unknown tag in front is the first unknown tag. */
  lemma FirstUnknownHead(tags: seq<string>)
    requires |tags| > 0 && !KnownTag(tags[0])
    ensures FirstUnknownIs(tags, tags[0])
  {
    assert AllKnown(tags[..0]);
  }

  /** The loop of `Apply` over the remaining tags. */
  function ApplyFrom(src: Decoration, out: Decoration, tags: seq<string>): (r: Result<Decoration, string>)
    ensures r.Success? <==> AllKnown(tags)
    ensures r.Failure? ==> FirstUnknownIs(tags, r.error)
    ensures r.Success? && 0 <= out.underline <= 3 ==> 0 <= r.value.underline <= 3
    decreases |tags|
  {
    if |tags| == 0 then Success(out)
    else
      match ApplyTag(src, out, tags[0])
      case Failure(e) =>
        FirstUnknownHead(tags);
        Failure(e)
      case Success(o) =>
        var r := ApplyFrom(src, o, tags[1..]);
        assert forall i :: 1 <= i < |tags| ==> tags[i] == tags[1..][i - 1];
        assert tags == [tags[0]] + tags[1..];
        if r.Failure? then
          FirstUnknownCons(tags[0], tags[1..], r.error);
          r
        else
          r
  }

  /** `src.Apply(tags...)`: the state reached by applying every tag in
      order, starting from (a copy of) `src`. */
  function Apply(src: Decoration, tags: seq<string>): (r: Result<Decoration, string>)
    ensures r.Success? <==> forall i :: 0 <= i < |tags| ==> KnownTag(tags[i])
    ensures r.Failure? ==> FirstUnknownIs(tags, r.error)
    ensures |tags| == 0 ==> r == Success(src)
    ensures r.Success? && 0 <= src.underline <= 3 ==> 0 <= r.value.underline <= 3
  {
    ApplyFrom(src, src, tags)
  }

  /** The last tag of `tags` that belongs to `names`, if any. */
  function LastOf(tags: seq<string>, names: set<string>): (r: Option<string>)
    ensures r.Some? ==> r.value in names && r.value in tags
    ensures r.None? ==> forall i :: 0 <= i < |tags| ==> tags[i] !in names
  {
    if |tags| == 0 then None
    else if tags[|tags| - 1] in names then Some(tags[|tags| - 1])
    else LastOf(tags[..|tags| - 1], names)
  }

  /** The number of `U` tags after the last `PL` (after the start when
      there is no `PL`). */
  function UnderlinesSincePlain(tags: seq<string>): nat
  {
    if |tags| == 0 then 0
    else if tags[|tags| - 1] == "PL" then 0
    else (if tags[|tags| - 1] == "U" then 1 else 0) + UnderlinesSincePlain(tags[..|tags| - 1])
  }

  /** The size a digit tag selects (0 for any other string). */
  function SizeOfTag(tag: string): int
  {
    if |tag| == 1 && '0' <= tag[0] <= '9' then DigitValue(tag[0]) else 0
  }

  /** A flag that `on` sets and `PL` clears ends as the later of the two
      decided, or as it was when neither occurs. */
  function FlagAfter(before: bool, tags: seq<string>, on: string): bool
  {
    match LastOf(tags, {on, "PL"})
    case None => before
    case Some(t) => t == on
  }

  /** What one `Apply` call yields, field by field, as a last-writer-wins
      rule: each field is decided by the last tag that writes it, `EM`
      writes the negation of the call's INPUT emphasis, and `U` counts up
      from the last `PL` (or from the input level), stopping at 3. */
  function ApplySpec(src: Decoration, tags: seq<string>): Decoration
  {
    var base := if "PL" in tags then 0 else src.underline;
    Decoration(
      FlagAfter(src.bold, tags, "B"),
      match LastOf(tags, {"EM", "PL"}) case None => src.em case Some(t) => t == "EM" && !src.em,
      src.italic || "I" in tags,
      FlagAfter(src.strike, tags, "S"),
      FlagAfter(src.tt, tags, "TT"),
      if base >= 3 then base else if base + UnderlinesSincePlain(tags) < 3 then base + UnderlinesSincePlain(tags) else 3,
      match LastOf(tags, DigitTags) case None => src.size case Some(t) => SizeOfTag(t),
      match LastOf(tags, ColourTags) case None => src.colour case Some(t) =>
        (match ColourOfTag(t) case Some(c) => c case None => src.colour))
  }

  lemma {:induction false} ApplyFromSnoc(src: Decoration, out: Decoration, tags: seq<string>, t: string)
    ensures ApplyFrom(src, out, tags + [t]) ==
      match ApplyFrom(src, out, tags)
      case Failure(e) => Failure(e)
      case Success(o) => ApplyTag(src, o, t)
    decreases |tags|
  {
    if |tags| == 0 {
      assert [t][1..] == [];
    } else {
      assert (tags + [t])[1..] == tags[1..] + [t];
      match ApplyTag(src, out, tags[0])
      case Failure(e) =>
      case Success(o) => ApplyFromSnoc(src, o, tags[1..], t);
    }
  }

  lemma LastOfSnoc(tags: seq<string>, t: string, names: set<string>)
    ensures LastOf(tags + [t], names) == if t in names then Some(t) else LastOf(tags, names)
  {
    assert (tags + [t])[..|tags|] == tags;
  }

  lemma UnderlinesSincePlainSnoc(tags: seq<string>, t: string)
    ensures UnderlinesSincePlain(tags + [t]) ==
      if t == "PL" then 0 else if t == "U" then UnderlinesSincePlain(tags) + 1 else UnderlinesSincePlain(tags)
  {
    assert (tags + [t])[..|tags|] == tags;
  }

  lemma FlagAfterSnoc(before: bool, tags: seq<string>, on: string, t: string)
    ensures FlagAfter(before, tags + [t], on) ==
      if t == on then true else if t == "PL" then false else FlagAfter(before, tags, on)
  {
    LastOfSnoc(tags, t, {on, "PL"});
  }

  lemma ApplySpecFlagsSnoc(src: Decoration, tags: seq<string>, t: string)
    ensures var s, s' := ApplySpec(src, tags), ApplySpec(src, tags + [t]);
      && s'.bold == (if t == "B" then true else if t == "PL" then false else s.bold)
      && s'.italic == (s.italic || t == "I")
      && s'.strike == (if t == "S" then true else if t == "PL" then false else s.strike)
      && s'.tt == (if t == "TT" then true else if t == "PL" then false else s.tt)
  {
    FlagAfterSnoc(src.bold, tags, "B", t);
    FlagAfterSnoc(src.strike, tags, "S", t);
    FlagAfterSnoc(src.tt, tags, "TT", t);
    assert "I" in tags + [t] <==> "I" in tags || t == "I";
  }

  lemma ApplySpecEmSnoc(src: Decoration, tags: seq<string>, t: string)
    ensures ApplySpec(src, tags + [t]).em ==
      if t == "EM" then !src.em else if t == "PL" then false else ApplySpec(src, tags).em
  {
    LastOfSnoc(tags, t, {"EM", "PL"});
  }

  lemma ApplySpecUnderlineSnoc(src: Decoration, tags: seq<string>, t: string)
    ensures var u := ApplySpec(src, tags).underline;
      ApplySpec(src, tags + [t]).underline ==
        if t == "PL" then 0 else if t == "U" && u < 3 then u + 1 else u
  {
    UnderlinesSincePlainSnoc(tags, t);
    assert "PL" in tags + [t] <==> "PL" in tags || t == "PL";
  }

  lemma ApplySpecSizeColourSnoc(src: Decoration, tags: seq<string>, t: string)
    ensures ApplySpec(src, tags + [t]).size ==
      if t in DigitTags then SizeOfTag(t) else ApplySpec(src, tags).size
    ensures ApplySpec(src, tags + [t]).colour ==
      if t in ColourTags then ColourOfTag(t).value else ApplySpec(src, tags).colour
  {
    LastOfSnoc(tags, t, DigitTags);
    LastOfSnoc(tags, t, ColourTags);
  }

  /** How each field of the specification moves when one tag is appended. */
  lemma ApplySpecFieldsSnoc(src: Decoration, tags: seq<string>, t: string)
    ensures var s, s' := ApplySpec(src, tags), ApplySpec(src, tags + [t]);
      && s'.bold == (if t == "B" then true else if t == "PL" then false else s.bold)
      && s'.em == (if t == "EM" then !src.em else if t == "PL" then false else s.em)
      && s'.italic == (s.italic || t == "I")
      && s'.strike == (if t == "S" then true else if t == "PL" then false else s.strike)
      && s'.tt == (if t == "TT" then true else if t == "PL" then false else s.tt)
      && s'.underline == (if t == "PL" then 0 else if t == "U" && s.underline < 3 then s.underline + 1 else s.underline)
      && s'.size == (if t in DigitTags then SizeOfTag(t) else s.size)
      && s'.colour == (if t in ColourTags then ColourOfTag(t).value else s.colour)
  {
    ApplySpecFlagsSnoc(src, tags, t);
    ApplySpecEmSnoc(src, tags, t);
    ApplySpecUnderlineSnoc(src, tags, t);
    ApplySpecSizeColourSnoc(src, tags, t);
  }

  /** `ApplyTag` moves a state field by field as `ApplySpecFieldsSnoc`
      describes. */
  lemma ApplyTagFields(src: Decoration, s: Decoration, s': Decoration, t: string)
    requires KnownTag(t)
    requires s'.bold == (if t == "B" then true else if t == "PL" then false else s.bold)
    requires s'.em == (if t == "EM" then !src.em else if t == "PL" then false else s.em)
    requires s'.italic == (s.italic || t == "I")
    requires s'.strike == (if t == "S" then true else if t == "PL" then false else s.strike)
    requires s'.tt == (if t == "TT" then true else if t == "PL" then false else s.tt)
    requires s'.underline == (if t == "PL" then 0 else if t == "U" && s.underline < 3 then s.underline + 1 else s.underline)
    requires s'.size == (if t in DigitTags then SizeOfTag(t) else s.size)
    requires s'.colour == (if t in ColourTags then ColourOfTag(t).value else s.colour)
    ensures ApplyTag(src, s, t) == Success(s')
  {
    if t in DigitTags {
      assert |t| == 1 && '0' <= t[0] <= '9';
    } else if t in ColourTags {
      assert ColourOfTag(t).Some?;
    }
  }

  /** Appending one known tag moves the specification the way `ApplyTag`
      moves the state. */
  lemma ApplySpecSnoc(src: Decoration, tags: seq<string>, t: string)
    requires KnownTag(t)
    ensures ApplyTag(src, ApplySpec(src, tags), t) == Success(ApplySpec(src, tags + [t]))
  {
    ApplySpecFieldsSnoc(src, tags, t);
    ApplyTagFields(src, ApplySpec(src, tags), ApplySpec(src, tags + [t]), t);
  }

  /** `Apply` on known tags yields exactly `ApplySpec`. */
  lemma {:induction false} ApplyMeetsSpec(src: Decoration, tags: seq<string>)
    requires forall i :: 0 <= i < |tags| ==> KnownTag(tags[i])
    ensures Apply(src, tags) == Success(ApplySpec(src, tags))
    decreases |tags|
  {
    if |tags| == 0 {
    } else {
      var init := tags[..|tags| - 1];
      var t := tags[|tags| - 1];
      assert tags == init + [t];
      ApplyMeetsSpec(src, init);
      ApplyFromSnoc(src, src, init, t);
      ApplySpecSnoc(src, init, t);
    }
  }

  /** Without a `PL`, emphasis ends as the negation of the call's input
      emphasis if `EM` occurs at all, however often, and unchanged
      otherwise. */
  lemma ApplyEmphasisToggle(src: Decoration, tags: seq<string>)
    requires forall i :: 0 <= i < |tags| ==> KnownTag(tags[i])
    requires "PL" !in tags
    ensures Apply(src, tags).Success?
    ensures Apply(src, tags).value.em == if "EM" in tags then !src.em else src.em
  {
    ApplyMeetsSpec(src, tags);
  }

  /** Two `EM` tags in one call toggle once; two calls with one `EM` each
      toggle back. */
  lemma EmphasisToggleIsPerCall(d: Decoration)
    ensures Apply(d, ["EM", "EM"]) == Success(d.(em := !d.em))
    ensures Apply(Apply(d, ["EM"]).value, ["EM"]) == Success(d)
  {
    ApplyMeetsSpec(d, ["EM", "EM"]);
  }

  /** `PL` clears underline, bold, emphasis, strike and typewriter text and
      keeps italic, size and colour. */
  lemma ApplyPlain(d: Decoration)
    ensures Apply(d, ["PL"]) == Success(d.(underline := 0, bold := false, em := false, strike := false, tt := false))
  {
  }

  /** `U` raises the underline level by one below 3 and leaves any other
      level as it is. */
  lemma ApplyUnderlineCapped(d: Decoration)
    ensures Apply(d, ["U"]).Success?
    ensures Apply(d, ["U"]).value.underline == if d.underline < 3 then d.underline + 1 else d.underline
    ensures Apply(d, ["U"]).value == d.(underline := Apply(d, ["U"]).value.underline)
  {
  }

  /** A digit tag sets the size to the digit's value. */
  lemma ApplyDigit(d: Decoration, ch: char)
    requires '0' <= ch <= '9'
    ensures Apply(d, [[ch]]) == Success(d.(size := ch as int - '0' as int))
  {
    var t := [ch];
    assert t in DigitTags;
    assert ApplyFrom(d, d, [t]) == ApplyFrom(d, d.(size := DigitValue(ch)), []) by {
      assert t[0] == ch;
      assert ApplyTag(d, d, t) == Success(d.(size := DigitValue(ch)));
    }
  }

  /** The lower-case name of every colour selects that colour again. */
  lemma ApplyColourRoundTrip(d: Decoration, c: TextColour)
    ensures Apply(d, [ColourTag(c)]) == Success(d.(colour := c))
  {
    ColourTagLetters(c);
    var t := ColourTag(c);
    assert ColourOfTag(t) == Some(c);
    assert ApplyFrom(d, d, [t]) == ApplyFrom(d, d.(colour := c), []) by {
      assert ApplyTag(d, d, t) == Success(d.(colour := c));
    }
  }
}
