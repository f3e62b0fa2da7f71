/** Runs of styled text (doc/doc.go `DecoratedText`, `collapseWhitespace`,
    `NewDecoratedText`), with `strings.Split` on a single space. */
module Runs {
  import opened Strs
  import opened Decorations

  /** The characters of the class `[ \t\n\r\f]`. */
  predicate IsSpace(c: char)
  {
    c == ' ' || c == '\t' || c == '\n' || c == '\r' || c as int == 0x0C
  }

  predicate NoWhitespace(t: string)
  {
    forall j :: 0 <= j < |t| ==> !IsSpace(t[j])
  }

  /** No two spaces are adjacent. */
  predicate NoDoubleSpace(s: string)
  {
    forall i :: 0 <= i < |s| - 1 ==> !(s[i] == ' ' && s[i + 1] == ' ')
  }

  /** The form `collapseWhitespace` produces: the only whitespace is a
      plain space, and no two spaces are adjacent. */
  predicate Collapsed(s: string)
  {
    && (forall i :: 0 <= i < |s| && IsSpace(s[i]) ==> s[i] == ' ')
    && NoDoubleSpace(s)
  }

  /** The text with every whitespace character removed. */
  function RemoveSpaces(s: string): string
  {
    if |s| == 0 then ""
    else (if IsSpace(s[0]) then "" else [s[0]]) + RemoveSpaces(s[1..])
  }

  lemma RemoveSpacesCons(c: char, t: string)
    ensures RemoveSpaces([c] + t) == (if IsSpace(c) then "" else [c]) + RemoveSpaces(t)
  {
    assert ([c] + t)[1..] == t;
  }

  /** The rest of `s` after its leading whitespace. */
  function SkipSpaces(s: string): (r: string)
    ensures |r| <= |s| && r == s[|s| - |r|..]
    ensures |r| > 0 ==> !IsSpace(r[0])
    ensures |s| > 0 && IsSpace(s[0]) ==> |r| < |s|
    ensures RemoveSpaces(r) == RemoveSpaces(s)
    ensures forall i :: 0 <= i < |s| - |r| ==> IsSpace(s[i])
  {
    if |s| > 0 && IsSpace(s[0]) then SkipSpaces(s[1..]) else s
  }

  /** Skipping leading whitespace before one more character. */
  lemma {:induction false} SkipSpacesSnoc(s: string, c: char)
    ensures SkipSpaces(s + [c]) == if |SkipSpaces(s)| > 0 then SkipSpaces(s) + [c] else SkipSpaces([c])
    decreases |s|
  {
    if |s| == 0 {
      assert s + [c] == [c];
    } else if IsSpace(s[0]) {
      assert (s + [c])[1..] == s[1..] + [c];
      SkipSpacesSnoc(s[1..], c);
    }
  }

  /** Putting `c` in front of collapsed text keeps it collapsed when `c` is
      not whitespace, or is a space not followed by one. */
  lemma CollapsedCons(c: char, t: string)
    requires Collapsed(t)
    requires !IsSpace(c) || (c == ' ' && (|t| == 0 || t[0] != ' '))
    ensures Collapsed([c] + t)
  {
    var u := [c] + t;
    forall i | 0 <= i < |u| && IsSpace(u[i])
      ensures u[i] == ' '
    {
      if i > 0 { assert u[i] == t[i - 1]; }
    }
    forall i | 0 <= i < |u| - 1
      ensures !(u[i] == ' ' && u[i + 1] == ' ')
    {
      assert u[i + 1] == t[i];
      if i > 0 { assert u[i] == t[i - 1]; }
    }
  }

  /** The tail of collapsed text is collapsed, and a leading space is not
      followed by whitespace. */
  lemma CollapsedTail(s: string)
    requires Collapsed(s) && |s| > 0
    ensures Collapsed(s[1..])
    ensures IsSpace(s[0]) ==> s[0] == ' '
    ensures IsSpace(s[0]) && |s| > 1 ==> !IsSpace(s[1])
  {
    var t := s[1..];
    forall i | 0 <= i < |t| && IsSpace(t[i])
      ensures t[i] == ' '
    {
      assert t[i] == s[i + 1];
    }
    forall i | 0 <= i < |t| - 1
      ensures !(t[i] == ' ' && t[i + 1] == ' ')
    {
      assert t[i] == s[i + 1] && t[i + 1] == s[i + 2];
    }
  }

  /** Every element of a suffix is an element of the whole. */
  lemma InSuffix<T>(s: seq<T>, n: nat)
    requires n <= |s|
    ensures forall x :: x in s[n..] ==> x in s
  {
    forall x | x in s[n..]
      ensures x in s
    {
      var j :| 0 <= j < |s[n..]| && s[n..][j] == x;
      assert s[n + j] == x;
    }
  }

  /** What `collapseWhitespace` promises of its result `r` for the text
      `s`: no longer, empty only for empty text, starting with a space
      exactly when the text starts with whitespace, collapsed, the same
      non-whitespace characters in the same order, and no character that
      is not a space or taken from the text. */
  predicate CollapsesTo(s: string, r: string)
  {
    && |r| <= |s|
    && (|r| == 0 <==> |s| == 0)
    && (|r| > 0 ==> (r[0] == ' ' <==> IsSpace(s[0])))
    && Collapsed(r)
    && RemoveSpaces(r) == RemoveSpaces(s)
    && (forall i :: 0 <= i < |r| ==> r[i] == ' ' || r[i] in s)
  }

  /** Putting `x` in front of `t` keeps every element either `y` or taken
      from `s`, when `t`'s elements were `y` or taken from a suffix of `s`. */
  lemma ConsFrom<T>(x: T, y: T, t: seq<T>, s: seq<T>, n: nat)
    requires n <= |s|
    requires x == y || x in s
    requires forall i :: 0 <= i < |t| ==> t[i] == y || t[i] in s[n..]
    ensures forall i :: 0 <= i < |[x] + t| ==> ([x] + t)[i] == y || ([x] + t)[i] in s
  {
    InSuffix(s, n);
    var r := [x] + t;
    forall i | 0 <= i < |r|
      ensures r[i] == y || r[i] in s
    {
      if i > 0 { assert r[i] == t[i - 1]; }
    }
  }

  /** Text starting with whitespace collapses to one space followed by the
      collapse of what follows the leading whitespace. */
  lemma CollapseSpaceCase(s: string, t: string)
    requires |s| > 0 && IsSpace(s[0])
    requires CollapsesTo(SkipSpaces(s), t)
    ensures CollapsesTo(s, " " + t)
  {
    var rest := SkipSpaces(s);
    CollapsedCons(' ', t);
    RemoveSpacesCons(' ', t);
    ConsFrom(' ', ' ', t, s, |s| - |rest|);
  }

  /** Text starting with a non-whitespace character keeps it in front of
      the collapse of the rest. */
  lemma CollapseWordCase(s: string, t: string)
    requires |s| > 0 && !IsSpace(s[0])
    requires CollapsesTo(s[1..], t)
    ensures CollapsesTo(s, [s[0]] + t)
  {
    CollapsedCons(s[0], t);
    RemoveSpacesCons(s[0], s[1..]);
    RemoveSpacesCons(s[0], t);
    ConsFrom(s[0], ' ', t, s, 1);
    assert [s[0]] + s[1..] == s;
  }

  /** `collapseWhitespace`: every maximal run of whitespace becomes one
      space; everything else is kept in order. */
  function CollapseWhitespace(s: string): (r: string)
    ensures CollapsesTo(s, r)
    decreases |s|
  {
    if |s| == 0 then ""
    else if IsSpace(s[0]) then
      var t := CollapseWhitespace(SkipSpaces(s));
      CollapseSpaceCase(s, t);
      " " + t
    else
      var t := CollapseWhitespace(s[1..]);
      CollapseWordCase(s, t);
      [s[0]] + t
  }

  /** Text already in collapsed form is left alone. */
  lemma {:induction false} CollapseFixesCollapsed(s: string)
    requires Collapsed(s)
    ensures CollapseWhitespace(s) == s
    decreases |s|
  {
    if |s| > 0 {
      CollapsedTail(s);
      CollapseFixesCollapsed(s[1..]);
      if IsSpace(s[0]) {
        assert SkipSpaces(s) == s[1..] by {
          assert SkipSpaces(s[1..]) == s[1..];
        }
      }
      assert [s[0]] + s[1..] == s;
    }
  }

  /** Collapsing twice is collapsing once. */
  lemma CollapseIdempotent(s: string)
    ensures CollapseWhitespace(CollapseWhitespace(s)) == CollapseWhitespace(s)
  {
    CollapseFixesCollapsed(CollapseWhitespace(s));
  }

  /** An independent reading of `collapseWhitespace`, one character at a
      time from the right end: a character that is not whitespace is kept;
      a whitespace character becomes one space, or is dropped when the
      character before it is whitespace too (its run already has one). */
  function CollapseRef(s: string): string
    decreases |s|
  {
    if |s| == 0 then ""
    else
      var init, c := s[..|s| - 1], s[|s| - 1];
      if !IsSpace(c) then CollapseRef(init) + [c]
      else if |init| > 0 && IsSpace(init[|init| - 1]) then CollapseRef(init)
      else CollapseRef(init) + " "
  }

  /** What collapsing text with one more character at the end gives. */
  predicate SnocLaw(s: string, c: char)
  {
    CollapseWhitespace(s + [c]) ==
      if !IsSpace(c) then CollapseWhitespace(s) + [c]
      else if |s| > 0 && IsSpace(s[|s| - 1]) then CollapseWhitespace(s)
      else CollapseWhitespace(s) + " "
  }

  lemma SnocLawEmpty(c: char)
    ensures SnocLaw("", c)
  {
    assert "" + [c] == [c];
    if IsSpace(c) {
      assert SkipSpaces([c]) == SkipSpaces([c][1..]);
    }
  }

  /** Putting `h` in front of both sides keeps the shape of `SnocLaw`. */
  lemma PrependLaw(h: char, x: string, y: string, c: char, b: bool)
    requires x == if !IsSpace(c) then y + [c] else if b then y else y + " "
    ensures [h] + x == if !IsSpace(c) then ([h] + y) + [c] else if b then [h] + y else ([h] + y) + " "
  {
    AppendAssoc([h], y, if !IsSpace(c) then [c] else " ");
  }

  /** A leading non-whitespace character stays in front. */
  lemma SnocLawWord(s: string, c: char)
    requires |s| > 0 && !IsSpace(s[0])
    requires SnocLaw(s[1..], c)
    ensures SnocLaw(s, c)
  {
    var t := s[1..];
    CollapseWordSnoc(s, c);
    CollapseWordHead(s);
    LastOfTail(s);
    PrependLaw(s[0], CollapseWhitespace(t + [c]), CollapseWhitespace(t), c, IsSpace(s[|s| - 1]));
  }

  /** `CollapseWordHead` for `s` with one more character at the end. */
  lemma CollapseWordSnoc(s: string, c: char)
    requires |s| > 0 && !IsSpace(s[0])
    ensures CollapseWhitespace(s + [c]) == [s[0]] + CollapseWhitespace(s[1..] + [c])
  {
    TailSnoc(s, c);
    CollapseWordTail(s + [c], s[1..] + [c]);
  }

  lemma TailSnoc<T>(s: seq<T>, c: T)
    requires |s| > 0
    ensures (s + [c])[0] == s[0] && (s + [c])[1..] == s[1..] + [c]
  {
  }

  /** `CollapseWordHead` with the tail named. */
  lemma CollapseWordTail(u: string, v: string)
    requires |u| > 0 && !IsSpace(u[0]) && u[1..] == v
    ensures CollapseWhitespace(u) == [u[0]] + CollapseWhitespace(v)
  {
    CollapseWordHead(u);
  }

  /** Dropping a non-space first character keeps "ends in whitespace". */
  lemma LastOfTail(s: string)
    requires |s| > 0 && !IsSpace(s[0])
    ensures IsSpace(s[|s| - 1]) == (|s[1..]| > 0 && IsSpace(s[1..][|s[1..]| - 1]))
  {
  }

  /** A leading non-space character is copied and the rest collapsed. */
  lemma CollapseWordHead(s: string)
    requires |s| > 0 && !IsSpace(s[0])
    ensures CollapseWhitespace(s) == [s[0]] + CollapseWhitespace(s[1..])
  {
  }


  /** Leading whitespace becomes one space before the rest. */
  lemma SnocLawSpace(s: string, c: char)
    requires |s| > 0 && IsSpace(s[0])
    requires |SkipSpaces(s)| > 0 ==> SnocLaw(SkipSpaces(s), c)
    ensures SnocLaw(s, c)
  {
    SkipSpacesSnoc(s, c);
    if |SkipSpaces(s)| > 0 {
      SnocLawSpaceThenWord(s, c);
    } else {
      SnocLawAllSpace(s, c);
    }
  }

  lemma SnocLawSpaceThenWord(s: string, c: char)
    requires |s| > 0 && IsSpace(s[0])
    requires |SkipSpaces(s)| > 0 && SnocLaw(SkipSpaces(s), c)
    requires SkipSpaces(s + [c]) == SkipSpaces(s) + [c]
    ensures SnocLaw(s, c)
  {
    var r, u := SkipSpaces(s), s + [c];
    assert u[0] == s[0];
    assert CollapseWhitespace(u) == " " + CollapseWhitespace(r + [c]);
    assert CollapseWhitespace(s) == " " + CollapseWhitespace(r);
    assert r[|r| - 1] == s[|s| - 1];
    PrependLaw(' ', CollapseWhitespace(r + [c]), CollapseWhitespace(r), c, IsSpace(s[|s| - 1]));
  }

  /** Text that is all whitespace collapses to one space. */
  lemma CollapseAllSpace(s: string)
    requires |s| > 0 && IsSpace(s[0]) && |SkipSpaces(s)| == 0
    ensures CollapseWhitespace(s) == " "
  {
  }

  /** A single character after its leading whitespace is skipped. */
  lemma CollapseSkipOne(c: char)
    ensures CollapseWhitespace(SkipSpaces([c])) == if IsSpace(c) then "" else [c]
  {
    if IsSpace(c) {
      assert SkipSpaces([c]) == SkipSpaces([c][1..]);
    } else {
      assert CollapseWhitespace([c]) == [c] + CollapseWhitespace([c][1..]);
    }
  }

  lemma SnocLawAllSpace(s: string, c: char)
    requires |s| > 0 && IsSpace(s[0])
    requires |SkipSpaces(s)| == 0 && SkipSpaces(s + [c]) == SkipSpaces([c])
    ensures SnocLaw(s, c)
  {
    var u := s + [c];
    assert u[0] == s[0];
    assert IsSpace(s[|s| - 1]);
    CollapseAllSpace(s);
    CollapseSkipOne(c);
    assert CollapseWhitespace(u) == " " + CollapseWhitespace(SkipSpaces([c]));
  }

  /** Collapsing text with one more character at the end. */
  lemma {:induction false} CollapseSnoc(s: string, c: char)
    ensures SnocLaw(s, c)
    decreases |s|
  {
    if |s| == 0 {
      SnocLawEmpty(c);
    } else if !IsSpace(s[0]) {
      CollapseSnoc(s[1..], c);
      SnocLawWord(s, c);
    } else {
      if |SkipSpaces(s)| > 0 {
        CollapseSnoc(SkipSpaces(s), c);
      }
      SnocLawSpace(s, c);
    }
  }

  /** `CollapseWhitespace` agrees with the character-by-character reading:
      every maximal run of whitespace becomes one space, in place. */
  lemma {:induction false} CollapseMatchesReference(s: string)
    ensures CollapseWhitespace(s) == CollapseRef(s)
    decreases |s|
  {
    if |s| > 0 {
      var init := s[..|s| - 1];
      assert s == init + [s[|s| - 1]];
      CollapseSnoc(init, s[|s| - 1]);
      CollapseMatchesReference(init);
    }
  }

  /** The collapsed text ends in a space exactly when the text ends in
      whitespace. */
  lemma {:induction false} CollapseEndsInSpace(s: string)
    ensures var r := CollapseWhitespace(s);
      |r| > 0 && r[|r| - 1] == ' ' <==> |s| > 0 && IsSpace(s[|s| - 1])
    decreases |s|
  {
    if |s| > 0 {
      var init := s[..|s| - 1];
      assert s == init + [s[|s| - 1]];
      CollapseSnoc(init, s[|s| - 1]);
      CollapseEndsInSpace(init);
    }
  }

  /** Joining a piece in front of at least one more piece. */
  lemma JoinCons(h: string, rest: seq<string>)
    requires |rest| >= 1
    ensures Join([h] + rest) == h + " " + Join(rest)
  {
    assert ([h] + rest)[1..] == rest;
  }

  /** The pieces before and after the first space of `s` together make up
      `s`, and none of them holds a space. */
  lemma SplitCase(s: string, i: int, rest: seq<string>)
    requires 0 <= i < |s| && s[i] == ' ' && ' ' !in s[..i]
    requires |rest| >= 1 && Join(rest) == s[i + 1..]
    requires forall k :: 0 <= k < |rest| ==> ' ' !in rest[k]
    ensures forall k :: 0 <= k < |[s[..i]] + rest| ==> ' ' !in ([s[..i]] + rest)[k]
    ensures Join([s[..i]] + rest) == s
  {
    JoinCons(s[..i], rest);
    assert s == s[..i] + " " + s[i + 1..];
    var r := [s[..i]] + rest;
    forall k | 0 < k < |r|
      ensures ' ' !in r[k]
    {
      assert r[k] == rest[k - 1];
    }
  }

  /** `strings.Split(s, " ")`: the pieces between single spaces, empty
      pieces included; there is always at least one piece. */
  function Split(s: string): (r: seq<string>)
    ensures |r| >= 1
    ensures forall k :: 0 <= k < |r| ==> ' ' !in r[k]
    ensures Join(r) == s
    decreases |s|
  {
    var i := IndexOf(s, ' ');
    if i == -1 then [s]
    else
      var rest := Split(s[i + 1..]);
      SplitCase(s, i, rest);
      [s[..i]] + rest
  }

  /** Every character of a piece comes from the split text. */
  lemma {:induction false} SplitChars(s: string)
    ensures forall k, j :: 0 <= k < |Split(s)| && 0 <= j < |Split(s)[k]| ==> Split(s)[k][j] in s
    decreases |s|
  {
    var i := IndexOf(s, ' ');
    if i != -1 {
      var rest := Split(s[i + 1..]);
      SplitChars(s[i + 1..]);
      var r := Split(s);
      assert r == [s[..i]] + rest;
      forall k, j | 0 < k < |r| && 0 <= j < |r[k]|
        ensures r[k][j] in s
      {
        assert r[k] == rest[k - 1];
        assert r[k][j] in s[i + 1..];
      }
    }
  }

  lemma NoDoubleSpaceAfter(s: string, n: nat)
    requires NoDoubleSpace(s) && n <= |s|
    ensures NoDoubleSpace(s[n..])
  {
    var t := s[n..];
    forall j | 0 <= j < |t| - 1
      ensures !(t[j] == ' ' && t[j + 1] == ' ')
    {
      assert t[j] == s[n + j] && t[j + 1] == s[n + j + 1];
    }
  }

  /** The first piece is empty exactly when the text is empty or starts
      with a space. */
  lemma SplitHead(s: string)
    ensures |Split(s)[0]| == 0 <==> |s| == 0 || s[0] == ' '
  {
  }

  /** The last piece is empty exactly when the text is empty or ends
      with a space. */
  lemma {:induction false} SplitLast(s: string)
    ensures LastEmptyIff(s, Split(s))
  {
    LastPiece(s, Split(s));
  }

  /** The last of the pieces `r` of `s` is empty exactly when `s` is empty
      or ends in a space. */
  predicate LastEmptyIff(s: string, r: seq<string>)
    requires |r| >= 1
  {
    |r[|r| - 1]| == 0 <==> |s| == 0 || s[|s| - 1] == ' '
  }

  /** The last of the space-free pieces joined into `s` is empty exactly
      when `s` is empty or ends in a space. */
  lemma LastPiece(s: string, r: seq<string>)
    requires |r| >= 1 && Join(r) == s
    requires forall k :: 0 <= k < |r| ==> ' ' !in r[k]
    ensures LastEmptyIff(s, r)
  {
    JoinEdges(r);
  }


  /** Text without a space is one piece. */
  lemma SplitNoSpace(s: string)
    requires ' ' !in s
    ensures Split(s) == [s]
  {
  }

  /** The piece after a space is not empty when no two spaces are adjacent
      and more pieces follow it. */
  lemma PieceAfterSpace(s: string, i: int)
    requires NoDoubleSpace(s)
    requires 0 <= i < |s| && s[i] == ' '
    requires |Split(s[i + 1..])| >= 2
    ensures |Split(s[i + 1..])[0]| > 0
  {
    var t := s[i + 1..];
    if |t| == 0 {
      SplitNoSpace(t);
    } else {
      assert t[0] == s[i + 1];
      SplitHead(t);
    }
  }

  /** Putting a piece in front keeps every middle piece non-empty when the
      old first piece was non-empty. */
  lemma MiddlesCons(h: string, rt: seq<string>)
    requires forall k :: 0 < k < |rt| - 1 ==> |rt[k]| > 0
    requires |rt| >= 2 ==> |rt[0]| > 0
    ensures forall k :: 0 < k < |[h] + rt| - 1 ==> |([h] + rt)[k]| > 0
  {
    var r := [h] + rt;
    forall k | 0 < k < |r| - 1
      ensures |r[k]| > 0
    {
      assert r[k] == rt[k - 1];
    }
  }

  /** When no two spaces are adjacent, only the first and last pieces can
      be empty. */
  lemma {:induction false} SplitPieces(s: string)
    requires NoDoubleSpace(s)
    ensures forall k :: 0 < k < |Split(s)| - 1 ==> |Split(s)[k]| > 0
    decreases |s|
  {
    var i := IndexOf(s, ' ');
    if i != -1 {
      var t := s[i + 1..];
      NoDoubleSpaceAfter(s, i + 1);
      SplitPieces(t);
      if |Split(t)| >= 2 {
        PieceAfterSpace(s, i);
      }
      MiddlesCons(s[..i], Split(t));
    }
  }

  /** Splitting the space-joined words gives the words back. */
  lemma {:induction false} SplitJoin(ts: seq<string>)
    requires |ts| >= 1
    requires forall k :: 0 <= k < |ts| ==> ' ' !in ts[k]
    ensures Split(Join(ts)) == ts
    decreases |ts|
  {
    if |ts| == 1 {
      assert IndexOf(ts[0], ' ') == -1;
    } else {
      var s := Join(ts);
      var tail := Join(ts[1..]);
      JoinCons(ts[0], ts[1..]);
      assert [ts[0]] + ts[1..] == ts;
      assert s == ts[0] + (" " + tail);
      IndexOfAppend(ts[0], " " + tail, ' ');
      assert IndexOf(s, ' ') == |ts[0]|;
      assert s[..|ts[0]|] == ts[0];
      assert s[|ts[0]| + 1..] == tail;
      SplitJoin(ts[1..]);
      assert Split(s) == [ts[0]] + Split(tail);
    }
  }

  /** A run: a style state with the words (or, for typewriter text, the one
      verbatim token) it applies to. */
  datatype Part = Part(deco: Decoration, tokens: seq<string>)

  /** `NewDecoratedText`: typewriter text is kept as a single token;
      otherwise whitespace is collapsed and the text split on spaces, so a
      leading or trailing space yields an empty first or last token. */
  function NewDecoratedText(d: Decoration, text: string): (p: Part)
    ensures p.deco == d
    ensures d.tt ==> p.tokens == [text]
    ensures !d.tt ==> |p.tokens| >= 1 && Join(p.tokens) == CollapseWhitespace(text)
    ensures !d.tt ==> forall k :: 0 <= k < |p.tokens| ==> NoWhitespace(p.tokens[k])
    ensures !d.tt ==> forall k :: 0 < k < |p.tokens| - 1 ==> |p.tokens[k]| > 0
    ensures forall k, j :: 0 <= k < |p.tokens| && 0 <= j < |p.tokens[k]| ==> p.tokens[k][j] in text
  {
    if d.tt then Part(d, [text])
    else
      var c := CollapseWhitespace(text);
      var ts := Split(c);
      SplitChars(c);
      SplitHead(c);
      SplitPieces(c);
      assert forall k, j :: 0 <= k < |ts| && 0 <= j < |ts[k]| ==> ts[k][j] in text by {
        forall k, j | 0 <= k < |ts| && 0 <= j < |ts[k]|
          ensures ts[k][j] in text
        {
          assert ts[k][j] in c;
          assert ts[k][j] != ' ';
        }
      }
      assert forall k :: 0 <= k < |ts| ==> NoWhitespace(ts[k]) by {
        forall k | 0 <= k < |ts|
          ensures NoWhitespace(ts[k])
        {
          forall j | 0 <= j < |ts[k]|
            ensures !IsSpace(ts[k][j])
          {
            assert ts[k][j] in c;
            assert ts[k][j] != ' ';
          }
        }
      }
      Part(d, ts)
  }

  /** The first token is empty exactly when the text is empty or starts
      with whitespace, and the last exactly when it is empty or ends with
      whitespace. */
  predicate TokenEdges(text: string, ts: seq<string>)
  {
    && |ts| >= 1
    && (|ts[0]| == 0 <==> |text| == 0 || IsSpace(text[0]))
    && (|ts[|ts| - 1]| == 0 <==> |text| == 0 || IsSpace(text[|text| - 1]))
  }

  /** Leading whitespace gives an empty first token and trailing
      whitespace an empty last token, and nothing else does. */
  lemma NewDecoratedTextEdges(d: Decoration, text: string)
    ensures !d.tt ==> TokenEdges(text, NewDecoratedText(d, text).tokens)
  {
    if !d.tt {
      var p := NewDecoratedText(d, text);
      EdgeTokens(text, p.tokens);
    }
  }

  /** Tokens without whitespace that join to the collapsed text have an
      empty first or last token exactly at leading or trailing
      whitespace. */
  lemma EdgeTokens(text: string, ts: seq<string>)
    requires |ts| >= 1 && Join(ts) == CollapseWhitespace(text)
    requires forall k :: 0 <= k < |ts| ==> NoWhitespace(ts[k])
    ensures TokenEdges(text, ts)
  {
    var c := CollapseWhitespace(text);
    NoSpaceInTokens(ts);
    JoinEdges(ts);
    CollapseEndsInSpace(text);
    EdgesFrom(text, c, ts);
  }

  lemma NoSpaceInTokens(ts: seq<string>)
    requires forall k :: 0 <= k < |ts| ==> NoWhitespace(ts[k])
    ensures forall k :: 0 <= k < |ts| ==> ' ' !in ts[k]
  {
    forall k | 0 <= k < |ts|
      ensures ' ' !in ts[k]
    {
      assert NoWhitespace(ts[k]);
    }
  }

  /** Edge tokens of the pieces of `c`, read back on the text `c` was
      collapsed from. */
  lemma EdgesFrom(text: string, c: string, ts: seq<string>)
    requires |ts| >= 1
    requires |ts[0]| == 0 <==> |c| == 0 || c[0] == ' '
    requires |ts[|ts| - 1]| == 0 <==> |c| == 0 || c[|c| - 1] == ' '
    requires |c| == 0 <==> |text| == 0
    requires |c| > 0 ==> (c[0] == ' ' <==> IsSpace(text[0]))
    requires |c| > 0 && c[|c| - 1] == ' ' <==> |text| > 0 && IsSpace(text[|text| - 1])
    ensures |ts[0]| == 0 <==> |text| == 0 || IsSpace(text[0])
    ensures |ts[|ts| - 1]| == 0 <==> |text| == 0 || IsSpace(text[|text| - 1])
  {
  }

  /** A typewriter run holds exactly one token, as `NewDecoratedText`
      builds it. */
  predicate WellFormed(doc: seq<Part>)
  {
    forall i :: 0 <= i < |doc| && doc[i].deco.tt ==> |doc[i].tokens| == 1
  }

  /** No token of the document contains `<`. */
  predicate NoAngle(doc: seq<Part>)
  {
    forall i, k :: 0 <= i < |doc| && 0 <= k < |doc[i].tokens| ==> '<' !in doc[i].tokens[k]
  }
}
