/** The markup tokenizer (main.go `tokens2chan`), as a function from the
    markup to the tokens it sends down its channel, in order. */
module Tokenizer {
  import opened Strs

  /** A tag token: `<`, a non-empty body, and the first `>` at the end. */
  predicate IsTagToken(t: string)
  {
    |t| >= 3 && t[0] == '<' && t[|t| - 1] == '>' && '>' !in t[..|t| - 1]
  }

  /** A text token: non-empty and free of `<`. */
  predicate IsTextToken(t: string)
  {
    |t| > 0 && '<' !in t
  }

  /** Every token is a tag or a text token, and no two text tokens are
      neighbours. */
  predicate WellShaped(toks: seq<string>)
  {
    && (forall i :: 0 <= i < |toks| ==> IsTagToken(toks[i]) || IsTextToken(toks[i]))
    && (forall i :: 0 < i < |toks| ==> !(IsTextToken(toks[i - 1]) && IsTextToken(toks[i])))
  }

  /** Where scanning gives up: at a `<` with no `>` after it, or with `>`
      right after it (an empty tag). */
  predicate Stuck(rest: string)
  {
    |rest| > 0 && rest[0] == '<' && ('>' !in rest || rest[1] == '>')
  }

  /** `tokens2chan`: at `<` take everything up to the first `>` (stopping
      silently when there is none or the tag is empty), elsewhere take the
      text up to the next `<` or the end. */
  function Tokenize(s: string): seq<string>
    decreases |s|
  {
    if |s| == 0 then []
    else if s[0] == '<' then
      var j := IndexOf(s, '>');
      if j <= 1 then [] else [s[..j + 1]] + Tokenize(s[j + 1..])
    else
      var j := IndexOf(s, '<');
      if j == -1 then [s] else [s[..j]] + Tokenize(s[j..])
  }

  /** Scanning one token `s[..k]` and then the rest keeps the prefix and
      stopping properties of the rest. */
  lemma StepPreservesStop(s: string, k: nat, toks: seq<string>)
    requires 0 < k <= |s|
    requires var c := Concat(toks); var u := s[k..];
      |c| <= |u| && c == u[..|c|] && (|c| == |u| || Stuck(u[|c|..]))
    ensures var c := Concat([s[..k]] + toks);
      |c| <= |s| && c == s[..|c|] && (|c| == |s| || Stuck(s[|c|..]))
  {
    ConcatCons(s[..k], toks);
    var c' := Concat(toks);
    var c := s[..k] + c';
    assert s[k..][|c'|..] == s[|c|..];
    assert s[k..][..|c'|] == s[k..|c|];
    assert s[..|c|] == s[..k] + s[k..|c|];
  }

  /** The tokens spell out a prefix of the markup, and scanning ends either
      at the end of the markup or exactly where it is stuck. */
  lemma {:induction false} TokenizeStopsOnlyWhenStuck(s: string)
    ensures var c := Concat(Tokenize(s));
      |c| <= |s| && c == s[..|c|] && (|c| == |s| || Stuck(s[|c|..]))
    decreases |s|
  {
    if |s| == 0 {
    } else if s[0] == '<' {
      var j := IndexOf(s, '>');
      if j > 1 {
        TokenizeStopsOnlyWhenStuck(s[j + 1..]);
        StepPreservesStop(s, j + 1, Tokenize(s[j + 1..]));
      } else {
        assert Concat(Tokenize(s)) == "";
        assert s[0..] == s;
      }
    } else {
      var j := IndexOf(s, '<');
      if j == -1 {
        ConcatCons(s, []);
      } else {
        TokenizeStopsOnlyWhenStuck(s[j..]);
        StepPreservesStop(s, j, Tokenize(s[j..]));
      }
    }
  }

  lemma WellShapedCons(t: string, toks: seq<string>)
    requires IsTagToken(t) || IsTextToken(t)
    requires WellShaped(toks)
    requires |toks| > 0 ==> !(IsTextToken(t) && IsTextToken(toks[0]))
    ensures WellShaped([t] + toks)
  {
    var r := [t] + toks;
    assert forall i :: 0 < i < |r| ==> r[i] == toks[i - 1];
  }

  /** Every token sent is a tag token or a text token, and text tokens are
      never neighbours; the first token starts where the markup does. */
  lemma {:induction false} TokenizeWellShaped(s: string)
    ensures WellShaped(Tokenize(s))
    ensures |Tokenize(s)| > 0 ==> |Tokenize(s)[0]| > 0 && Tokenize(s)[0][0] == s[0]
    decreases |s|
  {
    if |s| == 0 {
    } else if s[0] == '<' {
      var j := IndexOf(s, '>');
      if j > 1 {
        var t := s[..j + 1];
        assert t[..|t| - 1] == s[..j];
        TokenizeWellShaped(s[j + 1..]);
        WellShapedCons(t, Tokenize(s[j + 1..]));
      }
    } else {
      var j := IndexOf(s, '<');
      if j == -1 {
        WellShapedCons(s, []);
      } else {
        TokenizeWellShaped(s[j..]);
        var rest := Tokenize(s[j..]);
        if |rest| > 0 {
          assert rest[0][0] == '<';
        }
        WellShapedCons(s[..j], rest);
      }
    }
  }

  /** A complete tag in front of any markup is scanned as one token. */
  lemma TokenizeTagCons(t: string, u: string)
    requires IsTagToken(t)
    ensures Tokenize(t + u) == [t] + Tokenize(u)
  {
    var s := t + u;
    var k := |t| - 1;
    assert t == t[..k] + ">";
    assert s == t[..k] + (">" + u);
    IndexOfAppend(t[..k], ">" + u, '>');
    assert s[..k + 1] == t;
    assert s[k + 1..] == u;
  }

  /** Text in front of a tag or of the end is scanned as one token. */
  lemma TokenizeTextCons(t: string, u: string)
    requires IsTextToken(t)
    requires |u| == 0 || u[0] == '<'
    ensures Tokenize(t + u) == [t] + Tokenize(u)
  {
    var s := t + u;
    IndexOfAppend(t, u, '<');
    if |u| == 0 {
      assert s == t;
    } else {
      assert s[..|t|] == t;
      assert s[|t|..] == u;
    }
  }

  /** Tokenizing the concatenation of well-shaped tokens gives the same
      tokens back. */
  lemma {:induction false} TokenizeConcat(toks: seq<string>)
    requires WellShaped(toks)
    ensures Tokenize(Concat(toks)) == toks
    decreases |toks|
  {
    if |toks| > 0 {
      var t := toks[0];
      var rest := toks[1..];
      assert WellShaped(rest) by {
        assert forall i :: 0 <= i < |rest| ==> rest[i] == toks[i + 1];
      }
      TokenizeConcat(rest);
      ConcatCons(t, rest);
      assert toks == [t] + rest;
      if IsTagToken(t) {
        TokenizeTagCons(t, Concat(rest));
      } else {
        if |rest| > 0 {
          assert IsTagToken(rest[0]) by { assert rest[0] == toks[1]; }
          ConcatCons(rest[0], rest[1..]);
          assert rest == [rest[0]] + rest[1..];
        }
        TokenizeTextCons(t, Concat(rest));
      }
    }
  }
}
