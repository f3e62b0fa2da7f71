/** The parser (main.go `parse`): replays the tokens against a stack of
    saved decorations and builds one run per text token. */
module Parser {
  import opened Results
  import opened Strs
  import opened Decorations
  import opened Tags
  import opened Runs
  import opened Tokenizer
  import opened Stacks

  /** The parser's variables: `current`, the `context` stack (top last) and
      the document built so far. */
  datatype ParseState = ParseState(current: Decoration, context: seq<Decoration>, parts: seq<Part>)

  function Start(): ParseState
  {
    ParseState(DefaultDecoration(), [], [])
  }

  /** A token `parse` can index without panicking: non-empty, and a tag
      long enough to have a first body character. */
  predicate Readable(token: string)
  {
    |token| > 0 && (token[0] == '<' ==> |token| >= 3)
  }

  predicate AllReadable(toks: seq<string>)
  {
    forall i :: 0 <= i < |toks| ==> Readable(toks[i])
  }

  /** The tag body: the token without its first and last characters. */
  function Body(token: string): string
    requires |token| >= 2
  {
    token[1..|token| - 1]
  }

  predicate IsOpen(token: string)
  {
    Readable(token) && token[0] == '<' && token[1] != '/'
  }

  predicate IsClose(token: string)
  {
    Readable(token) && token[0] == '<' && token[1] == '/'
  }

  predicate IsText(token: string)
  {
    |token| > 0 && token[0] != '<'
  }

  /** One iteration of the loop in `parse`. */
  function Step(st: ParseState, token: string): Result<ParseState, string>
    requires Readable(token)
  {
    if token[0] == '<' then
      var tag := Body(token);
      if tag[0] == '/' then
        if !Empty(st.context) then
          Success(st.(current := Peek(st.context), context := Below(st.context)))
        else Success(st)
      else
        match Apply(st.current, [tag])
        case Failure(e) => Failure(e)
        case Success(d) => Success(st.(context := Push(st.context, st.current), current := d))
    else
      Success(st.(parts := st.parts + [NewDecoratedText(st.current, token)]))
  }

  /** The loop of `parse` over a token sequence; an unknown tag aborts it. */
  function Run(st: ParseState, toks: seq<string>): Result<ParseState, string>
    requires AllReadable(toks)
    decreases |toks|
  {
    if |toks| == 0 then Success(st)
    else
      match Step(st, toks[0])
      case Failure(e) => Failure(e)
      case Success(st') => Run(st', toks[1..])
  }

  lemma WellShapedReadable(toks: seq<string>)
    requires WellShaped(toks)
    ensures AllReadable(toks)
  {
  }

  /** `parse`: tokenize, then run the tokens from the default decoration
      with an empty context. */
  function Parse(s: string): Result<seq<Part>, string>
  {
    var toks := Tokenize(s);
    TokenizeWellShaped(s);
    match Run(Start(), toks)
    case Failure(e) => Failure(e)
    case Success(st) => Success(st.parts)
  }

  /** Any close tag pops the context whatever its name, and does nothing
      when the context is empty. */
  lemma CloseIgnoresName(st: ParseState, c1: string, c2: string)
    requires IsClose(c1) && IsClose(c2)
    ensures Step(st, c1) == Step(st, c2)
    ensures |st.context| == 0 ==> Step(st, c1) == Success(st)
    ensures |st.context| > 0 ==> Step(st, c1).value.current == st.context[|st.context| - 1]
  {
  }

  /** A known open tag followed by any close tag gives back the state
      before the open. */
  lemma OpenThenCloseRestores(st: ParseState, o: string, c: string)
    requires IsOpen(o) && KnownTag(Body(o)) && IsClose(c)
    ensures Step(st, o).Success?
    ensures Step(Step(st, o).value, c) == Success(st)
  {
    var st' := Step(st, o).value;
    assert st'.context == st.context + [st.current];
    assert st'.context[..|st'.context| - 1] == st.context;
  }

  lemma {:induction false} RunSnoc(st: ParseState, toks: seq<string>, t: string)
    requires AllReadable(toks) && Readable(t)
    ensures AllReadable(toks + [t])
    ensures Run(st, toks + [t]) ==
      match Run(st, toks)
      case Failure(e) => Failure(e)
      case Success(s) => Step(s, t)
    decreases |toks|
  {
    assert forall i :: 0 <= i < |toks| ==> (toks + [t])[i] == toks[i];
    if |toks| == 0 {
      assert [t][1..] == [];
    } else {
      assert (toks + [t])[1..] == toks[1..] + [t];
      match Step(st, toks[0])
      case Failure(e) =>
      case Success(s) => RunSnoc(s, toks[1..], t);
    }
  }

  lemma {:induction false} RunAppend(st: ParseState, a: seq<string>, b: seq<string>)
    requires AllReadable(a) && AllReadable(b)
    ensures AllReadable(a + b)
    ensures Run(st, a + b) ==
      match Run(st, a)
      case Failure(e) => Failure(e)
      case Success(s) => Run(s, b)
    decreases |a|
  {
    assert forall i :: 0 <= i < |a + b| ==> (a + b)[i] == if i < |a| then a[i] else b[i - |a|];
    if |a| > 0 {
      assert (a + b)[1..] == a[1..] + b;
      match Step(st, a[0])
      case Failure(e) =>
      case Success(s) => RunAppend(s, a[1..], b);
    } else {
      assert a + b == b;
    }
  }

  /** Some open tag names a tag `Apply` does not know. */
  predicate HasUnknownOpen(toks: seq<string>)
  {
    exists i :: 0 <= i < |toks| && IsOpen(toks[i]) && !KnownTag(Body(toks[i]))
  }

  /** The run aborts exactly when some open tag is unknown, whatever the
      states; the error is the tag of such an open tag. */
  lemma {:induction false} RunFailsIffUnknownOpen(st: ParseState, toks: seq<string>)
    requires AllReadable(toks)
    ensures Run(st, toks).Failure? <==> HasUnknownOpen(toks)
    ensures Run(st, toks).Failure? ==> !KnownTag(Run(st, toks).error)
    decreases |toks|
  {
    if |toks| > 0 {
      var rest := toks[1..];
      assert HasUnknownOpen(toks) <==> (IsOpen(toks[0]) && !KnownTag(Body(toks[0]))) || HasUnknownOpen(rest) by {
        if HasUnknownOpen(toks) {
          var i :| 0 <= i < |toks| && IsOpen(toks[i]) && !KnownTag(Body(toks[i]));
          if i > 0 {
            assert rest[i - 1] == toks[i];
          }
        }
        if HasUnknownOpen(rest) {
          var i :| 0 <= i < |rest| && IsOpen(rest[i]) && !KnownTag(Body(rest[i]));
          assert toks[i + 1] == rest[i];
        }
      }
      match Step(st, toks[0])
      case Failure(e) =>
      case Success(s) => RunFailsIffUnknownOpen(s, rest);
    }
  }

  /** The number of text tokens. */
  function CountText(toks: seq<string>): nat
  {
    if |toks| == 0 then 0
    else CountText(toks[..|toks| - 1]) + (if IsText(toks[|toks| - 1]) then 1 else 0)
  }

  /** A step appends a run for a text token and only then. */
  lemma StepParts(st: ParseState, t: string)
    requires Readable(t) && Step(st, t).Success?
    ensures Step(st, t).value.parts == if IsText(t) then st.parts + [NewDecoratedText(st.current, t)] else st.parts
  {
  }

  lemma CountTextPrefix(toks: seq<string>, i: nat)
    requires i < |toks| && IsText(toks[i])
    ensures CountText(toks[..i]) < CountText(toks)
    decreases |toks|
  {
    var init := toks[..|toks| - 1];
    if i < |init| {
      assert toks[..i] == init[..i];
      CountTextPrefix(init, i);
    } else {
      assert toks[..i] == init;
    }
  }

  lemma {:induction false} RunPartsPrefix(st: ParseState, toks: seq<string>)
    requires AllReadable(toks) && Run(st, toks).Success?
    ensures var r := Run(st, toks).value;
      && |r.parts| == |st.parts| + CountText(toks)
      && r.parts[..|st.parts|] == st.parts
    decreases |toks|
  {
    if |toks| > 0 {
      var init := toks[..|toks| - 1];
      var t := toks[|toks| - 1];
      assert toks == init + [t];
      assert AllReadable(init) by {
        assert forall i :: 0 <= i < |init| ==> init[i] == toks[i];
      }
      RunSnoc(st, init, t);
      RunPartsPrefix(st, init);
      StepParts(Run(st, init).value, t);
    }
  }

  /** The run for the text token at `i`. */
  lemma RunPartAt(st: ParseState, toks: seq<string>, i: nat)
    requires AllReadable(toks) && Run(st, toks).Success?
    requires i < |toks| && IsText(toks[i])
    ensures Run(st, toks[..i]).Success?
    ensures CountText(toks[..i]) < CountText(toks)
    ensures |st.parts| + CountText(toks[..i]) < |Run(st, toks).value.parts|
    ensures Run(st, toks).value.parts[|st.parts| + CountText(toks[..i])]
      == NewDecoratedText(Run(st, toks[..i]).value.current, toks[i])
  {
    var pre, t, post := toks[..i], toks[i], toks[i + 1..];
    assert toks == (pre + [t]) + post;
    RunAppend(st, pre + [t], post);
    RunSnoc(st, pre, t);
    RunPartsPrefix(st, pre);
    var mid := Run(st, pre).value;
    StepParts(mid, t);
    var mid' := Step(mid, t).value;
    RunPartsPrefix(mid', post);
    RunPartsPrefix(st, toks);
    CountTextPrefix(toks, i);
    var k := |st.parts| + CountText(pre);
    assert mid'.parts[k] == NewDecoratedText(mid.current, t);
    assert Run(st, toks).value.parts[..|mid'.parts|] == mid'.parts;
  }

  /** One run per text token, in token order, each built from the text
      token and the decoration current just before it; runs already built
      are kept. */
  lemma RunParts(st: ParseState, toks: seq<string>)
    requires AllReadable(toks) && Run(st, toks).Success?
    ensures var r := Run(st, toks).value;
      && |r.parts| == |st.parts| + CountText(toks)
      && r.parts[..|st.parts|] == st.parts
      && forall i :: 0 <= i < |toks| && IsText(toks[i]) ==>
           && Run(st, toks[..i]).Success?
           && CountText(toks[..i]) < CountText(toks)
           && r.parts[|st.parts| + CountText(toks[..i])] == NewDecoratedText(Run(st, toks[..i]).value.current, toks[i])
  {
    RunPartsPrefix(st, toks);
    forall i | 0 <= i < |toks| && IsText(toks[i])
      ensures && Run(st, toks[..i]).Success?
              && CountText(toks[..i]) < CountText(toks)
              && Run(st, toks).value.parts[|st.parts| + CountText(toks[..i])]
                 == NewDecoratedText(Run(st, toks[..i]).value.current, toks[i])
    {
      RunPartAt(st, toks, i);
    }
  }

  /** How one token moves the nesting depth. */
  function Delta(t: string): int
  {
    if IsOpen(t) then 1 else if IsClose(t) then -1 else 0
  }

  /** The nesting depth after the tokens: opens minus closes. */
  function Depth(toks: seq<string>): int
  {
    if |toks| == 0 then 0 else Depth(toks[..|toks| - 1]) + Delta(toks[|toks| - 1])
  }

  /** No prefix closes more tags than it opens. */
  predicate NeverBelow(toks: seq<string>)
  {
    forall k :: 0 <= k <= |toks| ==> Depth(toks[..k]) >= 0
  }

  /** Dropping the last token keeps the token list readable and never
      below its starting depth. */
  lemma DropLast(toks: seq<string>)
    requires |toks| > 0
    ensures toks == toks[..|toks| - 1] + [toks[|toks| - 1]]
    ensures AllReadable(toks) ==> AllReadable(toks[..|toks| - 1])
    ensures NeverBelow(toks) ==> NeverBelow(toks[..|toks| - 1])
  {
    var init := toks[..|toks| - 1];
    assert forall i :: 0 <= i < |init| ==> init[i] == toks[i];
    if NeverBelow(toks) {
      forall k | 0 <= k <= |init|
        ensures Depth(init[..k]) >= 0
      {
        assert init[..k] == toks[..k];
      }
    }
  }

  /** A run that never closes more than it opened leaves the outer context
      untouched below it and deepens the context by its depth. */
  lemma {:induction false} RunKeepsOuterContext(st: ParseState, toks: seq<string>)
    requires AllReadable(toks) && Run(st, toks).Success? && NeverBelow(toks)
    ensures var r := Run(st, toks).value;
      && |r.context| == |st.context| + Depth(toks)
      && |st.context| <= |r.context|
      && r.context[..|st.context|] == st.context
    decreases |toks|
  {
    if |toks| > 0 {
      var init := toks[..|toks| - 1];
      var t := toks[|toks| - 1];
      DropLast(toks);
      RunSnoc(st, init, t);
      assert toks[..|toks|] == toks;
      RunKeepsOuterContext(st, init);
      var mid := Run(st, init).value;
      var r := Run(st, toks).value;
      assert Depth(toks) == Depth(init) + Delta(t);
      if IsClose(t) {
        assert |mid.context| > |st.context|;
        assert r.context == mid.context[..|mid.context| - 1];
      } else if IsOpen(t) {
        assert r.context == mid.context + [mid.current];
      }
    }
  }

  /** A close tag restores exactly the decoration and context held before
      its matching open, whatever lies balanced between them. */
  lemma BalancedRegionRestores(st: ParseState, o: string, m: seq<string>, c: string)
    requires IsOpen(o) && IsClose(c)
    requires AllReadable(m) && NeverBelow(m) && Depth(m) == 0
    requires Run(st, [o] + m + [c]).Success?
    ensures Run(st, [o] + m + [c]).value.current == st.current
    ensures Run(st, [o] + m + [c]).value.context == st.context
  {
    RunAppend(st, [o], m);
    RunSnoc(st, [o] + m, c);
    var s1 := Step(st, o).value;
    assert Run(st, [o]) == Step(st, o) by { assert [o][1..] == []; }
    RunKeepsOuterContext(s1, m);
    var s2 := Run(s1, m).value;
    assert s1.context == st.context + [st.current];
    assert s2.context == s1.context;
  }

  /** Appending a well-formed, `<`-free run keeps the runs so. */
  lemma CleanSnoc(ps: seq<Part>, p: Part)
    requires WellFormed(ps) && NoAngle(ps)
    requires p.deco.tt ==> |p.tokens| == 1
    requires forall k :: 0 <= k < |p.tokens| ==> '<' !in p.tokens[k]
    ensures WellFormed(ps + [p]) && NoAngle(ps + [p])
  {
    var qs := ps + [p];
    assert forall i :: 0 <= i < |ps| ==> qs[i] == ps[i];
    assert qs[|ps|] == p;
  }

  /** Text tokens free of `<` give runs that are well-formed and free of
      `<`. */
  lemma {:induction false} RunKeepsPartsClean(st: ParseState, toks: seq<string>)
    requires AllReadable(toks) && Run(st, toks).Success?
    requires WellFormed(st.parts) && NoAngle(st.parts)
    requires forall i :: 0 <= i < |toks| && IsText(toks[i]) ==> '<' !in toks[i]
    ensures WellFormed(Run(st, toks).value.parts) && NoAngle(Run(st, toks).value.parts)
    decreases |toks|
  {
    if |toks| > 0 {
      var init := toks[..|toks| - 1];
      var t := toks[|toks| - 1];
      DropLast(toks);
      RunSnoc(st, init, t);
      RunKeepsPartsClean(st, init);
      var mid := Run(st, init).value;
      StepParts(mid, t);
      if IsText(t) {
        var p := NewDecoratedText(mid.current, t);
        assert forall k :: 0 <= k < |p.tokens| ==> '<' !in p.tokens[k] by {
          forall k | 0 <= k < |p.tokens|
            ensures '<' !in p.tokens[k]
          {
            forall j | 0 <= j < |p.tokens[k]|
              ensures p.tokens[k][j] != '<'
            {
              assert p.tokens[k][j] in t;
            }
          }
        }
        CleanSnoc(mid.parts, p);
      }
    }
  }

  /** `e` is the tag of the first open tag that `Apply` does not know:
      no earlier open tag is unknown. */
  predicate FirstUnknownOpenIs(toks: seq<string>, e: string)
  {
    exists i :: 0 <= i < |toks| && IsOpen(toks[i]) && Body(toks[i]) == e && !KnownTag(e)
      && !HasUnknownOpen(toks[..i])
  }

  /** A token in front that is not an unknown open tag keeps the first
      unknown open tag of the rest. */
  lemma FirstUnknownOpenCons(t: string, toks: seq<string>, e: string)
    requires !(IsOpen(t) && !KnownTag(Body(t)))
    requires FirstUnknownOpenIs(toks, e)
    ensures FirstUnknownOpenIs([t] + toks, e)
  {
    var i :| 0 <= i < |toks| && IsOpen(toks[i]) && Body(toks[i]) == e && !KnownTag(e)
      && !HasUnknownOpen(toks[..i]);
    var u := [t] + toks;
    assert u[i + 1] == toks[i];
    var p := u[..i + 1];
    assert p == [t] + toks[..i];
    forall j | 0 <= j < |p|
      ensures !(IsOpen(p[j]) && !KnownTag(Body(p[j])))
    {
      if j > 0 {
        assert p[j] == toks[..i][j - 1];
      }
    }
  }

  /** When the run aborts, its error is the tag of the first unknown open
      tag: every open tag before it was applied. */
  lemma {:induction false} RunFailsAtFirstUnknownOpen(st: ParseState, toks: seq<string>)
    requires AllReadable(toks)
    ensures Run(st, toks).Failure? ==> FirstUnknownOpenIs(toks, Run(st, toks).error)
    decreases |toks|
  {
    if |toks| > 0 {
      var rest := toks[1..];
      assert toks == [toks[0]] + rest;
      match Step(st, toks[0])
      case Failure(e) =>
        assert Apply(st.current, [Body(toks[0])]).Failure?;
        assert !HasUnknownOpen(toks[..0]);
      case Success(s) =>
        assert AllReadable(rest) by {
          forall k | 0 <= k < |rest| ensures Readable(rest[k]) {
            assert rest[k] == toks[k + 1];
          }
        }
        RunFailsAtFirstUnknownOpen(s, rest);
        if Run(s, rest).Failure? {
          assert IsOpen(toks[0]) ==> Apply(st.current, [Body(toks[0])]).Success?;
          FirstUnknownOpenCons(toks[0], rest, Run(s, rest).error);
        }
    }
  }

  /** `parse` fails exactly when the markup opens an unknown tag; otherwise
      it yields one well-formed, `<`-free run per text token. */
  lemma ParseOutcome(s: string)
    ensures Parse(s).Failure? <==> HasUnknownOpen(Tokenize(s))
    ensures Parse(s).Failure? ==> FirstUnknownOpenIs(Tokenize(s), Parse(s).error)
    ensures Parse(s).Success? ==>
      && |Parse(s).value| == CountText(Tokenize(s))
      && WellFormed(Parse(s).value)
      && NoAngle(Parse(s).value)
  {
    var toks := Tokenize(s);
    TokenizeWellShaped(s);
    RunFailsIffUnknownOpen(Start(), toks);
    RunFailsAtFirstUnknownOpen(Start(), toks);
    if Run(Start(), toks).Success? {
      RunPartsPrefix(Start(), toks);
      RunKeepsPartsClean(Start(), toks);
    }
  }
}
