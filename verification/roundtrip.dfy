/** How the output of `GenerateSML` reads back through `tokens2chan` and
    `parse` (main.go): the markup tokenizes into exactly the pieces written
    when every run is visibly styled apart from the one before it, and two
    documents show where reading back does not give the document again. */
module RoundTrip {
  import opened Results
  import opened Strs
  import opened Stacks
  import opened Decorations
  import opened Tags
  import opened Runs
  import opened Tokenizer
  import opened Parser
  import opened Emitter

  /** The token each piece is written as. */
  function Tokens(ps: seq<Piece>): (ts: seq<string>)
    ensures |ts| == |ps|
  {
    if |ps| == 0 then [] else [RenderPiece(ps[0])] + Tokens(ps[1..])
  }

  lemma {:induction false} TokensAt(ps: seq<Piece>)
    ensures forall i :: 0 <= i < |ps| ==> Tokens(ps)[i] == RenderPiece(ps[i])
    decreases |ps|
  {
    if |ps| > 0 {
      TokensAt(ps[1..]);
      assert forall i :: 0 < i < |ps| ==> ps[1..][i - 1] == ps[i];
    }
  }

  /** The markup is the pieces' tokens one after the other. */
  lemma {:induction false} RenderIsConcat(ps: seq<Piece>)
    ensures Render(ps) == Concat(Tokens(ps))
    decreases |ps|
  {
    if |ps| > 0 {
      RenderIsConcat(ps[1..]);
      ConcatCons(RenderPiece(ps[0]), Tokens(ps[1..]));
    }
  }

  /** A tag named without `>` and with at least one character, or a
      non-empty text without `<`. */
  predicate PieceOk(p: Piece)
  {
    match p
    case Tag(name) => |name| > 0 && '>' !in name
    case Text(text) => |text| > 0 && '<' !in text
  }

  /** Pieces that read back one token each: every piece is `PieceOk` and no
      two texts are neighbours. */
  predicate ReadsBack(ps: seq<Piece>)
  {
    && (forall i :: 0 <= i < |ps| ==> PieceOk(ps[i]))
    && (forall i :: 0 < i < |ps| ==> !(ps[i - 1].Text? && ps[i].Text?))
  }

  lemma PieceToken(p: Piece)
    requires PieceOk(p)
    ensures p.Tag? ==> IsTagToken(RenderPiece(p))
    ensures p.Text? <==> IsTextToken(RenderPiece(p))
  {
    if p.Tag? {
      var t := RenderPiece(p);
      assert t == "<" + p.name + ">";
      assert t[..|t| - 1] == "<" + p.name;
      assert t[0] == '<';
    }
  }

  lemma ReadsBackWellShaped(ps: seq<Piece>)
    requires ReadsBack(ps)
    ensures WellShaped(Tokens(ps))
  {
    TokensAt(ps);
    var ts := Tokens(ps);
    forall i | 0 <= i < |ts|
      ensures IsTagToken(ts[i]) || IsTextToken(ts[i])
    {
      PieceToken(ps[i]);
    }
    forall i | 0 < i < |ts|
      ensures !(IsTextToken(ts[i - 1]) && IsTextToken(ts[i]))
    {
      PieceToken(ps[i - 1]);
      PieceToken(ps[i]);
    }
  }

  /** Readable pieces tokenize back into exactly their own tokens. */
  lemma TokenizeRender(ps: seq<Piece>)
    requires ReadsBack(ps)
    ensures Tokenize(Render(ps)) == Tokens(ps)
  {
    RenderIsConcat(ps);
    ReadsBackWellShaped(ps);
    TokenizeConcat(Tokens(ps));
  }

  lemma ReadsBackAppend(a: seq<Piece>, b: seq<Piece>)
    requires ReadsBack(a) && ReadsBack(b)
    requires |a| > 0 && |b| > 0 ==> !(a[|a| - 1].Text? && b[0].Text?)
    ensures ReadsBack(a + b)
  {
    var c := a + b;
    forall i | 0 <= i < |c|
      ensures PieceOk(c[i])
    {
      if i >= |a| {
        assert c[i] == b[i - |a|];
      }
    }
    forall i | 0 < i < |c|
      ensures !(c[i - 1].Text? && c[i].Text?)
    {
      if i > |a| {
        assert c[i - 1] == b[i - 1 - |a|] && c[i] == b[i - |a|];
      } else if i == |a| {
        assert c[i] == b[0];
      }
    }
  }

  /** Names the emitter writes: an emitted name, or `/` and one. */
  predicate WrittenName(n: string)
  {
    n in EmittedNames || (|n| > 0 && n[0] == '/' && n[1..] in EmittedNames)
  }

  lemma WrittenNameOk(n: string)
    requires WrittenName(n)
    ensures PieceOk(Tag(n))
  {
    if n !in EmittedNames {
      assert n == "/" + n[1..];
    }
  }

  lemma TagPiecesReadBack(tags: seq<string>)
    requires forall i :: 0 <= i < |tags| ==> WrittenName(tags[i])
    ensures ReadsBack(TagPieces(tags))
  {
    forall i | 0 <= i < |tags|
      ensures PieceOk(Tag(tags[i]))
    {
      WrittenNameOk(tags[i]);
    }
  }

  lemma CloseAllWritten(stack: seq<string>)
    requires AllEmitted(stack)
    ensures forall i :: 0 <= i < |stack| ==> WrittenName(CloseAll(stack)[i])
  {
    CloseAllTopFirst(stack);
    forall i | 0 <= i < |stack|
      ensures WrittenName(CloseAll(stack)[i])
    {
      var n := CloseAll(stack)[i];
      assert n == "/" + stack[|stack| - 1 - i];
      assert n[1..] == stack[|stack| - 1 - i];
    }
  }

  /** The closes and additions of a bold-off transition are written names. */
  lemma BoldOffWritten(stack: seq<string>, k: nat, adds: seq<string>, tags: seq<string>)
    requires AllEmitted(stack) && k <= |stack|
    requires forall i :: 0 <= i < |adds| ==> adds[i] in EmittedNames
    requires tags == CloseAll(stack[k..]) + adds
    ensures forall i :: 0 <= i < |tags| ==> WrittenName(tags[i])
  {
    assert AllEmitted(stack[k..]);
    CloseAllWritten(stack[k..]);
    var closes := CloseAll(stack[k..]);
    forall i | 0 <= i < |tags|
      ensures WrittenName(tags[i])
    {
      if i < |closes| {
        assert tags[i] == closes[i];
      } else {
        assert tags[i] == adds[i - |closes|];
      }
    }
  }

  /** Every tag a transition writes is a written name. */
  lemma TagsToWritten(d: Decoration, d2: Decoration, stack: seq<string>)
    requires BoldTracked(d, stack) && AllEmitted(stack)
    ensures d.bold && !d2.bold ==> |stack| > 0
    ensures forall i :: 0 <= i < |TagsTo(d, d2, stack).tags| ==> WrittenName(TagsTo(d, d2, stack).tags[i])
  {
    TagsToKeepsBookkeeping(d, d2, stack);
    AdditionsAreEmitted(d, d2);
    if d.bold && !d2.bold {
      SplitAtBold(stack);
      TagsToBoldOff(d, d2, stack);
      BoldOffWritten(stack, TopBold(stack), Additions(d, d2), TagsTo(d, d2, stack).tags);
    } else {
      TagsToOpensOnly(d, d2, stack);
    }
  }

  /** `d2` is styled apart from `d` in a way the emitter writes: it is not
      `Equals` to `d`, and bold, emphasis or colour differ. */
  predicate Visible(d: Decoration, d2: Decoration)
  {
    !Equals(d, d2) && (d.bold != d2.bold || d.em != d2.em || d.colour != d2.colour)
  }

  /** Every run is visibly styled apart from the one before (the first from
      `prev`), and its text is non-empty and free of `<`. */
  predicate Distinct(prev: Decoration, doc: seq<Part>)
  {
    && (forall i :: 0 <= i < |doc| ==> |Join(doc[i].tokens)| > 0 && '<' !in Join(doc[i].tokens))
    && (|doc| > 0 ==> Visible(prev, doc[0].deco))
    && (forall i :: 0 < i < |doc| ==> Visible(doc[i - 1].deco, doc[i].deco))
  }

  lemma DistinctTail(prev: Decoration, doc: seq<Part>)
    requires |doc| > 0 && Distinct(prev, doc)
    ensures Distinct(doc[0].deco, doc[1..])
  {
    var rest := doc[1..];
    forall i | 0 < i < |rest|
      ensures Visible(rest[i - 1].deco, rest[i].deco)
    {
      assert rest[i - 1] == doc[i] && rest[i] == doc[i + 1];
    }
    forall i | 0 <= i < |rest|
      ensures |Join(rest[i].tokens)| > 0 && '<' !in Join(rest[i].tokens)
    {
      assert rest[i] == doc[i + 1];
    }
  }

  /** One transition's tags, a run's text and readable pieces that start
      with a tag read back, and start with a tag. */
  lemma StepReadsBack(tags: seq<string>, text: string, rest: seq<Piece>)
    requires |tags| > 0 && forall i :: 0 <= i < |tags| ==> WrittenName(tags[i])
    requires |text| > 0 && '<' !in text
    requires ReadsBack(rest) && (|rest| > 0 ==> rest[0].Tag?)
    ensures ReadsBack(TagPieces(tags) + [Text(text)] + rest)
    ensures (TagPieces(tags) + [Text(text)] + rest)[0].Tag?
  {
    TagPiecesReadBack(tags);
    PrefixReadsBack(TagPieces(tags), Text(text), rest);
  }

  /** Readable tags, one text and readable pieces starting with a tag read
      back, and start with a tag. */
  lemma PrefixReadsBack(a: seq<Piece>, t: Piece, rest: seq<Piece>)
    requires ReadsBack(a) && |a| > 0 && a[|a| - 1].Tag? && a[0].Tag?
    requires t.Text? && PieceOk(t)
    requires ReadsBack(rest) && (|rest| > 0 ==> rest[0].Tag?)
    ensures ReadsBack(a + [t] + rest)
    ensures (a + [t] + rest)[0].Tag?
  {
    assert ReadsBack([t]);
    ReadsBackAppend([t], rest);
    ReadsBackAppend(a, [t] + rest);
    AppendAssoc(a, [t], rest);
  }

  /** A visible transition writes at least one tag, each a written name. */
  lemma VisibleWritesTags(d: Decoration, d2: Decoration, stack: seq<string>)
    requires BoldTracked(d, stack) && AllEmitted(stack)
    requires Visible(d, d2)
    ensures d.bold && !d2.bold ==> |stack| > 0
    ensures |TagsTo(d, d2, stack).tags| > 0
    ensures forall i :: 0 <= i < |TagsTo(d, d2, stack).tags| ==> WrittenName(TagsTo(d, d2, stack).tags[i])
  {
    TagsToWritten(d, d2, stack);
    NTagsToCountsChanges(d, d2, stack);
  }

  lemma DistinctHead(prev: Decoration, doc: seq<Part>)
    requires |doc| > 0 && Distinct(prev, doc)
    ensures Visible(prev, doc[0].deco)
    ensures |Join(doc[0].tokens)| > 0 && '<' !in Join(doc[0].tokens)
  {
  }

  /** From a visibly distinct point on, the emitter writes readable pieces
      that start with a tag. */
  lemma {:induction false} EmitFromReadsBack(parts: seq<Part>, current: Decoration, stack: seq<string>)
    requires BoldTracked(current, stack) && AllEmitted(stack)
    requires Distinct(current, parts)
    ensures ReadsBack(EmitFrom(parts, current, stack))
    ensures |EmitFrom(parts, current, stack)| > 0 ==> EmitFrom(parts, current, stack)[0].Tag?
    decreases |parts|
  {
    if |parts| == 0 {
      CloseAllWritten(stack);
      TagPiecesReadBack(CloseAll(stack));
    } else {
      var next := parts[0].deco;
      DistinctHead(current, parts);
      DistinctTail(current, parts);
      VisibleWritesTags(current, next, stack);
      EmitFromStep(parts, current, stack);
      var t := TagsTo(current, next, stack);
      var rest := EmitFrom(parts[1..], next, t.stack);
      EmitFromReadsBack(parts[1..], next, t.stack);
      StepReadsBack(t.tags, Join(parts[0].tokens), rest);
      assert EmitFrom(parts, current, stack) == TagPieces(t.tags) + [Text(Join(parts[0].tokens))] + rest;
    }
  }

  /** When every run is visibly styled apart from the one before it (the
      first from the default) and has non-empty text without `<`, the markup
      `GenerateSML` writes tokenizes back into exactly the tags and texts it
      wrote, one token each. */
  lemma TokenizeGenerated(doc: seq<Part>)
    requires Distinct(DefaultDecoration(), doc)
    ensures Tokenize(GenerateSML(doc)) == Tokens(Emit(doc))
  {
    var none: seq<string> := [];
    assert multiset(none)["B"] == 0;
    EmitFromReadsBack(doc, DefaultDecoration(), []);
    TokenizeRender(Emit(doc));
  }

  lemma ConcatSeven(ts: seq<string>)
    requires |ts| == 7
    ensures Concat(ts) == ts[0] + ts[1] + ts[2] + ts[3] + ts[4] + ts[5] + ts[6]
  {
    ConcatThree(ts[4..]);
    ConcatCons(ts[3], ts[4..]);
    assert [ts[3]] + ts[4..] == ts[3..];
    ConcatThree(ts[..3]);
    ConcatAppend(ts[..3], ts[3..]);
    assert ts[..3] + ts[3..] == ts;
  }

  lemma ConcatThree(ts: seq<string>)
    requires |ts| == 3
    ensures Concat(ts) == ts[0] + ts[1] + ts[2]
  {
    ConcatCons(ts[2], []);
    assert [ts[2]] + [] == ts[2..];
    ConcatCons(ts[1], ts[2..]);
    assert [ts[1]] + ts[2..] == ts[1..];
    ConcatCons(ts[0], ts[1..]);
    assert [ts[0]] + ts[1..] == ts;
  }

  /** The document of `EmphasisDoesNotReadBack`: one emphasised run. */
  function Emphasised(): seq<Part>
  {
    [Part(DefaultDecoration().(em := true), ["x"])]
  }

  lemma EmphasisedPieces()
    ensures Emit(Emphasised()) == [Tag("Em"), Text("x"), Tag("/Em")]
  {
    var d := DefaultDecoration();
    var e := d.(em := true);
    var none: seq<string> := [];
    assert multiset(none)["B"] == 0;
    TagsToOpensOnly(d, e, []);
    assert Additions(d, e) == ["Em"];
    EmitFromStep(Emphasised(), d, []);
    CloseAllTopFirst(["Em"]);
    assert CloseAll(["Em"])[0] == "/" + "Em" == "/Em";
    assert TagPieces(["Em"]) == [Tag("Em")] && TagPieces(["/Em"]) == [Tag("/Em")];
    assert Join(["x"]) == "x";
  }

  lemma EmphasisedMarkup()
    ensures var ps := [Tag("Em"), Text("x"), Tag("/Em")];
      && ReadsBack(ps)
      && Tokens(ps) == ["<Em>", "x", "</Em>"]
      && Render(ps) == "<Em>x</Em>"
  {
    var ps := [Tag("Em"), Text("x"), Tag("/Em")];
    var ts := ["<Em>", "x", "</Em>"];
    forall i | 0 <= i < 3
      ensures RenderPiece(ps[i]) == ts[i] && PieceOk(ps[i])
    {
    }
    TokensAt(ps);
    RenderIsConcat(ps);
    ConcatThree(ts);
  }

  /** `Apply` knows `EM`, not `Em`. */
  lemma EmUnknown(d: Decoration)
    ensures !KnownTag("Em")
    ensures Apply(d, ["Em"]) == Failure("Em")
  {
    assert "Em" != "EM" by { assert "Em"[1] != "EM"[1]; }
    assert "Em" !in FlagTags && "Em" !in DigitTags && "Em" !in ColourTags;
  }

  /** The first token decides a run it fails. */
  lemma RunFailsAtFirst(st: ParseState, toks: seq<string>, e: string)
    requires |toks| > 0 && AllReadable(toks)
    requires Step(st, toks[0]) == Failure(e)
    ensures Run(st, toks) == Failure(e)
  {
  }

  /** A successful first step hands the rest of the run to the next state. */
  lemma RunStep(st: ParseState, toks: seq<string>, st': ParseState)
    requires |toks| > 0 && AllReadable(toks)
    requires Step(st, toks[0]) == Success(st')
    ensures AllReadable(toks[1..])
    ensures Run(st, toks) == Run(st', toks[1..])
  {
  }

  /** An emphasised run is written as `<Em>x</Em>`, and `parse` rejects the
      `Em` tag (`Apply` knows `EM`), so the markup does not read back. */
  lemma EmphasisDoesNotReadBack()
    ensures GenerateSML(Emphasised()) == "<Em>x</Em>"
    ensures Parse(GenerateSML(Emphasised())) == Failure("Em")
  {
    EmphasisedPieces();
    EmphasisedMarkup();
    TokenizeRender([Tag("Em"), Text("x"), Tag("/Em")]);
    var toks := ["<Em>", "x", "</Em>"];
    EmUnknown(Start().current);
    assert Body(toks[0]) == "Em";
    WellShapedReadable(toks) by { TokenizeWellShaped("<Em>x</Em>"); }
    RunFailsAtFirst(Start(), toks, "Em");
  }

  /** The document of `BoldOffLosesColour`: bold, then bold and red, then
      red alone. */
  function BoldThenRed(): seq<Part>
  {
    var d := DefaultDecoration();
    [Part(d.(bold := true), ["x"]), Part(d.(bold := true, colour := R), ["y"]), Part(d.(colour := R), ["z"])]
  }

  lemma BoldOnTransition()
    ensures var d := DefaultDecoration();
      TagsTo(d, d.(bold := true), []) == Transition(["B"], ["B"])
  {
    var d := DefaultDecoration();
    TagsToOpensOnly(d, d.(bold := true), []);
    assert Additions(d, d.(bold := true)) == ["B"];
  }

  lemma RedTransition()
    ensures var d := DefaultDecoration();
      TagsTo(d.(bold := true), d.(bold := true, colour := R), ["B"]) == Transition(["r"], ["B", "r"])
  {
    var d := DefaultDecoration();
    ColourTagLetters(R);
    TagsToOpensOnly(d.(bold := true), d.(bold := true, colour := R), ["B"]);
    assert Additions(d.(bold := true), d.(bold := true, colour := R)) == ["r"];
  }

  lemma BoldOffTransition()
    ensures var d := DefaultDecoration();
      TagsTo(d.(bold := true, colour := R), d.(colour := R), ["B", "r"]) == Transition(["/r", "/B"], [])
  {
    var d := DefaultDecoration();
    var br := d.(bold := true, colour := R);
    var r := d.(colour := R);
    TagsToBoldOff(br, r, ["B", "r"]);
    assert Additions(br, r) == [];
    assert TopBold(["B", "r"]) == 0;
    assert ["B", "r"][0..] == ["B", "r"] && ["B", "r"][..0] == [];
    CloseAllTopFirst(["B", "r"]);
    assert CloseAll(["B", "r"])[0] == "/" + "r" == "/r";
    assert CloseAll(["B", "r"])[1] == "/" + "B" == "/B";
  }

  /** One styled-apart run, told the transition and the pieces after it. */
  lemma EmitOne(parts: seq<Part>, current: Decoration, stack: seq<string>,
                tags: seq<string>, stack': seq<string>, tail: seq<Piece>)
    requires BoldTracked(current, stack) && AllEmitted(stack)
    requires |parts| > 0 && !Equals(parts[0].deco, current)
    requires TagsTo(current, parts[0].deco, stack) == Transition(tags, stack')
    requires BoldTracked(parts[0].deco, stack') && AllEmitted(stack')
    requires EmitFrom(parts[1..], parts[0].deco, stack') == tail
    ensures EmitFrom(parts, current, stack) == TagPieces(tags) + [Text(Join(parts[0].tokens))] + tail
  {
    EmitFromStep(parts, current, stack);
  }

  /** Three runs, each styled apart from the one before, told the three
      transitions. */
  lemma EmitThree(x: Part, q: Part, p: Part, d0: Decoration, s0: seq<string>,
                  t1: seq<string>, s1: seq<string>, t2: seq<string>, s2: seq<string>,
                  t3: seq<string>, s3: seq<string>)
    requires BoldTracked(d0, s0) && AllEmitted(s0)
    requires !Equals(x.deco, d0) && TagsTo(d0, x.deco, s0) == Transition(t1, s1)
    requires BoldTracked(x.deco, s1) && AllEmitted(s1)
    requires !Equals(q.deco, x.deco) && TagsTo(x.deco, q.deco, s1) == Transition(t2, s2)
    requires BoldTracked(q.deco, s2) && AllEmitted(s2)
    requires !Equals(p.deco, q.deco) && TagsTo(q.deco, p.deco, s2) == Transition(t3, s3)
    requires BoldTracked(p.deco, s3) && AllEmitted(s3)
    ensures EmitFrom([x, q, p], d0, s0) ==
      TagPieces(t1) + [Text(Join(x.tokens))]
      + (TagPieces(t2) + [Text(Join(q.tokens))]
      + (TagPieces(t3) + [Text(Join(p.tokens))] + TagPieces(CloseAll(s3))))
  {
    assert [p][1..] == [];
    EmitOne([p], q.deco, s2, t3, s3, TagPieces(CloseAll(s3)));
    assert [q, p][1..] == [p];
    EmitOne([q, p], x.deco, s1, t2, s2, EmitFrom([p], q.deco, s2));
    assert [x, q, p][1..] == [q, p];
    EmitOne([x, q, p], d0, s0, t1, s1, EmitFrom([q, p], x.deco, s1));
  }

  /** The pieces of `BoldThenRed`, assembled from its three transitions. */
  lemma AssembleSeven(n1: string, w1: string, n2: string, w2: string, c1: string, c2: string, w3: string)
    ensures TagPieces([n1]) + [Text(Join([w1]))]
      + (TagPieces([n2]) + [Text(Join([w2]))]
      + (TagPieces([c1, c2]) + [Text(Join([w3]))] + TagPieces(CloseAll([]))))
      == [Tag(n1), Text(w1), Tag(n2), Text(w2), Tag(c1), Tag(c2), Text(w3)]
  {
    assert Join([w1]) == w1 && Join([w2]) == w2 && Join([w3]) == w3;
    assert TagPieces([n1]) == [Tag(n1)] && TagPieces([n2]) == [Tag(n2)];
    assert TagPieces([c1, c2]) == [Tag(c1), Tag(c2)];
    assert TagPieces(CloseAll([])) == [];
  }

  lemma StackStates()
    ensures var d := DefaultDecoration();
      && BoldTracked(d, []) && AllEmitted([])
      && BoldTracked(d.(bold := true), ["B"]) && AllEmitted(["B"])
      && BoldTracked(d.(bold := true, colour := R), ["B", "r"]) && AllEmitted(["B", "r"])
      && BoldTracked(d.(colour := R), []) && AllEmitted([])
  {
    var none: seq<string> := [];
    assert multiset(none)["B"] == 0;
    assert multiset(["B"])["B"] == 1;
    assert multiset(["B", "r"])["B"] == 1;
  }

  lemma BoldThenRedPieces(x: Part, q: Part, p: Part)
    requires x == Part(DefaultDecoration().(bold := true), ["x"])
    requires q == Part(DefaultDecoration().(bold := true, colour := R), ["y"])
    requires p == Part(DefaultDecoration().(colour := R), ["z"])
    ensures Emit([x, q, p]) == [Tag("B"), Text("x"), Tag("r"), Text("y"), Tag("/r"), Tag("/B"), Text("z")]
  {
    StackStates();
    BoldOnTransition();
    RedTransition();
    BoldOffTransition();
    EmitThree(x, q, p, DefaultDecoration(), [], ["B"], ["B"], ["r"], ["B", "r"], ["/r", "/B"], []);
    AssembleSeven("B", "x", "r", "y", "/r", "/B", "z");
  }

  lemma BoldThenRedReadsBack()
    ensures ReadsBack([Tag("B"), Text("x"), Tag("r"), Text("y"), Tag("/r"), Tag("/B"), Text("z")])
  {
    var ps := [Tag("B"), Text("x"), Tag("r"), Text("y"), Tag("/r"), Tag("/B"), Text("z")];
    forall i | 0 <= i < 7
      ensures PieceOk(ps[i])
    {
    }
  }

  lemma BoldThenRedTokens()
    ensures Tokens([Tag("B"), Text("x"), Tag("r"), Text("y"), Tag("/r"), Tag("/B"), Text("z")])
      == ["<B>", "x", "<r>", "y", "</r>", "</B>", "z"]
  {
    var ps := [Tag("B"), Text("x"), Tag("r"), Text("y"), Tag("/r"), Tag("/B"), Text("z")];
    var ts := ["<B>", "x", "<r>", "y", "</r>", "</B>", "z"];
    forall i | 0 <= i < 7
      ensures RenderPiece(ps[i]) == ts[i]
    {
    }
    TokensAt(ps);
  }

  lemma BoldThenRedConcat()
    ensures Concat(["<B>", "x", "<r>", "y", "</r>", "</B>", "z"]) == "<B>x<r>y</r></B>z"
  {
    ConcatSeven(["<B>", "x", "<r>", "y", "</r>", "</B>", "z"]);
  }

  lemma BoldThenRedMarkup()
    ensures var ps := [Tag("B"), Text("x"), Tag("r"), Text("y"), Tag("/r"), Tag("/B"), Text("z")];
      && ReadsBack(ps)
      && Tokens(ps) == ["<B>", "x", "<r>", "y", "</r>", "</B>", "z"]
      && Render(ps) == "<B>x<r>y</r></B>z"
  {
    var ps := [Tag("B"), Text("x"), Tag("r"), Text("y"), Tag("/r"), Tag("/B"), Text("z")];
    BoldThenRedReadsBack();
    BoldThenRedTokens();
    BoldThenRedConcat();
    RenderIsConcat(ps);
  }

  /** A text token appends its run, decorated as the current state. */
  lemma TextStep(st: ParseState, t: string, parts: seq<Part>)
    requires |t| > 0 && t[0] != '<'
    requires parts == st.parts + [NewDecoratedText(st.current, t)]
    ensures Step(st, t) == Success(ParseState(st.current, st.context, parts))
  {
  }

  /** A close tag pops the context into the current state. */
  lemma CloseStep(st: ParseState, t: string, top: Decoration, below: seq<Decoration>)
    requires |t| >= 3 && t[0] == '<' && t[1] == '/'
    requires st.context == below + [top]
    ensures Step(st, t) == Success(ParseState(top, below, st.parts))
  {
    assert Body(t)[0] == '/';
  }

  /** A known open tag pushes the current state and applies the tag. */
  lemma OpenStep(st: ParseState, t: string, d: Decoration)
    requires |t| >= 3 && t[0] == '<' && t[1] != '/'
    requires Apply(st.current, [Body(t)]) == Success(d)
    ensures Step(st, t) == Success(ParseState(d, st.context + [st.current], st.parts))
  {
  }

  /** `parse` on the tokens of `<B>x<r>y</r></B>z`: the last text is read
      with the default decoration. */
  lemma BoldThenRedParses()
    ensures var toks := ["<B>", "x", "<r>", "y", "</r>", "</B>", "z"];
      && AllReadable(toks)
      && Run(Start(), toks).Success?
      && |Run(Start(), toks).value.parts| == 3
      && Run(Start(), toks).value.parts[2].deco == DefaultDecoration()
  {
    var toks := ["<B>", "x", "<r>", "y", "</r>", "</B>", "z"];
    var d := DefaultDecoration();
    var b := d.(bold := true);
    var br := d.(bold := true, colour := R);
    var px := NewDecoratedText(b, "x");
    var py := NewDecoratedText(br, "y");
    var pz := NewDecoratedText(d, "z");
    var s3 := ParseState(br, [d, b], [px]);
    var s6 := ParseState(d, [], [px, py]);
    BoldThenRedFirstHalf(toks);
    BoldThenRedSecondHalf(toks[3..]);
    assert toks[3..][3..] == toks[6..];
    assert s6.parts + [pz] == [px, py, pz];
    TextStep(s6, "z", [px, py, pz]);
    assert toks[6..] == ["z"];
    RunStep(s6, toks[6..], ParseState(d, [], [px, py, pz]));
    assert toks[6..][1..] == [];
  }

  lemma BoldThenRedFirstHalf(toks: seq<string>)
    requires toks == ["<B>", "x", "<r>", "y", "</r>", "</B>", "z"]
    ensures AllReadable(toks) && AllReadable(toks[3..])
    ensures var d := DefaultDecoration();
      var b := d.(bold := true);
      var br := d.(bold := true, colour := R);
      Run(Start(), toks) == Run(ParseState(br, [d, b], [NewDecoratedText(b, "x")]), toks[3..])
  {
    var d := DefaultDecoration();
    var b := d.(bold := true);
    var px := NewDecoratedText(b, "x");
    var s1 := ParseState(b, [d], []);
    var s2 := ParseState(b, [d], [px]);
    assert AllReadable(toks);
    ApplyBold(d);
    OpenStep(Start(), "<B>", b);
    RunStep(Start(), toks, s1);
    assert s1.parts + [px] == [px];
    TextStep(s1, "x", [px]);
    assert toks[1..][0] == "x";
    RunStep(s1, toks[1..], s2);
    assert toks[1..][1..] == toks[2..];
    OpenRedStep(toks[2..], px);
    assert toks[2..][1..] == toks[3..];
  }

  /** `<r>` inside bold pushes the bold state and turns the text red. */
  lemma RedOpens(px: Part)
    ensures var d := DefaultDecoration();
      var b := d.(bold := true);
      Step(ParseState(b, [d], [px]), "<r>") == Success(ParseState(d.(bold := true, colour := R), [d, b], [px]))
  {
    var d := DefaultDecoration();
    var b := d.(bold := true);
    var br := d.(bold := true, colour := R);
    ColourTagLetters(R);
    ApplyColourRoundTrip(b, R);
    assert Body("<r>") == "r";
    OpenStep(ParseState(b, [d], [px]), "<r>", br);
    assert [d] + [b] == [d, b];
  }

  lemma OpenRedStep(toks: seq<string>, px: Part)
    requires toks == ["<r>", "y", "</r>", "</B>", "z"]
    ensures AllReadable(toks)
    ensures var d := DefaultDecoration();
      var b := d.(bold := true);
      Run(ParseState(b, [d], [px]), toks) == Run(ParseState(d.(bold := true, colour := R), [d, b], [px]), toks[1..])
  {
    var d := DefaultDecoration();
    var b := d.(bold := true);
    assert AllReadable(toks);
    RedOpens(px);
    RunStep(ParseState(b, [d], [px]), toks, ParseState(d.(bold := true, colour := R), [d, b], [px]));
  }

  lemma ApplyBold(d: Decoration)
    ensures Apply(d, [Body("<B>")]) == Success(d.(bold := true))
  {
    assert Body("<B>") == "B";
    assert ApplyFrom(d, d, ["B"]) == ApplyFrom(d, d.(bold := true), []);
  }

  lemma BoldThenRedSecondHalf(toks: seq<string>)
    requires toks == ["y", "</r>", "</B>", "z"]
    ensures AllReadable(toks) && AllReadable(toks[3..])
    ensures var d := DefaultDecoration();
      var b := d.(bold := true);
      var br := d.(bold := true, colour := R);
      var px := NewDecoratedText(b, "x");
      Run(ParseState(br, [d, b], [px]), toks) == Run(ParseState(d, [], [px, NewDecoratedText(br, "y")]), toks[3..])
  {
    var d := DefaultDecoration();
    var b := d.(bold := true);
    var br := d.(bold := true, colour := R);
    var px := NewDecoratedText(b, "x");
    var py := NewDecoratedText(br, "y");
    var s3 := ParseState(br, [d, b], [px]);
    var s4 := ParseState(br, [d, b], [px, py]);
    var s5 := ParseState(b, [d], [px, py]);
    var s6 := ParseState(d, [], [px, py]);
    assert AllReadable(toks);
    assert s3.parts + [py] == [px, py];
    TextStep(s3, "y", [px, py]);
    RunStep(s3, toks, s4);
    CloseStep(s4, "</r>", b, [d]);
    assert toks[1..][0] == "</r>";
    RunStep(s4, toks[1..], s5);
    assert toks[1..][1..] == toks[2..];
    CloseStep(s5, "</B>", d, []);
    assert toks[2..][0] == "</B>";
    RunStep(s5, toks[2..], s6);
    assert toks[2..][1..] == toks[3..];
  }

  /** Turning bold off closes the colour opened inside it and never reopens
      it: the last run, red but not bold, reads back white. */
  lemma BoldOffLosesColour()
    ensures GenerateSML(BoldThenRed()) == "<B>x<r>y</r></B>z"
    ensures Parse(GenerateSML(BoldThenRed())).Success?
    ensures |Parse(GenerateSML(BoldThenRed())).value| == 3
    ensures BoldThenRed()[2].deco.colour == R
    ensures Parse(GenerateSML(BoldThenRed())).value[2].deco.colour == W
  {
    var doc := BoldThenRed();
    BoldThenRedPieces(doc[0], doc[1], doc[2]);
    assert doc == [doc[0], doc[1], doc[2]];
    BoldThenRedMarkup();
    TokenizeRender([Tag("B"), Text("x"), Tag("r"), Text("y"), Tag("/r"), Tag("/B"), Text("z")]);
    BoldThenRedParses();
  }
}
