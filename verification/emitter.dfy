/** The emitter (doc/doc.go `TagsTo`, `NTagsTo`, `GenerateSML`): walks the
    runs, writes the tags that move from one decoration to the next against
    a stack of open tag names, and closes what is left at the end. */
module Emitter {
  import opened Results
  import opened Strs
  import opened Stacks
  import opened Decorations
  import opened Runs

  /** The closing tags for `names`, innermost (last) first. */
  function CloseAll(names: seq<string>): (r: seq<string>)
    ensures |r| == |names|
  {
    if |names| == 0 then []
    else ["/" + Peek(names)] + CloseAll(Below(names))
  }

  /** The final loop of `GenerateSML` closes every remaining name, top
      first, one tag per name. */
  lemma {:induction false} CloseAllTopFirst(names: seq<string>)
    ensures forall i :: 0 <= i < |names| ==> CloseAll(names)[i] == "/" + names[|names| - 1 - i]
    decreases |names|
  {
    if |names| > 0 {
      CloseAllTopFirst(Below(names));
    }
  }

  /** Index of the topmost `"B"` on the stack, or -1. */
  function TopBold(stack: seq<string>): (k: int)
    ensures -1 <= k < |stack|
    ensures k >= 0 ==> stack[k] == "B"
    ensures forall j :: k < j < |stack| ==> stack[j] != "B"
  {
    if |stack| == 0 then -1
    else if Peek(stack) == "B" then |stack| - 1
    else TopBold(Below(stack))
  }

  lemma TopBoldFinds(stack: seq<string>)
    ensures TopBold(stack) == -1 <==> "B" !in stack
  {
  }

  /** The tags closed by the bold-off loop (without the final `"/B"`) and
      the stack it leaves. */
  datatype Popped = Popped(closes: seq<string>, rest: seq<string>)

  /** The bold-off loop of `TagsTo`: pop, and close each name that is not
      `"B"`, until a `"B"` is popped or the stack is empty. */
  function PopToBold(stack: seq<string>): (r: Popped)
    requires |stack| > 0
    ensures var k := TopBold(stack);
      if k >= 0 then r.rest == stack[..k] && r.closes + ["/B"] == CloseAll(stack[k..])
      else r.rest == [] && r.closes == CloseAll(stack)
    decreases |stack|
  {
    var tag := Peek(stack);
    if tag == "B" then
      PopBoldTop(stack);
      Popped([], Below(stack))
    else if Empty(Below(stack)) then
      assert stack == [tag];
      assert CloseAll([tag]) == ["/" + tag] + CloseAll([]);
      Popped(["/" + tag], [])
    else
      var r := PopToBold(Below(stack));
      PopAboveBold(stack, r.closes, r.rest, TopBold(Below(stack)));
      Popped(["/" + tag] + r.closes, r.rest)
  }

  /** The first closing tag is the top name's. */
  lemma CloseAllUnfold(names: seq<string>)
    requires |names| > 0
    ensures CloseAll(names) == ["/" + Peek(names)] + CloseAll(Below(names))
  {
  }

  /** `"B"` on top: nothing to close before it. */
  lemma PopBoldTop(stack: seq<string>)
    requires |stack| > 0 && Peek(stack) == "B"
    ensures TopBold(stack) == |stack| - 1
    ensures [] + ["/B"] == CloseAll(stack[|stack| - 1..])
  {
    var top := stack[|stack| - 1..];
    assert Peek(top) == "B" && Below(top) == [];
    CloseAllUnfold(top);
    assert "/" + "B" == "/B";
  }

  /** A name other than `"B"` on top is closed first, then the rest as
      below it. */
  lemma PopAboveBold(stack: seq<string>, closes: seq<string>, rest: seq<string>, k: int)
    requires |stack| > 1 && Peek(stack) != "B"
    requires k == TopBold(Below(stack))
    requires if k >= 0 then rest == Below(stack)[..k] && closes + ["/B"] == CloseAll(Below(stack)[k..])
      else rest == [] && closes == CloseAll(Below(stack))
    ensures k == TopBold(stack)
    ensures if k >= 0 then rest == stack[..k] && (["/" + Peek(stack)] + closes) + ["/B"] == CloseAll(stack[k..])
      else rest == [] && ["/" + Peek(stack)] + closes == CloseAll(stack)
  {
    TopBoldBelow(stack);
    if k >= 0 {
      PopAboveFound(stack, closes, rest, k);
    } else {
      CloseAllUnfold(stack);
    }
  }

  /** Below a name other than `"B"`, the topmost `"B"` is where it was. */
  lemma TopBoldBelow(stack: seq<string>)
    requires |stack| > 0 && Peek(stack) != "B"
    ensures TopBold(stack) == TopBold(Below(stack))
  {
  }

  lemma PopAboveFound(stack: seq<string>, closes: seq<string>, rest: seq<string>, k: nat)
    requires k < |stack| - 1
    requires rest == Below(stack)[..k] && closes + ["/B"] == CloseAll(Below(stack)[k..])
    ensures rest == stack[..k] && (["/" + Peek(stack)] + closes) + ["/B"] == CloseAll(stack[k..])
  {
    SliceBelow(stack, k);
    CloseAllUnfold(stack[k..]);
    AppendAssoc(["/" + Peek(stack)], closes, ["/B"]);
  }

  /** The tag list `TagsTo` returns together with the updated stack. */
  datatype Transition = Transition(tags: seq<string>, stack: seq<string>)

  /** The names `TagsTo` opens, in its fixed order: bold, emphasis, colour. */
  function Additions(d: Decoration, d2: Decoration): seq<string>
  {
    BoldAdd(d, d2) + (EmAdd(d, d2) + ColourAdd(d, d2))
  }

  function BoldAdd(d: Decoration, d2: Decoration): seq<string>
  {
    if !d.bold && d2.bold then ["B"] else []
  }

  function EmAdd(d: Decoration, d2: Decoration): seq<string>
  {
    if d.em != d2.em then ["Em"] else []
  }

  function ColourAdd(d: Decoration, d2: Decoration): seq<string>
  {
    if d.colour != d2.colour then [ColourTag(d2.colour)] else []
  }

  /** The bold part of `TagsTo`. */
  function BoldTags(d: Decoration, d2: Decoration, stack: seq<string>): Transition
    requires d.bold && !d2.bold ==> |stack| > 0
  {
    if d.bold != d2.bold then
      if d.bold then
        var p := PopToBold(stack);
        Transition(p.closes + ["/B"], p.rest)
      else Transition(["B"], Push(stack, "B"))
    else Transition([], stack)
  }

  /** Opening one more name when `cond` holds. */
  function OpenIf(t: Transition, cond: bool, name: string): (r: Transition)
    ensures r.tags == t.tags + (if cond then [name] else [])
    ensures r.stack == t.stack + (if cond then [name] else [])
  {
    if cond then Transition(t.tags + [name], Push(t.stack, name)) else t
  }

  /** `d.TagsTo(d2, tagStack)`. Bold-off pops the stack before looking at
      it, so it needs a non-empty stack. */
  function TagsTo(d: Decoration, d2: Decoration, stack: seq<string>): Transition
    requires d.bold && !d2.bold ==> |stack| > 0
  {
    var bold := BoldTags(d, d2, stack);
    var em := OpenIf(bold, d.em != d2.em, "Em");
    OpenIf(em, d.colour != d2.colour, ColourTag(d2.colour))
  }

  lemma OpenIfTwice(b: Transition, c1: bool, n1: string, c2: bool, n2: string)
    ensures var adds := (if c1 then [n1] else []) + (if c2 then [n2] else []);
      && OpenIf(OpenIf(b, c1, n1), c2, n2).tags == b.tags + adds
      && OpenIf(OpenIf(b, c1, n1), c2, n2).stack == b.stack + adds
  {
    var adds := (if c1 then [n1] else []) + (if c2 then [n2] else []);
    AppendAssoc(b.tags, if c1 then [n1] else [], if c2 then [n2] else []);
    AppendAssoc(b.stack, if c1 then [n1] else [], if c2 then [n2] else []);
  }

  /** Emphasis and colour are opened after whatever the bold part did. */
  lemma TagsToAfterBold(d: Decoration, d2: Decoration, stack: seq<string>)
    requires d.bold && !d2.bold ==> |stack| > 0
    ensures TagsTo(d, d2, stack).tags == BoldTags(d, d2, stack).tags + (EmAdd(d, d2) + ColourAdd(d, d2))
    ensures TagsTo(d, d2, stack).stack == BoldTags(d, d2, stack).stack + (EmAdd(d, d2) + ColourAdd(d, d2))
  {
    OpenIfTwice(BoldTags(d, d2, stack), d.em != d2.em, "Em", d.colour != d2.colour, ColourTag(d2.colour));
  }

  /** Unless bold goes off, the bold part opens `"B"` or nothing. */
  lemma BoldTagsOpensOnly(d: Decoration, d2: Decoration, stack: seq<string>)
    requires !(d.bold && !d2.bold)
    ensures BoldTags(d, d2, stack) == Transition(BoldAdd(d, d2), stack + BoldAdd(d, d2))
  {
    if !d.bold && d2.bold {
      assert Push(stack, "B") == stack + ["B"];
    } else {
      assert stack + [] == stack;
    }
  }

  /** Unless bold goes off, `TagsTo` only opens the additions, in the order
      bold, emphasis, colour, pushing each as it is written. */
  lemma TagsToOpensOnly(d: Decoration, d2: Decoration, stack: seq<string>)
    requires !(d.bold && !d2.bold)
    ensures TagsTo(d, d2, stack).tags == Additions(d, d2)
    ensures TagsTo(d, d2, stack).stack == stack + Additions(d, d2)
  {
    TagsToAfterBold(d, d2, stack);
    BoldTagsOpensOnly(d, d2, stack);
    AppendAssoc(stack, BoldAdd(d, d2), EmAdd(d, d2) + ColourAdd(d, d2));
  }

  /** When bold goes off, `TagsTo` first closes, innermost first, every name
      from the top down to the topmost `"B"` (the whole stack and then an
      unmatched `"/B"` when there is no `"B"`), never reopens them, and then
      opens the additions. */
  lemma TagsToBoldOff(d: Decoration, d2: Decoration, stack: seq<string>)
    requires d.bold && !d2.bold && |stack| > 0
    ensures var t, adds, k := TagsTo(d, d2, stack), Additions(d, d2), TopBold(stack);
      if k >= 0 then t.tags == CloseAll(stack[k..]) + adds && t.stack == stack[..k] + adds
      else t.tags == CloseAll(stack) + ["/B"] + adds && t.stack == adds
  {
    TagsToAfterBold(d, d2, stack);
    var p := PopToBold(stack);
    assert Additions(d, d2) == EmAdd(d, d2) + ColourAdd(d, d2) by {
      assert BoldAdd(d, d2) == [];
    }
    assert BoldTags(d, d2, stack) == Transition(p.closes + ["/B"], p.rest);
    BoldOffAssemble(TagsTo(d, d2, stack), BoldTags(d, d2, stack), p.closes, p.rest,
      Additions(d, d2), stack, TopBold(stack));
  }

  /** The bold-off transition put together from the pop loop's result and
      the additions opened after it. */
  lemma BoldOffAssemble(t: Transition, b: Transition, closes: seq<string>, rest: seq<string>,
                        adds: seq<string>, stack: seq<string>, k: int)
    requires t.tags == b.tags + adds && t.stack == b.stack + adds
    requires b == Transition(closes + ["/B"], rest)
    requires -1 <= k < |stack|
    requires if k >= 0 then rest == stack[..k] && closes + ["/B"] == CloseAll(stack[k..])
      else rest == [] && closes == CloseAll(stack)
    ensures if k >= 0 then t.tags == CloseAll(stack[k..]) + adds && t.stack == stack[..k] + adds
      else t.tags == CloseAll(stack) + ["/B"] + adds && t.stack == adds
  {
    if k < 0 {
      assert [] + adds == adds;
    }
  }

  /** What `TagsTo` writes and leaves on the stack, in every case. */
  lemma TagsToShape(d: Decoration, d2: Decoration, stack: seq<string>)
    requires d.bold && !d2.bold ==> |stack| > 0
    ensures var t, adds := TagsTo(d, d2, stack), Additions(d, d2);
      && (!(d.bold && !d2.bold) ==> t.tags == adds && t.stack == stack + adds)
      && (d.bold && !d2.bold && "B" in stack ==>
            var k := TopBold(stack);
            0 <= k && t.tags == CloseAll(stack[k..]) + adds && t.stack == stack[..k] + adds)
      && (d.bold && !d2.bold && "B" !in stack ==>
            t.tags == CloseAll(stack) + ["/B"] + adds && t.stack == adds)
  {
    TopBoldFinds(stack);
    if d.bold && !d2.bold {
      TagsToBoldOff(d, d2, stack);
    } else {
      TagsToOpensOnly(d, d2, stack);
    }
  }

  /** `NTagsTo`: the length of the tag list. */
  function NTagsTo(d: Decoration, d2: Decoration, stack: seq<string>): nat
    requires d.bold && !d2.bold ==> |stack| > 0
  {
    |TagsTo(d, d2, stack).tags|
  }

  /** No tag is written exactly when bold, emphasis and colour agree, and
      then the stack is unchanged; otherwise there is at least one tag per
      differing attribute. */
  lemma NTagsToCountsChanges(d: Decoration, d2: Decoration, stack: seq<string>)
    requires d.bold && !d2.bold ==> |stack| > 0
    ensures NTagsTo(d, d2, stack) == 0 <==> d.bold == d2.bold && d.em == d2.em && d.colour == d2.colour
    ensures NTagsTo(d, d2, stack) == 0 ==> TagsTo(d, d2, stack).stack == stack
    ensures NTagsTo(d, d2, stack) >=
      (if d.bold != d2.bold then 1 else 0) + (if d.em != d2.em then 1 else 0) + (if d.colour != d2.colour then 1 else 0)
  {
    TagsToShape(d, d2, stack);
  }

  /** The tag names the emitter ever pushes. */
  const EmittedNames: set<string> := {"B", "Em", "w", "r", "g", "b", "c", "m", "y", "k"}

  /** Replays a tag list against a stack of open names: an open tag pushes
      its name, a close tag `"/"+n` must find `n` on top and pops it. `None`
      when a close does not match; `Some` of the final stack otherwise. */
  function Replay(stack: seq<string>, tags: seq<string>): Option<seq<string>>
    decreases |tags|
  {
    if |tags| == 0 then Some(stack)
    else if |tags[0]| > 0 && tags[0][0] == '/' then
      if |stack| > 0 && Peek(stack) == tags[0][1..] then Replay(Below(stack), tags[1..])
      else None
    else Replay(stack + [tags[0]], tags[1..])
  }

  /** A close tag naming the top of the stack pops it. */
  lemma ReplayClose(stack: seq<string>, rest: seq<string>)
    requires |stack| > 0
    ensures Replay(stack, ["/" + Peek(stack)] + rest) == Replay(Below(stack), rest)
  {
    var tags := ["/" + Peek(stack)] + rest;
    assert tags[0][1..] == Peek(stack);
    assert tags[1..] == rest;
  }

  /** Closing a top segment of the stack, innermost first, matches it. */
  lemma {:induction false} ReplayCloseAll(stack: seq<string>, k: nat, rest: seq<string>)
    requires k <= |stack|
    ensures Replay(stack, CloseAll(stack[k..]) + rest) == Replay(stack[..k], rest)
    decreases |stack| - k
  {
    if k < |stack| {
      var below := Below(stack);
      SliceBelow(stack, k);
      var inner := CloseAll(below[k..]);
      assert CloseAll(stack[k..]) == ["/" + Peek(stack)] + inner;
      AppendAssoc(["/" + Peek(stack)], inner, rest);
      ReplayClose(stack, inner + rest);
      ReplayCloseAll(below, k, rest);
    } else {
      assert stack[k..] == [] && stack[..k] == stack;
      assert [] + rest == rest;
    }
  }

  /** Popping a stack pops its top segment too. */
  lemma SliceBelow<T>(stack: seq<T>, k: nat)
    requires k < |stack|
    ensures Peek(stack[k..]) == Peek(stack)
    ensures Below(stack[k..]) == Below(stack)[k..]
    ensures Below(stack)[..k] == stack[..k]
  {
  }

  /** Open tags push their names. */
  lemma {:induction false} ReplayOpens(stack: seq<string>, opens: seq<string>, rest: seq<string>)
    requires forall i :: 0 <= i < |opens| ==> opens[i] in EmittedNames
    ensures Replay(stack, opens + rest) == Replay(stack + opens, rest)
    decreases |opens|
  {
    if |opens| > 0 {
      assert opens[0][0] != '/';
      assert (opens + rest)[1..] == opens[1..] + rest;
      ReplayOpens(stack + [opens[0]], opens[1..], rest);
      assert stack + [opens[0]] + opens[1..] == stack + opens;
    } else {
      assert opens + rest == rest;
      assert stack + opens == stack;
    }
  }

  lemma AdditionsAreEmitted(d: Decoration, d2: Decoration)
    ensures forall i :: 0 <= i < |Additions(d, d2)| ==> Additions(d, d2)[i] in EmittedNames
    ensures "B" in Additions(d, d2) <==> !d.bold && d2.bold
    ensures multiset(Additions(d, d2))["B"] == if !d.bold && d2.bold then 1 else 0
  {
    var e, c := EmAdd(d, d2), ColourAdd(d, d2);
    ColourTagEmitted(d2.colour);
    assert "B" !in e && "B" !in c;
    CountAppend("B", e, c);
    CountAppend("B", BoldAdd(d, d2), e + c);
    AllInAppend(EmittedNames, e, c);
    AllInAppend(EmittedNames, BoldAdd(d, d2), e + c);
  }

  lemma ColourTagEmitted(c: TextColour)
    ensures ColourTag(c) in EmittedNames && ColourTag(c) != "B"
  {
    ColourTagLetters(c);
    assert ColourTag(c)[0] != 'B';
  }

  /** Occurrences add up over a concatenation. */
  lemma CountAppend<T>(x: T, a: seq<T>, b: seq<T>)
    ensures multiset(a + b)[x] == multiset(a)[x] + multiset(b)[x]
    ensures x in a + b <==> x in a || x in b
  {
    assert multiset(a + b) == multiset(a) + multiset(b);
  }

  lemma AllInAppend<T>(S: set<T>, a: seq<T>, b: seq<T>)
    requires forall i :: 0 <= i < |a| ==> a[i] in S
    requires forall i :: 0 <= i < |b| ==> b[i] in S
    ensures forall i :: 0 <= i < |a + b| ==> (a + b)[i] in S
  {
  }

  /** When bold is on, `"B"` is on the stack once; when off, not at all. */
  predicate BoldTracked(current: Decoration, stack: seq<string>)
  {
    multiset(stack)["B"] == if current.bold then 1 else 0
  }

  predicate AllEmitted(stack: seq<string>)
  {
    forall i :: 0 <= i < |stack| ==> stack[i] in EmittedNames
  }

  /** Below the topmost `"B"` of a stack holding one `"B"` there is none. */
  lemma SplitAtBold(stack: seq<string>)
    requires multiset(stack)["B"] == 1
    ensures var k := TopBold(stack);
      && 0 <= k
      && stack == stack[..k] + stack[k..]
      && multiset(stack[..k])["B"] == 0
  {
    TopBoldFinds(stack);
    assert "B" in multiset(stack);
    var k := TopBold(stack);
    SplitAtLast(stack, "B", k);
  }

  /** Cutting a sequence below the last occurrence of `x` leaves one `x`
      fewer. */
  lemma SplitAtLast<T>(s: seq<T>, x: T, k: int)
    requires 0 <= k < |s| && s[k] == x
    requires forall j :: k < j < |s| ==> s[j] != x
    ensures s == s[..k] + s[k..]
    ensures multiset(s[..k])[x] == multiset(s)[x] - 1
  {
    var below, above := s[..k], s[k + 1..];
    assert s == below + ([x] + above);
    forall i | 0 <= i < |above|
      ensures above[i] != x
    {
      assert above[i] == s[k + 1 + i];
    }
    assert x !in multiset(above);
    assert multiset(s) == multiset(below) + multiset([x]) + multiset(above);
  }

  /** Appending names keeps every name an emitted one and adds up the
      `"B"`s. */
  lemma AppendNames(a: seq<string>, b: seq<string>, c: seq<string>)
    requires AllEmitted(a)
    requires forall i :: 0 <= i < |b| ==> b[i] in EmittedNames
    requires c == a + b
    ensures AllEmitted(c)
    ensures multiset(c)["B"] == multiset(a)["B"] + multiset(b)["B"]
  {
    assert multiset(c) == multiset(a) + multiset(b);
  }

  lemma AllEmittedPrefix(stack: seq<string>, k: nat)
    requires AllEmitted(stack) && k <= |stack|
    ensures AllEmitted(stack[..k]) && AllEmitted(stack[k..])
  {
  }

  /** The emitter's bookkeeping survives every transition: bold-off always
      finds its `"B"`, `"B"` stays on the stack exactly while bold is on, and
      only emitted names are ever on the stack. */
  lemma TagsToKeepsBookkeeping(d: Decoration, d2: Decoration, stack: seq<string>)
    requires BoldTracked(d, stack) && AllEmitted(stack)
    ensures d.bold && !d2.bold ==> "B" in stack
    ensures BoldTracked(d2, TagsTo(d, d2, stack).stack)
    ensures AllEmitted(TagsTo(d, d2, stack).stack)
  {
    var t := TagsTo(d, d2, stack);
    var adds := Additions(d, d2);
    AdditionsAreEmitted(d, d2);
    if d.bold && !d2.bold {
      SplitAtBold(stack);
      TopBoldFinds(stack);
      TagsToBoldOff(d, d2, stack);
      var k := TopBold(stack);
      AllEmittedPrefix(stack, k);
      AppendNames(stack[..k], adds, t.stack);
    } else {
      TagsToOpensOnly(d, d2, stack);
      AppendNames(stack, adds, t.stack);
    }
  }

  /** The tags a transition writes replay against the old stack to give
      exactly the new one. */
  lemma TagsToReplays(d: Decoration, d2: Decoration, stack: seq<string>, rest: seq<string>)
    requires BoldTracked(d, stack) && AllEmitted(stack)
    ensures d.bold && !d2.bold ==> |stack| > 0
    ensures Replay(stack, TagsTo(d, d2, stack).tags + rest) == Replay(TagsTo(d, d2, stack).stack, rest)
  {
    TagsToKeepsBookkeeping(d, d2, stack);
    var t := TagsTo(d, d2, stack);
    var adds := Additions(d, d2);
    AdditionsAreEmitted(d, d2);
    if d.bold && !d2.bold {
      SplitAtBold(stack);
      TagsToBoldOff(d, d2, stack);
      var k := TopBold(stack);
      AppendAssoc(CloseAll(stack[k..]), adds, rest);
      ReplayCloseAll(stack, k, adds + rest);
      ReplayOpens(stack[..k], adds, rest);
    } else {
      TagsToOpensOnly(d, d2, stack);
      assert t.tags + rest == adds + rest;
      ReplayOpens(stack, adds, rest);
    }
  }

  /** A piece of the output: a tag written as `<name>`, or run text. */
  datatype Piece = Tag(name: string) | Text(text: string)

  function TagPieces(tags: seq<string>): (ps: seq<Piece>)
    ensures |ps| == |tags|
    ensures forall i :: 0 <= i < |ps| ==> ps[i] == Tag(tags[i])
  {
    if |tags| == 0 then [] else [Tag(tags[0])] + TagPieces(tags[1..])
  }

  function RenderPiece(p: Piece): string
  {
    match p
    case Tag(name) => "<" + name + ">"
    case Text(text) => text
  }

  /** The markup string the pieces spell. */
  function Render(ps: seq<Piece>): string
  {
    if |ps| == 0 then "" else RenderPiece(ps[0]) + Render(ps[1..])
  }

  /** The names of the tags among the pieces, in order. */
  function TagNames(ps: seq<Piece>): seq<string>
  {
    if |ps| == 0 then []
    else (if ps[0].Tag? then [ps[0].name] else []) + TagNames(ps[1..])
  }

  /** The number of text pieces. */
  function CountText(ps: seq<Piece>): nat
  {
    if |ps| == 0 then 0 else (if ps[0].Text? then 1 else 0) + CountText(ps[1..])
  }

  /** The text among the pieces, in order. */
  function TextOf(ps: seq<Piece>): string
  {
    if |ps| == 0 then ""
    else (if ps[0].Text? then ps[0].text else "") + TextOf(ps[1..])
  }

  /** The loop of `GenerateSML` from the runs still to go, the decoration
      last written and the open-tag stack; it ends with the final drain of
      the stack. */
  function EmitFrom(parts: seq<Part>, current: Decoration, stack: seq<string>): seq<Piece>
    requires BoldTracked(current, stack) && AllEmitted(stack)
    decreases |parts|
  {
    if |parts| == 0 then TagPieces(CloseAll(stack))
    else
      var next := parts[0].deco;
      var text := Text(Join(parts[0].tokens));
      if !Equals(next, current) then
        TagsToKeepsBookkeeping(current, next, stack);
        var t := TagsTo(current, next, stack);
        TagPieces(t.tags) + [text] + EmitFrom(parts[1..], next, t.stack)
      else
        [text] + EmitFrom(parts[1..], current, stack)
  }

  /** One iteration of the loop in `GenerateSML` for a run styled apart
      from the decoration last written. */
  lemma EmitFromStep(parts: seq<Part>, current: Decoration, stack: seq<string>)
    requires BoldTracked(current, stack) && AllEmitted(stack)
    requires |parts| > 0 && !Equals(parts[0].deco, current)
    ensures current.bold && !parts[0].deco.bold ==> |stack| > 0
    ensures BoldTracked(parts[0].deco, TagsTo(current, parts[0].deco, stack).stack)
    ensures AllEmitted(TagsTo(current, parts[0].deco, stack).stack)
    ensures EmitFrom(parts, current, stack) ==
      TagPieces(TagsTo(current, parts[0].deco, stack).tags) + [Text(Join(parts[0].tokens))]
      + EmitFrom(parts[1..], parts[0].deco, TagsTo(current, parts[0].deco, stack).stack)
  {
    TagsToKeepsBookkeeping(current, parts[0].deco, stack);
  }

  /** The pieces `GenerateSML` writes for a document. */
  function Emit(doc: seq<Part>): seq<Piece>
  {
    EmitFrom(doc, DefaultDecoration(), [])
  }

  /** `GenerateSML`. */
  function GenerateSML(doc: seq<Part>): string
  {
    Render(Emit(doc))
  }

  lemma {:induction false} TagNamesAppend(a: seq<Piece>, b: seq<Piece>)
    ensures TagNames(a + b) == TagNames(a) + TagNames(b)
    decreases |a|
  {
    if |a| == 0 {
      assert a + b == b;
    } else {
      assert (a + b)[0] == a[0];
      assert (a + b)[1..] == a[1..] + b;
      TagNamesAppend(a[1..], b);
    }
  }

  lemma {:induction false} TextOfAppend(a: seq<Piece>, b: seq<Piece>)
    ensures TextOf(a + b) == TextOf(a) + TextOf(b)
    decreases |a|
  {
    if |a| == 0 {
      assert a + b == b;
    } else {
      var h := if a[0].Text? then a[0].text else "";
      assert (a + b)[0] == a[0];
      assert (a + b)[1..] == a[1..] + b;
      TextOfAppend(a[1..], b);
      AppendAssoc(h, TextOf(a[1..]), TextOf(b));
    }
  }

  lemma {:induction false} TagPiecesContent(tags: seq<string>)
    ensures TagNames(TagPieces(tags)) == tags
    ensures TextOf(TagPieces(tags)) == ""
    ensures CountText(TagPieces(tags)) == 0
    decreases |tags|
  {
    if |tags| > 0 {
      TagPiecesContent(tags[1..]);
      assert TagPieces(tags)[1..] == TagPieces(tags[1..]);
    }
  }

  /** What a transition followed by a run's text contributes. */
  lemma StepContent(tags: seq<string>, text: string, rest: seq<Piece>)
    ensures TagNames(TagPieces(tags) + [Text(text)] + rest) == tags + TagNames(rest)
    ensures TextOf(TagPieces(tags) + [Text(text)] + rest) == text + TextOf(rest)
  {
    var tp, tr := TagPieces(tags), [Text(text)] + rest;
    TagPiecesContent(tags);
    AppendAssoc(tp, [Text(text)], rest);
    TagNamesAppend(tp, tr);
    TextOfAppend(tp, tr);
    TextContent(text, rest);
  }

  lemma TextContent(text: string, rest: seq<Piece>)
    ensures TagNames([Text(text)] + rest) == TagNames(rest)
    ensures TextOf([Text(text)] + rest) == text + TextOf(rest)
  {
    assert ([Text(text)] + rest)[1..] == rest;
  }

  /** Replaying the tags written from some point on against the stack at
      that point closes every tag it opens and everything already open, each
      close matching the innermost open name. */
  lemma {:induction false} EmitFromNests(parts: seq<Part>, current: Decoration, stack: seq<string>)
    requires BoldTracked(current, stack) && AllEmitted(stack)
    ensures Replay(stack, TagNames(EmitFrom(parts, current, stack))) == Some([])
    decreases |parts|
  {
    if |parts| == 0 {
      TagPiecesContent(CloseAll(stack));
      ReplayCloseAll(stack, 0, []);
      assert stack[0..] == stack && CloseAll(stack) + [] == CloseAll(stack);
    } else {
      var next := parts[0].deco;
      var text := Join(parts[0].tokens);
      if !Equals(next, current) {
        TagsToKeepsBookkeeping(current, next, stack);
        var t := TagsTo(current, next, stack);
        var rest := EmitFrom(parts[1..], next, t.stack);
        EmitFromNests(parts[1..], next, t.stack);
        StepContent(t.tags, text, rest);
        TagsToReplays(current, next, stack, TagNames(rest));
      } else {
        var rest := EmitFrom(parts[1..], current, stack);
        EmitFromNests(parts[1..], current, stack);
        TextContent(text, rest);
      }
    }
  }

  /** The tags `GenerateSML` writes nest properly: every close tag names the
      innermost open one and nothing is left open at the end. */
  lemma EmitNests(doc: seq<Part>)
    ensures Replay([], TagNames(Emit(doc))) == Some([])
  {
    var none: seq<string> := [];
    assert multiset(none)["B"] == 0;
    EmitFromNests(doc, DefaultDecoration(), []);
  }

  /** Each run's tokens joined by single spaces, run after run, with no
      separator between runs. */
  function RunTexts(doc: seq<Part>): string
  {
    if |doc| == 0 then "" else Join(doc[0].tokens) + RunTexts(doc[1..])
  }

  lemma {:induction false} EmitFromText(parts: seq<Part>, current: Decoration, stack: seq<string>)
    requires BoldTracked(current, stack) && AllEmitted(stack)
    ensures TextOf(EmitFrom(parts, current, stack)) == RunTexts(parts)
    decreases |parts|
  {
    if |parts| == 0 {
      TagPiecesContent(CloseAll(stack));
    } else {
      var next := parts[0].deco;
      var text := Join(parts[0].tokens);
      if !Equals(next, current) {
        TagsToKeepsBookkeeping(current, next, stack);
        var t := TagsTo(current, next, stack);
        EmitFromText(parts[1..], next, t.stack);
        StepContent(t.tags, text, EmitFrom(parts[1..], next, t.stack));
      } else {
        EmitFromText(parts[1..], current, stack);
        TextContent(text, EmitFrom(parts[1..], current, stack));
      }
    }
  }

  /** The text `GenerateSML` writes is the runs' text in order. */
  lemma EmitText(doc: seq<Part>)
    ensures TextOf(Emit(doc)) == RunTexts(doc)
  {
    var none: seq<string> := [];
    assert multiset(none)["B"] == 0;
    EmitFromText(doc, DefaultDecoration(), []);
  }

  /** Runs `Equals` to the decoration last written write no tags: the
      stack is only drained at the end. */
  lemma {:induction false} EmitFromSameWritesNoTags(parts: seq<Part>, current: Decoration, stack: seq<string>)
    requires BoldTracked(current, stack) && AllEmitted(stack)
    requires forall i :: 0 <= i < |parts| ==> Equals(parts[i].deco, current)
    ensures TagNames(EmitFrom(parts, current, stack)) == CloseAll(stack)
    decreases |parts|
  {
    if |parts| == 0 {
      TagPiecesContent(CloseAll(stack));
    } else {
      assert Equals(parts[0].deco, current);
      EmitFromSameWritesNoTags(parts[1..], current, stack);
      TextContent(Join(parts[0].tokens), EmitFrom(parts[1..], current, stack));
    }
  }

  /** A document whose runs all look like the default writes no tags. */
  lemma EmitPlainDocument(doc: seq<Part>)
    requires forall i :: 0 <= i < |doc| ==> Equals(doc[i].deco, DefaultDecoration())
    ensures TagNames(Emit(doc)) == []
  {
    var none: seq<string> := [];
    assert multiset(none)["B"] == 0;
    EmitFromSameWritesNoTags(doc, DefaultDecoration(), []);
  }

  lemma {:induction false} CountTextAppend(a: seq<Piece>, b: seq<Piece>)
    ensures CountText(a + b) == CountText(a) + CountText(b)
    decreases |a|
  {
    if |a| == 0 {
      assert a + b == b;
    } else {
      assert (a + b)[0] == a[0];
      assert (a + b)[1..] == a[1..] + b;
      CountTextAppend(a[1..], b);
    }
  }

  /** The decoration run `k` is compared with: the run before it, or for
      the first run the decoration the emitter starts from. */
  function Before(parts: seq<Part>, current: Decoration, k: nat): Decoration
    requires k < |parts|
  {
    if k == 0 then current else parts[k - 1].deco
  }

  /** A tag is written right before piece `j`. */
  predicate TagBefore(ps: seq<Piece>, j: nat)
    requires j < |ps|
  {
    j > 0 && ps[j - 1].Tag?
  }

  /** What holds at the piece `ps[j]` holding run `k`'s text, where `k`
      counts the text pieces before it: it is that run's tokens joined by
      spaces; replaying the tags written before it leaves `"B"` open (once)
      exactly when the run is bold; no tag comes right before it when its
      style is `Equals` to the one before; and a tag does when bold or colour
      changes. */
  predicate RunPiece(parts: seq<Part>, current: Decoration, stack: seq<string>, ps: seq<Piece>, j: nat)
    requires j < |ps|
  {
    RunPieceAt(parts, current, stack, ps[j], CountText(ps[..j]), TagNames(ps[..j]), TagBefore(ps, j))
  }

  /** `RunPiece` with the run index `k`, the names of the tags written
      before the piece and whether a tag comes right before it given as
      values. */
  predicate RunPieceAt(parts: seq<Part>, current: Decoration, stack: seq<string>, piece: Piece,
                       k: nat, names: seq<string>, tagBefore: bool)
  {
    && k < |parts|
    && piece == Text(Join(parts[k].tokens))
    && Replay(stack, names).Some?
    && BoldTracked(parts[k].deco, Replay(stack, names).value)
    && (Equals(Before(parts, current, k), parts[k].deco) ==> !tagBefore)
    && ((Before(parts, current, k).bold != parts[k].deco.bold
         || Before(parts, current, k).colour != parts[k].deco.colour) ==> tagBefore)
  }

  /** What holds for run `k` of the runs after the first holds for run
      `k + 1` of all of them, once the first run's tags are put in front. */
  lemma ShiftRunPieceAt(parts: seq<Part>, current: Decoration, stack: seq<string>,
                        next: Decoration, after: seq<string>, piece: Piece,
                        k: nat, names: seq<string>, tagBefore: bool, tags: seq<string>)
    requires |parts| > 0
    requires RunPieceAt(parts[1..], next, after, piece, k, names, tagBefore)
    requires Replay(stack, tags + names) == Replay(after, names)
    requires Equals(next, parts[0].deco)
    ensures RunPieceAt(parts, current, stack, piece, k + 1, tags + names, tagBefore)
  {
    assert parts[1..][k] == parts[k + 1];
    if k > 0 {
      assert parts[1..][k - 1] == parts[k];
    }
  }

  /** Cutting `pre + rest` inside `rest`. */
  lemma CutAfter<T>(pre: seq<T>, rest: seq<T>, j: nat)
    requires |pre| > 0 && j < |rest|
    ensures (pre + rest)[..|pre| + j] == pre + rest[..j]
    ensures (pre + rest)[|pre| + j] == rest[j]
    ensures (pre + rest)[|pre| + j - 1] == if j > 0 then rest[j - 1] else pre[|pre| - 1]
  {
  }

  /** The pieces of one step: the tags, then the run's text. */
  lemma StepPieces(tags: seq<string>, text: string)
    ensures var pre := TagPieces(tags) + [Text(text)];
      && |pre| == |tags| + 1
      && pre[|tags|] == Text(text)
      && CountText(pre) == 1
      && TagNames(pre) == tags
  {
    TagPiecesContent(tags);
    CountTextAppend(TagPieces(tags), [Text(text)]);
    TagNamesAppend(TagPieces(tags), [Text(text)]);
    assert [Text(text)][1..] == [];
  }

  /** The first run's text comes right after the tags of its transition. */
  lemma FirstRunPiece(parts: seq<Part>, current: Decoration, stack: seq<string>,
                      tags: seq<string>, after: seq<string>, rest: seq<Piece>, ps: seq<Piece>)
    requires |parts| > 0
    requires ps == TagPieces(tags) + [Text(Join(parts[0].tokens))] + rest
    requires Replay(stack, tags) == Some(after) && BoldTracked(parts[0].deco, after)
    requires Equals(current, parts[0].deco) ==> tags == []
    requires current.bold != parts[0].deco.bold || current.colour != parts[0].deco.colour ==> |tags| > 0
    ensures |tags| < |ps| && RunPiece(parts, current, stack, ps, |tags|)
  {
    var text := Join(parts[0].tokens);
    var pre := TagPieces(tags) + [Text(text)];
    StepPieces(tags, text);
    TagPiecesContent(tags);
    assert ps[..|tags|] == TagPieces(tags);
    assert ps[|tags|] == Text(text);
    if |tags| > 0 {
      assert ps[|tags| - 1] == Tag(tags[|tags| - 1]);
    }
  }

  /** A later run's piece: shift what holds for it in the rest. */
  lemma LaterRunPiece(parts: seq<Part>, current: Decoration, stack: seq<string>,
                      tags: seq<string>, next: Decoration, after: seq<string>,
                      rest: seq<Piece>, ps: seq<Piece>, j: nat)
    requires |parts| > 0
    requires ps == TagPieces(tags) + [Text(Join(parts[0].tokens))] + rest
    requires j < |rest| && RunPiece(parts[1..], next, after, rest, j)
    requires Replay(stack, tags + TagNames(rest[..j])) == Replay(after, TagNames(rest[..j]))
    requires Equals(next, parts[0].deco)
    ensures |tags| + 1 + j < |ps| && RunPiece(parts, current, stack, ps, |tags| + 1 + j)
  {
    var jj := |tags| + 1 + j;
    LaterPieceFacts(tags, Join(parts[0].tokens), rest, ps, j);
    ShiftRunPieceAt(parts, current, stack, next, after, rest[j],
      CountText(rest[..j]), TagNames(rest[..j]), TagBefore(rest, j), tags);
  }

  /** Where a piece of the rest sits after one step's pieces. */
  lemma LaterPieceFacts(tags: seq<string>, text: string, rest: seq<Piece>, ps: seq<Piece>, j: nat)
    requires ps == TagPieces(tags) + [Text(text)] + rest
    requires j < |rest|
    ensures var jj := |tags| + 1 + j;
      && jj < |ps|
      && ps[jj] == rest[j]
      && CountText(ps[..jj]) == CountText(rest[..j]) + 1
      && TagNames(ps[..jj]) == tags + TagNames(rest[..j])
      && TagBefore(ps, jj) == TagBefore(rest, j)
  {
    var pre := TagPieces(tags) + [Text(text)];
    StepPieces(tags, text);
    var jj := |pre| + j;
    assert ps == pre + rest && jj == |tags| + 1 + j;
    AfterPrefix(pre, rest, j);
    assert ps[..jj] == (pre + rest)[..jj];
  }

  /** A piece of `rest` after a prefix that ends with a text piece. */
  lemma AfterPrefix(pre: seq<Piece>, rest: seq<Piece>, j: nat)
    requires |pre| > 0 && pre[|pre| - 1].Text? && j < |rest|
    ensures var jj := |pre| + j;
      && jj < |pre + rest|
      && (pre + rest)[jj] == rest[j]
      && CountText((pre + rest)[..jj]) == CountText(pre) + CountText(rest[..j])
      && TagNames((pre + rest)[..jj]) == TagNames(pre) + TagNames(rest[..j])
      && TagBefore(pre + rest, jj) == TagBefore(rest, j)
  {
    CutAfter(pre, rest, j);
    CountTextAppend(pre, rest[..j]);
    TagNamesAppend(pre, rest[..j]);
  }

  /** `RunPiece` at every text piece. */
  predicate AllRunPieces(parts: seq<Part>, current: Decoration, stack: seq<string>, ps: seq<Piece>)
  {
    forall j :: 0 <= j < |ps| && ps[j].Text? ==> RunPiece(parts, current, stack, ps, j)
  }

  lemma {:induction false} EmitFromRuns(parts: seq<Part>, current: Decoration, stack: seq<string>)
    requires BoldTracked(current, stack) && AllEmitted(stack)
    ensures AllRunPieces(parts, current, stack, EmitFrom(parts, current, stack))
    decreases |parts|
  {
    var ps := EmitFrom(parts, current, stack);
    if |parts| == 0 {
      assert forall j :: 0 <= j < |ps| ==> ps[j].Tag?;
    } else {
      var next := parts[0].deco;
      if !Equals(next, current) {
        EmitFromStep(parts, current, stack);
        var t := TagsTo(current, next, stack);
        EmitFromRuns(parts[1..], next, t.stack);
        ChangedRuns(parts, current, stack, t, EmitFrom(parts[1..], next, t.stack), ps);
      } else {
        var rest := EmitFrom(parts[1..], current, stack);
        EmitFromRuns(parts[1..], current, stack);
        assert ps == [Text(Join(parts[0].tokens))] + rest;
        SameRuns(parts, current, stack, rest, ps);
      }
    }
  }

  /** A run styled apart from the decoration last written: its transition's
      tags, its text, then the rest. */
  lemma ChangedRuns(parts: seq<Part>, current: Decoration, stack: seq<string>, t: Transition,
                    rest: seq<Piece>, ps: seq<Piece>)
    requires |parts| > 0 && BoldTracked(current, stack) && AllEmitted(stack)
    requires !Equals(parts[0].deco, current)
    requires current.bold && !parts[0].deco.bold ==> |stack| > 0
    requires t == TagsTo(current, parts[0].deco, stack)
    requires ps == TagPieces(t.tags) + [Text(Join(parts[0].tokens))] + rest
    requires AllRunPieces(parts[1..], parts[0].deco, t.stack, rest)
    ensures AllRunPieces(parts, current, stack, ps)
  {
    var next := parts[0].deco;
    TagsToKeepsBookkeeping(current, next, stack);
    NTagsToCountsChanges(current, next, stack);
    TagsToReplays(current, next, stack, []);
    assert t.tags + [] == t.tags;
    forall j | 0 <= j < |rest|
      ensures Replay(stack, t.tags + TagNames(rest[..j])) == Replay(t.stack, TagNames(rest[..j]))
    {
      TagsToReplays(current, next, stack, TagNames(rest[..j]));
    }
    StepRuns(parts, current, stack, t.tags, next, t.stack, rest, ps);
  }

  /** A run `Equals` to the decoration last written: its text, then the
      rest, with no tags. */
  lemma SameRuns(parts: seq<Part>, current: Decoration, stack: seq<string>,
                 rest: seq<Piece>, ps: seq<Piece>)
    requires |parts| > 0 && BoldTracked(current, stack)
    requires Equals(parts[0].deco, current)
    requires ps == [Text(Join(parts[0].tokens))] + rest
    requires AllRunPieces(parts[1..], current, stack, rest)
    ensures AllRunPieces(parts, current, stack, ps)
  {
    var none: seq<string> := [];
    assert TagPieces(none) == [];
    assert ps == TagPieces(none) + [Text(Join(parts[0].tokens))] + rest;
    forall j | 0 <= j < |rest|
      ensures Replay(stack, none + TagNames(rest[..j])) == Replay(stack, TagNames(rest[..j]))
    {
      assert none + TagNames(rest[..j]) == TagNames(rest[..j]);
    }
    StepRuns(parts, current, stack, none, current, stack, rest, ps);
  }

  /** One step of the loop: the first run's tags and text, then the rest,
      for which `RunPiece` holds already. */
  lemma StepRuns(parts: seq<Part>, current: Decoration, stack: seq<string>,
                 tags: seq<string>, next: Decoration, after: seq<string>,
                 rest: seq<Piece>, ps: seq<Piece>)
    requires |parts| > 0
    requires ps == TagPieces(tags) + [Text(Join(parts[0].tokens))] + rest
    requires Replay(stack, tags) == Some(after) && BoldTracked(parts[0].deco, after)
    requires forall j :: 0 <= j < |rest| ==>
      Replay(stack, tags + TagNames(rest[..j])) == Replay(after, TagNames(rest[..j]))
    requires Equals(next, parts[0].deco)
    requires Equals(current, parts[0].deco) ==> tags == []
    requires current.bold != parts[0].deco.bold || current.colour != parts[0].deco.colour ==> |tags| > 0
    requires AllRunPieces(parts[1..], next, after, rest)
    ensures AllRunPieces(parts, current, stack, ps)
  {
    FirstRunPiece(parts, current, stack, tags, after, rest, ps);
    assert forall j :: 0 <= j < |tags| ==> ps[j] == TagPieces(tags)[j];
    forall j | 0 <= j < |ps| && ps[j].Text?
      ensures RunPiece(parts, current, stack, ps, j)
    {
      if j > |tags| {
        LaterRun(parts, current, stack, tags, next, after, rest, ps, j);
      }
    }
  }

  /** A text piece after the first run's: it belongs to the rest. */
  lemma LaterRun(parts: seq<Part>, current: Decoration, stack: seq<string>,
                 tags: seq<string>, next: Decoration, after: seq<string>,
                 rest: seq<Piece>, ps: seq<Piece>, j: nat)
    requires |parts| > 0
    requires ps == TagPieces(tags) + [Text(Join(parts[0].tokens))] + rest
    requires |tags| < j < |ps| && ps[j].Text?
    requires forall j :: 0 <= j < |rest| ==>
      Replay(stack, tags + TagNames(rest[..j])) == Replay(after, TagNames(rest[..j]))
    requires Equals(next, parts[0].deco)
    requires AllRunPieces(parts[1..], next, after, rest)
    ensures RunPiece(parts, current, stack, ps, j)
  {
    var j' := j - |tags| - 1;
    LaterPieceFacts(tags, Join(parts[0].tokens), rest, ps, j');
    assert rest[j'].Text?;
    LaterRunPiece(parts, current, stack, tags, next, after, rest, ps, j');
  }

  /** How the tags `GenerateSML` writes follow the runs' styles. At the text
      piece of run `k` (one text piece per run, in order): replaying the
      tags written so far leaves `"B"` open exactly when run `k` is bold; no
      tag is written right before it when its style is `Equals` to run
      `k - 1`'s (to the default style for the first run); and a tag is
      written right before it when bold or colour changes. */
  lemma EmitRuns(doc: seq<Part>)
    ensures CountText(Emit(doc)) == |doc|
    ensures AllRunPieces(doc, DefaultDecoration(), [], Emit(doc))
  {
    var none: seq<string> := [];
    assert multiset(none)["B"] == 0;
    EmitFromRuns(doc, DefaultDecoration(), []);
    EmitFromCount(doc, DefaultDecoration(), []);
  }

  lemma {:induction false} EmitFromCount(parts: seq<Part>, current: Decoration, stack: seq<string>)
    requires BoldTracked(current, stack) && AllEmitted(stack)
    ensures CountText(EmitFrom(parts, current, stack)) == |parts|
    decreases |parts|
  {
    if |parts| == 0 {
      TagPiecesContent(CloseAll(stack));
    } else {
      var next := parts[0].deco;
      var text := Join(parts[0].tokens);
      if !Equals(next, current) {
        TagsToKeepsBookkeeping(current, next, stack);
        var t := TagsTo(current, next, stack);
        var rest := EmitFrom(parts[1..], next, t.stack);
        EmitFromCount(parts[1..], next, t.stack);
        StepPieces(t.tags, text);
        CountTextAppend(TagPieces(t.tags) + [Text(text)], rest);
      } else {
        EmitFromCount(parts[1..], current, stack);
        CountTextAppend([Text(text)], EmitFrom(parts[1..], current, stack));
      }
    }
  }
}
