/** The compactor (doc/doc.go `Document.Compact`): one forward pass that
    merges each run into the previous kept run when their decorations are
    `Equals`. */
module Compaction {
  import opened Strs
  import opened Decorations
  import opened Runs

  /** No two neighbouring runs have `Equals` decorations. */
  predicate NoAdjacentEquals(doc: seq<Part>)
  {
    forall i :: 0 < i < |doc| ==> !Equals(doc[i - 1].deco, doc[i].deco)
  }

  /** What the source needs to avoid an index panic: a typewriter merge reads
      `Tokens[0]` of both runs involved. */
  predicate MergeSafe(doc: seq<Part>)
  {
    forall i :: 0 < i < |doc| && doc[i].deco.tt && Equals(doc[i - 1].deco, doc[i].deco) ==>
      |doc[i - 1].tokens| > 0 && |doc[i].tokens| > 0
  }

  /** `MergeSafe` for the run kept so far followed by the runs still to
      come. */
  predicate SafeAfter(last: Part, rest: seq<Part>)
  {
    && MergeSafe(rest)
    && (|rest| > 0 && rest[0].deco.tt && Equals(last.deco, rest[0].deco) ==>
          |last.tokens| > 0 && |rest[0].tokens| > 0)
  }

  lemma MergeSafeTail(doc: seq<Part>)
    requires |doc| > 0 && MergeSafe(doc)
    ensures SafeAfter(doc[0], doc[1..])
  {
    var rest := doc[1..];
    forall i | 0 < i < |rest| && rest[i].deco.tt && Equals(rest[i - 1].deco, rest[i].deco)
      ensures |rest[i - 1].tokens| > 0 && |rest[i].tokens| > 0
    {
      assert rest[i - 1] == doc[i] && rest[i] == doc[i + 1];
    }
    if |rest| > 0 {
      assert rest[0] == doc[1];
    }
  }

  /** After a merge the kept run is still safe to merge into. */
  lemma SafeAfterMerge(last: Part, rest: seq<Part>)
    requires SafeAfter(last, rest) && |rest| > 0 && Equals(last.deco, rest[0].deco)
    ensures last.deco.tt ==> |last.tokens| > 0 && |rest[0].tokens| > 0
    ensures SafeAfter(Merge(last, rest[0]), rest[1..])
  {
    MergeSafeTail(rest);
  }

  lemma WellFormedTail(doc: seq<Part>)
    requires |doc| > 0 && WellFormed(doc)
    ensures WellFormed(doc[1..])
    ensures doc[0].deco.tt ==> |doc[0].tokens| == 1
  {
    assert forall i :: 0 <= i < |doc[1..]| ==> doc[1..][i] == doc[i + 1];
  }

  /** Merging `cur` into the kept run `last`: typewriter text glues the
      first tokens together, other runs append the token lists. */
  function Merge(last: Part, cur: Part): (m: Part)
    requires last.deco.tt ==> |last.tokens| > 0 && |cur.tokens| > 0
  {
    if last.deco.tt then Part(last.deco, [last.tokens[0] + cur.tokens[0]] + last.tokens[1..])
    else Part(last.deco, last.tokens + cur.tokens)
  }

  /** The loop of `Compact` with `last` the run currently kept. */
  function CompactFrom(last: Part, rest: seq<Part>): (r: seq<Part>)
    requires SafeAfter(last, rest)
    ensures 1 <= |r| <= 1 + |rest|
    ensures r[0].deco == last.deco
    ensures NoAdjacentEquals(r)
    decreases |rest|
  {
    if |rest| == 0 then [last]
    else
      if Equals(last.deco, rest[0].deco) then
        SafeAfterMerge(last, rest);
        CompactFrom(Merge(last, rest[0]), rest[1..])
      else
        MergeSafeTail(rest);
        [last] + CompactFrom(rest[0], rest[1..])
  }

  /** `Compact` on a non-empty document. */
  function Compact(doc: seq<Part>): (r: seq<Part>)
    requires |doc| > 0
    requires MergeSafe(doc)
    ensures 1 <= |r| <= |doc|
    ensures NoAdjacentEquals(r)
    ensures r[0].deco == doc[0].deco
  {
    MergeSafeTail(doc);
    CompactFrom(doc[0], doc[1..])
  }

  /** The runs' decorations, in order. */
  function Decos(doc: seq<Part>): (ds: seq<Decoration>)
    ensures |ds| == |doc|
    ensures forall i :: 0 <= i < |doc| ==> ds[i] == doc[i].deco
  {
    if |doc| == 0 then [] else [doc[0].deco] + Decos(doc[1..])
  }

  /** The decorations at which a new group of `Equals` neighbours starts,
      after a run decorated `prev`. */
  function Breaks(prev: Decoration, rest: seq<Part>): seq<Decoration>
    decreases |rest|
  {
    if |rest| == 0 then []
    else (if Equals(prev, rest[0].deco) then [] else [rest[0].deco]) + Breaks(rest[0].deco, rest[1..])
  }

  /** The decoration of the first run of every maximal group of `Equals`
      neighbours. */
  function GroupHeads(doc: seq<Part>): seq<Decoration>
    requires |doc| > 0
  {
    [doc[0].deco] + Breaks(doc[0].deco, doc[1..])
  }

  lemma {:induction false} CompactFromDecos(last: Part, prev: Decoration, rest: seq<Part>)
    requires SafeAfter(last, rest)
    requires Equals(last.deco, prev)
    ensures Decos(CompactFrom(last, rest)) == [last.deco] + Breaks(prev, rest)
    decreases |rest|
  {
    if |rest| == 0 {
    } else {
      if Equals(last.deco, rest[0].deco) {
        SafeAfterMerge(last, rest);
        var m := Merge(last, rest[0]);
        CompactFromDecos(m, rest[0].deco, rest[1..]);
      } else {
        MergeSafeTail(rest);
        CompactFromDecos(rest[0], rest[0].deco, rest[1..]);
        var r := CompactFrom(rest[0], rest[1..]);
        assert ([last] + r)[1..] == r;
      }
    }
  }

  /** `Compact` keeps exactly one run per maximal group of `Equals`
      neighbours, decorated as the group's first run. */
  lemma CompactKeepsGroupHeads(doc: seq<Part>)
    requires |doc| > 0
    requires MergeSafe(doc)
    ensures Decos(Compact(doc)) == GroupHeads(doc)
  {
    MergeSafeTail(doc);
    CompactFromDecos(doc[0], doc[0].deco, doc[1..]);
  }

  /** All tokens of the document, in order. */
  function AllTokens(doc: seq<Part>): seq<string>
  {
    if |doc| == 0 then [] else doc[0].tokens + AllTokens(doc[1..])
  }

  /** All characters of the document's tokens, in order. */
  function AllText(doc: seq<Part>): string
  {
    if |doc| == 0 then "" else Concat(doc[0].tokens) + AllText(doc[1..])
  }

  predicate NoTypewriter(doc: seq<Part>)
  {
    forall i :: 0 <= i < |doc| ==> !doc[i].deco.tt
  }

  lemma {:induction false} CompactFromKeepsTokens(last: Part, rest: seq<Part>)
    requires SafeAfter(last, rest)
    requires !last.deco.tt && NoTypewriter(rest)
    ensures AllTokens(CompactFrom(last, rest)) == last.tokens + AllTokens(rest)
    ensures NoTypewriter(CompactFrom(last, rest))
    decreases |rest|
  {
    if |rest| == 0 {
    } else {
      if Equals(last.deco, rest[0].deco) {
        SafeAfterMerge(last, rest);
        var m := Merge(last, rest[0]);
        CompactFromKeepsTokens(m, rest[1..]);
      } else {
        MergeSafeTail(rest);
        CompactFromKeepsTokens(rest[0], rest[1..]);
        var r := CompactFrom(rest[0], rest[1..]);
        assert ([last] + r)[1..] == r;
      }
    }
  }

  /** Without typewriter runs, compaction keeps the token list exactly. */
  lemma CompactKeepsTokens(doc: seq<Part>)
    requires |doc| > 0
    requires MergeSafe(doc) && NoTypewriter(doc)
    ensures AllTokens(Compact(doc)) == AllTokens(doc)
    ensures NoTypewriter(Compact(doc))
  {
    MergeSafeTail(doc);
    CompactFromKeepsTokens(doc[0], doc[1..]);
  }

  /** A merge keeps the characters of both runs, in order. */
  lemma MergeKeepsText(last: Part, cur: Part)
    requires last.deco.tt ==> |last.tokens| == 1 && |cur.tokens| == 1
    ensures Concat(Merge(last, cur).tokens) == Concat(last.tokens) + Concat(cur.tokens)
    ensures last.deco.tt ==> |Merge(last, cur).tokens| == 1
  {
    if last.deco.tt {
      assert last.tokens == [last.tokens[0]] && cur.tokens == [cur.tokens[0]];
      assert Merge(last, cur).tokens == [last.tokens[0] + cur.tokens[0]];
    } else {
      ConcatAppend(last.tokens, cur.tokens);
    }
  }

  lemma WellFormedCons(p: Part, doc: seq<Part>)
    requires WellFormed(doc) && (p.deco.tt ==> |p.tokens| == 1)
    ensures WellFormed([p] + doc)
  {
    var d := [p] + doc;
    forall i | 0 < i < |d|
      ensures d[i] == doc[i - 1]
    {
    }
  }

  lemma AllTextCons(p: Part, doc: seq<Part>)
    ensures AllText([p] + doc) == Concat(p.tokens) + AllText(doc)
  {
    assert ([p] + doc)[1..] == doc;
  }

  /** The text after a merge, regrouped. */
  lemma MergeStepText(a: string, b: string, c: string, x: string, y: string)
    requires x == (a + b) + c && y == b + c
    ensures x == a + y
  {
  }

  lemma {:induction false} CompactFromWellFormed(last: Part, rest: seq<Part>)
    requires SafeAfter(last, rest)
    requires WellFormed(rest) && (last.deco.tt ==> |last.tokens| == 1)
    ensures WellFormed(CompactFrom(last, rest))
    decreases |rest|
  {
    if |rest| == 0 {
    } else {
      WellFormedTail(rest);
      if Equals(last.deco, rest[0].deco) {
        SafeAfterMerge(last, rest);
        MergeKeepsText(last, rest[0]);
        CompactFromWellFormed(Merge(last, rest[0]), rest[1..]);
      } else {
        MergeSafeTail(rest);
        CompactFromWellFormed(rest[0], rest[1..]);
        WellFormedCons(last, CompactFrom(rest[0], rest[1..]));
      }
    }
  }

  lemma {:induction false} CompactFromKeepsText(last: Part, rest: seq<Part>)
    requires SafeAfter(last, rest)
    requires WellFormed(rest) && (last.deco.tt ==> |last.tokens| == 1)
    ensures AllText(CompactFrom(last, rest)) == Concat(last.tokens) + AllText(rest)
    decreases |rest|
  {
    if |rest| == 0 {
    } else {
      WellFormedTail(rest);
      if Equals(last.deco, rest[0].deco) {
        SafeAfterMerge(last, rest);
        var m := Merge(last, rest[0]);
        MergeKeepsText(last, rest[0]);
        CompactFromKeepsText(m, rest[1..]);
        MergeStepText(Concat(last.tokens), Concat(rest[0].tokens), AllText(rest[1..]),
          AllText(CompactFrom(m, rest[1..])), AllText(rest));
      } else {
        MergeSafeTail(rest);
        CompactFromKeepsText(rest[0], rest[1..]);
        AllTextCons(last, CompactFrom(rest[0], rest[1..]));
      }
    }
  }

  /** For well-formed documents, compaction keeps the text character for
      character (typewriter merges glue their tokens) and keeps the document
      well-formed. */
  lemma CompactKeepsText(doc: seq<Part>)
    requires |doc| > 0
    requires MergeSafe(doc) && WellFormed(doc)
    ensures AllText(Compact(doc)) == AllText(doc)
    ensures WellFormed(Compact(doc))
  {
    MergeSafeTail(doc);
    WellFormedTail(doc);
    CompactFromKeepsText(doc[0], doc[1..]);
    CompactFromWellFormed(doc[0], doc[1..]);
  }

  /** A document with no `Equals` neighbours is left as it is; in
      particular empty runs are not dropped. */
  lemma {:induction false} CompactFixesCompacted(doc: seq<Part>)
    requires |doc| > 0
    requires NoAdjacentEquals(doc)
    ensures MergeSafe(doc)
    ensures Compact(doc) == doc
    decreases |doc|
  {
    if |doc| > 1 {
      var rest := doc[1..];
      assert NoAdjacentEquals(rest) by {
        forall i | 0 < i < |rest|
          ensures !Equals(rest[i - 1].deco, rest[i].deco)
        {
          assert rest[i - 1] == doc[i] && rest[i] == doc[i + 1];
        }
      }
      CompactFixesCompacted(rest);
      assert [doc[0]] + rest == doc;
      assert [rest[0]] + rest[1..] == rest;
      assert !Equals(doc[0].deco, rest[0].deco) by { assert doc[1] == rest[0]; }
    }
  }

  /** Compacting twice is compacting once. */
  lemma CompactIdempotent(doc: seq<Part>)
    requires |doc| > 0
    requires MergeSafe(doc)
    ensures MergeSafe(Compact(doc))
    ensures Compact(Compact(doc)) == Compact(doc)
  {
    CompactFixesCompacted(Compact(doc));
  }

  /** How many of the runs in `rest` still belong to the group of a run
      decorated `head`: the longest stretch at the front of `rest` whose
      runs are all `Equals` to `head`. */
  function Lead(head: Decoration, rest: seq<Part>): (n: nat)
    ensures n <= |rest|
    ensures forall i :: 0 <= i < n ==> Equals(head, rest[i].deco)
    ensures n < |rest| ==> !Equals(head, rest[n].deco)
    decreases |rest|
  {
    if |rest| == 0 || !Equals(head, rest[0].deco) then 0 else 1 + Lead(head, rest[1..])
  }

  /** A run's first token, or "" when it has none. */
  function FirstToken(p: Part): string
  {
    if |p.tokens| > 0 then p.tokens[0] else ""
  }

  /** The first tokens of the runs, glued together in order. */
  function GluedFirsts(g: seq<Part>): string
  {
    if |g| == 0 then "" else FirstToken(g[0]) + GluedFirsts(g[1..])
  }

  /** The one run a group becomes: it keeps the style of its first run
      `head`. For typewriter text the first tokens of the whole group are
      glued into one, followed by `head`'s other tokens; otherwise the tokens
      of the whole group follow each other in order. */
  function Glue(head: Part, more: seq<Part>): Part
  {
    if |more| == 0 then head
    else if head.deco.tt then
      Part(head.deco, [FirstToken(head) + GluedFirsts(more)] + (if |head.tokens| > 0 then head.tokens[1..] else []))
    else Part(head.deco, head.tokens + AllTokens(more))
  }

  /** What compaction produces, described group by group: cut the document
      into groups, each a run followed by the longest stretch of runs
      `Equals` to it, and glue each group into one run. */
  function Grouped(doc: seq<Part>): seq<Part>
    decreases |doc|
  {
    if |doc| == 0 then []
    else
      var n := Lead(doc[0].deco, doc[1..]);
      [Glue(doc[0], doc[1..n + 1])] + Grouped(doc[n + 1..])
  }

  /** Merging one more run into the kept run is gluing it in front of the
      rest of the group. */
  lemma GlueMerge(last: Part, cur: Part, more: seq<Part>)
    requires last.deco.tt ==> |last.tokens| > 0 && |cur.tokens| > 0
    ensures Glue(Merge(last, cur), more) == Glue(last, [cur] + more)
  {
    var g := [cur] + more;
    assert g[0] == cur && g[1..] == more;
    if last.deco.tt {
      assert GluedFirsts(g) == cur.tokens[0] + GluedFirsts(more);
      AppendAssoc(last.tokens[0], cur.tokens[0], GluedFirsts(more));
      if |more| == 0 {
        assert cur.tokens[0] + GluedFirsts(more) == cur.tokens[0];
      }
    } else {
      assert AllTokens(g) == cur.tokens + AllTokens(more);
      AppendAssoc(last.tokens, cur.tokens, AllTokens(more));
      if |more| == 0 {
        assert cur.tokens + AllTokens(more) == cur.tokens;
      }
    }
  }

  /** `Grouped` of a document whose first group is `head` and `rest[..n]`. */
  lemma GroupedUnfold(head: Part, rest: seq<Part>)
    ensures var n := Lead(head.deco, rest);
      Grouped([head] + rest) == [Glue(head, rest[..n])] + Grouped(rest[n..])
  {
    var doc := [head] + rest;
    assert doc[0] == head && doc[1..] == rest;
    var n := Lead(head.deco, rest);
    assert doc[1..n + 1] == rest[..n];
    assert doc[n + 1..] == rest[n..];
  }

  /** The loop of `Compact` from the kept run `last`: the group of `last`
      (and the runs of `rest` that join it) becomes one glued run, and the
      remaining runs are grouped as `Grouped` says. */
  lemma {:induction false} CompactFromGrouped(last: Part, rest: seq<Part>)
    requires SafeAfter(last, rest)
    ensures var n := Lead(last.deco, rest);
      CompactFrom(last, rest) == [Glue(last, rest[..n])] + Grouped(rest[n..])
    decreases |rest|
  {
    if |rest| > 0 {
      if Equals(last.deco, rest[0].deco) {
        SafeAfterMerge(last, rest);
        var m := Merge(last, rest[0]);
        CompactFromGrouped(m, rest[1..]);
        JoinGroup(last, rest, CompactFrom(m, rest[1..]));
      } else {
        MergeSafeTail(rest);
        CompactFromGrouped(rest[0], rest[1..]);
        NewGroup(last, rest, CompactFrom(rest[0], rest[1..]));
      }
    }
  }

  /** A run `Equals` to the kept run joins its group. */
  lemma JoinGroup(last: Part, rest: seq<Part>, r: seq<Part>)
    requires |rest| > 0 && Equals(last.deco, rest[0].deco)
    requires last.deco.tt ==> |last.tokens| > 0 && |rest[0].tokens| > 0
    requires var n' := Lead(last.deco, rest[1..]);
      r == [Glue(Merge(last, rest[0]), rest[1..][..n'])] + Grouped(rest[1..][n'..])
    ensures var n := Lead(last.deco, rest);
      r == [Glue(last, rest[..n])] + Grouped(rest[n..])
  {
    var n' := Lead(last.deco, rest[1..]);
    LeadStep(last.deco, rest);
    GroupSlices(rest, n' + 1);
    GlueMerge(last, rest[0], rest[1..][..n']);
  }

  lemma LeadStep(head: Decoration, rest: seq<Part>)
    requires |rest| > 0 && Equals(head, rest[0].deco)
    ensures Lead(head, rest) == 1 + Lead(head, rest[1..])
  {
  }

  /** The first `n` elements are the head and the next `n - 1`. */
  lemma GroupSlices<T>(rest: seq<T>, n: nat)
    requires 1 <= n <= |rest|
    ensures rest[..n] == [rest[0]] + rest[1..][..n - 1]
    ensures rest[1..][n - 1..] == rest[n..]
  {
  }

  /** A run not `Equals` to the kept run starts the next group. */
  lemma NewGroup(last: Part, rest: seq<Part>, r: seq<Part>)
    requires |rest| > 0 && !Equals(last.deco, rest[0].deco)
    requires var n' := Lead(rest[0].deco, rest[1..]);
      r == [Glue(rest[0], rest[1..][..n'])] + Grouped(rest[1..][n'..])
    ensures var n := Lead(last.deco, rest);
      [last] + r == [Glue(last, rest[..n])] + Grouped(rest[n..])
  {
    GroupedUnfold(rest[0], rest[1..]);
    assert [rest[0]] + rest[1..] == rest;
    assert rest[..0] == [] && rest[0..] == rest;
  }

  /** `Compact` is `Grouped`: every output run is one group of the input
      glued together, so which tokens end up in which run is fixed. */
  lemma CompactMatchesGrouped(doc: seq<Part>)
    requires |doc| > 0
    requires MergeSafe(doc)
    ensures Compact(doc) == Grouped(doc)
  {
    MergeSafeTail(doc);
    CompactFromGrouped(doc[0], doc[1..]);
    GroupedUnfold(doc[0], doc[1..]);
    assert [doc[0]] + doc[1..] == doc;
  }
}
