/** Character-sequence helpers standing in for the parts of Go's `strings`
    package the source uses: `IndexRune`, `Join` with a separator, and
    concatenation of a list of strings. */
module Strs {

  /** Index of the first occurrence of `c` in `s`, or -1 when there is none
      (`strings.IndexRune`). */
  function IndexOf(s: string, c: char): (r: int)
    ensures -1 <= r < |s|
    ensures r == -1 <==> c !in s
    ensures r >= 0 ==> s[r] == c && c !in s[..r]
  {
    if |s| == 0 then -1
    else if s[0] == c then 0
    else
      var k := IndexOf(s[1..], c);
      if k == -1 then -1
      else
        assert s[..k + 1] == [s[0]] + s[1..][..k];
        k + 1
  }

  /** Concatenation of a list of strings with no separator. */
  function Concat(ss: seq<string>): string
  {
    if |ss| == 0 then "" else ss[0] + Concat(ss[1..])
  }

  lemma AppendAssoc<T>(a: seq<T>, b: seq<T>, c: seq<T>)
    ensures (a + b) + c == a + (b + c)
  {
  }

  /** Concatenating a list with one more string in front. */
  lemma ConcatCons(t: string, ts: seq<string>)
    ensures Concat([t] + ts) == t + Concat(ts)
  {
    assert ([t] + ts)[1..] == ts;
  }

  lemma {:induction false} ConcatAppend(a: seq<string>, b: seq<string>)
    ensures Concat(a + b) == Concat(a) + Concat(b)
  {
    if |a| == 0 {
      assert a + b == b;
    } else {
      assert (a + b)[1..] == a[1..] + b;
      ConcatAppend(a[1..], b);
    }
  }

  /** `strings.Join(ss, " ")`. */
  function Join(ss: seq<string>): string
  {
    if |ss| == 0 then ""
    else if |ss| == 1 then ss[0]
    else ss[0] + " " + Join(ss[1..])
  }

  /** A join ends with its last piece, and a space comes just before that
      piece when there is more than one. */
  lemma {:induction false} JoinEnd(ss: seq<string>)
    requires |ss| >= 1
    ensures var j, l := Join(ss), ss[|ss| - 1];
      && |j| >= |l| && j[|j| - |l|..] == l
      && (|ss| == 1 ==> j == l)
      && (|ss| > 1 ==> |j| > |l| && j[|j| - |l| - 1] == ' ')
    decreases |ss|
  {
    if |ss| > 1 {
      var rest := ss[1..];
      JoinEnd(rest);
      assert rest[|rest| - 1] == ss[|ss| - 1];
      var j, l := Join(ss), ss[|ss| - 1];
      var pre := ss[0] + " ";
      assert j == pre + Join(rest);
      assert j[|j| - |l|..] == Join(rest)[|Join(rest)| - |l|..];
      if |rest| > 1 {
        assert j[|j| - |l| - 1] == Join(rest)[|Join(rest)| - |l| - 1];
      } else {
        assert Join(rest) == l;
        assert j[|j| - |l| - 1] == pre[|pre| - 1];
      }
    }
  }

  /** A join starts with its first piece, and a space follows that piece
      when there is more than one. */
  lemma JoinStart(ss: seq<string>)
    requires |ss| >= 1
    ensures var j, f := Join(ss), ss[0];
      && |j| >= |f| && j[..|f|] == f
      && (|ss| == 1 ==> j == f)
      && (|ss| > 1 ==> |j| > |f| && j[|f|] == ' ')
  {
    if |ss| > 1 {
      assert Join(ss) == ss[0] + " " + Join(ss[1..]);
    }
  }

  /** With no space inside any piece, the first (last) piece is empty
      exactly when the join is empty or starts (ends) with a space. */
  lemma JoinEdges(ss: seq<string>)
    requires |ss| >= 1
    requires forall k :: 0 <= k < |ss| ==> ' ' !in ss[k]
    ensures var j := Join(ss);
      && (|ss[0]| == 0 <==> |j| == 0 || j[0] == ' ')
      && (|ss[|ss| - 1]| == 0 <==> |j| == 0 || j[|j| - 1] == ' ')
  {
    var j, f, l := Join(ss), ss[0], ss[|ss| - 1];
    JoinStart(ss);
    JoinEnd(ss);
    if |f| > 0 {
      assert j[0] == f[0];
    }
    if |l| > 0 {
      assert j[|j| - 1] == l[|l| - 1];
    }
  }

  /** Locating a character that does not occur in the prefix. */
  lemma IndexOfAppend(a: string, b: string, c: char)
    requires c !in a
    ensures IndexOf(a + b, c) == (if IndexOf(b, c) == -1 then -1 else |a| + IndexOf(b, c))
  {
    var k := IndexOf(b, c);
    if k == -1 {
      assert c !in a + b;
    } else {
      assert (a + b)[|a| + k] == c;
      assert (a + b)[..|a| + k] == a + b[..k];
    }
  }
}
