/** The two stacks of doc/doc.go (`Stack` of decorations, `StackStr` of tag
    names), both kept as a sequence whose last element is the top. */
module Stacks {

  predicate Empty<T>(s: seq<T>)
  {
    |s| == 0
  }

  /** The top element (`Peek`, and the value `Pop` returns). */
  function Peek<T>(s: seq<T>): T
    requires |s| > 0
  {
    s[|s| - 1]
  }

  /** What `Pop` leaves behind. */
  function Below<T>(s: seq<T>): (r: seq<T>)
    requires |s| > 0
    ensures |r| == |s| - 1
    ensures s == r + [Peek(s)]
  {
    s[..|s| - 1]
  }

  /** `Push`: popping right after pushing gives back the element and the
      stack pushed onto. */
  function Push<T>(s: seq<T>, x: T): (r: seq<T>)
    ensures |r| == |s| + 1
    ensures Peek(r) == x && Below(r) == s
  {
    s + [x]
  }
}
