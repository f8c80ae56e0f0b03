/** A source file as the sequence of its lines, each line keeping its own terminator. */
module Lines {

  /** `"".join(lines)`: the text spanned by a run of lines. */
  function Join(lines: seq<string>): string
  {
    if |lines| == 0 then "" else lines[0] + Join(lines[1..])
  }

  /** Joining distributes over concatenation of line runs. */
  lemma {:induction false} JoinAppend(a: seq<string>, b: seq<string>)
    ensures Join(a + b) == Join(a) + Join(b)
    decreases |a|
  {
    if |a| == 0 {
      assert a + b == b;
    } else {
      assert (a + b)[1..] == a[1..] + b;
      JoinAppend(a[1..], b);
    }
  }

  /** Python's open-ended slice `lines[start:]`: empty once `start` is past the end. */
  function Tail(lines: seq<string>, start: nat): (r: seq<string>)
    ensures |r| == if start < |lines| then |lines| - start else 0
  {
    if start >= |lines| then [] else lines[start..]
  }
}
