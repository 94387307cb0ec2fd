/** Text paths split at their '/' separators. */
module PathText {

  /** The pieces of s between '/' separators, in order; consecutive,
      leading and trailing separators give empty pieces. */
  function Split(s: string): (r: seq<string>)
    ensures |r| >= 1
    ensures forall i :: 0 <= i < |r| ==> '/' !in r[i]
    decreases |s|
  {
    if s == [] then [""]
    else
      var rest := Split(s[1..]);
      if s[0] == '/' then [""] + rest else [[s[0]] + rest[0]] + rest[1..]
  }

  /** Splitting at a separator splits each side. */
  lemma {:induction false} SplitConcat(a: string, b: string)
    ensures Split(a + "/" + b) == Split(a) + Split(b)
    decreases |a|
  {
    var s := a + "/" + b;
    if a == [] {
      assert s[1..] == b;
    } else {
      assert s[1..] == a[1..] + "/" + b;
      SplitConcat(a[1..], b);
    }
  }

  /** Text without a separator is a single piece. */
  lemma {:induction false} SplitName(x: string)
    requires '/' !in x
    ensures Split(x) == [x]
    decreases |x|
  {
    if x != [] {
      SplitName(x[1..]);
      assert [x[0]] + x[1..] == x;
    }
  }
}
