/** Lists of lists laid end to end. */
module Sequences {

  function Concat<T>(segments: seq<seq<T>>): seq<T> {
    if segments == [] then [] else Concat(segments[..|segments| - 1]) + segments[|segments| - 1]
  }

  lemma {:induction false} ConcatSnoc<T>(segments: seq<seq<T>>, last: seq<T>)
    ensures Concat(segments + [last]) == Concat(segments) + last
  {
    assert (segments + [last])[..|segments|] == segments;
  }

  lemma Associates<T>(a: seq<T>, b: seq<T>, c: seq<T>)
    ensures a + b + c == a + (b + c)
  {
  }

  /** The slices of three parts. */
  lemma Slices<T>(a: seq<T>, b: seq<T>, c: seq<T>)
    ensures var s := a + b + c;
      s[..|a|] == a && s[|a|..|a| + |b|] == b && s[|a| + |b|..] == c && |s| == |a| + |b| + |c|
  {
  }

  lemma Splits<T>(s: seq<T>, i: nat, j: nat)
    requires i <= j <= |s|
    ensures s == s[..i] + s[i..j] + s[j..]
  {
  }

  /** Moving the first element of `b` to the end of `a`. */
  lemma ShiftOne<T>(a: seq<T>, b: seq<T>)
    requires b != []
    ensures a + [b[0]] + b[1..] == a + b
  {
  }

  /** Element `x` of segment `i` has its place in the whole, before everything in later segments. */
  lemma {:induction false} ConcatOrder<T>(segments: seq<seq<T>>, i: nat, x: nat, j: nat, y: nat)
    returns (p: nat, q: nat)
    requires i < j < |segments| && x < |segments[i]| && y < |segments[j]|
    ensures p < q < |Concat(segments)| && Concat(segments)[p] == segments[i][x] && Concat(segments)[q] == segments[j][y]
  {
    var n := |segments| - 1;
    if j < n {
      p, q := ConcatOrder(segments[..n], i, x, j, y);
    } else {
      p := ConcatPlace(segments[..n], i, x);
      q := |Concat(segments[..n])| + y;
    }
  }

  lemma {:induction false} ConcatPlace<T>(segments: seq<seq<T>>, i: nat, x: nat) returns (p: nat)
    requires i < |segments| && x < |segments[i]|
    ensures p < |Concat(segments)| && Concat(segments)[p] == segments[i][x]
  {
    var n := |segments| - 1;
    if i < n {
      p := ConcatPlace(segments[..n], i, x);
    } else {
      p := |Concat(segments[..n])| + x;
    }
  }

  lemma {:induction false} ConcatSource<T>(segments: seq<seq<T>>, p: nat) returns (i: nat, x: nat)
    requires p < |Concat(segments)|
    ensures i < |segments| && x < |segments[i]| && Concat(segments)[p] == segments[i][x]
  {
    var n := |segments| - 1;
    if p < |Concat(segments[..n])| {
      i, x := ConcatSource(segments[..n], p);
    } else {
      i, x := n, p - |Concat(segments[..n])|;
    }
  }
}
