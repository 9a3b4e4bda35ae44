/** List helpers the reconciliation relies on. */
module Seqs {

  /** util.IndexOfString: the first index of `x` in `s`, or -1. */
  function IndexOf(s: seq<string>, x: string): (r: int)
    ensures -1 <= r < |s|
    ensures r == -1 <==> x !in s
    ensures 0 <= r ==> s[r] == x && x !in s[..r]
  {
    if s == [] then -1
    else if s[0] == x then 0
    else
      var k := IndexOf(s[1..], x);
      if k == -1 then -1 else k + 1
  }

  /** The elements of `xs` that do not occur in `ys`, in the order of `xs`. */
  function Minus(xs: seq<string>, ys: seq<string>): seq<string>
    decreases |xs|
  {
    if xs == [] then []
    else
      var last := xs[|xs| - 1];
      Minus(xs[..|xs| - 1], ys) + (if last in ys then [] else [last])
  }

  lemma {:induction false} MinusMembers(xs: seq<string>, ys: seq<string>, x: string)
    decreases |xs|
    ensures x in Minus(xs, ys) <==> x in xs && x !in ys
  {
    if xs != [] {
      var init := xs[..|xs| - 1];
      MinusMembers(init, ys, x);
      assert xs == init + [xs[|xs| - 1]];
    }
  }

  lemma {:induction false} MinusNoDup(xs: seq<string>, ys: seq<string>)
    requires forall i, j :: 0 <= i < j < |xs| ==> xs[i] != xs[j]
    decreases |xs|
    ensures var d := Minus(xs, ys); forall i, j :: 0 <= i < j < |d| ==> d[i] != d[j]
  {
    if xs != [] {
      var init := xs[..|xs| - 1];
      var last := xs[|xs| - 1];
      MinusNoDup(init, ys);
      MinusMembers(init, ys, last);
      assert last !in init;
    }
  }

  /** Both differences are empty exactly when the two lists hold the same names. */
  lemma MinusEmptyBothWays(xs: seq<string>, ys: seq<string>)
    ensures (Minus(xs, ys) == [] && Minus(ys, xs) == []) <==> (forall x :: x in xs <==> x in ys)
  {
    if Minus(xs, ys) == [] && Minus(ys, xs) == [] {
      forall x ensures x in xs <==> x in ys {
        MinusMembers(xs, ys, x);
        MinusMembers(ys, xs, x);
      }
    }
    if forall x :: x in xs <==> x in ys {
      if Minus(xs, ys) != [] {
        var x := Minus(xs, ys)[0];
        MinusMembers(xs, ys, x);
      }
      if Minus(ys, xs) != [] {
        var x := Minus(ys, xs)[0];
        MinusMembers(ys, xs, x);
      }
    }
  }
}
