/** Counting marks in a row of bits. */
module Bits {

  function Ones(bits: seq<bool>): (n: nat)
    ensures n <= |bits|
  {
    if bits == [] then 0 else Ones(bits[..|bits| - 1]) + if bits[|bits| - 1] then 1 else 0
  }

  lemma {:induction false} OnesCountUp(bits: seq<bool>, i: nat)
    requires i < |bits| && !bits[i]
    ensures Ones(bits[i := true]) == Ones(bits) + 1
  {
    var n := |bits| - 1;
    if i < n {
      OnesCountUp(bits[..n], i);
      assert bits[i := true][..n] == bits[..n][i := true];
    } else {
      assert bits[i := true][..n] == bits[..n];
    }
  }

  lemma {:induction false} AllOnes(bits: seq<bool>)
    ensures Ones(bits) == |bits| <==> forall i :: 0 <= i < |bits| ==> bits[i]
  {
    if bits == [] {
    } else {
      AllOnes(bits[..|bits| - 1]);
    }
  }

  lemma {:induction false} NoOnes(n: nat)
    ensures Ones(seq(n, _ => false)) == 0
  {
    if n == 0 {
    } else {
      NoOnes(n - 1);
      assert seq(n, _ => false)[..n - 1] == seq(n - 1, _ => false);
    }
  }
}
