/** Counting the set ones among marks kept as integers. */
module Marks {

  function Count(marks: seq<int>): nat
  {
    if marks == [] then 0
    else Count(marks[..|marks| - 1]) + if marks[|marks| - 1] != 0 then 1 else 0
  }

  lemma {:induction false} CountConcat(a: seq<int>, b: seq<int>)
    ensures Count(a + b) == Count(a) + Count(b)
  {
    if b == [] {
      assert a + b == a;
    } else {
      assert (a + b)[..|a + b| - 1] == a + b[..|b| - 1];
      CountConcat(a, b[..|b| - 1]);
    }
  }
}
