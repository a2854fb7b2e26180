/** Sequences of thread actions shared by the step machines. */
module Schedules {

  ghost function Repeat<A>(a: A, n: nat): (acts: seq<A>)
    ensures |acts| == n
  {
    seq(n, _ => a)
  }

  lemma RepeatFront<A>(a: A, n: nat)
    requires n > 0
    ensures Repeat(a, n)[0] == a && Repeat(a, n)[1..] == Repeat(a, n - 1)
  {
  }
}
