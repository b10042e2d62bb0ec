/**
 Regrouping facts about sequence concatenation and map union that the loop
 and record proofs cite by name, so that the solver need not rediscover them.
 */
module Algebra {

  lemma Reassociate<T>(a: seq<T>, b: seq<T>, c: seq<T>)
    ensures a + (b + c) == (a + b) + c
  {
  }

  lemma Regroup(a: seq<char>, b: seq<char>, c: seq<char>, d: seq<char>, e: seq<char>)
    ensures a + b + c + d + e == a + (b + c + (d + e))
  {
  }

  lemma EmptyUnion(m: map<nat, char>)
    ensures map[] + m == m && m + map[] == m
  {
  }

  lemma MapUnion(a: map<nat, char>, b: map<nat, char>, c: map<nat, char>)
    ensures (a + b) + c == a + (b + c)
  {
  }
}
