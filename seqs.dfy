/**
  Facts about sequence concatenation that the methods over traces and
  byte streams need. They are stated apart so that each is proved on its
  own, outside the large contexts of the methods that use them.
*/
module Seqs {

  lemma SeqAssoc<T>(a: seq<T>, b: seq<T>, c: seq<T>)
    ensures a + b + c == a + (b + c)
  {
  }

  lemma ConsAppend<T>(xs: seq<T>, ys: seq<T>)
    requires xs != []
    ensures [xs[0]] + (xs[1..] + ys) == xs + ys
  {
  }

  lemma SnocAppend<T>(xs: seq<T>, x: T, ys: seq<T>)
    ensures xs + ([x] + ys) == (xs + [x]) + ys
  {
  }

  lemma PrefixAndRest<T>(front: seq<T>, rest: seq<T>)
    ensures forall i :: 0 <= i < |front| ==> (front + rest)[i] == front[i]
    ensures forall i :: |front| <= i < |front| + |rest| ==> (front + rest)[i] == rest[i - |front|]
  {
  }
}
