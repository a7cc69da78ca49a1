/** Facts about sequences and finite sets, stated apart so that proofs can name them. */
module Collections {
  lemma ConcatCons<T>(a: seq<T>, b: seq<T>)
    requires a != []
    ensures a + b == [a[0]] + (a[1..] + b)
  {
  }

  lemma ConcatAssoc<T>(a: seq<T>, b: seq<T>, c: seq<T>)
    ensures a + (b + c) == (a + b) + c
  {
  }

  lemma ConsDrop<T>(x: T, a: seq<T>, n: nat)
    requires n <= |a|
    ensures ([x] + a)[1..] == a && ([x] + a)[1 + n..] == a[n..]
  {
  }

  lemma {:induction false} SubsetSize<T>(a: set<T>, b: set<T>)
    requires a <= b
    ensures |a| <= |b|
  {
    if a != {} {
      var x :| x in a;
      SubsetSize(a - {x}, b - {x});
    }
  }
}
