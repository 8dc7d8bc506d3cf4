/** Sequences of values that came out of a buffer, each with a flag that says in which way. */
module Histories {

  function Values<T>(outs: seq<(T, bool)>): (r: seq<T>)
    ensures |r| == |outs| && forall i :: 0 <= i < |r| ==> r[i] == outs[i].0
  {
    seq(|outs|, i requires 0 <= i < |outs| => outs[i].0)
  }

  /** The values that came out one way: read (true) or overwritten (false). */
  function Only<T>(outs: seq<(T, bool)>, read: bool): seq<T> {
    if outs == [] then []
    else
      var front, last := outs[..|outs| - 1], outs[|outs| - 1];
      if last.1 == read then Only(front, read) + [last.0] else Only(front, read)
  }

  /** `a` can be got from `b` by leaving out elements. */
  predicate InOrder<T(==)>(a: seq<T>, b: seq<T>) {
    a == [] ||
    (b != [] && ((a[|a| - 1] == b[|b| - 1] && InOrder(a[..|a| - 1], b[..|b| - 1])) || InOrder(a, b[..|b| - 1])))
  }

  lemma {:induction false} OnlyInOrder<T>(outs: seq<(T, bool)>, read: bool)
    ensures InOrder(Only(outs, read), Values(outs))
    ensures |Only(outs, true)| + |Only(outs, false)| == |outs|
  {
    if outs != [] {
      var front, last := outs[..|outs| - 1], outs[|outs| - 1];
      OnlyInOrder(front, read);
      assert Values(outs)[..|outs| - 1] == Values(front);
      if last.1 == read {
        assert (Only(front, read) + [last.0])[..|Only(front, read)|] == Only(front, read);
      }
    }
  }

  lemma {:induction false} InOrderOfLonger<T>(a: seq<T>, b: seq<T>, c: seq<T>)
    requires InOrder(a, b)
    ensures InOrder(a, b + c)
  {
    if c == [] {
      assert b + c == b;
    } else {
      InOrderOfLonger(a, b, c[..|c| - 1]);
      assert (b + c)[..|b + c| - 1] == b + c[..|c| - 1];
    }
  }

  lemma ValuesSnoc<T>(outs: seq<(T, bool)>, x: (T, bool))
    ensures Values(outs + [x]) == Values(outs) + [x.0]
  {
  }

  lemma InOrderSnoc<T>(a: seq<T>, b: seq<T>, x: T)
    requires InOrder(a, b)
    ensures InOrder(a + [x], b + [x]) && InOrder(a, b + [x])
  {
    InOrderOfLonger(a, b, [x]);
    assert (a + [x])[..|a + [x]| - 1] == a && (b + [x])[..|b + [x]| - 1] == b;
  }

  lemma {:induction false} InOrderLength<T>(a: seq<T>, b: seq<T>)
    requires InOrder(a, b)
    ensures |a| <= |b| && (|a| == |b| ==> a == b)
  {
    if a != [] {
      if a[|a| - 1] == b[|b| - 1] && InOrder(a[..|a| - 1], b[..|b| - 1]) {
        InOrderLength(a[..|a| - 1], b[..|b| - 1]);
        assert a == a[..|a| - 1] + [a[|a| - 1]] && b == b[..|b| - 1] + [b[|b| - 1]];
      } else {
        InOrderLength(a, b[..|b| - 1]);
      }
    }
  }

  lemma {:induction false} InOrderTransitive<T>(a: seq<T>, b: seq<T>, c: seq<T>)
    requires InOrder(a, b) && InOrder(b, c)
    ensures InOrder(a, c)
    decreases |c|
  {
    if a != [] {
      var b', c' := b[..|b| - 1], c[..|c| - 1];
      if !(b[|b| - 1] == c[|c| - 1] && InOrder(b', c')) {
        InOrderTransitive(a, b, c');
      } else if a[|a| - 1] == b[|b| - 1] && InOrder(a[..|a| - 1], b') {
        InOrderTransitive(a[..|a| - 1], b', c');
      } else {
        InOrderTransitive(a, b', c');
      }
    }
  }

  lemma {:induction false} InOrderWithout<T>(a: seq<T>, x: T, c: seq<T>, b: seq<T>)
    requires InOrder(a + [x] + c, b)
    ensures InOrder(a + c, b)
    decreases |b|
  {
    var s, b' := a + [x] + c, b[..|b| - 1];
    assert b == b' + [b[|b| - 1]];
    if !(s[|s| - 1] == b[|b| - 1] && InOrder(s[..|s| - 1], b')) {
      InOrderWithout(a, x, c, b');
      InOrderSnoc(a + c, b', b[|b| - 1]);
    } else if c == [] {
      assert s[..|s| - 1] == a == a + c;
      InOrderSnoc(a, b', b[|b| - 1]);
    } else {
      var c' := c[..|c| - 1];
      assert s[..|s| - 1] == a + [x] + c' && a + c == a + c' + [c[|c| - 1]];
      InOrderWithout(a, x, c', b');
      InOrderSnoc(a + c', b', b[|b| - 1]);
    }
  }

  lemma {:induction false} InOrderPrefix<T>(a: seq<T>, c: seq<T>, b: seq<T>)
    requires InOrder(a + c, b)
    ensures InOrder(a, b)
    decreases |c|
  {
    if c == [] {
      assert a + c == a;
    } else {
      var c', x := c[..|c| - 1], c[|c| - 1];
      assert a + c == (a + c') + [x] + [];
      InOrderWithout(a + c', x, [], b);
      assert a + c' + [] == a + c';
      InOrderPrefix(a, c', b);
    }
  }
}
