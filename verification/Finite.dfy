// Sizes of finite sets.
module FiniteSets {

  lemma {:induction false} SubsetSize<T>(a: set<T>, b: set<T>)
    requires a <= b
    ensures |a| <= |b|
  {
    if a != {} {
      var x :| x in a;
      SubsetSize(a - {x}, b - {x});
    }
  }

  // A map that is injective on `from` and sends it into `to`.
  lemma {:induction false} InjectionSize<K(!new), V(!new)>(from: set<K>, to: set<V>, m: map<K, V>)
    requires from <= m.Keys && forall k :: k in from ==> m[k] in to
    requires forall k, k' :: k in from && k' in from && m[k] == m[k'] ==> k == k'
    ensures |from| <= |to|
  {
    if from != {} {
      var k :| k in from;
      InjectionSize(from - {k}, to - {m[k]}, m);
    }
  }

  ghost function Below(n: nat): (below: set<nat>)
    ensures forall b: nat :: b in below <==> b < n
    ensures |below| == n
  {
    if n == 0 then {} else Below(n - 1) + {n - 1}
  }

  ghost function Members(q: seq<nat>): set<nat> {
    set b | b in q
  }

  lemma {:induction false} CountMembers(q: seq<nat>)
    requires forall i, j :: 0 <= i < j < |q| ==> q[i] != q[j]
    ensures |Members(q)| == |q|
  {
    if |q| == 0 {
      assert Members(q) == {};
    } else {
      var front, last := q[..|q| - 1], q[|q| - 1];
      CountMembers(front);
      assert q == front + [last];
      assert last !in Members(front);
      assert Members(q) == Members(front) + {last};
    }
  }
}
