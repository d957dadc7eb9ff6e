/** The priority queue as a list: where `push` inserts and what insertion keeps. */
module Queues {
  import opened Words
  import opened Packets

  /** How many packets stay ahead of `x`: the position after the last packet that goes before `x`. */
  function Slot(q: seq<Packet>, x: Packet, pol: Policy): (k: nat)
    ensures k <= |q|
    ensures k > 0 ==> pol.Before(q[k - 1], x)
    ensures forall j :: k <= j < |q| ==> !pol.Before(q[j], x)
  {
    if q == [] then 0
    else if pol.Before(q[|q| - 1], x) then |q|
    else Slot(q[..|q| - 1], x, pol)
  }

  /** `push`. */
  function Insert(q: seq<Packet>, x: Packet, pol: Policy): (r: seq<Packet>)
    ensures |r| == |q| + 1
  {
    var k := Slot(q, x, pol);
    q[..k] + [x] + q[k..]
  }

  /** In priority order, ties allowed. */
  ghost predicate Sorted(q: seq<Packet>, p: Port, pol: Policy) {
    && (forall i :: 0 <= i < |q| ==> q[i].port == p)
    && forall i, j :: 0 <= i < j < |q| ==> pol.Rank(p, q[i]) <= pol.Rank(p, q[j])
  }

  /** The slot is the only place that is behind every smaller element and ahead of all that are not smaller. */
  lemma SlotUnique(q: seq<Packet>, x: Packet, pol: Policy, k: nat)
    requires k <= |q| && (k > 0 ==> pol.Before(q[k - 1], x))
    requires forall j :: k <= j < |q| ==> !pol.Before(q[j], x)
    ensures k == Slot(q, x, pol)
  {
    var s := Slot(q, x, pol);
    if s < k || k < s {
      assert false;
    }
  }

  lemma InsertIndex(q: seq<Packet>, x: Packet, pol: Policy, i: nat)
    requires i <= |q|
    ensures var k := Slot(q, x, pol);
      Insert(q, x, pol)[i] == if i < k then q[i] else if i == k then x else q[i - 1]
  {
    InsertedAt(q, Slot(q, x, pol), x, i);
  }

  lemma BeforeIsRank(q: seq<Packet>, x: Packet, p: Port, pol: Policy, i: nat)
    requires i < |q| && q[i].port == p
    ensures pol.Before(q[i], x) <==> pol.Rank(p, q[i]) < pol.Rank(p, x)
  {
  }

  /** Insertion keeps the order, and an element equal in rank to earlier ones goes in front of them:
      the newest first. */
  lemma InsertSorted(q: seq<Packet>, x: Packet, p: Port, pol: Policy)
    requires Sorted(q, p, pol) && x.port == p
    ensures Sorted(Insert(q, x, pol), p, pol)
    ensures var k := Slot(q, x, pol);
      && (forall i :: 0 <= i < k ==> pol.Rank(p, q[i]) < pol.Rank(p, x))
      && (forall i :: k <= i < |q| ==> pol.Rank(p, x) <= pol.Rank(p, q[i]))
  {
    hide Slot, Insert;
    var k, r := Slot(q, x, pol), Insert(q, x, pol);
    forall i | 0 <= i < |q|
      ensures if i < k then pol.Rank(p, q[i]) < pol.Rank(p, x) else pol.Rank(p, x) <= pol.Rank(p, q[i])
    {
      BeforeIsRank(q, x, p, pol, i);
      if i < k {
        BeforeIsRank(q, x, p, pol, k - 1);
      }
    }
    InsertOrdered(q, x, p, pol);
  }

  lemma InsertOrdered(q: seq<Packet>, x: Packet, p: Port, pol: Policy)
    requires Sorted(q, p, pol) && x.port == p
    requires forall i :: 0 <= i < |q| ==>
      if i < Slot(q, x, pol) then pol.Rank(p, q[i]) < pol.Rank(p, x) else pol.Rank(p, x) <= pol.Rank(p, q[i])
    ensures Sorted(Insert(q, x, pol), p, pol)
  {
    var r := Insert(q, x, pol);
    forall i | 0 <= i < |r| ensures r[i].port == p {
      InsertIndex(q, x, pol, i);
    }
    forall i, j | 0 <= i < j < |r| ensures pol.Rank(p, r[i]) <= pol.Rank(p, r[j]) {
      InsertIndex(q, x, pol, i);
      InsertIndex(q, x, pol, j);
    }
  }

  lemma LoneInsert(x: Packet, pol: Policy)
    ensures Insert([], x, pol) == [x]
  {
  }

  lemma InsertMultiset(q: seq<Packet>, x: Packet, pol: Policy)
    ensures multiset(Insert(q, x, pol)) == multiset(q) + multiset{x}
  {
    var k := Slot(q, x, pol);
    SplitAt(q, k);
    assert multiset(q) == multiset(q[..k]) + multiset(q[k..]);
  }

  // ----- Packets by absolute index -----

  /** The indices of the data packets of port `p`, with multiplicity. */
  ghost function Ids(q: seq<Packet>, p: Port): multiset<nat> {
    if q == [] then multiset{}
    else Ids(q[..|q| - 1], p) + IdOf(q[|q| - 1], p)
  }

  ghost function IdOf(x: Packet, p: Port): multiset<nat> {
    if x.kind == DATA && x.port == p then multiset{x.idx} else multiset{}
  }

  lemma IdsSnoc(q: seq<Packet>, x: Packet, p: Port)
    ensures Ids(q + [x], p) == Ids(q, p) + IdOf(x, p)
  {
    SnocFront(q, x);
  }

  lemma {:induction false} IdsConcat(a: seq<Packet>, b: seq<Packet>, p: Port)
    ensures Ids(a + b, p) == Ids(a, p) + Ids(b, p)
  {
    if b == [] {
      assert a + b == a;
    } else {
      var front, x := b[..|b| - 1], b[|b| - 1];
      ConcatSnoc(a, b);
      IdsConcat(a, front, p);
      IdsSnoc(a + front, x, p);
      MultisetAssoc(Ids(a, p), Ids(front, p), IdOf(x, p));
    }
  }

  lemma IdsOne(x: Packet, p: Port)
    ensures Ids([x], p) == IdOf(x, p)
  {
    assert [x][..0] == [];
  }

  lemma IdsInsert(q: seq<Packet>, x: Packet, pol: Policy, p: Port)
    ensures Ids(Insert(q, x, pol), p) == Ids(q, p) + IdOf(x, p)
  {
    var k := Slot(q, x, pol);
    SplitAt(q, k);
    IdsConcat(q[..k], q[k..], p);
    IdsConcat(q[..k] + [x], q[k..], p);
    IdsConcat(q[..k], [x], p);
    IdsOne(x, p);
  }

  /** Taking packet `k` out of a bag. */
  lemma IdsRemove(q: seq<Packet>, k: nat, p: Port)
    requires k < |q|
    ensures Ids(q, p) == Ids(q[..k] + q[k + 1..], p) + IdOf(q[k], p)
  {
    assert q == q[..k] + ([q[k]] + q[k + 1..]);
    IdsConcat(q[..k], [q[k]] + q[k + 1..], p);
    IdsConcat([q[k]], q[k + 1..], p);
    IdsOne(q[k], p);
    IdsConcat(q[..k], q[k + 1..], p);
  }

  lemma {:induction false} IdsMember(q: seq<Packet>, k: nat, p: Port)
    requires k < |q| && q[k].kind == DATA && q[k].port == p
    ensures q[k].idx in Ids(q, p)
  {
    IdsRemove(q, k, p);
  }

  lemma {:induction false} IdsWitness(q: seq<Packet>, p: Port, i: nat)
    requires i in Ids(q, p)
    ensures exists k :: 0 <= k < |q| && q[k].kind == DATA && q[k].port == p && q[k].idx == i
  {
    var n := |q| - 1;
    if i in IdOf(q[n], p) {
      assert q[n].idx == i;
    } else {
      IdsWitness(q[..n], p, i);
      var k :| 0 <= k < n && q[..n][k].kind == DATA && q[..n][k].port == p && q[..n][k].idx == i;
      assert q[k].idx == i;
    }
  }

  /** Strictly increasing absolute indices: the order the protocol is after. */
  ghost predicate Increasing(q: seq<Packet>) {
    forall i, j :: 0 <= i < j < |q| ==> q[i].idx < q[j].idx
  }

  /** All packets of `q` are data packets of `p`, numbered modulo 256, at most 255 ahead of `e`. */
  ghost predicate InSpan(q: seq<Packet>, p: Port, e: nat) {
    forall i :: 0 <= i < |q| ==> Spanned(q[i], p, e)
  }

  ghost predicate Spanned(x: Packet, p: Port, e: nat) {
    x.kind == DATA && x.port == p && x.seqPort == x.idx % 256 && e <= x.idx < e + 256
  }

  /** Inside one span of 256 the wrapped comparison agrees with the absolute order. */
  lemma RankIsDistance(x: Packet, p: Port, e: nat, pol: Policy)
    requires Spanned(x, p, e) && At(pol.offset, p) == e % 256
    ensures pol.Rank(p, x) == x.idx - e
  {
    RingDistance(x.idx, e);
  }

  /** Order under a moving offset: inserting a packet of the span keeps the queue in absolute order. */
  lemma InsertIncreasing(q: seq<Packet>, x: Packet, p: Port, e: nat, pol: Policy)
    requires InSpan(q, p, e) && Spanned(x, p, e) && Increasing(q) && At(pol.offset, p) == e % 256
    requires forall i :: 0 <= i < |q| ==> q[i].idx != x.idx
    ensures InSpan(Insert(q, x, pol), p, e) && Increasing(Insert(q, x, pol))
    ensures var k := Slot(q, x, pol);
      && (forall i :: 0 <= i < k ==> q[i].idx < x.idx) && (forall i :: k <= i < |q| ==> x.idx < q[i].idx)
  {
    SlotSeparates(q, x, p, e, pol);
    InsertInPlace(q, x, p, e, pol);
  }

  /** The slot separates the earlier packets from the later ones. */
  lemma SlotSeparates(q: seq<Packet>, x: Packet, p: Port, e: nat, pol: Policy)
    requires InSpan(q, p, e) && Spanned(x, p, e) && Increasing(q) && At(pol.offset, p) == e % 256
    requires forall i :: 0 <= i < |q| ==> q[i].idx != x.idx
    ensures forall i :: 0 <= i < |q| ==> if i < Slot(q, x, pol) then q[i].idx < x.idx else x.idx < q[i].idx
  {
    hide Slot, Spanned;
    var k := Slot(q, x, pol);
    if k > 0 {
      BeforeIsEarlier(q[k - 1], x, p, e, pol);
    }
    forall i | k <= i < |q| ensures x.idx < q[i].idx {
      BeforeIsEarlier(q[i], x, p, e, pol);
    }
  }

  lemma InsertInPlace(q: seq<Packet>, x: Packet, p: Port, e: nat, pol: Policy)
    requires InSpan(q, p, e) && Spanned(x, p, e) && Increasing(q)
    requires forall i :: 0 <= i < |q| ==> if i < Slot(q, x, pol) then q[i].idx < x.idx else x.idx < q[i].idx
    ensures InSpan(Insert(q, x, pol), p, e) && Increasing(Insert(q, x, pol))
  {
    var r := Insert(q, x, pol);
    forall i | 0 <= i < |r| ensures Spanned(r[i], p, e) {
      InsertIndex(q, x, pol, i);
    }
    forall i, j | 0 <= i < j < |r| ensures r[i].idx < r[j].idx {
      InsertIndex(q, x, pol, i);
      InsertIndex(q, x, pol, j);
    }
  }

  lemma BeforeIsEarlier(a: Packet, x: Packet, p: Port, e: nat, pol: Policy)
    requires Spanned(a, p, e) && Spanned(x, p, e) && At(pol.offset, p) == e % 256
    ensures pol.Before(a, x) <==> a.idx < x.idx
  {
    RankIsDistance(a, p, e, pol);
    RankIsDistance(x, p, e, pol);
  }

  /** Whatever the order of arrival, the same packets give the same queue. */
  lemma {:induction false} ArrivalOrderIrrelevant(a: seq<Packet>, b: seq<Packet>)
    requires Increasing(a) && Increasing(b) && multiset(a) == multiset(b)
    ensures a == b
  {
    SameLength(a, b);
    if a != [] {
      var n := |a| - 1;
      SameLast(a, b);
      MultisetFront(a);
      MultisetFront(b);
      ArrivalOrderIrrelevant(a[..n], b[..n]);
      SplitAt(a, n);
      SplitAt(b, n);
    }
  }

  /** The queue after the packets of `xs` arrived one by one. */
  ghost function Arrive(xs: seq<Packet>, pol: Policy): seq<Packet> {
    if xs == [] then [] else Insert(Arrive(xs[..|xs| - 1], pol), xs[|xs| - 1], pol)
  }

  ghost predicate DistinctIds(xs: seq<Packet>) {
    forall i, j :: 0 <= i < j < |xs| ==> xs[i].idx != xs[j].idx
  }

  /** Arrivals within one span, in any order, leave the queue in absolute order and lose nothing. */
  lemma {:induction false} ArrivalsSorted(xs: seq<Packet>, p: Port, e: nat, pol: Policy)
    requires InSpan(xs, p, e) && DistinctIds(xs) && At(pol.offset, p) == e % 256
    ensures InSpan(Arrive(xs, pol), p, e) && Increasing(Arrive(xs, pol))
    ensures multiset(Arrive(xs, pol)) == multiset(xs)
  {
    if xs != [] {
      var front, x := xs[..|xs| - 1], xs[|xs| - 1];
      ConcatSnoc([], xs);
      FrontDistinct(front, x, xs, p, e);
      ArrivalsSorted(front, p, e, pol);
      OneArrives(Arrive(front, pol), front, x, xs, p, e, pol);
    }
  }

  lemma FrontDistinct(front: seq<Packet>, x: Packet, xs: seq<Packet>, p: Port, e: nat)
    requires xs == front + [x] && InSpan(xs, p, e) && DistinctIds(xs)
    ensures InSpan(front, p, e) && DistinctIds(front) && Spanned(x, p, e)
    ensures forall y :: y in front ==> y.idx != x.idx
  {
    assert forall i :: 0 <= i < |front| ==> front[i] == xs[i];
    assert x == xs[|front|];
  }

  lemma OneArrives(q: seq<Packet>, front: seq<Packet>, x: Packet, xs: seq<Packet>, p: Port, e: nat, pol: Policy)
    requires xs == front + [x] && multiset(q) == multiset(front) && forall y :: y in front ==> y.idx != x.idx
    requires InSpan(q, p, e) && Increasing(q) && Spanned(x, p, e) && At(pol.offset, p) == e % 256
    ensures InSpan(Insert(q, x, pol), p, e) && Increasing(Insert(q, x, pol))
    ensures multiset(Insert(q, x, pol)) == multiset(xs)
  {
    hide Insert;
    forall i | 0 <= i < |q| ensures q[i].idx != x.idx {
      assert q[i] in multiset(front);
    }
    InsertIncreasing(q, x, p, e, pol);
    InsertMultiset(q, x, pol);
  }

  /** Reordering on the link does not matter: the same packets of one span give the same queue in whatever order
      they arrive. */
  lemma AnyArrivalOrder(xs: seq<Packet>, ys: seq<Packet>, p: Port, e: nat, pol: Policy)
    requires InSpan(xs, p, e) && InSpan(ys, p, e) && DistinctIds(xs) && DistinctIds(ys)
    requires At(pol.offset, p) == e % 256 && multiset(xs) == multiset(ys)
    ensures Arrive(xs, pol) == Arrive(ys, pol)
  {
    ArrivalsSorted(xs, p, e, pol);
    ArrivalsSorted(ys, p, e, pol);
    ArrivalOrderIrrelevant(Arrive(xs, pol), Arrive(ys, pol));
  }

  /** Consuming the expected head moves the offset on by one, and the rest stays in order behind it. */
  lemma HeadConsumed(q: seq<Packet>, p: Port, e: nat, pol: Policy, pol': Policy)
    requires q != [] && InSpan(q, p, e) && Increasing(q) && q[0].idx == e
    requires At(pol.offset, p) == e % 256 && At(pol'.offset, p) == Add8(At(pol.offset, p), 1)
    ensures InSpan(q[1..], p, e + 1) && Increasing(q[1..]) && At(pol'.offset, p) == (e + 1) % 256
    ensures forall i :: 0 <= i < |q| - 1 ==> pol'.Rank(p, q[1..][i]) == q[1..][i].idx - (e + 1)
  {
    AddMod(e, 1);
    var r := q[1..];
    forall i | 0 <= i < |r| ensures Spanned(r[i], p, e + 1) && pol'.Rank(p, r[i]) == r[i].idx - (e + 1) {
      assert Spanned(q[i + 1], p, e) && q[0].idx < q[i + 1].idx;
      RankIsDistance(r[i], p, e + 1, pol');
    }
  }

  lemma SameLength(a: seq<Packet>, b: seq<Packet>)
    requires multiset(a) == multiset(b)
    ensures |a| == |b|
  {
    assert |multiset(a)| == |a| && |multiset(b)| == |b|;
  }

  lemma SameLast(a: seq<Packet>, b: seq<Packet>)
    requires Increasing(a) && Increasing(b) && multiset(a) == multiset(b) && |a| == |b| > 0
    ensures a[|a| - 1] == b[|b| - 1]
  {
    var n := |a| - 1;
    assert a[n] in multiset(a) && b[n] in multiset(b);
    assert a[n] in b && b[n] in a;
    var i :| 0 <= i < |b| && b[i] == a[n];
    var j :| 0 <= j < |a| && a[j] == b[n];
    LastIsGreatest(b, i);
    LastIsGreatest(a, j);
  }

  lemma LastIsGreatest(q: seq<Packet>, i: nat)
    requires Increasing(q) && i < |q|
    ensures q[i].idx <= q[|q| - 1].idx && (q[i].idx == q[|q| - 1].idx ==> q[i] == q[|q| - 1])
  {
  }
}
