/** What `MasterParameters.__setitem__` does to the collections its links
    reach, stated over a snapshot of those collections.

    The registry `reg` maps a calculator key to the collection object `P`
    registered under it; several keys may name the same object. `heap` gives
    the contents of every registered object. The fan-out writes through the
    links one after the other, so it is defined by recursion over the links
    (`FanOut`), and `FanOutClosedForm` says the same thing without the
    recursion: the links before the first broken one are written, none after.
 */
module Propagation {
  import opened Errors
  import opened Param
  import opened Tables

  /** A link `(k, n)` reaches a parameter: `k` is registered and the
      collection registered under it has a parameter named `n`. */
  predicate Resolves<K(==), P(==)>(l: (K, string), reg: map<K, P>, heap: map<P, Table>)
    requires reg.Values <= heap.Keys
  {
    l.0 in reg && l.1 in heap[reg[l.0]].params
  }

  /** The error raised at a link that does not resolve: the registry lookup
      fails first, then the parameter lookup. */
  function BrokenError<K(==), P(==)>(l: (K, string), reg: map<K, P>): Error
  {
    if l.0 !in reg then MissingCollection else MissingName(l.1)
  }

  /** The loop of `MasterParameters.__setitem__`: for each link in order, set
      the linked parameter to `v`; the first lookup that fails raises, and the
      writes made before it stay. */
  function FanOut<K(==), P(==)>(links: seq<(K, string)>, reg: map<K, P>, heap: map<P, Table>, v: Value)
    : (r: (map<P, Table>, Outcome))
    requires reg.Values <= heap.Keys
    ensures r.0.Keys == heap.Keys
    decreases |links|
  {
    if links == [] then (heap, Pass)
    else if !Resolves(links[0], reg, heap) then (heap, Fail(BrokenError(links[0], reg)))
    else
      var p := reg[links[0].0];
      FanOut(links[1..], reg, heap[p := SetValueOf(heap[p], links[0].1, v)], v)
  }

  /** The position of the first link that does not resolve, or the number of
      links when all of them do. */
  function FirstBroken<K(==), P(==)>(links: seq<(K, string)>, reg: map<K, P>, heap: map<P, Table>): (j: nat)
    requires reg.Values <= heap.Keys
    ensures j <= |links|
    ensures forall i | 0 <= i < j :: Resolves(links[i], reg, heap)
    ensures j < |links| ==> !Resolves(links[j], reg, heap)
    decreases |links|
  {
    if links == [] || !Resolves(links[0], reg, heap) then 0
    else 1 + FirstBroken(links[1..], reg, heap)
  }

  /** The names of collection `p` that the links `w` point at. */
  function Targeted<K(==), P(==)>(w: seq<(K, string)>, reg: map<K, P>, p: P): set<string>
    decreases |w|
  {
    if w == [] then {}
    else (if w[0].0 in reg && reg[w[0].0] == p then {w[0].1} else {}) + Targeted(w[1..], reg, p)
  }

  /** One link of the fan-out: it either writes and hands over to the rest,
      or raises with the collections as they are. */
  lemma FanOutStep<K, P>(links: seq<(K, string)>, i: nat, reg: map<K, P>, heap: map<P, Table>, v: Value)
    requires reg.Values <= heap.Keys && i < |links|
    ensures Resolves(links[i], reg, heap) ==>
              FanOut(links[i..], reg, heap, v) ==
                FanOut(links[i + 1..], reg, heap[reg[links[i].0] := SetValueOf(heap[reg[links[i].0]], links[i].1, v)], v)
    ensures !Resolves(links[i], reg, heap) ==> FanOut(links[i..], reg, heap, v) == (heap, Fail(BrokenError(links[i], reg)))
  {
    assert links[i..][0] == links[i] && links[i..][1..] == links[i + 1..];
  }

  /** `n` is targeted in `p` exactly when some link of `w` names `n` under a
      key registered to `p`. */
  lemma {:induction false} TargetedIff<K, P>(w: seq<(K, string)>, reg: map<K, P>, p: P, n: string)
    ensures n in Targeted(w, reg, p) <==>
              exists i | 0 <= i < |w| :: w[i].1 == n && w[i].0 in reg && reg[w[i].0] == p
    decreases |w|
  {
    if w != [] {
      TargetedIff(w[1..], reg, p, n);
      if n in Targeted(w[1..], reg, p) {
        var i :| 0 <= i < |w[1..]| && w[1..][i].1 == n && w[1..][i].0 in reg && reg[w[1..][i].0] == p;
        assert w[i + 1] == w[1..][i];
      }
      if exists i | 0 <= i < |w| :: w[i].1 == n && w[i].0 in reg && reg[w[i].0] == p {
        var i :| 0 <= i < |w| && w[i].1 == n && w[i].0 in reg && reg[w[i].0] == p;
        if i > 0 {
          assert w[1..][i - 1] == w[i];
        }
      }
    }
  }

  lemma TargetedCons<K, P>(l: (K, string), w: seq<(K, string)>, reg: map<K, P>, p: P)
    ensures Targeted([l] + w, reg, p) == (if l.0 in reg && reg[l.0] == p then {l.1} else {}) + Targeted(w, reg, p)
  {
    assert ([l] + w)[1..] == w;
  }

  /** Whether a link resolves depends only on the names of the collections,
      which writing a value does not change. */
  lemma {:induction false} FirstBrokenKeysOnly<K, P>(links: seq<(K, string)>, reg: map<K, P>, h1: map<P, Table>, h2: map<P, Table>)
    requires reg.Values <= h1.Keys && h1.Keys == h2.Keys
    requires forall p | p in h1 :: h1[p].params.Keys == h2[p].params.Keys
    ensures FirstBroken(links, reg, h1) == FirstBroken(links, reg, h2)
    decreases |links|
  {
    if links != [] {
      FirstBrokenKeysOnly(links[1..], reg, h1, h2);
    }
  }

  /** Writing `v` through one resolving link changes at most the parameter
      it points at. */
  lemma WriteOne<K, P>(heap: map<P, Table>, reg: map<K, P>, l: (K, string), v: Value, p: P, n: string)
    requires reg.Values <= heap.Keys && Resolves(l, reg, heap) && p in heap && n in heap[p].params
    ensures var h := heap[reg[l.0] := SetValueOf(heap[reg[l.0]], l.1, v)];
            && p in h && n in h[p].params
            && h[p].params[n] == if p == reg[l.0] && n == l.1 then SetValue(heap[p].params[n], v) else heap[p].params[n]
  {
  }

  /** The fan-out only writes values: every collection keeps its names, their
      order and its invariant. */
  lemma {:induction false} FanOutKeepsNames<K, P>(links: seq<(K, string)>, reg: map<K, P>, heap: map<P, Table>, v: Value)
    requires reg.Values <= heap.Keys
    ensures forall p | p in heap ::
              && FanOut(links, reg, heap, v).0[p].order == heap[p].order
              && FanOut(links, reg, heap, v).0[p].params.Keys == heap[p].params.Keys
              && (Valid(heap[p]) ==> Valid(FanOut(links, reg, heap, v).0[p]))
    decreases |links|
  {
    if links != [] && Resolves(links[0], reg, heap) {
      var p0 := reg[links[0].0];
      var heap' := heap[p0 := SetValueOf(heap[p0], links[0].1, v)];
      FanOutKeepsNames(links[1..], reg, heap', v);
    }
  }

  /** The fan-out completes exactly at the end of the links, and otherwise
      raises the error of the first link that does not resolve. */
  lemma {:induction false} FanOutOutcome<K, P>(links: seq<(K, string)>, reg: map<K, P>, heap: map<P, Table>, v: Value)
    requires reg.Values <= heap.Keys
    ensures var j := FirstBroken(links, reg, heap);
            FanOut(links, reg, heap, v).1 == if j == |links| then Pass else Fail(BrokenError(links[j], reg))
    decreases |links|
  {
    if links != [] && Resolves(links[0], reg, heap) {
      var p0 := reg[links[0].0];
      var heap' := heap[p0 := SetValueOf(heap[p0], links[0].1, v)];
      FanOutOutcome(links[1..], reg, heap', v);
      FirstBrokenKeysOnly(links[1..], reg, heap, heap');
      var j' := FirstBroken(links[1..], reg, heap);
      assert j' < |links[1..]| ==> links[j' + 1] == links[1..][j'];
    }
  }

  /** When every link resolves, a parameter that one of them points at
      ends up holding `v`, and every other parameter is as it was. */
  lemma {:induction false} FanOutAllResolve<K, P>(links: seq<(K, string)>, reg: map<K, P>, heap: map<P, Table>, v: Value,
                                                  p: P, n: string)
    requires reg.Values <= heap.Keys && p in heap && n in heap[p].params
    requires forall i | 0 <= i < |links| :: Resolves(links[i], reg, heap)
    ensures var r := FanOut(links, reg, heap, v).0;
            && p in r && n in r[p].params
            && r[p].params[n] ==
                 if n in Targeted(links, reg, p) then SetValue(heap[p].params[n], v) else heap[p].params[n]
    decreases |links|
  {
    if links != [] {
      var l := links[0];
      var heap' := heap[reg[l.0] := SetValueOf(heap[reg[l.0]], l.1, v)];
      var rest := links[1..];
      assert Resolves(l, reg, heap);
      forall i | 0 <= i < |rest| ensures Resolves(rest[i], reg, heap') {
        assert rest[i] == links[i + 1];
      }
      FanOutAllResolve(rest, reg, heap', v, p, n);
      WriteOne(heap, reg, l, v, p, n);
      assert links == [l] + rest;
      TargetedCons(l, rest, reg, p);
    }
  }

  /** On failure the collections are as the links before the broken one
      left them: there is no rollback and no further write. */
  lemma {:induction false} FanOutPrefix<K, P>(links: seq<(K, string)>, reg: map<K, P>, heap: map<P, Table>, v: Value)
    requires reg.Values <= heap.Keys
    ensures var j := FirstBroken(links, reg, heap);
            && FanOut(links, reg, heap, v).0 == FanOut(links[..j], reg, heap, v).0
            && FanOut(links[..j], reg, heap, v).1.Pass?
    decreases |links|
  {
    var j := FirstBroken(links, reg, heap);
    if j == 0 {
      assert links[..0] == [];
    } else {
      var l := links[0];
      var heap' := heap[reg[l.0] := SetValueOf(heap[reg[l.0]], l.1, v)];
      var rest := links[1..];
      FanOutPrefix(rest, reg, heap', v);
      FirstBrokenKeysOnly(rest, reg, heap, heap');
      var j' := FirstBroken(rest, reg, heap);
      assert j == j' + 1;
      FanOutStep(links[..j], 0, reg, heap, v);
      assert links[..j][0..] == links[..j] && links[..j][1..] == rest[..j'];
    }
  }

  /** The fan-out, without the recursion, one parameter at a time: with `j`
      the first link that does not resolve, a parameter that one of the links
      before `j` points at holds `v`, and every other parameter is as it was. */
  lemma FanOutClosedForm<K, P>(links: seq<(K, string)>, reg: map<K, P>, heap: map<P, Table>, v: Value, p: P, n: string)
    requires reg.Values <= heap.Keys && p in heap && n in heap[p].params
    ensures var r := FanOut(links, reg, heap, v).0;
            && p in r && n in r[p].params
            && r[p].params[n] ==
                 if n in Targeted(links[..FirstBroken(links, reg, heap)], reg, p) then SetValue(heap[p].params[n], v)
                 else heap[p].params[n]
  {
    var j := FirstBroken(links, reg, heap);
    FanOutPrefix(links, reg, heap, v);
    assert forall i | 0 <= i < j :: links[..j][i] == links[i];
    FanOutAllResolve(links[..j], reg, heap, v, p, n);
  }

  /** The fan-out completes exactly when every link reaches a parameter; in
      particular a link whose key is no longer registered makes it raise. */
  lemma {:induction false} FanOutSucceedsIff<K, P>(links: seq<(K, string)>, reg: map<K, P>, heap: map<P, Table>, v: Value)
    requires reg.Values <= heap.Keys
    ensures FanOut(links, reg, heap, v).1.Pass? <==> forall i | 0 <= i < |links| :: Resolves(links[i], reg, heap)
    ensures (exists i | 0 <= i < |links| :: links[i].0 !in reg) ==> FanOut(links, reg, heap, v).1.Fail?
  {
    FanOutOutcome(links, reg, heap, v);
  }

  /** After a fan-out that completed, every link's target holds `v`. */
  lemma FanOutWritesEveryTarget<K, P>(links: seq<(K, string)>, reg: map<K, P>, heap: map<P, Table>, v: Value, i: nat)
    requires reg.Values <= heap.Keys && i < |links|
    requires FanOut(links, reg, heap, v).1.Pass?
    ensures && links[i].0 in reg && reg[links[i].0] in FanOut(links, reg, heap, v).0
            && links[i].1 in FanOut(links, reg, heap, v).0[reg[links[i].0]].params
            && FanOut(links, reg, heap, v).0[reg[links[i].0]].params[links[i].1].value == v
  {
    FanOutSucceedsIff(links, reg, heap, v);
    FanOutOutcome(links, reg, heap, v);
    assert Resolves(links[i], reg, heap);
    var p := reg[links[i].0];
    FanOutClosedForm(links, reg, heap, v, p, links[i].1);
    assert links[..|links|] == links;
    TargetedIff(links, reg, p, links[i].1);
  }

  /** A parameter that no link points at keeps its value, whether or not the
      fan-out completes. */
  lemma {:induction false} FanOutWritesOnlyTargets<K, P>(links: seq<(K, string)>, reg: map<K, P>, heap: map<P, Table>, v: Value,
                                      p: P, n: string)
    requires reg.Values <= heap.Keys && p in heap && n in heap[p].params
    requires forall i | 0 <= i < |links| :: !(links[i].1 == n && links[i].0 in reg && reg[links[i].0] == p)
    ensures n in FanOut(links, reg, heap, v).0[p].params
    ensures FanOut(links, reg, heap, v).0[p].params[n] == heap[p].params[n]
  {
    FanOutClosedForm(links, reg, heap, v, p, n);
    var j := FirstBroken(links, reg, heap);
    TargetedIff(links[..j], reg, p, n);
    assert forall i | 0 <= i < j :: links[..j][i] == links[i];
  }

  /** A fan-out that raises at link `j` has written `v` through every link
      before `j` and through none after it. */
  lemma FanOutStopsAtBroken<K, P>(links: seq<(K, string)>, reg: map<K, P>, heap: map<P, Table>, v: Value)
    requires reg.Values <= heap.Keys
    requires FanOut(links, reg, heap, v).1.Fail?
    ensures var j := FirstBroken(links, reg, heap);
            && j < |links|
            && FanOut(links, reg, heap, v).1 == Fail(BrokenError(links[j], reg))
            && FanOut(links, reg, heap, v).0 == FanOut(links[..j], reg, heap, v).0
            && FanOut(links[..j], reg, heap, v).1.Pass?
  {
    FanOutOutcome(links, reg, heap, v);
    FanOutPrefix(links, reg, heap, v);
  }
}
