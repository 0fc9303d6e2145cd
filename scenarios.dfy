/** Whole-object runs of the collections: two calculators' parameters, a
    master parameter linked to both, and what writing through it does. The
    calculators are registered after the master collection was built, so
    the master reaches them only through the dict it shares with the
    registry.
 */
module Scenarios {
  import opened Errors
  import opened Param
  import opened Tables
  import opened Propagation
  import opened Collections

  /** A collection holding one parameter `n` at 1. */
  method Single(n: string) returns (p: Parameters)
    ensures fresh(p) && p.Valid()
    ensures p.State() == Table([n], map[n := Parameter(n, Scalar(1.0), "", "")])
  {
    p := new Parameters();
    var o := p.NewParameter(n, Scalar(1.0), "", "");
  }

  /** A registry holding `A` (parameter `x`) and `B` (parameter `y`), both
      at 1, and no master parameter yet. */
  method Register() returns (c: ParametersCollection<string>, a: Parameters, b: Parameters)
    ensures fresh(c) && fresh(c.parametersDict) && fresh(c.master) && fresh(a) && fresh(b) && a != b
    ensures c.Valid() && a.Valid() && b.Valid()
    ensures c.parametersDict.entries == map["A" := a, "B" := b]
    ensures a.State() == Table(["x"], map["x" := Parameter("x", Scalar(1.0), "", "")])
    ensures b.State() == Table(["y"], map["y" := Parameter("y", Scalar(1.0), "", "")])
    ensures c.master.Base() == Empty && c.master.links == map[]
  {
    a := Single("x");
    b := Single("y");
    c := new ParametersCollection<string>();
    var o := c.Add("A", IsParameters(a));
    o := c.Add("B", IsParameters(b));
  }

  /** The registry of `Register` with a master `m`, at 1, linked to `A.x`
      then `B.y`. */
  method Setup() returns (c: ParametersCollection<string>, a: Parameters, b: Parameters)
    ensures fresh(c) && fresh(c.parametersDict) && fresh(c.master) && fresh(a) && fresh(b) && a != b
    ensures c.Valid() && a.Valid() && b.Valid()
    ensures c.parametersDict.entries == map["A" := a, "B" := b]
    ensures a.State() == Table(["x"], map["x" := Parameter("x", Scalar(1.0), "", "")])
    ensures b.State() == Table(["y"], map["y" := Parameter("y", Scalar(1.0), "", "")])
    ensures c.master.Base() == Table(["m"], map["m" := Parameter("m", Scalar(1.0), "", "")])
    ensures c.master.links == map["m" := Some([("A", "x"), ("B", "y")])]
  {
    c, a, b := Register();
    var ls := [("A", "x"), ("B", "y")];
    assert forall i | 0 <= i < |ls| :: ls[i].0 in c.parametersDict.entries;
    var o := c.AddMasterParameter("m", LinksDict(ls), Scalar(1.0), "", "");
  }

  lemma TwoValues(a: Parameters, b: Parameters)
    ensures map["A" := a, "B" := b].Values == {a, b}
  {
    var r := map["A" := a, "B" := b];
    assert r["A"] == a && r["B"] == b;
  }

  /** The fan-out of `m` over both registered collections. */
  lemma FanOutBoth<P>(a: P, b: P, ta: Table, tb: Table, v: Value)
    requires a != b && "x" in ta.params && "y" in tb.params
    ensures FanOut([("A", "x"), ("B", "y")], map["A" := a, "B" := b], map[a := ta, b := tb], v) ==
              (map[a := SetValueOf(ta, "x", v), b := SetValueOf(tb, "y", v)], Pass)
  {
    var ls := [("A", "x"), ("B", "y")];
    var reg := map["A" := a, "B" := b];
    var h0 := map[a := ta, b := tb];
    var h1 := h0[a := SetValueOf(ta, "x", v)];
    var h2 := h1[b := SetValueOf(tb, "y", v)];
    assert ls[0..] == ls && ls[2..] == [];
    FanOutStep(ls, 0, reg, h0, v);
    FanOutStep(ls, 1, reg, h1, v);
    assert h2 == map[a := SetValueOf(ta, "x", v), b := SetValueOf(tb, "y", v)];
  }

  /** The fan-out of `m` once `B` is unregistered: it writes `A.x`, then
      fails on `B`. */
  lemma FanOutAfterDelete<P>(a: P, ta: Table, v: Value)
    requires "x" in ta.params
    ensures FanOut([("A", "x"), ("B", "y")], map["A" := a], map[a := ta], v) ==
              (map[a := SetValueOf(ta, "x", v)], Fail(MissingCollection))
  {
    var ls := [("A", "x"), ("B", "y")];
    var reg := map["A" := a];
    assert ls[0..] == ls;
    FanOutStep(ls, 0, reg, map[a := ta], v);
    FanOutStep(ls, 1, reg, map[a := ta][a := SetValueOf(ta, "x", v)], v);
    assert map[a := ta][a := SetValueOf(ta, "x", v)] == map[a := SetValueOf(ta, "x", v)];
  }

  /** `master["m"] = 5` sets `A["x"]`, `B["y"]` and `master["m"]` to 5. */
  method MasterSetReachesEveryLink() returns (o: Outcome, x: Result<Parameter>, y: Result<Parameter>,
                                              m: Result<MasterParameter<string>>)
    ensures o == Pass
    ensures x.Success? && x.value.value == Scalar(5.0)
    ensures y.Success? && y.value.value == Scalar(5.0)
    ensures m.Success? && m.value.param.value == Scalar(5.0)
  {
    var c, a, b := Setup();
    ghost var heap := map[a := a.State(), b := b.State()];
    TwoValues(a, b);
    assert c.parametersDict.Holds(heap);
    FanOutBoth(a, b, a.State(), b.State(), Scalar(5.0));
    assert MasterParameter(c.master.params["m"], c.master.links["m"]).Targets() == [("A", "x"), ("B", "y")];
    o := c.master.SetItem("m", Scalar(5.0), heap);
    x := a.Get("x");
    y := b.Get("y");
    m := c.master.Get("m");
  }

  /** The registry of `Setup` after `del collection["B"]`. */
  method SetupDeleted() returns (c: ParametersCollection<string>, a: Parameters)
    ensures fresh(c) && fresh(c.parametersDict) && fresh(c.master) && fresh(a)
    ensures c.Valid() && a.Valid()
    ensures c.parametersDict.entries == map["A" := a]
    ensures a.State() == Table(["x"], map["x" := Parameter("x", Scalar(1.0), "", "")])
    ensures c.master.Base() == Table(["m"], map["m" := Parameter("m", Scalar(1.0), "", "")])
    ensures c.master.links == map["m" := Some([("A", "x"), ("B", "y")])]
  {
    var b;
    c, a, b := Setup();
    var o := c.DelItem("B");
    assert c.parametersDict.entries == map["A" := a];
  }

  /** After `del collection["B"]`, `master["m"] = 5` raises a key error on
      `B`; the write to `A["x"]`, made before, stays, and the master keeps
      its old value. */
  method WriteAfterDeleteRaises() returns (o: Outcome, x: Result<Parameter>, m: Result<MasterParameter<string>>)
    ensures o == Fail(MissingCollection)
    ensures x.Success? && x.value.value == Scalar(5.0)
    ensures m.Success? && m.value.param.value == Scalar(1.0)
  {
    var c, a := SetupDeleted();
    ghost var heap := map[a := a.State()];
    assert c.parametersDict.entries.Values == {a} by {
      assert c.parametersDict.entries["A"] == a;
    }
    assert c.parametersDict.Holds(heap);
    FanOutAfterDelete(a, a.State(), Scalar(5.0));
    assert MasterParameter(c.master.params["m"], c.master.links["m"]).Targets() == [("A", "x"), ("B", "y")];
    o := c.master.SetItem("m", Scalar(5.0), heap);
    x := a.Get("x");
    m := c.master.Get("m");
  }

  /** `add_master_parameter` with a link to an unregistered key raises and
      adds nothing. */
  method UnknownLinkAddsNothing() returns (o: Outcome, m: Result<MasterParameter<string>>)
    ensures o == Fail(UnknownLinkKey)
    ensures m == Failure(MissingName("n"))
  {
    var c, a, b := Setup();
    var ls := [("A", "x"), ("C", "z")];
    assert ls[1].0 !in c.parametersDict.entries;
    o := c.AddMasterParameter("n", LinksDict(ls), Scalar(2.0), "", "");
    m := c.master.Get("n");
  }
}
