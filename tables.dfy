/** The contents of one `Parameters` object as a value, and the effect of
    each of its operations on that value. The class `Collections.Parameters`
    is proved against these functions; the lemmas here state what `add`,
    `__setitem__`, `__delitem__`, `to_dict` and `from_dict` promise.
 */
module Tables {
  import opened Errors
  import opened Param

  /** `self.parameters`: a dict from name to parameter, which remembers the
      order in which names were inserted. */
  datatype Table = Table(order: seq<string>, params: map<string, Parameter>)

  const Empty: Table := Table([], map[])

  predicate Distinct<T(==)>(s: seq<T>)
  {
    forall i, j | 0 <= i < j < |s| :: s[i] != s[j]
  }

  /** Each name is inserted once, the insertion order lists exactly the
      keys, and each parameter is filed under its own name. */
  ghost predicate Valid(t: Table)
  {
    && Distinct(t.order)
    && (forall n :: n in t.params <==> n in t.order)
    && (forall n :: n in t.params ==> t.params[n].name == n)
  }

  /** An object handed to `add`, or found in the list handed to it: either a
      `Parameter` or anything else. */
  datatype Obj = AParameter(p: Parameter) | OtherObject

  /** The argument of `add`: one object, or a Python list of objects. */
  datatype Argument = Single(obj: Obj) | List(objs: seq<Obj>)

  predicate AllParameters(objs: seq<Obj>)
  {
    forall i | 0 <= i < |objs| :: objs[i].AParameter?
  }

  function ParametersOf(objs: seq<Obj>): (ps: seq<Parameter>)
    requires AllParameters(objs)
    ensures |ps| == |objs|
    ensures forall i | 0 <= i < |objs| :: objs[i] == AParameter(ps[i])
  {
    seq(|objs|, i requires 0 <= i < |objs| => objs[i].p)
  }

  function Names(ps: seq<Parameter>): (ns: seq<string>)
    ensures |ns| == |ps|
    ensures forall i | 0 <= i < |ps| :: ns[i] == ps[i].name
  {
    seq(|ps|, i requires 0 <= i < |ps| => ps[i].name)
  }

  /** One insertion of `add`: file `p` under its name, unless the name is taken. */
  function AddOne(t: Table, p: Parameter): (r: (Table, Outcome))
    ensures Valid(t) ==> Valid(r.0)
    ensures r.1.Pass? <==> p.name !in t.params
    ensures r.1.Fail? ==> r == (t, Fail(DuplicateName))
    ensures r.1.Pass? ==> r.0.params == t.params[p.name := p] && r.0.order == t.order + [p.name]
  {
    if p.name in t.params then (t, Fail(DuplicateName))
    else (Table(t.order + [p.name], t.params[p.name := p]), Pass)
  }

  /** The single-parameter path of `add` as the code reads: the duplicate
      test asks whether the `Parameter` object is among the dict's keys, which
      are names, so (for a `Parameter` that does not compare equal to a
      string) it never fires, and the assignment replaces an entry of the
      same name in place. */
  function AddOneAsWritten(t: Table, p: Parameter): (r: (Table, Outcome))
    ensures Valid(t) ==> Valid(r.0)
    ensures r.1 == Pass && r.0.params == t.params[p.name := p]
    ensures r.0.order == if p.name in t.params then t.order else t.order + [p.name]
  {
    (Table(if p.name in t.params then t.order else t.order + [p.name], t.params[p.name := p]), Pass)
  }

  /** Adding a second parameter named `x` one at a time: the code as written
      replaces the first without an error, where the name-based check, like
      the list path, raises. */
  lemma SingleAddOverwrites()
    ensures var first := Parameter("x", Scalar(1.0), "", "");
            var second := Parameter("x", Scalar(2.0), "", "");
            var t := AddOne(Empty, first).0;
            && AddOneAsWritten(t, second) == (Table(["x"], map["x" := second]), Pass)
            && AddOne(t, second) == (t, Fail(DuplicateName))
  {
    var first := Parameter("x", Scalar(1.0), "", "");
    var second := Parameter("x", Scalar(2.0), "", "");
    var t := AddOne(Empty, first).0;
    assert t == Table(["x"], map["x" := first]);
    assert "x" in t.params;
    assert t.params["x" := second] == map["x" := second];
  }

  /** The insertion loop of `add` for a list: insert in list order and stop at
      the first name already present, keeping what was inserted before it. */
  function InsertAll(t: Table, ps: seq<Parameter>): (r: (Table, Outcome))
    ensures Valid(t) ==> Valid(r.0)
    ensures r.1 == Pass || r.1 == Fail(DuplicateName)
    ensures forall n :: n in t.params ==> n in r.0.params && r.0.params[n] == t.params[n]
    ensures |t.order| <= |r.0.order| && r.0.order[..|t.order|] == t.order
    decreases |ps|
  {
    if ps == [] then (t, Pass)
    else
      var (t', o) := AddOne(t, ps[0]);
      if o.Fail? then (t', o) else InsertAll(t', ps[1..])
  }

  /** `add(arg)`: type checks first (every list element before any insertion),
      then the insertions. */
  function AddTo(t: Table, arg: Argument): (r: (Table, Outcome))
    ensures Valid(t) ==> Valid(r.0)
    ensures r.1 == Fail(NotAParameter) <==>
              (if arg.Single? then arg.obj.OtherObject? else !AllParameters(arg.objs))
    ensures r.1 == Fail(NotAParameter) ==> r.0 == t
  {
    match arg
    case Single(obj) =>
      if obj.OtherObject? then (t, Fail(NotAParameter)) else AddOne(t, obj.p)
    case List(objs) =>
      if !AllParameters(objs) then (t, Fail(NotAParameter)) else InsertAll(t, ParametersOf(objs))
  }

  lemma {:induction false} NamesTail(ps: seq<Parameter>)
    requires ps != []
    ensures Names(ps[1..]) == Names(ps)[1..]
  {
  }

  /** A list is added without error exactly when its names are pairwise
      distinct and none of them is in the collection already. */
  lemma {:induction false} InsertAllSucceedsIff(t: Table, ps: seq<Parameter>)
    ensures InsertAll(t, ps).1.Pass? <==>
              Distinct(Names(ps)) && forall i | 0 <= i < |ps| :: ps[i].name !in t.params
    decreases |ps|
  {
    if ps != [] && ps[0].name !in t.params {
      var t' := AddOne(t, ps[0]).0;
      InsertAllSucceedsIff(t', ps[1..]);
      NamesTail(ps);
      var ns := Names(ps);
      if Distinct(ns) && forall i | 0 <= i < |ps| :: ps[i].name !in t.params {
        forall i | 0 <= i < |ps[1..]|
          ensures ps[1..][i].name !in t'.params
        {
          assert ns[0] != ns[i + 1];
        }
      }
      if InsertAll(t, ps).1.Pass? {
        assert Distinct(ns[1..]);
        forall i, j | 0 <= i < j < |ns|
          ensures ns[i] != ns[j]
        {
          if i > 0 {
            assert ns[1..][i - 1] != ns[1..][j - 1];
          } else {
            assert ps[1..][j - 1].name !in t'.params;
          }
        }
      }
    }
  }

  lemma {:induction false} InsertAllOrder(t: Table, ps: seq<Parameter>)
    requires InsertAll(t, ps).1.Pass?
    ensures InsertAll(t, ps).0.order == t.order + Names(ps)
    decreases |ps|
  {
    if ps != [] {
      var t' := AddOne(t, ps[0]).0;
      var r := InsertAll(t', ps[1..]).0;
      assert InsertAll(t, ps).0 == r;
      InsertAllOrder(t', ps[1..]);
      NamesTail(ps);
      assert Names(ps) == [ps[0].name] + Names(ps[1..]);
      assert t'.order == t.order + [ps[0].name];
      assert r.order == (t.order + [ps[0].name]) + Names(ps[1..]);
    }
  }

  lemma {:induction false} InsertAllFinds(t: Table, ps: seq<Parameter>)
    requires InsertAll(t, ps).1.Pass?
    ensures forall i | 0 <= i < |ps| :: ps[i].name in InsertAll(t, ps).0.params && InsertAll(t, ps).0.params[ps[i].name] == ps[i]
    decreases |ps|
  {
    if ps != [] {
      var t' := AddOne(t, ps[0]).0;
      var r := InsertAll(t', ps[1..]).0;
      assert InsertAll(t, ps).0 == r;
      InsertAllFinds(t', ps[1..]);
      forall i | 0 <= i < |ps|
        ensures ps[i].name in r.params && r.params[ps[i].name] == ps[i]
      {
        if i > 0 {
          assert ps[i] == ps[1..][i - 1];
        }
      }
    }
  }

  /** After a successful `add(list)`: the names continue the insertion order,
      the keys are the old keys plus the list's names, and each added
      parameter is found under its own name (old entries are unchanged, by
      the contract of `InsertAll`). */
  lemma InsertAllAdds(t: Table, ps: seq<Parameter>)
    requires Valid(t) && InsertAll(t, ps).1.Pass?
    ensures InsertAll(t, ps).0.order == t.order + Names(ps)
    ensures forall n :: n in InsertAll(t, ps).0.params <==> n in t.params || n in Names(ps)
    ensures forall i | 0 <= i < |ps| :: ps[i].name in InsertAll(t, ps).0.params && InsertAll(t, ps).0.params[ps[i].name] == ps[i]
  {
    InsertAllOrder(t, ps);
    InsertAllFinds(t, ps);
    var r := InsertAll(t, ps).0;
    forall n ensures n in r.params <==> n in t.params || n in Names(ps) {
      assert n in r.order <==> n in t.order || n in Names(ps);
    }
  }

  /** A duplicate name aborts `add(list)` without rollback: the collection is
      left as the elements before the offending one made it, and the
      offending name is one of its keys. */
  lemma {:induction false} InsertAllStopsAtDuplicate(t: Table, ps: seq<Parameter>)
    requires InsertAll(t, ps).1.Fail?
    ensures exists j | 0 <= j < |ps| ::
              && InsertAll(t, ps[..j]) == (InsertAll(t, ps).0, Pass)
              && ps[j].name in InsertAll(t, ps[..j]).0.params
    decreases |ps|
  {
    if ps[0].name in t.params {
      assert ps[..0] == [];
      assert InsertAll(t, ps[..0]) == (InsertAll(t, ps).0, Pass);
    } else {
      var t' := AddOne(t, ps[0]).0;
      InsertAllStopsAtDuplicate(t', ps[1..]);
      var j :| 0 <= j < |ps[1..]|
            && InsertAll(t', ps[1..][..j]) == (InsertAll(t', ps[1..]).0, Pass)
            && ps[1..][j].name in InsertAll(t', ps[1..][..j]).0.params;
      var pre := ps[..j + 1];
      assert pre[0] == ps[0] && pre[1..] == ps[1..][..j];
      assert InsertAll(t, pre) == InsertAll(t', ps[1..][..j]);
      assert ps[j + 1] == ps[1..][j];
    }
  }

  /** `P[key] = v` on a present name: that parameter gets the new value and
      nothing else changes. */
  function SetValueOf(t: Table, key: string, v: Value): (r: Table)
    requires key in t.params
    ensures Valid(t) ==> Valid(r)
    ensures r.order == t.order && r.params.Keys == t.params.Keys
    ensures r.params[key] == SetValue(t.params[key], v)
    ensures forall n :: n in t.params && n != key ==> r.params[n] == t.params[n]
  {
    Table(t.order, t.params[key := SetValue(t.params[key], v)])
  }

  /** `s` with `x` taken out, the rest in their order. */
  function Without<T(==)>(s: seq<T>, x: T): (r: seq<T>)
    ensures x !in s ==> r == s
    decreases |s|
  {
    if s == [] then []
    else if s[0] == x then Without(s[1..], x)
    else [s[0]] + Without(s[1..], x)
  }

  /** Taking out the element at position `i` of a duplicate-free sequence
      closes the gap and keeps the rest in their order. */
  lemma {:induction false} WithoutAt<T>(s: seq<T>, i: nat)
    requires Distinct(s) && i < |s|
    ensures Without(s, s[i]) == s[..i] + s[i + 1..]
    decreases i
  {
    if i == 0 {
      assert s[i] !in s[1..] by {
        forall j | 0 <= j < |s[1..]| ensures s[1..][j] != s[0] {
          assert s[j + 1] != s[0];
        }
      }
      assert s[..0] + s[1..] == s[1..];
    } else {
      assert Distinct(s[1..]) by {
        forall j, k | 0 <= j < k < |s[1..]| ensures s[1..][j] != s[1..][k] {
          assert s[j + 1] != s[k + 1];
        }
      }
      assert s[0] != s[i];
      assert Without(s, s[i]) == [s[0]] + Without(s[1..], s[i]);
      WithoutAt(s[1..], i - 1);
      assert s[1..][i - 1] == s[i];
      calc {
        Without(s, s[i]);
        [s[0]] + (s[1..][..i - 1] + s[1..][i..]);
        { assert s[..i] == [s[0]] + s[1..][..i - 1]; assert s[i + 1..] == s[1..][i..]; }
        s[..i] + s[i + 1..];
      }
    }
  }

  /** Closing the gap at position `i` of a duplicate-free sequence keeps it
      duplicate-free and loses exactly the element that was there. */
  lemma RemoveAt<T>(s: seq<T>, i: nat)
    requires Distinct(s) && i < |s|
    ensures Distinct(s[..i] + s[i + 1..])
    ensures forall y :: y in s[..i] + s[i + 1..] <==> y in s && y != s[i]
  {
    var r := s[..i] + s[i + 1..];
    assert forall j | 0 <= j < |r| :: r[j] == if j < i then s[j] else s[j + 1];
    forall y ensures y in r <==> y in s && y != s[i] {
      if y in s && y != s[i] {
        var j :| 0 <= j < |s| && s[j] == y;
        assert r[if j < i then j else j - 1] == y;
      }
    }
  }

  /** `del P[key]` on a present name: that entry is gone, everything else is
      kept in its order. */
  function DeleteFrom(t: Table, key: string): (r: Table)
    requires key in t.params
    ensures Valid(t) ==> Valid(r)
    ensures r.params == t.params - {key}
    ensures Valid(t) ==>
              forall i | 0 <= i < |t.order| && t.order[i] == key :: r.order == t.order[..i] + t.order[i + 1..]
  {
    var r := Table(Without(t.order, key), t.params - {key});
    assert Valid(t) ==> Valid(r) by {
      if Valid(t) {
        var i :| 0 <= i < |t.order| && t.order[i] == key;
        WithoutAt(t.order, i);
        RemoveAt(t.order, i);
      }
    }
    assert Valid(t) ==>
             forall i | 0 <= i < |t.order| && t.order[i] == key :: r.order == t.order[..i] + t.order[i + 1..] by {
      if Valid(t) {
        forall i | 0 <= i < |t.order| && t.order[i] == key
          ensures r.order == t.order[..i] + t.order[i + 1..]
        {
          WithoutAt(t.order, i);
        }
      }
    }
    r
  }

  /** A Python dict handed to `to_dict`'s caller or to `from_dict`: its
      entries in iteration order. */
  function Keys<V>(d: seq<(string, V)>): (ks: seq<string>)
    ensures |ks| == |d|
    ensures forall i | 0 <= i < |d| :: ks[i] == d[i].0
  {
    seq(|d|, i requires 0 <= i < |d| => d[i].0)
  }

  /** `to_dict`: each parameter's attribute dictionary under its name, in
      insertion order. */
  function DictOf(t: Table): (d: seq<(string, Attributes)>)
    requires Valid(t)
    ensures forall n :: n in Keys(d) <==> n in t.params
    ensures Distinct(Keys(d))
    ensures forall i | 0 <= i < |d| :: d[i].0 in t.params && FromAttributes(d[i].1) == t.params[d[i].0]
  {
    var d := seq(|t.order|, i requires 0 <= i < |t.order| => (t.order[i], ToAttributes(t.params[t.order[i]])));
    assert Keys(d) == t.order;
    d
  }

  function Decoded(d: seq<(string, Attributes)>): (ps: seq<Parameter>)
    ensures |ps| == |d|
    ensures forall i | 0 <= i < |d| :: ps[i] == FromAttributes(d[i].1)
  {
    seq(|d|, i requires 0 <= i < |d| => FromAttributes(d[i].1))
  }

  /** `from_dict`: a fresh collection to which every entry's decoded
      parameter is added in turn; the entry's key is not consulted. */
  function FromDict(d: seq<(string, Attributes)>): (r: (Table, Outcome))
    ensures Valid(r.0)
  {
    InsertAll(Empty, Decoded(d))
  }

  /** The first `i` names of `t` with their parameters. */
  function Prefix(t: Table, i: nat): Table
    requires Valid(t) && i <= |t.order|
  {
    Table(t.order[..i], map n | n in t.order[..i] :: t.params[n])
  }

  /** Inserting the next parameter of `t` into its prefix gives the next prefix. */
  lemma PrefixStep(t: Table, i: nat)
    requires Valid(t) && i < |t.order|
    ensures AddOne(Prefix(t, i), t.params[t.order[i]]) == (Prefix(t, i + 1), Pass)
  {
    var n := t.order[i];
    assert n !in t.order[..i] by {
      forall j | 0 <= j < i ensures t.order[..i][j] != n {
        assert t.order[j] != t.order[i];
      }
    }
    assert t.order[..i] + [n] == t.order[..i + 1];
    var m := Prefix(t, i).params[n := t.params[n]];
    assert m == Prefix(t, i + 1).params;
  }

  lemma {:induction false} RoundTripFrom(t: Table, i: nat)
    requires Valid(t) && i <= |t.order|
    ensures InsertAll(Prefix(t, i), Decoded(DictOf(t))[i..]) == (t, Pass)
    decreases |t.order| - i
  {
    var ps := Decoded(DictOf(t));
    if i == |t.order| {
      assert t.order[..i] == t.order;
      assert Prefix(t, i) == t;
      assert ps[i..] == [];
    } else {
      assert ps[i] == t.params[t.order[i]];
      PrefixStep(t, i);
      assert ps[i..][0] == ps[i] && ps[i..][1..] == ps[i + 1..];
      RoundTripFrom(t, i + 1);
    }
  }

  /** `from_dict(to_dict(P))` rebuilds `P`: same names in the same order, with
      the same parameters, and raises nothing. */
  lemma RoundTrip(t: Table)
    requires Valid(t)
    ensures FromDict(DictOf(t)) == (t, Pass)
  {
    RoundTripFrom(t, 0);
    assert Prefix(t, 0) == Empty;
    var ps := Decoded(DictOf(t));
    assert ps[0..] == ps;
  }
}
