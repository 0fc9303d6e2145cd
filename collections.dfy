/** The classes of `libpyvinyl/Parameters/Collections.py`, whose methods
    update their dicts in place. Each class exposes its contents as a value
    (`State()`), and each method is proved against the functions of
    `Tables` and `Propagation` that describe its effect on that value.
 */
module Collections {
  import opened Errors
  import opened Param
  import opened Tables
  import opened Propagation

  /** A `Parameters` object: the dict `self.parameters` from name to
      parameter, kept as its insertion order and its contents. */
  class Parameters {
    var order: seq<string>
    var params: map<string, Parameter>

    function State(): Table
      reads this
    {
      Table(order, params)
    }

    ghost predicate Valid()
      reads this
    {
      Tables.Valid(State())
    }

    /** `Parameters()`: an empty collection. */
    constructor ()
      ensures Valid() && State() == Empty
    {
      order := [];
      params := map[];
    }

    /** `Parameters(parameters)`: a new collection to which `parameters` is
        added; the constructor raises what `add` raises. */
    static method Create(arg: Argument) returns (r: Result<Parameters>)
      ensures r.Success? <==> AddTo(Empty, arg).1.Pass?
      ensures r.Failure? ==> r.error == AddTo(Empty, arg).1.error
      ensures r.Success? ==> fresh(r.value) && r.value.Valid() && r.value.State() == AddTo(Empty, arg).0
    {
      var p := new Parameters();
      var o := p.Add(arg);
      if o.Pass? {
        r := Success(p);
      } else {
        r := Failure(o.error);
      }
    }

    /** `check_type`: raises unless the object is a `Parameter`. */
    static function CheckType(obj: Obj): (o: Outcome)
      ensures o.Pass? <==> obj.AParameter?
      ensures o.Fail? ==> o.error == NotAParameter
    {
      if obj.AParameter? then Pass else Fail(NotAParameter)
    }

    /** `check_list_type`: raises unless the argument is a list, then checks
        every element in turn. */
    static method CheckListType(arg: Argument) returns (o: Outcome)
      ensures o.Pass? <==> arg.List? && AllParameters(arg.objs)
      ensures arg.Single? ==> o == Fail(NotAList)
      ensures arg.List? && !AllParameters(arg.objs) ==> o == Fail(NotAParameter)
    {
      if !arg.List? {
        return Fail(NotAList);
      }
      var objs := arg.objs;
      for i := 0 to |objs|
        invariant forall k | 0 <= k < i :: objs[k].AParameter?
      {
        o := CheckType(objs[i]);
        if o.Fail? {
          return;
        }
      }
      o := Pass;
    }

    /** `add`: one parameter or a list of them. A list is type checked as a
        whole before anything is inserted; the insertions then run in list
        order and stop at the first name already present. */
    method Add(arg: Argument) returns (o: Outcome)
      requires Valid()
      modifies this
      ensures Valid()
      ensures (State(), o) == AddTo(old(State()), arg)
    {
      if arg.List? {
        o := CheckListType(arg);
        if o.Fail? {
          return;
        }
        var ps := ParametersOf(arg.objs);
        for i := 0 to |ps|
          invariant Valid()
          invariant InsertAll(old(State()), ps) == InsertAll(State(), ps[i..])
        {
          assert ps[i..][1..] == ps[i + 1..];
          var p := ps[i];
          if p.name in params {
            return Fail(DuplicateName);
          }
          params := params[p.name := p];
          order := order + [p.name];
        }
        return Pass;
      }
      o := CheckType(arg.obj);
      if o.Fail? {
        return;
      }
      var p := arg.obj.p;
      if p.name in params {
        return Fail(DuplicateName);
      }
      params := params[p.name := p];
      order := order + [p.name];
    }

    /** `new_parameter`: build a parameter from its fields and add it. */
    method NewParameter(name: string, value: Value, unit: string, comment: string) returns (o: Outcome)
      requires Valid()
      modifies this
      ensures Valid()
      ensures (State(), o) == AddOne(old(State()), Parameter(name, value, unit, comment))
    {
      o := Add(Single(AParameter(Parameter(name, value, unit, comment))));
    }

    /** `P[key]`: the parameter filed under `key`, or a key error. */
    function Get(key: string): (r: Result<Parameter>)
      reads this
      ensures r.Success? <==> key in params
      ensures r.Success? ==> r.value == params[key]
      ensures r.Failure? ==> r.error == MissingName(key)
    {
      if key in params then Success(params[key]) else Failure(MissingName(key))
    }

    /** `P[key] = v`: set the value of the parameter filed under `key`. */
    method SetItem(key: string, v: Value) returns (o: Outcome)
      requires Valid()
      modifies this
      ensures Valid()
      ensures o.Pass? <==> key in old(params)
      ensures o.Pass? ==> State() == SetValueOf(old(State()), key, v)
      ensures o.Fail? ==> o == Fail(MissingName(key)) && State() == old(State())
    {
      if key !in params {
        return Fail(MissingName(key));
      }
      params := params[key := SetValue(params[key], v)];
      o := Pass;
    }

    /** `del P[key]`: remove the parameter filed under `key`. */
    method DelItem(key: string) returns (o: Outcome)
      requires Valid()
      modifies this
      ensures Valid()
      ensures o.Pass? <==> key in old(params)
      ensures o.Pass? ==> State() == DeleteFrom(old(State()), key)
      ensures o.Fail? ==> o == Fail(MissingName(key)) && State() == old(State())
    {
      if key !in params {
        return Fail(MissingName(key));
      }
      ghost var t := DeleteFrom(State(), key);
      order := Without(order, key);
      params := params - {key};
      assert State() == t;
      o := Pass;
    }

    /** `to_dict`: every name with its attribute dict, in insertion order. */
    method ToDict() returns (d: seq<(string, Attributes)>)
      requires Valid()
      ensures d == DictOf(State())
    {
      d := [];
      for i := 0 to |order|
        invariant d == DictOf(State())[..i]
      {
        d := d + [(order[i], ToAttributes(params[order[i]]))];
      }
    }

    /** `Parameters.from_dict`: a new collection to which each decoded
        parameter is added in the dict's order; a repeated name raises. */
    static method FromDict(d: seq<(string, Attributes)>) returns (r: Result<Parameters>)
      ensures r.Success? <==> Tables.FromDict(d).1.Pass?
      ensures r.Failure? ==> r.error == DuplicateName
      ensures r.Success? ==> fresh(r.value) && r.value.Valid() && r.value.State() == Tables.FromDict(d).0
    {
      var p := new Parameters();
      var ps := Decoded(d);
      for i := 0 to |ps|
        invariant fresh(p) && p.Valid()
        invariant InsertAll(Empty, ps) == InsertAll(p.State(), ps[i..])
      {
        assert ps[i..][1..] == ps[i + 1..];
        var o := p.Add(Single(AParameter(ps[i])));
        if o.Fail? {
          return Failure(o.error);
        }
      }
      r := Success(p);
    }
  }

  /** The dict `parameters_dict` from calculator key to `Parameters` object
      that a `ParametersCollection` and its `MasterParameters` share. The same
      object may be registered under several keys. */
  class ParametersDict<K(==, !new)> {
    var keys: seq<K>
    var entries: map<K, Parameters>

    ghost predicate Valid()
      reads this, entries.Values
    {
      && Distinct(keys)
      && (forall k :: k in entries <==> k in keys)
      && (forall k | k in entries :: entries[k].Valid())
    }

    /** The contents of the registered objects are those of `heap`. */
    ghost predicate Holds(heap: map<Parameters, Table>)
      reads this, entries.Values
    {
      && heap.Keys == entries.Values
      && forall k | k in entries :: entries[k].State() == heap[entries[k]]
    }

    /** `self.parameters_dict[k][n] = v`: the registry lookup, then the
        parameter lookup and the write. */
    method SetLinked(k: K, n: string, v: Value, ghost heap: map<Parameters, Table>) returns (o: Outcome)
      requires Valid() && Holds(heap)
      modifies entries.Values
      ensures Valid()
      ensures keys == old(keys) && entries == old(entries)
      ensures o.Pass? <==> Resolves((k, n), entries, heap)
      ensures o.Fail? ==> o == Fail(BrokenError((k, n), entries)) && Holds(heap)
      ensures o.Pass? ==> Holds(heap[entries[k] := SetValueOf(heap[entries[k]], n, v)])
    {
      if k !in entries {
        return Fail(MissingCollection);
      }
      var p := entries[k];
      ghost var written := if n in heap[p].params then heap[p := SetValueOf(heap[p], n, v)] else heap;
      o := p.SetItem(n, v);
      forall k' | k' in entries
        ensures entries[k'].Valid()
        ensures entries[k'].State() == if o.Pass? then written[entries[k']] else heap[entries[k']]
      {
        if entries[k'] != p {
          assert entries[k'].State() == old(entries[k'].State());
        }
      }
    }

    /** The loop of `MasterParameters.__setitem__` over the links of one
        master parameter: `self.parameters_dict[calculator][name] = value` for
        each link in order, stopping at the first lookup that fails. */
    method SetThrough(ls: seq<(K, string)>, v: Value, ghost heap0: map<Parameters, Table>) returns (o: Outcome)
      requires Valid() && Holds(heap0)
      modifies entries.Values
      ensures Valid()
      ensures keys == old(keys) && entries == old(entries)
      ensures var r := FanOut(ls, entries, heap0, v);
              && o == r.1
              && Holds(r.0)
    {
      ghost var heap := heap0;
      o := Pass;
      for i := 0 to |ls|
        invariant Valid() && Holds(heap)
        invariant entries == old(entries) && keys == old(keys)
        invariant FanOut(ls, entries, heap0, v) == FanOut(ls[i..], entries, heap, v)
        invariant o == Pass
      {
        FanOutStep(ls, i, entries, heap, v);
        o := SetLinked(ls[i].0, ls[i].1, v, heap);
        if o.Fail? {
          return;
        }
        heap := heap[entries[ls[i].0] := SetValueOf(heap[entries[ls[i].0]], ls[i].1, v)];
      }
      assert ls[|ls|..] == [];
    }

    constructor ()
      ensures Valid() && keys == [] && entries == map[]
    {
      keys := [];
      entries := map[];
    }
  }

  datatype Option<T> = None | Some(value: T)

  /** A `MasterParameter`: a parameter with the links it controls, a dict
      from calculator key to the name of the parameter to overwrite there,
      or `None` until `add_links` is called. */
  datatype MasterParameter<K> = MasterParameter(param: Parameter, links: Option<seq<(K, string)>>)
  {
    /** `add_links`: replace the links by the given dict. */
    function AddLinks(ls: seq<(K, string)>): (r: MasterParameter<K>)
      ensures r.links == Some(ls) && r.param == param
    {
      MasterParameter(param, Some(ls))
    }

    /** The links `__setitem__` walks through: none while `links` is `None`. */
    function Targets(): (ls: seq<(K, string)>)
      ensures links.None? ==> ls == []
      ensures links.Some? ==> ls == links.value
    {
      if links.Some? then links.value else []
    }
  }

  /** A `MasterParameters` object: a `Parameters` whose entries are master
      parameters (their `Parameter` part in `params`, their links in `links`),
      holding the shared `parameters_dict` by reference. */
  class MasterParameters<K(==, !new)> {
    var order: seq<string>
    var params: map<string, Parameter>
    var links: map<string, Option<seq<(K, string)>>>
    const parametersDict: ParametersDict<K>

    /** The master parameters as a plain collection of parameters. */
    function Base(): Table
      reads this
    {
      Table(order, params)
    }

    ghost predicate Valid()
      reads this
    {
      Tables.Valid(Base()) && links.Keys == params.Keys
    }

    /** `MasterParameters(parameters_dict)`: no master parameters yet. */
    constructor (d: ParametersDict<K>)
      ensures Valid() && parametersDict == d && Base() == Empty && links == map[]
    {
      order := [];
      params := map[];
      links := map[];
      parametersDict := d;
    }

    /** `master[key]`. */
    function Get(key: string): (r: Result<MasterParameter<K>>)
      reads this
      requires Valid()
      ensures r.Success? <==> key in params
      ensures r.Success? ==> r.value == MasterParameter(params[key], links[key])
      ensures r.Failure? ==> r.error == MissingName(key)
    {
      if key in params then Success(MasterParameter(params[key], links[key])) else Failure(MissingName(key))
    }

    /** `add` of one master parameter, as inherited from `Parameters`. */
    method Add(mp: MasterParameter<K>) returns (o: Outcome)
      requires Valid()
      modifies this
      ensures Valid()
      ensures (Base(), o) == AddOne(old(Base()), mp.param)
      ensures links == if o.Pass? then old(links)[mp.param.name := mp.links] else old(links)
    {
      var p := mp.param;
      if p.name in params {
        return Fail(DuplicateName);
      }
      params := params[p.name := p];
      order := order + [p.name];
      links := links[p.name := mp.links];
      o := Pass;
    }

    /** `master[key] = v`: a missing master raises before anything is
        written; otherwise the value is written through every link in order
        (what `Propagation.FanOut` describes), and only when all of them went
        through does the master parameter itself take the value. `heap` is
        the contents of the registered collections at the call. */
    method SetItem(key: string, v: Value, ghost heap: map<Parameters, Table>) returns (o: Outcome)
      requires Valid() && parametersDict.Valid() && parametersDict.Holds(heap)
      modifies this`params, parametersDict.entries.Values
      ensures Valid() && parametersDict.Valid()
      ensures parametersDict.keys == old(parametersDict.keys) && parametersDict.entries == old(parametersDict.entries)
      ensures links == old(links)
      ensures key !in old(params) ==>
                o == Fail(MissingName(key)) && Base() == old(Base()) && parametersDict.Holds(heap)
      ensures key in old(params) ==>
                var r := FanOut(old(MasterParameter(params[key], links[key]).Targets()), parametersDict.entries, heap, v);
                && o == r.1
                && parametersDict.Holds(r.0)
                && Base() == if r.1.Pass? then SetValueOf(old(Base()), key, v) else old(Base())
    {
      if key !in params {
        return Fail(MissingName(key));
      }
      var ls := MasterParameter(params[key], links[key]).Targets();
      o := parametersDict.SetThrough(ls, v, heap);
      if o.Fail? {
        return;
      }
      SetOwn(key, v);
    }

    /** `self.parameters[key].set_value(value)`, the last step of `__setitem__`. */
    method SetOwn(key: string, v: Value)
      requires Valid() && key in params
      modifies this`params
      ensures Valid() && links == old(links)
      ensures Base() == SetValueOf(old(Base()), key, v)
    {
      params := params[key := SetValue(params[key], v)];
    }
  }

  /** What `ParametersCollection.add` is handed: a `Parameters` object or
      something else. */
  datatype Registrant = IsParameters(obj: Parameters) | NotParameters

  /** The `links` argument of `add_master_parameter`: a dict, as its entries
      in iteration order, or something else. */
  datatype LinksArg<K> = LinksDict(entries: seq<(K, string)>) | NotADict

  /** A `ParametersCollection`: the registry `parameters_dict` and the master
      parameters built over that same dict. */
  class ParametersCollection<K(==, !new)> {
    const parametersDict: ParametersDict<K>
    const master: MasterParameters<K>

    ghost predicate Valid()
      reads parametersDict, parametersDict.entries.Values, master
    {
      && master.parametersDict == parametersDict
      && parametersDict.Valid()
      && master.Valid()
    }

    /** `ParametersCollection()`: an empty registry, and a master collection
        that holds that registry itself, not a copy. */
    constructor ()
      ensures Valid() && fresh(parametersDict) && fresh(master)
      ensures parametersDict.keys == [] && parametersDict.entries == map[]
      ensures master.Base() == Empty && master.links == map[]
    {
      var d := new ParametersDict();
      parametersDict := d;
      master := new MasterParameters(d);
    }

    /** `to_dict`: each registered key with the `to_dict` of its collection,
        in registration order. */
    method ToDict() returns (d: seq<(K, seq<(string, Attributes)>)>)
      requires Valid()
      ensures |d| == |parametersDict.keys|
      ensures forall i | 0 <= i < |d| ::
                && d[i].0 == parametersDict.keys[i]
                && d[i].1 == DictOf(parametersDict.entries[parametersDict.keys[i]].State())
    {
      var keys := parametersDict.keys;
      d := [];
      for i := 0 to |keys|
        invariant |d| == i
        invariant forall j | 0 <= j < i :: d[j].0 == keys[j] && d[j].1 == DictOf(parametersDict.entries[keys[j]].State())
      {
        var p := parametersDict.entries[keys[i]];
        var pd := p.ToDict();
        d := d + [(keys[i], pd)];
      }
    }

    /** `add(key, parameters)`: register a `Parameters` object under `key`,
        replacing without complaint what was there; a dict keeps the position
        of a replaced key. */
    method Add(key: K, r: Registrant) returns (o: Outcome)
      requires Valid()
      requires r.IsParameters? ==> r.obj.Valid()
      modifies parametersDict
      ensures Valid()
      ensures r.NotParameters? ==>
                o == Fail(NotParametersObject)
                && parametersDict.keys == old(parametersDict.keys) && parametersDict.entries == old(parametersDict.entries)
      ensures r.IsParameters? ==>
                && o == Pass
                && parametersDict.entries == old(parametersDict.entries)[key := r.obj]
                && parametersDict.keys == if key in old(parametersDict.keys) then old(parametersDict.keys)
                                          else old(parametersDict.keys) + [key]
    {
      if !r.IsParameters? {
        return Fail(NotParametersObject);
      }
      if key !in parametersDict.entries {
        parametersDict.keys := parametersDict.keys + [key];
      }
      parametersDict.entries := parametersDict.entries[key := r.obj];
      o := Pass;
    }

    /** The check of `add_master_parameter` that every link key is registered. */
    method CheckLinkKeys(ls: seq<(K, string)>) returns (o: Outcome)
      ensures o.Pass? <==> forall i | 0 <= i < |ls| :: ls[i].0 in parametersDict.entries
      ensures o.Fail? ==> o == Fail(UnknownLinkKey)
    {
      for i := 0 to |ls|
        invariant forall j | 0 <= j < i :: ls[j].0 in parametersDict.entries
      {
        if ls[i].0 !in parametersDict.entries {
          return Fail(UnknownLinkKey);
        }
      }
      o := Pass;
    }

    /** `add_master_parameter(name, links, ...)`: links that are not a dict,
        or that name an unregistered key, raise before anything is added;
        otherwise the new master parameter, with exactly these links, is
        added to the master collection, which raises on a name it holds. */
    method AddMasterParameter(name: string, links: LinksArg<K>, value: Value, unit: string, comment: string)
      returns (o: Outcome)
      requires Valid()
      modifies master
      ensures Valid()
      ensures links.NotADict? ==> o == Fail(LinksNotADict) && unchanged(master)
      ensures links.LinksDict? && !(forall i | 0 <= i < |links.entries| :: links.entries[i].0 in parametersDict.entries) ==>
                o == Fail(UnknownLinkKey) && unchanged(master)
      ensures links.LinksDict? && (forall i | 0 <= i < |links.entries| :: links.entries[i].0 in parametersDict.entries) ==>
                && (master.Base(), o) == AddOne(old(master.Base()), Parameter(name, value, unit, comment))
                && master.links == if o.Pass? then old(master.links)[name := Some(links.entries)] else old(master.links)
    {
      var mp := MasterParameter(Parameter(name, value, unit, comment), None);
      if !links.LinksDict? {
        return Fail(LinksNotADict);
      }
      o := CheckLinkKeys(links.entries);
      if o.Fail? {
        return;
      }
      mp := mp.AddLinks(links.entries);
      o := master.Add(mp);
    }

    /** `collection[key]`: the `Parameters` object registered under `key`. */
    function Get(key: K): (r: Result<Parameters>)
      reads parametersDict
      ensures r.Success? <==> key in parametersDict.entries
      ensures r.Success? ==> r.value == parametersDict.entries[key]
      ensures r.Failure? ==> r.error == MissingCollection
    {
      if key in parametersDict.entries then Success(parametersDict.entries[key]) else Failure(MissingCollection)
    }

    /** `del collection[key]`: unregister `key`; the other keys keep their
        order, and the collection object itself is not touched. */
    method DelItem(key: K) returns (o: Outcome)
      requires Valid()
      modifies parametersDict
      ensures Valid()
      ensures o.Pass? <==> key in old(parametersDict.entries)
      ensures o.Fail? ==>
                o == Fail(MissingCollection)
                && parametersDict.keys == old(parametersDict.keys) && parametersDict.entries == old(parametersDict.entries)
      ensures o.Pass? ==>
                && parametersDict.entries == old(parametersDict.entries) - {key}
                && parametersDict.keys == Without(old(parametersDict.keys), key)
    {
      if key !in parametersDict.entries {
        return Fail(MissingCollection);
      }
      var ks := parametersDict.keys;
      var i :| 0 <= i < |ks| && ks[i] == key;
      WithoutAt(ks, i);
      RemoveAt(ks, i);
      parametersDict.keys := Without(ks, key);
      parametersDict.entries := parametersDict.entries - {key};
      o := Pass;
    }
  }
}
