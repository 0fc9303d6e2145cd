# libpyvinyl parameter collections in Dafny

A model of the parameter-management classes of libpyvinyl
(`libpyvinyl/Parameters/Collections.py`). It covers four classes:

- `Parameters`: an insertion-ordered, name-keyed collection of `Parameter` records.
- `MasterParameter`: a parameter with links to parameters in other collections.
- `MasterParameters`: a `Parameters` whose `__setitem__` writes a value through those links before taking it itself.
- `ParametersCollection`: a registry from calculator key to `Parameters`, which shares its dict with its `MasterParameters`.

Files and modules:

- `errors.dfy` (`Errors`): the exceptions the classes raise, as values. There is one constructor per message or `KeyError`. `Outcome` and `Result` carry them.
- `parameter.dfy` (`Param`): the `Parameter` record the collections store. Its source file is not part of this model. Only what the collections use is stated:
  - a name;
  - a value that `set_value` replaces;
  - unit and comment;
  - an attribute dict, which `Parameter.from_dict` is taken to invert.
- `tables.dfy` (`Tables`): the contents of one `Parameters` object as a value (`Table`: insertion order plus dict), and each operation as a function on it. Its lemmas state what `add`, `__setitem__`, `__delitem__`, `to_dict` and `from_dict` promise.
- `propagation.dfy` (`Propagation`): the loop of `MasterParameters.__setitem__` as a function over a snapshot of the registered collections (`FanOut`). It is proved equal, parameter by parameter, to a closed form: the links before the first broken one are written, and none after it.
- `collections.dfy` (`Collections`): the four classes, with their dicts as fields that the methods update in place. Each method is proved against the functions of `Tables` and `Propagation`.
  - The registry dict is one object (`ParametersDict`). The collection and its master both hold it, so the master sees calculators registered after it was built.
  - One `Parameters` object may be registered under several keys.
- `scenarios.dfy` (`Scenarios`): whole-object runs. Two calculators are registered and a master parameter is linked to both. The runs cover:
  - a write through the master;
  - the same write after one calculator is unregistered;
  - a master parameter with an unknown link key.

A Python exception is modelled as a returned `Fail`/`Failure`. Where the source leaves partial effects behind an exception, the model states those effects:

- the insertions of a list `add`;
- the link writes of a master `__setitem__`.

Python `isinstance` checks become argument datatypes: `Obj`, `Argument`, `Registrant` and `LinksArg`. A dict is modelled as its entries in iteration order.

## Model

| member | source | states |
|---|---|---|
| Param.SetValue | libpyvinyl/Parameters/Collections.py:76 | `set_value` replaces the value and keeps the name, unit and comment |
| Param.FromAttributes | libpyvinyl/Parameters/Collections.py:122 | decoding an attribute dict gives back a parameter whose attribute dict is that dict |
| Tables.AddOne | libpyvinyl/Parameters/Collections.py:52-57 | adding one parameter succeeds exactly when its name is absent; then the name is appended to the order and filed with the parameter; otherwise it is a duplicate error with the table unchanged; validity is kept |
| Tables.AddOneAsWritten | libpyvinyl/Parameters/Collections.py:54-57 | the single add as written never reports a duplicate; it replaces an entry of the same name in place |
| Tables.SingleAddOverwrites | libpyvinyl/Parameters/Collections.py:44-57 | a second parameter named `x` added on its own silently replaces the first as written, where the name-based check raises |
| Tables.InsertAll | libpyvinyl/Parameters/Collections.py:44-50 | the list insertion loop keeps validity, fails only with a duplicate error, keeps every entry present before, and only appends to the order |
| Tables.AddTo | libpyvinyl/Parameters/Collections.py:37-57 | `add` raises the type error exactly when the argument, or some list element, is not a `Parameter`, and then changes nothing |
| Tables.InsertAllSucceedsIff | libpyvinyl/Parameters/Collections.py:44-49 | a list insertion succeeds exactly when its names are pairwise distinct and none is present before |
| Tables.InsertAllOrder | libpyvinyl/Parameters/Collections.py:44-49 | after a successful list insertion the order is the old order followed by the list's names |
| Tables.InsertAllFinds | libpyvinyl/Parameters/Collections.py:49 | after a successful list insertion every element is found under its own name |
| Tables.InsertAllAdds | libpyvinyl/Parameters/Collections.py:44-50 | after a successful list insertion the names are exactly the old ones plus the list's, in that order, each element is found under its name, and validity is kept |
| Tables.InsertAllStopsAtDuplicate | libpyvinyl/Parameters/Collections.py:44-50 | a failed list insertion equals the successful insertion of the elements before the first duplicate, whose name is then present: earlier insertions are not rolled back |
| Tables.SetValueOf | libpyvinyl/Parameters/Collections.py:72-76 | a set on a present name gives that parameter the new value and changes no other entry, name or order |
| Tables.DeleteFrom | libpyvinyl/Parameters/Collections.py:78-82 | a delete on a present name removes exactly that entry and closes the gap in the order |
| Tables.DictOf | libpyvinyl/Parameters/Collections.py:126-130 | `to_dict` has exactly the collection's names as keys, each once, and each value decodes to the parameter filed under its key |
| Tables.FromDict | libpyvinyl/Parameters/Collections.py:111-124 | `from_dict` always yields a valid collection |
| Tables.RoundTrip | libpyvinyl/Parameters/Collections.py:111-130 | `from_dict(to_dict(P))` succeeds and yields `P`: same names, same order, same parameters |
| Propagation.FanOut | libpyvinyl/Parameters/Collections.py:189-192 | the fan-out over the links keeps the set of registered collections |
| Propagation.FirstBroken | libpyvinyl/Parameters/Collections.py:190-192 | the first link that does not resolve: every link before it resolves and it does not |
| Propagation.TargetedIff | libpyvinyl/Parameters/Collections.py:190-191 | a name is targeted in a collection exactly when some link names it under a key registered to that collection |
| Propagation.FanOutStep | libpyvinyl/Parameters/Collections.py:190-192 | one link either writes and hands over to the remaining links, or raises its lookup error with nothing written |
| Propagation.FanOutKeepsNames | libpyvinyl/Parameters/Collections.py:192 | the fan-out only writes values: every collection keeps its names, their order and its validity |
| Propagation.FanOutOutcome | libpyvinyl/Parameters/Collections.py:190-192 | the fan-out completes exactly when no link is broken, and otherwise raises the lookup error of the first broken link |
| Propagation.FanOutAllResolve | libpyvinyl/Parameters/Collections.py:190-192 | when every link resolves, each targeted parameter holds the value and every other parameter is unchanged |
| Propagation.FanOutPrefix | libpyvinyl/Parameters/Collections.py:190-192 | the collections after the fan-out are those after the links before the first broken one, which complete |
| Propagation.FanOutClosedForm | libpyvinyl/Parameters/Collections.py:190-192 | each parameter ends up holding the value exactly when a link before the first broken one targets it, and is unchanged otherwise |
| Propagation.FanOutSucceedsIff | libpyvinyl/Parameters/Collections.py:190-192 | the fan-out completes exactly when every link resolves; a link to an unregistered key makes it raise |
| Propagation.FanOutWritesEveryTarget | libpyvinyl/Parameters/Collections.py:190-192 | after a completed fan-out every link's target exists and holds the value |
| Propagation.FanOutWritesOnlyTargets | libpyvinyl/Parameters/Collections.py:190-192 | a parameter no link targets keeps its value, whether or not the fan-out completes |
| Propagation.FanOutStopsAtBroken | libpyvinyl/Parameters/Collections.py:190-192 | a raising fan-out raises the error of the first broken link, and leaves what the links before it wrote, with no rollback and no later write |
| Collections.Parameters.constructor | libpyvinyl/Parameters/Collections.py:11-15 | a new collection is empty |
| Collections.Parameters.Create | libpyvinyl/Parameters/Collections.py:11-17 | a collection built with an argument is the empty collection after `add(argument)`, and raises what that `add` raises |
| Collections.Parameters.CheckType | libpyvinyl/Parameters/Collections.py:19-25 | passes exactly on a `Parameter`, and raises the type error otherwise |
| Collections.Parameters.CheckListType | libpyvinyl/Parameters/Collections.py:27-35 | passes exactly on a list of `Parameter`s; a non-list raises the list error, and a list with another element raises the type error |
| Collections.Parameters.Add | libpyvinyl/Parameters/Collections.py:37-57 | the new contents and the outcome are those `Tables.AddTo` gives for the old contents; validity is kept |
| Collections.Parameters.NewParameter | libpyvinyl/Parameters/Collections.py:59-64 | adds the parameter built from the arguments, as `Tables.AddOne` describes |
| Collections.Parameters.Get | libpyvinyl/Parameters/Collections.py:66-70 | returns the parameter filed under the name, or a key error exactly when it is absent |
| Collections.Parameters.SetItem | libpyvinyl/Parameters/Collections.py:72-76 | a present name gets the value as `Tables.SetValueOf` describes; an absent name raises a key error and changes nothing |
| Collections.Parameters.DelItem | libpyvinyl/Parameters/Collections.py:78-82 | a present name is removed as `Tables.DeleteFrom` describes; an absent name raises a key error and changes nothing |
| Collections.Parameters.ToDict | libpyvinyl/Parameters/Collections.py:126-130 | the accumulation loop returns exactly `Tables.DictOf` of the contents |
| Collections.Parameters.FromDict | libpyvinyl/Parameters/Collections.py:111-124 | the loop returns a fresh valid collection with the contents `Tables.FromDict` gives, and raises the duplicate error exactly when that fails |
| Collections.ParametersDict.constructor | libpyvinyl/Parameters/Collections.py:209 | the registry starts empty |
| Collections.ParametersDict.SetLinked | libpyvinyl/Parameters/Collections.py:192 | one link write: it passes exactly when the link resolves; it then writes that one parameter, and otherwise raises its lookup error with nothing changed |
| Collections.ParametersDict.SetThrough | libpyvinyl/Parameters/Collections.py:189-192 | the link loop leaves the registered collections and the outcome exactly as `Propagation.FanOut` says, and leaves the registry itself unchanged |
| Collections.MasterParameter.AddLinks | libpyvinyl/Parameters/Collections.py:158-162 | `add_links` sets the links to exactly the given dict and keeps the parameter |
| Collections.MasterParameter.Targets | libpyvinyl/Parameters/Collections.py:189-190 | the links walked: none while `links` is `None`, else the dict's entries in order |
| Collections.MasterParameters.constructor | libpyvinyl/Parameters/Collections.py:171-181 | the master collection starts empty and holds the given registry itself |
| Collections.MasterParameters.Get | libpyvinyl/Parameters/Collections.py:66-70 | returns the master parameter with its links, or a key error exactly when it is absent |
| Collections.MasterParameters.Add | libpyvinyl/Parameters/Collections.py:52-57 | adds a master parameter as `Tables.AddOne` describes, and records its links exactly when it was added |
| Collections.MasterParameters.SetItem | libpyvinyl/Parameters/Collections.py:183-194 | an absent name raises before any write; otherwise the collections and outcome are as `Propagation.FanOut` says for the master's links; the master's own value changes only when every link went through |
| Collections.MasterParameters.SetOwn | libpyvinyl/Parameters/Collections.py:194 | the master's own `set_value`, as `Tables.SetValueOf` describes |
| Collections.ParametersCollection.constructor | libpyvinyl/Parameters/Collections.py:205-210 | an empty registry, and a master collection holding that same registry |
| Collections.ParametersCollection.ToDict | libpyvinyl/Parameters/Collections.py:212-216 | one entry per registered key, in registration order, each the `to_dict` of its collection |
| Collections.ParametersCollection.Add | libpyvinyl/Parameters/Collections.py:229-238 | a non-`Parameters` raises and changes nothing; otherwise the key maps to the given object and an existing entry is silently replaced in its position; other keys are untouched |
| Collections.ParametersCollection.CheckLinkKeys | libpyvinyl/Parameters/Collections.py:249-252 | passes exactly when every link key is registered, and raises the unknown-link error otherwise |
| Collections.ParametersCollection.AddMasterParameter | libpyvinyl/Parameters/Collections.py:240-255 | non-dict links, and a link to an unregistered key, raise with the master collection unchanged; otherwise the master parameter is added as `Tables.AddOne` describes, with exactly the given links |
| Collections.ParametersCollection.Get | libpyvinyl/Parameters/Collections.py:257-261 | returns the collection registered under the key, or a key error exactly when none is |
| Collections.ParametersCollection.DelItem | libpyvinyl/Parameters/Collections.py:263-267 | a registered key is removed, and the other keys keep their order; an unregistered key raises and changes nothing |
| Scenarios.MasterSetReachesEveryLink | libpyvinyl/Parameters/Collections.py:183-194 | with `A.x` and `B.y` at 1 and a master `m` linked to both, `master["m"] = 5` leaves `A.x`, `B.y` and `m` at 5 |
| Scenarios.WriteAfterDeleteRaises | libpyvinyl/Parameters/Collections.py:263-267 | after `B` is unregistered the same write raises a key error; `A.x` keeps the 5 already written, and `m` stays at 1 |
| Scenarios.UnknownLinkAddsNothing | libpyvinyl/Parameters/Collections.py:249-252 | a master parameter linked to an unregistered key is refused, and the master collection does not hold it |

## Left out

- The collections' `to_json`/`from_json` (libpyvinyl/Parameters/Collections.py:97-109, 132-141, 218-227): file I/O and JSON encoding. Only `to_dict`/`from_dict` are modelled.
- `print_indented` and `__repr__`: their text depends on `Parameter.print_line`, which is not part of this model.
- `libpyvinyl/Parameters/Parameter.py` is not part of this model. `Parameter` is a record of name, value, unit and comment. `set_value` does no validation. `Parameter.from_dict` is assumed to invert the attribute dict. Values are a small tagged type that the collections never inspect; numeric arrays are sequences of reals.
- Parameters are values. A `Parameter` object shared by two collections, or one handed out by `__getitem__` and changed by the caller, is not modelled. `Parameters` objects, in contrast, are shared by reference.
- Collections.Parameters.ToDict: it returns a snapshot of each parameter's attributes. The source returns each parameter's live `__dict__`.
- Registering a `MasterParameters` as a calculator's collection: the registry holds `Parameters` objects only. Writing through a link into a master collection would fan out again, and that is not modelled.
- Collections.MasterParameters.Add: only the single-parameter path, which `add_master_parameter` uses, is modelled for the master collection. `__delitem__`, `to_dict` and list `add`, which it inherits, are not repeated.
- `MasterParameters(parameters_dict, *args)` with initial parameters: the constructor takes the registry only, as `ParametersCollection` calls it.
- A dict given as links is modelled as its entries in order. The model does not require the keys to be distinct, so it admits more link lists than Python can build.
- The calculator classes (`BaseCalculator` in both packages, `VyShadow3`, `VyBase`), the notebooks and the tests: I/O, pickling, foreign libraries and thin glue outside these collections.

## Findings

| source | as written | input that shows it | evidently intended | confidence | as-written member | corrected member |
|---|---|---|---|---|---|---|
| libpyvinyl/Parameters/Collections.py:54 | the single-parameter `add` tests `parameter in self.parameters`, which looks for the `Parameter` object among the dict's keys, which are names | a collection holding a parameter named `x`, then `add(Parameter("x", ...))`: no error, and the first `x` is replaced | raise "Duplicate parameter name in parameters!" on a name already present, as the list path (:45) and the message say | not executed; depends on `Parameter` not comparing equal to a string, and its source is not part of this model | Tables.AddOneAsWritten, Tables.SingleAddOverwrites | Tables.AddOne |

The model uses the corrected, name-based check everywhere.
