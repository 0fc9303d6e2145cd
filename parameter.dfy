/** The `Parameter` collaborator that the collections store.

    Its own source file is not part of this model, so only the interface the
    collections use is stated here: a name fixed at creation, a value that
    `set_value` replaces, unit and comment metadata, and a dict encoding
    (`__dict__`) that `Parameter.from_dict` turns back into a parameter.
 */
module Param {

  /** A parameter value. The collections never inspect it. */
  datatype Value =
    | NoValue
    | Scalar(x: real)
    | Text(s: string)
    | Vector(xs: seq<real>)

  datatype Parameter = Parameter(name: string, value: Value, unit: string, comment: string)

  /** `p.set_value(v)`: a new value, everything else as it was. */
  function SetValue(p: Parameter, v: Value): (r: Parameter)
    ensures r.value == v
    ensures r.name == p.name && r.unit == p.unit && r.comment == p.comment
  {
    p.(value := v)
  }

  /** The attribute dictionary `p.__dict__` that `to_dict` hands out. */
  datatype Attributes = Attributes(name: string, value: Value, unit: string, comment: string)

  function ToAttributes(p: Parameter): Attributes
  {
    Attributes(p.name, p.value, p.unit, p.comment)
  }

  /** `Parameter.from_dict`, assumed to invert the attribute dictionary. */
  function FromAttributes(a: Attributes): (p: Parameter)
    ensures ToAttributes(p) == a
  {
    Parameter(a.name, a.value, a.unit, a.comment)
  }
}
