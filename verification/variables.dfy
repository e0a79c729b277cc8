/** One copy of a database variable (src/Variables/Variable.cs). */
module Variables {
  import opened Wrappers
  import opened Text

  /**
   * A copy of variable `x{id}` held by one site: its committed value, the
   * value written by the transaction holding its write lock, whether it is
   * replicated, and whether a read may be served from this copy.
   */
  datatype Variable = Variable(
    id: int,
    name: string,
    value: int,
    updatedValue: int,
    isReplicated: bool,
    readable: bool)

  /** The name of variable `id`. */
  function NameOf(id: int): string
  {
    "x" + IntToString(id)
  }

  /**
   * A fresh copy of variable `id`: worth ten times its id, replicated
   * exactly when the id is even, readable, with nothing written.
   */
  function New(id: int): (v: Variable)
    ensures v.id == id && v.name == NameOf(id) && v.readable
    ensures v.value == 10 * id && (v.isReplicated <==> id % 2 == 0)
  {
    Variable(id, NameOf(id), id * 10, 0, id % 2 == 0, true)
  }

  /** The name is 'x' followed by the id, and the id can be read back from it. */
  lemma NameCarriesId(id: int)
    ensures |NameOf(id)| >= 2 && NameOf(id)[0] == 'x' && ParseInt(NameOf(id)[1..]) == Some(id)
  {
    assert NameOf(id)[1..] == IntToString(id);
    IntRoundTrip(id);
  }

  /** Different ids give different names. */
  lemma NamesDistinct(a: int, b: int)
    requires a != b
    ensures NameOf(a) != NameOf(b)
  {
    NameCarriesId(a);
    NameCarriesId(b);
  }

  /** "name=value" */
  function ToString(v: Variable): string
  {
    v.name + "=" + IntToString(v.value)
  }

  /** The rendered copy is its name, '=', and a number that parses back to its value. */
  lemma ToStringRoundTrip(v: Variable)
    requires '=' !in v.name
    ensures var s := ToString(v);
      s[..|v.name|] == v.name && s[|v.name|] == '=' && ParseInt(s[|v.name| + 1..]) == Some(v.value)
  {
    var s := ToString(v);
    assert s[|v.name| + 1..] == IntToString(v.value);
    IntRoundTrip(v.value);
  }
}
