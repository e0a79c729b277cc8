/** The parsed operation record (src/Operations/Operation.cs). */
module Operations {
  import opened Wrappers
  import opened Text

  datatype OperationType = Begin | BeginRO | Read | Write | Dump | End | Fail | Recover

  /** Every operation kind, in declaration order. */
  const AllTypes: seq<OperationType> := [Begin, BeginRO, Read, Write, Dump, End, Fail, Recover]

  /** The kinds handled by the site manager; all the others go to the transaction manager. */
  const SiteOperations: seq<OperationType> := [Dump, Fail, Recover]

  predicate IsSiteOperation(t: OperationType) {
    t in SiteOperations
  }

  /** There are exactly eight kinds, and the site operations are exactly Dump, Fail and Recover. */
  lemma {:induction false} KindsAndPartition(t: OperationType)
    ensures t in AllTypes && |AllTypes| == 8
    ensures forall i, j :: 0 <= i < j < |AllTypes| ==> AllTypes[i] != AllTypes[j]
    ensures IsSiteOperation(t) <==> (t == Dump || t == Fail || t == Recover)
  {
  }

  /**
   * An operation: the transaction name is empty for site operations, the
   * site and the value to write are optional integers, the variable name is
   * empty when there is none.
   */
  datatype Operation = Operation(
    kind: OperationType,
    transaction: string,
    site: Option<int>,
    variable: string,
    writeValue: Option<int>)

  function TypeName(t: OperationType): string
  {
    match t
    case Begin => "Begin"
    case BeginRO => "BeginRO"
    case Read => "Read"
    case Write => "Write"
    case Dump => "Dump"
    case End => "End"
    case Fail => "Fail"
    case Recover => "Recover"
  }

  /** String interpolation of an `int?`: the number, or nothing for null. */
  function OptionalIntToString(i: Option<int>): string
  {
    match i
    case Some(v) => IntToString(v)
    case None => ""
  }

  /** The labelled fields of an operation, in the order the report lists them. */
  function Fields(op: Operation): seq<string>
  {
    ["Type: " + TypeName(op.kind),
     "Transaction: " + op.transaction,
     "Site: " + OptionalIntToString(op.site),
     "Variable: " + op.variable,
     "WriteValue: " + OptionalIntToString(op.writeValue)]
  }

  /** "Type: {Type}, Transaction: {Transaction}, Site: {Site}, Variable: {Variable}, WriteValue: {WriteValue}" */
  function ToString(op: Operation): string
  {
    JoinWith(Fields(op), ", ")
  }

  function JoinWith(parts: seq<string>, sep: string): string
    requires |parts| >= 1
    decreases |parts|
  {
    if |parts| == 1 then parts[0] else parts[0] + sep + JoinWith(parts[1..], sep)
  }

  /**
   * The join of the five labelled fields is the report's interpolation:
   * each label with its value, separated by ", ", in the order Type,
   * Transaction, Site, Variable, WriteValue.
   */
  lemma ToStringFlat(op: Operation)
    ensures ToString(op) ==
      "Type: " + TypeName(op.kind) + ", " + (
      "Transaction: " + op.transaction + ", " + (
      "Site: " + OptionalIntToString(op.site) + ", " + (
      "Variable: " + op.variable + ", " + (
      "WriteValue: " + OptionalIntToString(op.writeValue)))))
  {
    JoinFive(Fields(op), ", ");
  }

  /** Five parts joined by `sep`, written out. */
  lemma JoinFive(f: seq<string>, sep: string)
    requires |f| == 5
    ensures JoinWith(f, sep) == f[0] + sep + (f[1] + sep + (f[2] + sep + (f[3] + sep + f[4])))
  {
    assert f[1..][1..] == f[2..] && f[2..][1..] == f[3..] && f[3..][1..] == f[4..];
    assert JoinWith(f[4..], sep) == f[4];
    assert JoinWith(f[3..], sep) == f[3] + sep + f[4];
    assert JoinWith(f[2..], sep) == f[2] + sep + (f[3] + sep + f[4]);
    assert JoinWith(f[1..], sep) == f[1] + sep + (f[2] + sep + (f[3] + sep + f[4]));
  }

  /** Each kind prints under its own name, so the report's `Type` field tells the kinds apart. */
  lemma TypeNamesDistinct(a: OperationType, b: OperationType)
    requires a != b
    ensures TypeName(a) != TypeName(b)
  {
  }
}
