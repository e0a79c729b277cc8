/**
 * The text front end (src/Operations/InputParser.cs): lines of
 * `;`-separated instructions such as `begin(T1); R(T1,x3); W(T2,x4,55)`,
 * each turned into an `Operation`. Reading the file or the console is not
 * modelled; the lines are given.
 */
module InputParser {
  import opened Wrappers
  import opened Text
  import opened Operations
  import Variables

  /**
   * Why a line is rejected. Each one ends the program: most through the
   * `FormatException` the parser catches and reports, the last two through an
   * exception it does not catch.
   */
  datatype ParseError =
    | NotSupported          // an unknown operation keyword
    | NoData                // no arguments to an operation other than dump
    | InvalidSite           // a site argument that is not an integer in 1..10
    | NoVariable            // a read or write without a variable argument
    | InvalidVariable       // a variable that is not 'x' and an integer in 1..20
    | NoWriteValue          // a write without a value argument
    | BadWriteValue         // a value that is not an integer
    | WriteValueOverflow    // a value outside the 32-bit range (`OverflowException`)
    | EmptyOperation        // an operation with no text between its parentheses (`parts[0]` out of range)

  /** The range of the C# `int`. */
  const IntMin: int := -0x8000_0000
  const IntMax: int := 0x7FFF_FFFF

  const NumSites: int := 10
  const NumVariables: int := 20

  /** `int.TryParse`: the integer the text spells, when it spells one that fits in an `int`. */
  function TryParseInt(s: string): (r: Option<int>)
    ensures r.Some? ==> IntMin <= r.value <= IntMax && ParseInt(s) == r
    ensures r.None? ==> ParseInt(s).None? || !(IntMin <= ParseInt(s).value <= IntMax)
  {
    match ParseInt(s)
    case Some(n) => if IntMin <= n <= IntMax then Some(n) else None
    case None => None
  }

  /** `GetOperationType`: the keyword, trimmed and lower-cased, names the kind. */
  function GetOperationType(s: string): (r: Result<OperationType, ParseError>)
    ensures r.Err? ==> r.error == NotSupported
  {
    KindOf(ToLower(Trim(s)))
  }

  /** The `switch` over the normalised keyword. */
  function KindOf(k: string): (r: Result<OperationType, ParseError>)
    ensures r.Err? ==> r.error == NotSupported
  {
    if k == "begin" then Ok(Begin)
    else if k == "beginro" then Ok(BeginRO)
    else if k == "r" || k == "read" then Ok(Read)
    else if k == "w" || k == "write" then Ok(Write)
    else if k == "dump" then Ok(Dump)
    else if k == "end" then Ok(End)
    else if k == "fail" then Ok(Fail)
    else if k == "recover" then Ok(Recover)
    else Err(NotSupported)
  }

  /** The keywords each kind is written with, in lower case. */
  function Keywords(t: OperationType): seq<string>
  {
    match t
    case Begin => ["begin"]
    case BeginRO => ["beginro"]
    case Read => ["r", "read"]
    case Write => ["w", "write"]
    case Dump => ["dump"]
    case End => ["end"]
    case Fail => ["fail"]
    case Recover => ["recover"]
  }

  /** A keyword is recognised exactly when, trimmed and lower-cased, it is one of a kind's keywords. */
  lemma {:induction false} GetOperationTypeSpec(s: string, t: OperationType)
    ensures GetOperationType(s) == Ok(t) <==> ToLower(Trim(s)) in Keywords(t)
  {
    KindOfSpec(ToLower(Trim(s)), t);
  }

  lemma {:induction false} KindOfSpec(k: string, t: OperationType)
    ensures KindOf(k) == Ok(t) <==> k in Keywords(t)
  {
    match t
    case Begin =>
    case BeginRO =>
    case Read =>
    case Write =>
    case Dump =>
    case End =>
    case Fail =>
    case Recover =>
  }

  /** `GetTransaction`: the first argument, trimmed, for the transaction kinds; nothing for the site kinds. */
  function GetTransaction(info: seq<string>, t: OperationType): (r: string)
    requires |info| >= 1
    ensures IsSiteOperation(t) ==> r == ""
    ensures !IsSiteOperation(t) ==> r == Trim(info[0])
  {
    KindsAndPartition(t);
    if t == Begin || t == BeginRO || t == Read || t == Write || t == End then Trim(info[0]) else ""
  }

  /**
   * `GetSite`: fail and recover need a site in 1..10; a dump whose argument
   * is an integer needs it in 1..10, and a dump of a variable has no site.
   */
  function GetSite(info: seq<string>, t: OperationType): (r: Result<Option<int>, ParseError>)
    requires |info| >= 1
    ensures r.Err? ==> r.error == InvalidSite
    ensures r.Ok? && r.value.Some? ==> 1 <= r.value.value <= NumSites && TryParseInt(info[0]) == r.value
    ensures (t == Fail || t == Recover) ==>
      (r.Ok? <==> TryParseInt(info[0]).Some? && 1 <= TryParseInt(info[0]).value <= NumSites)
    ensures (t == Fail || t == Recover) && r.Ok? ==> r.value.Some?
    ensures t == Dump ==> (r == Ok(None) <==> TryParseInt(info[0]).None?)
    ensures t != Dump && t != Fail && t != Recover ==> r == Ok(None)
  {
    var n := TryParseInt(info[0]);
    if t == Dump && n.Some? then
      if n.value <= NumSites && n.value >= 1 then Ok(n) else Err(InvalidSite)
    else if t == Fail || t == Recover then
      if n.Some? && n.value <= NumSites && n.value >= 1 then Ok(n) else Err(InvalidSite)
    else Ok(None)
  }

  /**
   * `GetValidVariable`: trimmed and lower-cased, the text must be 'x'
   * followed by an integer in 1..20; that lower-cased text is the result.
   */
  function GetValidVariable(s: string): (r: Result<string, ParseError>)
    ensures r.Err? ==> r.error == InvalidVariable
  {
    var v := ToLower(Trim(s));
    if |v| == 0 || v[0] != 'x' then Err(InvalidVariable)
    else
      match TryParseInt(v[1..])
      case None => Err(InvalidVariable)
      case Some(id) => if id > NumVariables || id < 1 then Err(InvalidVariable) else Ok(v)
  }

  /**
   * A variable is accepted exactly when, trimmed and lower-cased, it is 'x'
   * followed by an integer in 1..20, and the accepted name is that text.
   */
  lemma {:induction false} GetValidVariableSpec(s: string)
    ensures var v := ToLower(Trim(s));
      && (GetValidVariable(s).Ok? <==>
           |v| >= 1 && v[0] == 'x' && TryParseInt(v[1..]).Some? && 1 <= TryParseInt(v[1..]).value <= NumVariables)
      && (GetValidVariable(s).Ok? ==> GetValidVariable(s).value == v)
  {
  }

  /**
   * `GetVariable`: a read or write names its variable second; a dump whose
   * argument is not an integer names a variable; other kinds have none.
   */
  function GetVariable(info: seq<string>, t: OperationType): (r: Result<string, ParseError>)
    requires |info| >= 1
    ensures (t == Read || t == Write) && |info| < 2 ==> r == Err(NoVariable)
    ensures (t == Read || t == Write) && |info| >= 2 ==> r == GetValidVariable(info[1])
    ensures t == Dump ==> r == if TryParseInt(info[0]).Some? then Ok("") else GetValidVariable(info[0])
    ensures t != Read && t != Write && t != Dump ==> r == Ok("")
  {
    if t == Dump then
      if TryParseInt(info[0]).Some? then Ok("") else GetValidVariable(info[0])
    else if t == Read || t == Write then
      if |info| < 2 then Err(NoVariable) else GetValidVariable(info[1])
    else Ok("")
  }

  /** `GetWriteValue`: a write needs a third argument that `int.Parse` accepts; other kinds have none. */
  function GetWriteValue(info: seq<string>, t: OperationType): (r: Result<Option<int>, ParseError>)
    ensures t != Write ==> r == Ok(None)
    ensures t == Write && |info| < 3 ==> r == Err(NoWriteValue)
    ensures t == Write && |info| >= 3 ==>
      match ParseInt(info[2])
      case None => r == Err(BadWriteValue)
      case Some(n) => r == if IntMin <= n <= IntMax then Ok(Some(n)) else Err(WriteValueOverflow)
  {
    if t != Write then Ok(None)
    else if |info| < 3 then Err(NoWriteValue)
    else match ParseInt(info[2])
      case None => Err(BadWriteValue)
      case Some(n) => if IntMin <= n <= IntMax then Ok(Some(n)) else Err(WriteValueOverflow)
  }

  /** The pieces between parentheses, blank ones dropped. */
  function Parts(s: string): seq<string> {
    NonBlank(Split(Trim(s), {'(', ')'}))
  }

  /** The comma-separated arguments, blank ones dropped. */
  function Arguments(parts: seq<string>): seq<string> {
    if |parts| > 1 then NonBlank(Split(Trim(parts[1]), {','})) else []
  }

  /**
   * `ParseOperation`: the keyword before the parenthesis gives the kind, the
   * arguments inside give the transaction, site, variable and value, read in
   * that order, the first failure deciding the error.
   */
  function ParseOperation(s: string): (r: Result<Operation, ParseError>)
    ensures Parts(s) == [] ==> r == Err(EmptyOperation)
    ensures r.Ok? ==> Parts(s) != [] && GetOperationType(Parts(s)[0]) == Ok(r.value.kind)
    ensures r.Ok? && r.value.kind != Dump ==> |Arguments(Parts(s))| >= 1
    ensures r.Ok? && |Arguments(Parts(s))| >= 1 ==> var info := Arguments(Parts(s));
      && r.value.transaction == GetTransaction(info, r.value.kind)
      && GetSite(info, r.value.kind) == Ok(r.value.site)
      && GetVariable(info, r.value.kind) == Ok(r.value.variable)
      && GetWriteValue(info, r.value.kind) == Ok(r.value.writeValue)
    ensures r.Ok? && Arguments(Parts(s)) == [] ==>
      r.value == Operation(Dump, "", None, "", None)
  {
    var parts := Parts(s);
    if parts == [] then Err(EmptyOperation)
    else
      match GetOperationType(parts[0])
      case Err(e) => Err(e)
      case Ok(t) =>
        var info := Arguments(parts);
        if t != Dump && |info| < 1 then Err(NoData)
        else if |info| == 0 then Ok(Operation(t, "", None, "", None))
        else
          var transaction := GetTransaction(info, t);
          match GetSite(info, t)
          case Err(e) => Err(e)
          case Ok(site) =>
            match GetVariable(info, t)
            case Err(e) => Err(e)
            case Ok(variable) =>
              match GetWriteValue(info, t)
              case Err(e) => Err(e)
              case Ok(value) => Ok(Operation(t, transaction, site, variable, value))
  }

  /** Applies `parse` to every piece in turn, stopping at the first failure. */
  function ParseEach<T>(pieces: seq<string>, parse: string -> Result<T, ParseError>): (r: Result<seq<T>, ParseError>)
    ensures r.Ok? ==> |r.value| == |pieces| && forall k :: 0 <= k < |pieces| ==> parse(pieces[k]) == Ok(r.value[k])
    ensures r.Err? <==> exists k :: 0 <= k < |pieces| && parse(pieces[k]).Err?
    ensures r.Err? ==> exists k :: (0 <= k < |pieces| && parse(pieces[k]) == Err(r.error)
      && forall j :: 0 <= j < k ==> parse(pieces[j]).Ok?)
  {
    if pieces == [] then Ok([])
    else
      match parse(pieces[0])
      case Err(e) => Err(e)
      case Ok(op) =>
        var rest := ParseEach(pieces[1..], parse);
        assert forall k :: 1 <= k < |pieces| ==> pieces[k] == pieces[1..][k - 1];
        match rest
        case Err(e) =>
          ghost var k :| 0 <= k < |pieces[1..]| && parse(pieces[1..][k]) == Err(e)
            && forall j :: 0 <= j < k ==> parse(pieces[1..][j]).Ok?;
          assert parse(pieces[k + 1]) == Err(e);
          Err(e)
        case Ok(ops) => Ok([op] + ops)
  }

  /**
   * `ParseLine`: the line's non-blank `;`-separated pieces, each parsed; the
   * first piece that fails decides the error.
   */
  function ParseLine(line: string): (r: Result<seq<Operation>, ParseError>)
    ensures r.Ok? ==> |r.value| == |Pieces(line)|
    ensures r.Ok? ==> forall k :: 0 <= k < |Pieces(line)| ==> ParseOperation(Pieces(line)[k]) == Ok(r.value[k])
    ensures r.Err? ==> exists k :: 0 <= k < |Pieces(line)| && ParseOperation(Pieces(line)[k]) == Err(r.error)
  {
    ParseEach(Pieces(line), ParseOperation)
  }

  /** The non-blank `;`-separated pieces of a line. */
  function Pieces(line: string): seq<string> {
    NonBlank(Split(line, {';'}))
  }

  /**
   * The converse of `ParseOperation`'s contract: when the keyword and every
   * field reader succeed, the operation is the one they describe.
   */
  lemma {:induction false} ParseOperationOk(s: string, op: Operation)
    requires Parts(s) != [] && GetOperationType(Parts(s)[0]) == Ok(op.kind)
    requires var info := Arguments(Parts(s));
      || (info == [] && op == Operation(Dump, "", None, "", None))
      || (|info| >= 1
        && op.transaction == GetTransaction(info, op.kind)
        && GetSite(info, op.kind) == Ok(op.site)
        && GetVariable(info, op.kind) == Ok(op.variable)
        && GetWriteValue(info, op.kind) == Ok(op.writeValue))
    ensures ParseOperation(s) == Ok(op)
  {
  }

  // Writing operations back as text.

  /** The characters that delimit operations, keywords and fields. */
  const Punctuation: set<char> := {'(', ')', ',', ';'}

  /** A field as the renderer writes it: no white space and no punctuation. */
  predicate FieldChar(c: char) {
    !IsWhite(c) && c !in Punctuation
  }

  /** Characters an operation's rendering may contain between its parentheses. */
  predicate InnerChar(c: char) {
    !IsWhite(c) && c != '(' && c != ')' && c != ';'
  }

  predicate IsField(t: string) {
    |t| >= 1 && AllChars(t, FieldChar)
  }

  /** The name of one of the twenty variables. */
  predicate IsVariableName(v: string) {
    exists id :: 1 <= id <= NumVariables && v == Variables.NameOf(id)
  }

  /** The operations the parser can produce from canonical text. */
  predicate WellFormed(op: Operation) {
    match op.kind
    case Begin | BeginRO | End =>
      IsField(op.transaction) && op.site.None? && op.variable == "" && op.writeValue.None?
    case Read =>
      IsField(op.transaction) && op.site.None? && IsVariableName(op.variable) && op.writeValue.None?
    case Write =>
      && IsField(op.transaction) && op.site.None? && IsVariableName(op.variable)
      && op.writeValue.Some? && IntMin <= op.writeValue.value <= IntMax
    case Fail | Recover =>
      && op.transaction == "" && op.site.Some? && 1 <= op.site.value <= NumSites
      && op.variable == "" && op.writeValue.None?
    case Dump =>
      && op.transaction == "" && op.writeValue.None?
      && (|| (op.site.None? && op.variable == "")
          || (op.site.Some? && 1 <= op.site.value <= NumSites && op.variable == "")
          || (op.site.None? && IsVariableName(op.variable)))
  }

  /** The keyword an operation is written with. */
  function Keyword(t: OperationType): string {
    Keywords(t)[0]
  }

  /** The fields an operation is written with, in the order the parser reads them. */
  function RenderedFields(op: Operation): seq<string> {
    match op.kind
    case Begin | BeginRO | End => [op.transaction]
    case Read => [op.transaction, op.variable]
    case Write => [op.transaction, op.variable, OptionalIntToString(op.writeValue)]
    case Fail | Recover => [OptionalIntToString(op.site)]
    case Dump =>
      if op.site.Some? then [IntToString(op.site.value)]
      else if op.variable != "" then [op.variable]
      else []
  }

  /** `keyword(field,field,...)` */
  function Render(op: Operation): string {
    var fields := RenderedFields(op);
    Keyword(op.kind) + "(" + (if fields == [] then "" else Join(fields, ',')) + ")"
  }

  /** Operations written one after another, separated by `;`. */
  function RenderLine(ops: seq<Operation>): string
    requires |ops| >= 1
  {
    Join(seq(|ops|, k requires 0 <= k < |ops| => Render(ops[k])), ';')
  }

  lemma {:induction false} IntIsField(n: int)
    ensures IsField(IntToString(n))
  {
    var s := IntToString(n);
    if n < 0 {
      forall k | 1 <= k < |s|
        ensures IsDigit(s[k])
      {
        assert s[k] == s[1..][k - 1];
      }
    }
  }

  lemma {:induction false} VariableIsField(v: string)
    requires IsVariableName(v)
    ensures IsField(v) && ToLower(v) == v && v[0] == 'x'
    ensures exists id :: 1 <= id <= NumVariables && TryParseInt(v[1..]) == Some(id)
    ensures TryParseInt(v).None?
  {
    var id :| 1 <= id <= NumVariables && v == Variables.NameOf(id);
    NameOfParts(id);
    NotAnInt(v);
  }

  /** Variable `id`'s name is a lower-case field: 'x' and then digits spelling `id`. */
  lemma {:induction false} NameOfParts(id: int)
    requires 1 <= id <= NumVariables
    ensures var v := Variables.NameOf(id);
      IsField(v) && ToLower(v) == v && v[0] == 'x' && TryParseInt(v[1..]) == Some(id)
  {
    var v := Variables.NameOf(id);
    Variables.NameCarriesId(id);
    NameOfChars(id);
    LowerOfLower(v);
  }

  lemma {:induction false} NameOfChars(id: nat)
    ensures var v := Variables.NameOf(id);
      forall k :: 0 <= k < |v| ==> FieldChar(v[k]) && !('A' <= v[k] <= 'Z')
  {
    var v := Variables.NameOf(id);
    var digits := IntToString(id);
    assert v == ['x'] + digits;
    forall k | 0 <= k < |v|
      ensures FieldChar(v[k]) && !('A' <= v[k] <= 'Z')
    {
      if k > 0 {
        assert v[k] == digits[k - 1];
        assert IsDigit(digits[k - 1]);
      }
    }
  }

  /** Text that starts with a letter does not parse as an integer. */
  lemma {:induction false} NotAnInt(v: string)
    requires |v| >= 1 && v[0] == 'x' && AllChars(v, FieldChar)
    ensures TryParseInt(v).None?
  {
    TrimOfDense(v);
    assert !IsDigit(v[0]);
  }

  /** The fields of a well-formed operation are non-empty and free of white space and punctuation. */
  lemma {:induction false} FieldsAreFields(op: Operation)
    requires WellFormed(op)
    ensures forall k :: 0 <= k < |RenderedFields(op)| ==> IsField(RenderedFields(op)[k])
  {
    match op.kind
    case Begin | BeginRO | End =>
    case Read =>
      VariableIsField(op.variable);
    case Write =>
      VariableIsField(op.variable);
      IntIsField(op.writeValue.value);
    case Fail | Recover =>
      IntIsField(op.site.value);
    case Dump =>
      if op.site.Some? {
        IntIsField(op.site.value);
      } else if op.variable != "" {
        VariableIsField(op.variable);
      }
  }

  /** Every keyword is written in lower case, without white space or punctuation. */
  lemma {:induction false} KeywordIsField(t: OperationType)
    ensures IsField(Keyword(t)) && Keyword(t) in Keywords(t)
    ensures forall k :: 0 <= k < |Keyword(t)| ==> 'a' <= Keyword(t)[k] <= 'z'
  {
  }

  /** The comma-joined fields: no white space, parentheses or `;`, and they split back into the fields. */
  lemma {:induction false} JoinedFields(fields: seq<string>)
    requires |fields| >= 1 && forall i :: 0 <= i < |fields| ==> IsField(fields[i])
    ensures var inner := Join(fields, ',');
      && |inner| >= 1 && (forall k :: 0 <= k < |inner| ==> InnerChar(inner[k]))
      && NonBlank(Split(Trim(inner), {','})) == fields
  {
    forall i | 0 <= i < |fields|
      ensures AllChars(fields[i], InnerChar) && Avoids(fields[i], {','}) && !IsBlank(fields[i])
    {
      assert forall k :: 0 <= k < |fields[i]| ==> FieldChar(fields[i][k]);
      NotBlank(fields[i], 0);
    }
    JoinKeeps(fields, ',', InnerChar);
    var inner := Join(fields, ',');
    assert forall k :: 0 <= k < |inner| ==> InnerChar(inner[k]);
    TrimOfDense(inner);
    JoinSplit(fields, ',', {','});
    NonBlankKeepsAll(fields);
  }

  /** `keyword(inner)` splits at its parentheses into the keyword and, unless empty, the inner text. */
  lemma {:induction false} Bracketed(kw: string, inner: string)
    requires IsField(kw) && forall k :: 0 <= k < |inner| ==> InnerChar(inner[k])
    ensures Parts(kw + "(" + inner + ")") == (if inner == [] then [kw] else [kw, inner])
  {
    var s := kw + "(" + inner + ")";
    assert s == kw + ['('] + (inner + [')'] + []);
    assert forall k :: 0 <= k < |kw| ==> FieldChar(kw[k]);
    TrimOfDense(s);
    var seps := {'(', ')'};
    SplitAtFirst(kw, '(', inner + [')'] + [], seps);
    SplitAtFirst(inner, ')', [], seps);
    assert Split(s, seps) == [kw, inner, ""];
    NotBlank(kw, 0);
    BracketedPieces(kw, inner);
  }

  lemma {:induction false} BracketedPieces(kw: string, inner: string)
    requires !IsBlank(kw) && forall k :: 0 <= k < |inner| ==> InnerChar(inner[k])
    ensures NonBlank([kw, inner, ""]) == (if inner == [] then [kw] else [kw, inner])
  {
    if inner != [] {
      NotBlank(inner, 0);
    } else {
      assert IsBlank(inner);
    }
    NonBlankBeforeEmpty(inner);
    assert [kw, inner, ""] == [kw] + [inner, ""];
    NonBlankCons(kw, [inner, ""]);
  }

  lemma {:induction false} NonBlankBeforeEmpty(p: string)
    ensures NonBlank([p, ""]) == if IsBlank(p) then [] else [p]
  {
    assert IsBlank("");
    NonBlankCons("", []);
    assert [p, ""] == [p] + [""];
    NonBlankCons(p, [""]);
  }

  /** `keyword(inner)` holds no `;` and is not blank. */
  lemma {:induction false} BracketedIsPiece(kw: string, inner: string)
    requires IsField(kw) && forall k :: 0 <= k < |inner| ==> InnerChar(inner[k])
    ensures Avoids(kw + "(" + inner + ")", {';'}) && !IsBlank(kw + "(" + inner + ")")
  {
    var s := kw + "(" + inner + ")";
    forall k | 0 <= k < |s|
      ensures s[k] != ';'
    {
      if k < |kw| {
        assert s[k] == kw[k];
        assert FieldChar(kw[k]);
      } else if |kw| < k < |kw| + 1 + |inner| {
        assert s[k] == inner[k - |kw| - 1];
      }
    }
    assert s[0] == kw[0] && FieldChar(kw[0]);
    NotBlank(s, 0);
  }

  /**
   * The pieces of a rendered operation: the keyword, then the fields joined
   * by commas, which the parser splits apart again.
   */
  lemma {:induction false} RenderParts(op: Operation)
    requires WellFormed(op)
    ensures var fields := RenderedFields(op);
      && Parts(Render(op)) == (if fields == [] then [Keyword(op.kind)] else [Keyword(op.kind), Join(fields, ',')])
      && Arguments(Parts(Render(op))) == fields
    ensures Avoids(Render(op), {';'}) && !IsBlank(Render(op))
  {
    KeywordIsField(op.kind);
    FieldsAreFields(op);
    Shape(Keyword(op.kind), RenderedFields(op));
  }

  /** The shape of `keyword(field,...)` for any keyword and fields. */
  lemma {:induction false} Shape(kw: string, fields: seq<string>)
    requires IsField(kw) && forall i :: 0 <= i < |fields| ==> IsField(fields[i])
    ensures var s := kw + "(" + (if fields == [] then "" else Join(fields, ',')) + ")";
      && Parts(s) == (if fields == [] then [kw] else [kw, Join(fields, ',')])
      && Arguments(Parts(s)) == fields
      && Avoids(s, {';'}) && !IsBlank(s)
  {
    if fields == [] {
      ShapeBare(kw);
    } else {
      ShapeJoined(kw, fields);
    }
  }

  lemma {:induction false} ShapeBare(kw: string)
    requires IsField(kw)
    ensures var s := kw + "(" + "" + ")";
      Parts(s) == [kw] && Arguments(Parts(s)) == [] && Avoids(s, {';'}) && !IsBlank(s)
  {
    var s := kw + "(" + "" + ")";
    Bracketed(kw, "");
    assert Parts(s) == [kw];
    assert Arguments([kw]) == [];
    BracketedIsPiece(kw, "");
  }

  lemma {:induction false} ShapeJoined(kw: string, fields: seq<string>)
    requires IsField(kw) && |fields| >= 1 && forall i :: 0 <= i < |fields| ==> IsField(fields[i])
    ensures var s := kw + "(" + Join(fields, ',') + ")";
      && Parts(s) == [kw, Join(fields, ',')] && Arguments(Parts(s)) == fields
      && Avoids(s, {';'}) && !IsBlank(s)
  {
    var inner := Join(fields, ',');
    JoinedFields(fields);
    Bracketed(kw, inner);
    BracketedIsPiece(kw, inner);
  }

  /** Every keyword the renderer writes is recognised as its own kind. */
  lemma {:induction false} KeywordType(t: OperationType)
    ensures GetOperationType(Keyword(t)) == Ok(t)
  {
    KeywordIsField(t);
    LowerKeyword(Keyword(t));
    KindOfSpec(Keyword(t), t);
  }

  /** A keyword of lower-case letters is unchanged by trimming and lower-casing. */
  lemma {:induction false} LowerKeyword(kw: string)
    requires |kw| >= 1 && forall k :: 0 <= k < |kw| ==> 'a' <= kw[k] <= 'z'
    ensures ToLower(Trim(kw)) == kw
  {
    TrimOfDense(kw);
    LowerOfLower(kw);
  }

  /** Each of the twenty variable names is accepted as it is, and is not an integer. */
  lemma {:induction false} ValidVariable(v: string)
    requires IsVariableName(v)
    ensures GetValidVariable(v) == Ok(v)
    ensures TryParseInt(v).None?
  {
    VariableIsField(v);
    assert FieldChar(v[0]) && FieldChar(v[|v| - 1]);
    TrimOfDense(v);
    GetValidVariableSpec(v);
  }

  /** A rendered 32-bit integer is read back as itself. */
  lemma {:induction false} IntReadBack(n: int)
    requires IntMin <= n <= IntMax
    ensures TryParseInt(IntToString(n)) == Some(n)
  {
    IntRoundTrip(n);
  }

  /** The field readers recover a well-formed operation from its fields. */
  lemma {:induction false} FieldsRead(op: Operation)
    requires WellFormed(op)
    ensures FieldsReadBack(op)
  {
    match op.kind
    case Begin | BeginRO | End =>
      FieldTrims(op.transaction);
      TransactionFieldsRead(op.kind, op.transaction);
      assert op == Operation(op.kind, op.transaction, None, "", None);
    case Read =>
      FieldTrims(op.transaction);
      WellFormedVariable(op);
      ReadFieldsRead(op.transaction, op.variable);
      assert op == Operation(Read, op.transaction, None, op.variable, None);
    case Write =>
      FieldTrims(op.transaction);
      WellFormedVariable(op);
      var n := op.writeValue.value;
      IntRoundTrip(n);
      WriteFieldsRead(op.transaction, op.variable, n);
      assert op == Operation(Write, op.transaction, None, op.variable, Some(n));
    case Fail | Recover =>
      var n := op.site.value;
      IntReadBack(n);
      SiteFieldsRead(op.kind, n);
      assert op == Operation(op.kind, "", Some(n), "", None);
    case Dump =>
      if op.site.Some? {
        var n := op.site.value;
        IntReadBack(n);
        SiteFieldsRead(op.kind, n);
        assert op == Operation(Dump, "", Some(n), "", None);
      } else if op.variable != "" {
        WellFormedVariable(op);
        DumpVariableFieldsRead(op.variable);
        assert op == Operation(Dump, "", None, op.variable, None);
      }
  }

  /** The field readers, applied to the operation's rendered fields, give back its parts. */
  predicate FieldsReadBack(op: Operation) {
    var info := RenderedFields(op);
    || (info == [] && op == Operation(Dump, "", None, "", None))
    || (|info| >= 1
      && op.transaction == GetTransaction(info, op.kind)
      && GetSite(info, op.kind) == Ok(op.site)
      && GetVariable(info, op.kind) == Ok(op.variable)
      && GetWriteValue(info, op.kind) == Ok(op.writeValue))
  }

  lemma {:induction false} WellFormedVariable(op: Operation)
    requires WellFormed(op) && (op.kind in {Read, Write} || (op.kind == Dump && op.variable != ""))
    ensures GetValidVariable(op.variable) == Ok(op.variable) && TryParseInt(op.variable).None?
  {
    ValidVariable(op.variable);
  }

  lemma {:induction false} TransactionFieldsRead(kind: OperationType, t: string)
    requires Trim(t) == t && kind in {Begin, BeginRO, End}
    ensures FieldsReadBack(Operation(kind, t, None, "", None))
  {
    var info := RenderedFields(Operation(kind, t, None, "", None));
    assert info == [t];
    ReadsTransactionName(info, kind);
    ReadsNoSite(info, kind);
    ReadsNoVariable(info, kind);
    ReadsNoValue(info, kind);
  }

  lemma {:induction false} ReadFieldsRead(t: string, v: string)
    requires Trim(t) == t && GetValidVariable(v) == Ok(v)
    ensures FieldsReadBack(Operation(Read, t, None, v, None))
  {
    var info := RenderedFields(Operation(Read, t, None, v, None));
    assert info == [t, v];
    ReadsTransactionName(info, Read);
    ReadsNoSite(info, Read);
    ReadsVariable(info, Read);
    ReadsNoValue(info, Read);
  }

  lemma {:induction false} WriteFieldsRead(t: string, v: string, n: int)
    requires Trim(t) == t && GetValidVariable(v) == Ok(v)
    requires IntMin <= n <= IntMax && ParseInt(IntToString(n)) == Some(n)
    ensures FieldsReadBack(Operation(Write, t, None, v, Some(n)))
  {
    var info := RenderedFields(Operation(Write, t, None, v, Some(n)));
    assert info == [t, v, IntToString(n)];
    ReadsTransactionName(info, Write);
    ReadsNoSite(info, Write);
    ReadsVariable(info, Write);
    ReadsValue(info, n);
  }

  lemma {:induction false} SiteFieldsRead(kind: OperationType, n: int)
    requires kind in {Fail, Recover, Dump}
    requires TryParseInt(IntToString(n)) == Some(n) && 1 <= n <= NumSites
    ensures FieldsReadBack(Operation(kind, "", Some(n), "", None))
  {
    var info := RenderedFields(Operation(kind, "", Some(n), "", None));
    assert info == [IntToString(n)];
    ReadsNoValue(info, kind);
    ReadsSite(info, n, kind);
  }

  lemma {:induction false} DumpVariableFieldsRead(v: string)
    requires v != "" && GetValidVariable(v) == Ok(v) && TryParseInt(v).None?
    ensures FieldsReadBack(Operation(Dump, "", None, v, None))
  {
    var info := RenderedFields(Operation(Dump, "", None, v, None));
    assert info == [v];
    ReadsNoValue(info, Dump);
    ReadsDumpVariable(info);
  }

  // One lemma per field reader keeps each proof's context small.

  lemma {:induction false} ReadsTransactionName(info: seq<string>, kind: OperationType)
    requires |info| >= 1 && Trim(info[0]) == info[0] && kind in {Begin, BeginRO, Read, Write, End}
    ensures GetTransaction(info, kind) == info[0]
  {
    KindsAndPartition(kind);
  }

  lemma {:induction false} ReadsNoSite(info: seq<string>, kind: OperationType)
    requires |info| >= 1 && kind in {Begin, BeginRO, Read, Write, End}
    ensures GetSite(info, kind) == Ok(None)
  {
  }

  lemma {:induction false} ReadsNoVariable(info: seq<string>, kind: OperationType)
    requires |info| >= 1 && kind in {Begin, BeginRO, End, Fail, Recover}
    ensures GetVariable(info, kind) == Ok("")
  {
  }

  lemma {:induction false} ReadsNoValue(info: seq<string>, kind: OperationType)
    requires kind != Write
    ensures GetWriteValue(info, kind) == Ok(None)
  {
  }

  lemma {:induction false} ReadsVariable(info: seq<string>, kind: OperationType)
    requires |info| >= 2 && GetValidVariable(info[1]) == Ok(info[1]) && (kind == Read || kind == Write)
    ensures GetVariable(info, kind) == Ok(info[1])
  {
  }

  lemma {:induction false} ReadsValue(info: seq<string>, n: int)
    requires |info| >= 3 && ParseInt(info[2]) == Some(n) && IntMin <= n <= IntMax
    ensures GetWriteValue(info, Write) == Ok(Some(n))
  {
  }

  lemma {:induction false} ReadsSite(info: seq<string>, n: int, kind: OperationType)
    requires |info| >= 1 && TryParseInt(info[0]) == Some(n) && 1 <= n <= NumSites
    requires kind == Fail || kind == Recover || kind == Dump
    ensures GetTransaction(info, kind) == ""
    ensures GetSite(info, kind) == Ok(Some(n))
    ensures GetVariable(info, kind) == Ok("")
  {
    KindsAndPartition(kind);
  }

  lemma {:induction false} ReadsDumpVariable(info: seq<string>)
    requires |info| >= 1 && GetValidVariable(info[0]) == Ok(info[0]) && TryParseInt(info[0]).None?
    ensures GetTransaction(info, Dump) == ""
    ensures GetSite(info, Dump) == Ok(None) && GetVariable(info, Dump) == Ok(info[0])
  {
    KindsAndPartition(Dump);
  }

  lemma {:induction false} FieldTrims(t: string)
    requires IsField(t)
    ensures Trim(t) == t
  {
    assert FieldChar(t[0]) && FieldChar(t[|t| - 1]);
    TrimOfDense(t);
  }

  /** Rendering a well-formed operation and parsing the text gives the operation back. */
  lemma {:induction false} RenderParses(op: Operation)
    requires WellFormed(op)
    ensures ParseOperation(Render(op)) == Ok(op)
  {
    RenderParts(op);
    KeywordType(op.kind);
    FieldsRead(op);
    assert FieldsReadBack(op);
    ParseOperationOk(Render(op), op);
  }

  /** A line of rendered well-formed operations parses into those operations, in order. */
  lemma {:induction false} RenderLineParses(ops: seq<Operation>)
    requires |ops| >= 1 && forall k :: 0 <= k < |ops| ==> WellFormed(ops[k])
    ensures ParseLine(RenderLine(ops)) == Ok(ops)
  {
    var texts := seq(|ops|, k requires 0 <= k < |ops| => Render(ops[k]));
    forall k | 0 <= k < |ops|
      ensures Avoids(texts[k], {';'}) && !IsBlank(texts[k]) && ParseOperation(texts[k]) == Ok(ops[k])
    {
      RenderParts(ops[k]);
      RenderParses(ops[k]);
    }
    JoinSplit(texts, ';', {';'});
    NonBlankKeepsAll(texts);
    assert Pieces(RenderLine(ops)) == texts;
    var r := ParseLine(RenderLine(ops));
    assert r.Ok?;
    assert r.value == ops;
  }
}
