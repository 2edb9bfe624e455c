/**
 * The server's user-friendly errors: the error object built from a code and its entry in the
 * error table, its JSON form, and the generator that writes the error classes, the `Errors`
 * enum and the union of argument data types from the table.
 *
 * The table is a parameter (a list of codes with their options, in definition order), as are
 * lodash's `capitalize` and Node's `STATUS_CODES`. `toUpperCase` is modelled on ASCII letters,
 * which is all the codes and types in the table use.
 */
module FriendlyErrors {
  import opened Wrappers

  datatype ArgType = ArgString | ArgNumber | ArgBoolean

  /** The declared type of one argument: a scalar, or an object whose fields are declared in turn. */
  datatype ArgSpec = Scalar(t: ArgType) | Nested(fields: seq<ArgField>)
  datatype ArgField = ArgField(name: string, spec: ArgSpec)

  /** The message option: a fixed string, or a function of the arguments. */
  datatype Message<!A> = Fixed(text: string) | Formatted(format: Option<A> -> string)

  datatype ErrorOptions<!A> = ErrorOptions(
    errType: string,
    status: Option<int>,
    args: Option<seq<ArgField>>,
    message: Message<A>)

  datatype TableEntry<!A> = TableEntry(code: string, options: ErrorOptions<A>)

  /** A constructed `UserFriendlyError`. */
  datatype FriendlyError<A> = FriendlyError(status: int, errType: string, code: string, message: string, data: Option<A>)

  /** What `json()` returns. */
  datatype ErrorJson<A> = ErrorJson(statusCode: int, status: string, errType: string, code: string, message: string, data: Option<A>)

  /** Reading the options of an unknown code fails with a `TypeError`. */
  datatype LookupError = UnknownCode(code: string)

  const BadRequest := 400

  // ---------------------------------------------------------------------------------------------
  // Characters and strings

  function Upper(c: char): char {
    if 'a' <= c <= 'z' then (c as int - 32) as char else c
  }

  function Lower(c: char): char {
    if 'A' <= c <= 'Z' then (c as int + 32) as char else c
  }

  /** `s.toUpperCase()` on ASCII letters. */
  function UpperCase(s: string): (r: string)
    ensures |r| == |s|
    ensures forall i :: 0 <= i < |s| ==> r[i] == Upper(s[i])
  {
    seq(|s|, i requires 0 <= i < |s| => Upper(s[i]))
  }

  function LowerCase(s: string): (r: string)
    ensures |r| == |s|
    ensures forall i :: 0 <= i < |s| ==> r[i] == Lower(s[i])
  {
    seq(|s|, i requires 0 <= i < |s| => Lower(s[i]))
  }

  /** `parts.join(sep)`. */
  function Join(parts: seq<string>, sep: string): string
    decreases |parts|
  {
    if parts == [] then ""
    else if |parts| == 1 then parts[0]
    else Join(parts[..|parts| - 1], sep) + sep + parts[|parts| - 1]
  }

  /** `parts.join('')`. */
  function Concat(parts: seq<string>): string
    decreases |parts|
  {
    if parts == [] then "" else parts[0] + Concat(parts[1..])
  }

  /** `s.split(sep)` for a one-character separator: never empty, one more part than separators. */
  function Split(s: string, sep: char): (r: seq<string>)
    ensures |r| >= 1
    decreases |s|
  {
    if s == [] then [""]
    else if s[0] == sep then [""] + Split(s[1..], sep)
    else
      var rest := Split(s[1..], sep);
      [[s[0]] + rest[0]] + rest[1..]
  }

  // ---------------------------------------------------------------------------------------------
  // The error object

  /** Where `USER_FRIENDLY_ERRORS[code]` is: the first entry for the code, or -1. */
  function FindCode<A>(table: seq<TableEntry<A>>, code: string): (r: int)
    ensures -1 <= r < |table|
    ensures r >= 0 ==> table[r].code == code
    ensures r == -1 <==> forall i :: 0 <= i < |table| ==> table[i].code != code
    decreases |table|
  {
    if table == [] then -1
    else if table[0].code == code then 0
    else
      var r := FindCode(table[1..], code);
      if r == -1 then -1 else r + 1
  }

  /** `new UserFriendlyError(code, args)`. */
  function NewError<A>(table: seq<TableEntry<A>>, code: string, args: Option<A>): Result<FriendlyError<A>, LookupError> {
    var k := FindCode(table, code);
    if k == -1 then Err(UnknownCode(code))
    else
      var o := table[k].options;
      var message := match o.message
        case Fixed(text) => text
        case Formatted(format) => format(args);
      Ok(FriendlyError(if o.status.Some? then o.status.value else BadRequest, o.errType, code, message, args))
  }

  /** `error.json()`. */
  function Json<A>(e: FriendlyError<A>, statusCodes: map<int, string>): ErrorJson<A> {
    ErrorJson(
      e.status,
      if e.status in statusCodes then statusCodes[e.status] else "BAD REQUEST",
      UpperCase(e.errType),
      UpperCase(e.code),
      e.message,
      e.data)
  }

  /**
   * An error is built exactly for the codes the table defines: its status is the entry's, or
   * 400 without one; its message is the fixed text or the formatter applied to the arguments;
   * the code, type and arguments are stored as given.
   */
  lemma NewErrorLaws<A>(table: seq<TableEntry<A>>, code: string, args: Option<A>)
    ensures NewError(table, code, args).Ok? <==> exists i :: 0 <= i < |table| && table[i].code == code
    ensures NewError(table, code, args).Err? ==> NewError(table, code, args).error == UnknownCode(code)
    ensures var r := NewError(table, code, args);
      r.Ok? ==>
        var o := table[FindCode(table, code)].options;
        && (o.status.Some? ==> r.value.status == o.status.value)
        && (o.status.None? ==> r.value.status == 400)
        && (o.message.Fixed? ==> r.value.message == o.message.text)
        && (o.message.Formatted? ==> r.value.message == o.message.format(args))
        && r.value.code == code && r.value.errType == o.errType && r.value.data == args
  {
  }

  /**
   * The JSON form keeps the status number and message, names the status by the status table
   * (`BAD REQUEST` when it has no name), and upper-cases the type and the code so that
   * lower-casing gives back any code written without capitals.
   */
  lemma JsonLaws<A>(e: FriendlyError<A>, statusCodes: map<int, string>)
    ensures var j := Json(e, statusCodes);
      && j.statusCode == e.status && j.message == e.message && j.data == e.data
      && j.status == (if e.status in statusCodes then statusCodes[e.status] else "BAD REQUEST")
      && |j.code| == |e.code| && |j.errType| == |e.errType|
      && (forall i :: 0 <= i < |j.code| ==> !('a' <= j.code[i] <= 'z'))
      && ((forall i :: 0 <= i < |e.code| ==> !('A' <= e.code[i] <= 'Z')) ==> LowerCase(j.code) == e.code)
      && ((forall i :: 0 <= i < |e.errType| ==> !('A' <= e.errType[i] <= 'Z')) ==> LowerCase(j.errType) == e.errType)
  {
    var j := Json(e, statusCodes);
    if forall i :: 0 <= i < |e.code| ==> !('A' <= e.code[i] <= 'Z') {
      assert LowerCase(j.code) == e.code;
    }
    if forall i :: 0 <= i < |e.errType| ==> !('A' <= e.errType[i] <= 'Z') {
      assert LowerCase(j.errType) == e.errType;
    }
  }

  // ---------------------------------------------------------------------------------------------
  // Class names

  /** `part.charAt(0).toUpperCase() + part.slice(1)`. */
  function CapFirst(part: string): string {
    if part == "" then "" else [Upper(part[0])] + part[1..]
  }

  function CapAll(parts: seq<string>): (r: seq<string>)
    ensures |r| == |parts|
    decreases |parts|
  {
    if parts == [] then [] else [CapFirst(parts[0])] + CapAll(parts[1..])
  }

  /** The class name of an error code: its `_`-separated parts, each capitalised, joined. */
  function ClassName(code: string): string {
    Concat(CapAll(Split(code, '_')))
  }

  /**
   * An independent character-by-character reading of the class name: drop each `_` and
   * upper-case the character that starts the code or follows a `_`.
   */
  function ClassNameFrom(s: string, atStart: bool): string
    decreases |s|
  {
    if s == [] then ""
    else if s[0] == '_' then ClassNameFrom(s[1..], true)
    else [if atStart then Upper(s[0]) else s[0]] + ClassNameFrom(s[1..], false)
  }

  /** The parts glued as the class name does, capitalising the first one only when `atStart`. */
  function Glue(parts: seq<string>, atStart: bool): string
    requires |parts| >= 1
  {
    (if atStart then CapFirst(parts[0]) else parts[0]) + Concat(CapAll(parts[1..]))
  }

  lemma {:induction false} GlueSplit(s: string, atStart: bool)
    ensures Glue(Split(s, '_'), atStart) == ClassNameFrom(s, atStart)
    decreases |s|
  {
    if s != [] {
      if s[0] == '_' {
        GlueSplit(s[1..], true);
        var rest := Split(s[1..], '_');
        assert Split(s, '_') == [""] + rest;
        assert Split(s, '_')[1..] == rest;
        assert Concat(CapAll(rest)) == CapFirst(rest[0]) + Concat(CapAll(rest[1..]));
      } else {
        GlueSplit(s[1..], false);
        var rest := Split(s[1..], '_');
        assert Split(s, '_') == [[s[0]] + rest[0]] + rest[1..];
        assert Split(s, '_')[1..] == rest[1..];
        assert CapFirst([s[0]] + rest[0]) == [Upper(s[0])] + rest[0];
      }
    }
  }

  /**
   * The class name agrees with the character-by-character reading, so it holds no `_` and is
   * the code with each `_` dropped and each part's first character upper-cased.
   */
  lemma ClassNameIsDirect(code: string)
    ensures ClassName(code) == ClassNameFrom(code, true)
  {
    var parts := Split(code, '_');
    GlueSplit(code, true);
    assert CapAll(parts) == [CapFirst(parts[0])] + CapAll(parts[1..]);
  }

  lemma {:induction false} ClassNameFromFacts(s: string, atStart: bool)
    ensures '_' !in ClassNameFrom(s, atStart)
    ensures |ClassNameFrom(s, atStart)| == |s| - multiset(s)['_']
    decreases |s|
  {
    if s != [] {
      ClassNameFromFacts(s[1..], true);
      ClassNameFromFacts(s[1..], false);
      assert s == [s[0]] + s[1..];
    }
  }

  /** A class name has no `_`, and is as long as the code without its underscores. */
  lemma ClassNameShape(code: string)
    ensures '_' !in ClassName(code)
    ensures |ClassName(code)| == |code| - multiset(code)['_']
  {
    ClassNameIsDirect(code);
    ClassNameFromFacts(code, true);
  }

  lemma DropFirst<T>(a: seq<T>, b: seq<T>, c: seq<T>)
    requires a != []
    ensures (a + b + c)[1..] == a[1..] + b + c
  {
  }

  /** A run without `_` after the first character of a part is copied as it is. */
  lemma {:induction false} PlainRun(q: string, rest: string)
    requires '_' !in q
    ensures ClassNameFrom(q + rest, false) == q + ClassNameFrom(rest, false)
    ensures ClassNameFrom(q + "_" + rest, false) == q + ClassNameFrom(rest, true)
    decreases |q|
  {
    if q != [] {
      PlainRun(q[1..], rest);
      DropFirst(q, rest, []);
      DropFirst(q, "_", rest);
      assert q + rest + [] == q + rest && q[1..] + rest + [] == q[1..] + rest;
    } else {
      assert q + rest == rest;
      assert ("_" + rest)[1..] == rest;
    }
  }

  /** A non-empty part followed by `_`: its first character upper-cased (at the start), the rest copied. */
  lemma PartThenRest(p: string, rest: string)
    requires p != "" && '_' !in p
    ensures ClassNameFrom(p + "_" + rest, true) == [Upper(p[0])] + p[1..] + ClassNameFrom(rest, true)
  {
    var s := p + "_" + rest;
    DropFirst(p, "_", rest);
    assert s[0] == p[0] && s[1..] == p[1..] + "_" + rest;
    PlainRun(p[1..], rest);
  }

  /** A non-empty part at the end: its first character upper-cased, the rest copied. */
  lemma LastPart(p: string)
    requires p != "" && '_' !in p
    ensures ClassNameFrom(p, true) == [Upper(p[0])] + p[1..]
  {
    PlainRun(p[1..], "");
    assert p[1..] + "" == p[1..];
  }

  // The example below is built up from its parts: stated on a literal directly, the solver
  // unfolds the recursive definitions over every character of the literal.

  lemma ExampleLastPart(p: string)
    requires p == "error"
    ensures ClassNameFrom(p, true) == "Error"
  {
    LastPart(p);
  }

  lemma ExampleTwoParts(p: string, q: string)
    requires p == "server" && q == "error"
    ensures ClassNameFrom(p + "_" + q, true) == "ServerError"
  {
    PartThenRest(p, q);
    ExampleLastPart(q);
  }

  lemma ExampleTail(rest: string)
    requires rest == "server_error"
    ensures ClassNameFrom(rest, true) == "ServerError"
  {
    assert rest == "server" + "_" + "error";
    ExampleTwoParts("server", "error");
  }

  lemma ExampleParts(p: string, rest: string)
    requires p == "internal" && rest == "server_error"
    ensures ClassNameFrom(p + "_" + rest, true) == "InternalServerError"
  {
    PartThenRest(p, rest);
    ExampleTail(rest);
    ExampleHead(p);
  }

  lemma ExampleHead(p: string)
    requires p == "internal"
    ensures [Upper(p[0])] + p[1..] == "Internal"
  {
  }

  /** The first code of the table reads as the first class of the generated file. */
  lemma ClassNameExample(code: string)
    requires code == "internal_server_error"
    ensures ClassName(code) == "InternalServerError"
  {
    ClassNameIsDirect(code);
    ExampleCode(code, "internal", "server_error");
    ExampleParts("internal", "server_error");
  }

  lemma ExampleCode(code: string, p: string, rest: string)
    requires code == "internal_server_error" && p == "internal" && rest == "server_error"
    ensures code == p + "_" + rest
  {
  }

  // ---------------------------------------------------------------------------------------------
  // Argument data types

  function TypeName(t: ArgType): string {
    match t
    case ArgString => "string"
    case ArgNumber => "number"
    case ArgBoolean => "boolean"
  }

  function SubTypeName(name: string, arg: string, capitalize: string -> string): string {
    name + "Field" + capitalize(arg)
  }

  function ScalarLine(arg: string, t: ArgType): string {
    "  @Field() " + arg + "!: " + TypeName(t)
  }

  function NestedLine(arg: string, subName: string): string {
    "  @Field(() => " + subName + ") " + arg + "!: " + subName + ";"
  }

  function HeaderLines(name: string): seq<string> {
    ["@ObjectType()", "class " + (name + "DataType") + " {"]
  }

  lemma ArgsDefName(name: string, args: ArgSpec, capitalize: string -> string)
    requires args.Nested?
    ensures ArgsDef(name, args, capitalize).0 == name + "DataType"
  {
  }

  /**
   * The `lines` of `generateErrorArgs(name, args)` after its first `n` fields: sub-type
   * definitions are put in front, field lines at the back.
   */
  function ArgLines(name: string, args: ArgSpec, n: nat, capitalize: string -> string): seq<string>
    requires args.Nested? && n <= |args.fields|
    decreases args, n
  {
    if n == 0 then HeaderLines(name)
    else
      var f := args.fields[n - 1];
      var before := ArgLines(name, args, n - 1, capitalize);
      match f.spec
      case Scalar(t) => before + [ScalarLine(f.name, t)]
      case Nested(_) =>
        var sub := ArgsDef(SubTypeName(name, f.name, capitalize), f.spec, capitalize);
        [sub.1] + before + [NestedLine(f.name, sub.0)]
  }

  /** `generateErrorArgs(name, args)`: the type name and its definition. */
  function ArgsDef(name: string, args: ArgSpec, capitalize: string -> string): (string, string)
    requires args.Nested?
    decreases args, |args.fields| + 1
  {
    (name + "DataType", Join(ArgLines(name, args, |args.fields|, capitalize) + ["}"], "\n"))
  }

  /** The definitions of the nested fields among the first `n`, in field order. */
  function SubDefs(name: string, args: ArgSpec, n: nat, capitalize: string -> string): seq<string>
    requires args.Nested? && n <= |args.fields|
    decreases n
  {
    if n == 0 then []
    else
      var f := args.fields[n - 1];
      var before := SubDefs(name, args, n - 1, capitalize);
      if f.spec.Nested? then before + [ArgsDef(SubTypeName(name, f.name, capitalize), f.spec, capitalize).1] else before
  }

  /** The line each of the first `n` fields contributes, in field order. */
  function FieldLines(name: string, args: ArgSpec, n: nat, capitalize: string -> string): seq<string>
    requires args.Nested? && n <= |args.fields|
    decreases n
  {
    if n == 0 then []
    else
      var f := args.fields[n - 1];
      var line := match f.spec
        case Scalar(t) => ScalarLine(f.name, t)
        case Nested(_) => NestedLine(f.name, SubTypeName(name, f.name, capitalize) + "DataType");
      FieldLines(name, args, n - 1, capitalize) + [line]
  }

  function Reverse(s: seq<string>): (r: seq<string>)
    ensures |r| == |s|
    decreases |s|
  {
    if s == [] then [] else [s[|s| - 1]] + Reverse(s[..|s| - 1])
  }

  /** The shape `ArgLinesShape` states, after the first `n` fields. */
  ghost predicate Shaped(name: string, args: ArgSpec, n: nat, capitalize: string -> string)
    requires args.Nested? && n <= |args.fields|
  {
    ArgLines(name, args, n, capitalize)
      == Reverse(SubDefs(name, args, n, capitalize)) + HeaderLines(name) + FieldLines(name, args, n, capitalize)
  }

  /**
   * The lines of a data type: the nested sub-type definitions in reverse field order (each is
   * put in front of what is there), then the class header, then one line per field in field
   * order; a nested field's line refers to its sub-type `name + 'Field' + capitalize(arg)`.
   */
  lemma ArgLinesShape(name: string, args: ArgSpec, n: nat, capitalize: string -> string)
    requires args.Nested? && n <= |args.fields|
    ensures ArgLines(name, args, n, capitalize)
         == Reverse(SubDefs(name, args, n, capitalize)) + HeaderLines(name) + FieldLines(name, args, n, capitalize)
  {
    ShapedUpTo(name, args, n, capitalize);
  }

  lemma {:induction false} ShapedUpTo(name: string, args: ArgSpec, n: nat, capitalize: string -> string)
    requires args.Nested? && n <= |args.fields|
    ensures Shaped(name, args, n, capitalize)
    decreases n
  {
    if n > 0 {
      ShapedUpTo(name, args, n - 1, capitalize);
    }
    ShapeStep(name, args, n, capitalize);
  }


  lemma EmptyShape(name: string, args: ArgSpec, capitalize: string -> string)
    requires args.Nested?
    ensures Shaped(name, args, 0, capitalize)
  {
    var header := HeaderLines(name);
    assert header == Reverse([]) + header + [];
  }

  /** Adding one more field, nested or scalar, keeps the shape. */
  lemma ShapeStep(name: string, args: ArgSpec, n: nat, capitalize: string -> string)
    requires args.Nested? && n <= |args.fields|
    requires 0 < n ==> Shaped(name, args, n - 1, capitalize)
    ensures Shaped(name, args, n, capitalize)
  {
    if n == 0 {
      EmptyShape(name, args, capitalize);
    } else {
      AddFieldShape(name, args, n, capitalize);
    }
  }

  lemma AddFieldShape(name: string, args: ArgSpec, n: nat, capitalize: string -> string)
    requires args.Nested? && 0 < n <= |args.fields|
    requires Shaped(name, args, n - 1, capitalize)
    ensures Shaped(name, args, n, capitalize)
  {
    match args.fields[n - 1].spec
    case Nested(_) => NestedShapeStep(name, args, n, capitalize);
    case Scalar(_) => ScalarShapeStep(name, args, n, capitalize);
  }

  lemma NestedShapeStep(name: string, args: ArgSpec, n: nat, capitalize: string -> string)
    requires args.Nested? && 0 < n <= |args.fields| && args.fields[n - 1].spec.Nested?
    requires Shaped(name, args, n - 1, capitalize)
    ensures Shaped(name, args, n, capitalize)
  {
    var subs, header, fields := SubDefs(name, args, n - 1, capitalize), HeaderLines(name), FieldLines(name, args, n - 1, capitalize);
    var d, line := NestedStep(name, args, n, capitalize);
    calc {
      ArgLines(name, args, n, capitalize);
      [d] + (Reverse(subs) + header + fields) + [line];
      { PushBothEnds(d, Reverse(subs), header, fields, line); }
      ([d] + Reverse(subs)) + header + (fields + [line]);
      { ReverseSnoc(subs, d); }
      Reverse(subs + [d]) + header + (fields + [line]);
    }
  }

  lemma ScalarShapeStep(name: string, args: ArgSpec, n: nat, capitalize: string -> string)
    requires args.Nested? && 0 < n <= |args.fields| && args.fields[n - 1].spec.Scalar?
    requires Shaped(name, args, n - 1, capitalize)
    ensures Shaped(name, args, n, capitalize)
  {
    var subs, header, fields := SubDefs(name, args, n - 1, capitalize), HeaderLines(name), FieldLines(name, args, n - 1, capitalize);
    var line := ScalarStep(name, args, n, capitalize);
    PushBack(Reverse(subs), header, fields, line);
  }

  /** One nested field: its definition goes in front of the lines and its line at the back. */
  lemma NestedStep(name: string, args: ArgSpec, n: nat, capitalize: string -> string) returns (d: string, line: string)
    requires args.Nested? && 0 < n <= |args.fields| && args.fields[n - 1].spec.Nested?
    ensures ArgLines(name, args, n, capitalize) == [d] + ArgLines(name, args, n - 1, capitalize) + [line]
    ensures SubDefs(name, args, n, capitalize) == SubDefs(name, args, n - 1, capitalize) + [d]
    ensures FieldLines(name, args, n, capitalize) == FieldLines(name, args, n - 1, capitalize) + [line]
  {
    var f := args.fields[n - 1];
    var subName := SubTypeName(name, f.name, capitalize);
    d := ArgsDef(subName, f.spec, capitalize).1;
    ArgsDefName(subName, f.spec, capitalize);
    line := NestedLine(f.name, subName + "DataType");
  }

  /** One scalar field: only its line is added, at the back. */
  lemma ScalarStep(name: string, args: ArgSpec, n: nat, capitalize: string -> string) returns (line: string)
    requires args.Nested? && 0 < n <= |args.fields| && args.fields[n - 1].spec.Scalar?
    ensures ArgLines(name, args, n, capitalize) == ArgLines(name, args, n - 1, capitalize) + [line]
    ensures SubDefs(name, args, n, capitalize) == SubDefs(name, args, n - 1, capitalize)
    ensures FieldLines(name, args, n, capitalize) == FieldLines(name, args, n - 1, capitalize) + [line]
  {
    var f := args.fields[n - 1];
    line := ScalarLine(f.name, f.spec.t);
  }

  lemma ReverseSnoc(s: seq<string>, d: string)
    ensures Reverse(s + [d]) == [d] + Reverse(s)
  {
    assert (s + [d])[..|s + [d]| - 1] == s;
  }

  lemma PushBothEnds(d: string, front: seq<string>, mid: seq<string>, back: seq<string>, line: string)
    ensures [d] + (front + mid + back) + [line] == ([d] + front) + mid + (back + [line])
  {
  }

  lemma PushBack(front: seq<string>, mid: seq<string>, back: seq<string>, line: string)
    ensures (front + mid + back) + [line] == front + mid + (back + [line])
  {
  }

  /** `generateErrorArgs`: the recursive generator with its `forEach` over the fields. */
  method GenerateErrorArgs(name: string, args: ArgSpec, capitalize: string -> string) returns (typeName: string, def: string)
    requires args.Nested?
    ensures (typeName, def) == ArgsDef(name, args, capitalize)
    decreases args
  {
    typeName := name + "DataType";
    var lines := ["@ObjectType()", "class " + typeName + " {"];
    var i := 0;
    while i < |args.fields|
      invariant 0 <= i <= |args.fields|
      invariant lines == ArgLines(name, args, i, capitalize)
    {
      var f := args.fields[i];
      match f.spec {
        case Scalar(t) =>
          lines := lines + [ScalarLine(f.name, t)];
        case Nested(_) =>
          var subName, subDef := GenerateErrorArgs(SubTypeName(name, f.name, capitalize), f.spec, capitalize);
          lines := [subDef] + lines;
          lines := lines + [NestedLine(f.name, subName)];
      }
      i := i + 1;
    }
    lines := lines + ["}"];
    def := Join(lines, "\n");
  }

  // ---------------------------------------------------------------------------------------------
  // The generated file

  const FileHeader: seq<string> := [
    "// AUTO GENERATED FILE",
    "import { createUnionType, Field, ObjectType, registerEnumType } from '@nestjs/graphql';",
    "",
    "import { UserFriendlyError } from './def';"]

  /** The class written for one code; `argsName` is its data type's name when it has arguments. */
  function ClassDef(className: string, code: string, argsName: Option<string>): string {
    "\nexport class " + className + " extends UserFriendlyError {\n  constructor("
    + (if argsName.Some? then "args: " + argsName.value else "")
    + ") {\n    super('" + code + "'" + (if argsName.Some? then ", args" else "")
    + ");\n  }\n}"
  }

  function EnumChunk(errorNames: seq<string>): string {
    "\nexport enum Errors {\n  " + Join(errorNames, ",\n  ")
    + "\n}\n\nregisterEnumType(Errors, {\n  name: 'Errors',\n})\n"
  }

  function UnionChunk(argTypes: seq<string>): string {
    "export const ErrorDataUnionType = createUnionType({\n  name: 'ErrorDataUnion',\n  types: () =>\n    ["
    + Join(argTypes, ", ") + "] as const,\n});\n"
  }

  /** What one table entry adds to the output: its data type when it has arguments, then its class. */
  function EntryChunks<A>(e: TableEntry<A>, capitalize: string -> string): seq<string> {
    var className := ClassName(e.code);
    if e.options.args.Some? then
      var args := ArgsDef(className, Nested(e.options.args.value), capitalize);
      [args.1, ClassDef(className, e.code, Some(args.0))]
    else [ClassDef(className, e.code, None)]
  }

  /** The output chunks of the first `n` table entries. */
  function Chunks<A>(table: seq<TableEntry<A>>, n: nat, capitalize: string -> string): seq<string>
    requires n <= |table|
  {
    if n == 0 then [] else Chunks(table, n - 1, capitalize) + EntryChunks(table[n - 1], capitalize)
  }

  /** `errorNames` after the first `n` entries. */
  function ErrorNames<A>(table: seq<TableEntry<A>>, n: nat): seq<string>
    requires n <= |table|
  {
    if n == 0 then [] else ErrorNames(table, n - 1) + [ClassName(table[n - 1].code)]
  }

  /** `argTypes` after the first `n` entries. */
  function ArgTypeNames<A>(table: seq<TableEntry<A>>, n: nat): seq<string>
    requires n <= |table|
  {
    if n == 0 then []
    else
      var e := table[n - 1];
      ArgTypeNames(table, n - 1) + (if e.options.args.Some? then [ClassName(e.code) + "DataType"] else [])
  }

  /** `generateUserFriendlyErrors()` for a table. */
  function Generated<A>(table: seq<TableEntry<A>>, capitalize: string -> string): string {
    Join(FileHeader + Chunks(table, |table|, capitalize)
         + [EnumChunk(ErrorNames(table, |table|))] + [UnionChunk(ArgTypeNames(table, |table|))], "\n")
  }

  /** The `Errors` enum lists the class name of every code, in table order. */
  lemma {:induction false} ErrorNamesInOrder<A>(table: seq<TableEntry<A>>, n: nat)
    requires n <= |table|
    ensures |ErrorNames(table, n)| == n
    ensures forall i :: 0 <= i < n ==> ErrorNames(table, n)[i] == ClassName(table[i].code)
    decreases n
  {
    if n > 0 {
      ErrorNamesInOrder(table, n - 1);
    }
  }

  /** The union lists a data type for a code exactly when the code has arguments. */
  lemma {:induction false} ArgTypesOnlyWithArgs<A>(table: seq<TableEntry<A>>, n: nat)
    requires n <= |table|
    ensures forall i :: 0 <= i < n && table[i].options.args.Some? ==>
      ClassName(table[i].code) + "DataType" in ArgTypeNames(table, n)
    ensures forall x :: x in ArgTypeNames(table, n) ==>
      exists i :: 0 <= i < n && table[i].options.args.Some? && x == ClassName(table[i].code) + "DataType"
    ensures |ArgTypeNames(table, n)| <= n
    decreases n
  {
    if n > 0 {
      ArgTypesOnlyWithArgs(table, n - 1);
    }
  }

  /**
   * The union lists the data types in table order: `idx` gives, for each union member, the entry
   * it belongs to; those entries strictly increase, and they are exactly the entries with
   * arguments.
   */
  lemma {:induction false} ArgTypesInOrder<A>(table: seq<TableEntry<A>>, n: nat) returns (idx: seq<nat>)
    requires n <= |table|
    ensures |idx| == |ArgTypeNames(table, n)|
    ensures forall k :: 0 <= k < |idx| ==>
      idx[k] < n && table[idx[k]].options.args.Some? && ArgTypeNames(table, n)[k] == ClassName(table[idx[k]].code) + "DataType"
    ensures forall k, l :: 0 <= k < l < |idx| ==> idx[k] < idx[l]
    ensures forall i :: 0 <= i < n && table[i].options.args.Some? ==> i in idx
    decreases n
  {
    if n == 0 {
      idx := [];
    } else {
      var prev := ArgTypesInOrder(table, n - 1);
      var before := ArgTypeNames(table, n - 1);
      var e := table[n - 1];
      if e.options.args.Some? {
        idx := prev + [n - 1];
        assert ArgTypeNames(table, n) == before + [ClassName(e.code) + "DataType"];
      } else {
        idx := prev;
        assert ArgTypeNames(table, n) == before;
      }
    }
  }

  /** Each entry with arguments contributes its data type definition right before its class. */
  lemma EntryChunksShape<A>(e: TableEntry<A>, capitalize: string -> string)
    ensures e.options.args.None? ==> EntryChunks(e, capitalize) == [ClassDef(ClassName(e.code), e.code, None)]
    ensures e.options.args.Some? ==>
      var name := ClassName(e.code) + "DataType";
      EntryChunks(e, capitalize)
        == [ArgsDef(ClassName(e.code), Nested(e.options.args.value), capitalize).1, ClassDef(ClassName(e.code), e.code, Some(name))]
  {
  }

  /** One pass of the generator's loop, over the `i`-th entry of the table. */
  method EmitEntry<A>(table: seq<TableEntry<A>>, i: nat, capitalize: string -> string,
                      output: seq<string>, errorNames: seq<string>, argTypes: seq<string>)
    returns (output': seq<string>, errorNames': seq<string>, argTypes': seq<string>)
    requires i < |table|
    requires output == FileHeader + Chunks(table, i, capitalize)
    requires errorNames == ErrorNames(table, i)
    requires argTypes == ArgTypeNames(table, i)
    ensures output' == FileHeader + Chunks(table, i + 1, capitalize)
    ensures errorNames' == ErrorNames(table, i + 1)
    ensures argTypes' == ArgTypeNames(table, i + 1)
  {
    var code := table[i].code;
    var options := table[i].options;
    var className := ClassName(code);
    EntryStep(table, i, capitalize);
    EntryChunksShape(table[i], capitalize);
    errorNames' := errorNames + [className];
    if options.args.Some? {
      var argsName, argsDef := GenerateErrorArgs(className, Nested(options.args.value), capitalize);
      ArgsDefName(className, Nested(options.args.value), capitalize);
      output' := output + [argsDef];
      argTypes' := argTypes + [argsName];
      output' := output' + [ClassDef(className, code, Some(argsName))];
      AppendTwo(FileHeader, Chunks(table, i, capitalize), argsDef, ClassDef(className, code, Some(argsName)));
    } else {
      output' := output + [ClassDef(className, code, None)];
      argTypes' := argTypes;
      AppendOne(FileHeader, Chunks(table, i, capitalize), ClassDef(className, code, None));
    }
  }

  /** One more table entry extends each of the generator's lists. */
  lemma EntryStep<A>(table: seq<TableEntry<A>>, i: nat, capitalize: string -> string)
    requires i < |table|
    ensures Chunks(table, i + 1, capitalize) == Chunks(table, i, capitalize) + EntryChunks(table[i], capitalize)
    ensures ErrorNames(table, i + 1) == ErrorNames(table, i) + [ClassName(table[i].code)]
    ensures ArgTypeNames(table, i + 1) == ArgTypeNames(table, i)
      + (if table[i].options.args.Some? then [ClassName(table[i].code) + "DataType"] else [])
  {
  }

  lemma AppendOne<T>(a: seq<T>, b: seq<T>, x: T)
    ensures a + b + [x] == a + (b + [x])
  {
  }

  lemma AppendTwo<T>(a: seq<T>, b: seq<T>, x: T, y: T)
    ensures a + b + [x] + [y] == a + (b + [x, y])
  {
  }

  /** `generateUserFriendlyErrors()`: the loop over the table and the final join. */
  method GenerateUserFriendlyErrors<A>(table: seq<TableEntry<A>>, capitalize: string -> string) returns (out: string)
    ensures out == Generated(table, capitalize)
  {
    var output := FileHeader;
    var errorNames: seq<string> := [];
    var argTypes: seq<string> := [];
    var i := 0;
    while i < |table|
      invariant 0 <= i <= |table|
      invariant output == FileHeader + Chunks(table, i, capitalize)
      invariant errorNames == ErrorNames(table, i)
      invariant argTypes == ArgTypeNames(table, i)
    {
      output, errorNames, argTypes := EmitEntry(table, i, capitalize, output, errorNames, argTypes);
      i := i + 1;
    }
    output := output + [EnumChunk(errorNames)];
    output := output + [UnionChunk(argTypes)];
    out := Join(output, "\n");
  }
}
