/** The symbol table of the generator: the live scalar variables, arrays,
    struct instances and struct types, the random choice of a live variable
    or array, and the emission passes that turn the table into declarations,
    definitions, struct initialisation and the checksum sequence.

    The text of single declarations, assignments and struct type definitions
    comes from node classes whose code is not part of this model; it is taken
    from a `Printer`, a record of functions the caller supplies. What this
    model fixes is which nodes each pass builds, for which table entries, in
    which order, and how their texts are joined. */
module SymTable {
  import opened Strings

  // Data model

  /** The identifier of a primitive integer type. Types of equal width stay
      distinct (`long` and `long long` print differently). */
  datatype IntType = BOOL | CHAR | UCHAR | SHRT | USHRT | INT | UINT | LINT | ULINT | LLINT | ULLINT

  datatype Modifier = NTHG | CONST | VOLAT | CONST_VOLAT

  /** A struct type, known here only by name. */
  datatype StructType = StructType(name: string)

  /** A scalar variable with its current value. */
  datatype Variable = Variable(name: string, ty: IntType, modifier: Modifier, value: int)

  /** A struct instance; its members are scalars or nested struct instances,
      in member-index order. */
  datatype Struct = Struct(name: string, ty: StructType, modifier: Modifier, members: seq<Data>)

  /** A member of a struct, or the object a declaration declares. */
  datatype Data = Scalar(v: Variable) | Nested(s: Struct)

  datatype ArrayVar = ArrayVar(name: string, elemType: IntType, modifier: Modifier, elems: seq<int>)

  datatype SymbolTable = SymbolTable(
    variables: seq<Variable>,
    arrays: seq<ArrayVar>,
    structs: seq<Struct>,
    structTypes: seq<StructType>)

  /** An integer literal of a given type. */
  datatype ConstExpr = ConstExpr(ty: IntType, value: int)

  /** A declaration of `data`, maybe `extern`, maybe with an initializer. */
  datatype DeclStmt = DeclStmt(data: Data, init: Option<ConstExpr>, isExtern: bool)

  /** Access to member `index` of `owner`, which is itself reached through
      `parent` when it is a nested member. */
  datatype MemberExpr = MemberExpr(owner: Struct, index: nat, parent: Option<MemberExpr>)

  datatype AssignExpr = AssignExpr(to: MemberExpr, from: ConstExpr)

  /** The text of the nodes the passes build. */
  datatype Printer = Printer(
    declText: DeclStmt -> string,
    assignText: AssignExpr -> string,
    typeDefText: StructType -> string)

  // Random choice

  /** `get_rand_variable`: `draw` is the value the random generator returns
      for the inclusive range [0, size - 1]. The table must not be empty. */
  function GetRandVariable(t: SymbolTable, draw: int): (v: Variable)
    requires |t.variables| > 0
    requires 0 <= draw <= |t.variables| - 1
    ensures v in t.variables
    ensures v == t.variables[draw]
  {
    t.variables[draw]
  }

  /** `get_rand_array`: the same choice over the arrays. */
  function GetRandArray(t: SymbolTable, draw: int): (a: ArrayVar)
    requires |t.arrays| > 0
    requires 0 <= draw <= |t.arrays| - 1
    ensures a in t.arrays
    ensures a == t.arrays[draw]
  {
    t.arrays[draw]
  }

  /** Every live variable and every array is a possible choice: some draw
      in the range the generator is asked for picks it. */
  lemma RandomChoiceCoversTable(t: SymbolTable)
    ensures forall v :: v in t.variables ==>
              exists k :: 0 <= k < |t.variables| && GetRandVariable(t, k) == v
    ensures forall a :: a in t.arrays ==>
              exists k :: 0 <= k < |t.arrays| && GetRandArray(t, k) == a
  {
    forall v | v in t.variables
      ensures exists k :: 0 <= k < |t.variables| && GetRandVariable(t, k) == v
    {
      var k :| 0 <= k < |t.variables| && t.variables[k] == v;
      assert GetRandVariable(t, k) == v;
    }
    forall a | a in t.arrays
      ensures exists k :: 0 <= k < |t.arrays| && GetRandArray(t, k) == a
    {
      var k :| 0 <= k < |t.arrays| && t.arrays[k] == a;
      assert GetRandArray(t, k) == a;
    }
  }

  // The nodes each pass builds per table entry

  function ExternDecl(d: Data): DeclStmt
  {
    DeclStmt(d, None, true)
  }

  /** A variable's definition, initialised with its current value as a
      literal of its own type. */
  function VariableDef(v: Variable): DeclStmt
  {
    DeclStmt(Scalar(v), Some(ConstExpr(v.ty, v.value)), false)
  }

  function StructDef(s: Struct): DeclStmt
  {
    DeclStmt(Nested(s), None, false)
  }

  const HashPrefix: string := "hash(seed, "
  const HashSuffix: string := ");\n"

  /** The checksum line of one variable. */
  function HashLine(name: string): string
  {
    HashPrefix + name + HashSuffix
  }

  // The entries of each pass, one per table entry and in table order

  function VariableExternEntries(p: Printer, vars: seq<Variable>): seq<string>
  {
    seq(|vars|, k requires 0 <= k < |vars| => p.declText(ExternDecl(Scalar(vars[k]))) + ";\n")
  }

  function VariableDefEntries(p: Printer, vars: seq<Variable>): seq<string>
  {
    seq(|vars|, k requires 0 <= k < |vars| => p.declText(VariableDef(vars[k])) + ";\n")
  }

  function StructTypeEntries(p: Printer, types: seq<StructType>): seq<string>
  {
    seq(|types|, k requires 0 <= k < |types| => p.typeDefText(types[k]))
  }

  function StructDefEntries(p: Printer, structs: seq<Struct>): seq<string>
  {
    seq(|structs|, k requires 0 <= k < |structs| => p.declText(StructDef(structs[k])) + ";\n")
  }

  function StructExternEntries(p: Printer, structs: seq<Struct>): seq<string>
  {
    seq(|structs|, k requires 0 <= k < |structs| => p.declText(ExternDecl(Nested(structs[k]))) + ";\n")
  }

  function CheckEntries(vars: seq<Variable>): seq<string>
  {
    seq(|vars|, k requires 0 <= k < |vars| => HashLine(vars[k].name))
  }

  /** One step of a `ret += part` loop. */
  lemma ConcatStep(parts: seq<string>, i: nat)
    requires i < |parts|
    ensures Concat(parts[..i + 1]) == Concat(parts[..i]) + parts[i]
  {
    assert parts[..i + 1] == parts[..i] + [parts[i]];
    ConcatAppend(parts[..i], [parts[i]]);
  }

  // The passes

  /** `emit_variable_extern_decl`: one `extern` declaration per variable. */
  method EmitVariableExternDecl(t: SymbolTable, p: Printer) returns (r: string)
    ensures r == Concat(VariableExternEntries(p, t.variables))
  {
    var entries := VariableExternEntries(p, t.variables);
    r := "";
    var i := 0;
    while i < |t.variables|
      invariant 0 <= i <= |t.variables|
      invariant r == Concat(entries[..i])
    {
      ConcatStep(entries, i);
      r := r + (p.declText(ExternDecl(Scalar(t.variables[i]))) + ";\n");
      i := i + 1;
    }
    assert entries[..i] == entries;
  }

  /** `emit_variable_def`: one definition per variable, initialised with the
      variable's value. */
  method EmitVariableDef(t: SymbolTable, p: Printer) returns (r: string)
    ensures r == Concat(VariableDefEntries(p, t.variables))
  {
    var entries := VariableDefEntries(p, t.variables);
    r := "";
    var i := 0;
    while i < |t.variables|
      invariant 0 <= i <= |t.variables|
      invariant r == Concat(entries[..i])
    {
      var v := t.variables[i];
      var init := ConstExpr(v.ty, v.value);
      var decl := DeclStmt(Scalar(v), Some(init), false);
      assert decl == VariableDef(v);
      assert entries[i] == p.declText(decl) + ";\n";
      ConcatStep(entries, i);
      r := r + (p.declText(decl) + ";\n");
      i := i + 1;
    }
    assert entries[..i] == entries;
  }

  /** `emit_struct_type_def`: the definitions of the struct types, in order. */
  method EmitStructTypeDef(t: SymbolTable, p: Printer) returns (r: string)
    ensures r == Concat(StructTypeEntries(p, t.structTypes))
  {
    var entries := StructTypeEntries(p, t.structTypes);
    r := "";
    var i := 0;
    while i < |t.structTypes|
      invariant 0 <= i <= |t.structTypes|
      invariant r == Concat(entries[..i])
    {
      ConcatStep(entries, i);
      r := r + p.typeDefText(t.structTypes[i]);
      i := i + 1;
    }
    assert entries[..i] == entries;
  }

  /** `emit_struct_def`: one definition per struct instance. */
  method EmitStructDef(t: SymbolTable, p: Printer) returns (r: string)
    ensures r == Concat(StructDefEntries(p, t.structs))
  {
    var entries := StructDefEntries(p, t.structs);
    r := "";
    var i := 0;
    while i < |t.structs|
      invariant 0 <= i <= |t.structs|
      invariant r == Concat(entries[..i])
    {
      var decl := DeclStmt(Nested(t.structs[i]), None, false);
      assert decl == StructDef(t.structs[i]);
      assert entries[i] == p.declText(decl) + ";\n";
      ConcatStep(entries, i);
      r := r + (p.declText(decl) + ";\n");
      i := i + 1;
    }
    assert entries[..i] == entries;
  }

  /** `emit_struct_extern_decl`: one `extern` declaration per struct instance. */
  method EmitStructExternDecl(t: SymbolTable, p: Printer) returns (r: string)
    ensures r == Concat(StructExternEntries(p, t.structs))
  {
    var entries := StructExternEntries(p, t.structs);
    r := "";
    var i := 0;
    while i < |t.structs|
      invariant 0 <= i <= |t.structs|
      invariant r == Concat(entries[..i])
    {
      var decl := DeclStmt(Nested(t.structs[i]), None, true);
      assert decl == ExternDecl(Nested(t.structs[i]));
      assert entries[i] == p.declText(decl) + ";\n";
      ConcatStep(entries, i);
      r := r + (p.declText(decl) + ";\n");
      i := i + 1;
    }
    assert entries[..i] == entries;
  }

  /** `emit_variable_check`: one `hash(seed, name);` line per variable. */
  method EmitVariableCheck(t: SymbolTable) returns (r: string)
    ensures r == Concat(CheckEntries(t.variables))
    ensures t.variables == [] ==> r == ""
  {
    var entries := CheckEntries(t.variables);
    r := "";
    var i := 0;
    while i < |t.variables|
      invariant 0 <= i <= |t.variables|
      invariant r == Concat(entries[..i])
    {
      ConcatStep(entries, i);
      r := r + ("hash(seed, " + t.variables[i].name + ");\n");
      i := i + 1;
    }
    assert entries[..i] == entries;
  }

  /** The struct definition and struct `extern` passes declare the same
      instances in the same order; their nodes differ only in the extern flag. */
  lemma StructPassesDifferOnlyInExtern(p: Printer, structs: seq<Struct>)
    ensures |StructExternEntries(p, structs)| == |StructDefEntries(p, structs)| == |structs|
    ensures forall k :: 0 <= k < |structs| ==>
      StructExternEntries(p, structs)[k] == p.declText(StructDef(structs[k]).(isExtern := true)) + ";\n"
  {
    forall k | 0 <= k < |structs|
      ensures StructExternEntries(p, structs)[k] == p.declText(StructDef(structs[k]).(isExtern := true)) + ";\n"
    {
      assert StructDef(structs[k]).(isExtern := true) == ExternDecl(Nested(structs[k]));
    }
  }

  /** The variable definition and variable `extern` passes declare the same
      variables in the same order; the definition adds the initializer and
      drops the extern flag. */
  lemma VariablePassesAgree(p: Printer, vars: seq<Variable>)
    ensures |VariableDefEntries(p, vars)| == |VariableExternEntries(p, vars)| == |vars|
    ensures forall k :: 0 <= k < |vars| ==>
      VariableDefEntries(p, vars)[k]
        == p.declText(ExternDecl(Scalar(vars[k])).(isExtern := false, init := Some(ConstExpr(vars[k].ty, vars[k].value)))) + ";\n"
  {
    forall k | 0 <= k < |vars|
      ensures VariableDefEntries(p, vars)[k]
        == p.declText(ExternDecl(Scalar(vars[k])).(isExtern := false, init := Some(ConstExpr(vars[k].ty, vars[k].value)))) + ";\n"
    {
      assert ExternDecl(Scalar(vars[k])).(isExtern := false, init := Some(ConstExpr(vars[k].ty, vars[k].value)))
        == VariableDef(vars[k]);
    }
  }

  // Reading back the checksum sequence

  /** `name` contains no closing parenthesis, as every identifier the
      generator makes. */
  predicate NoParen(name: string)
  {
    forall i :: 0 <= i < |name| ==> name[i] != ')'
  }

  /** The length of the longest prefix of `s` without a closing parenthesis. */
  function NameLength(s: string): (n: nat)
    ensures n <= |s|
    ensures forall i :: 0 <= i < n ==> s[i] != ')'
    ensures n < |s| ==> s[n] == ')'
  {
    if |s| == 0 || s[0] == ')' then 0 else 1 + NameLength(s[1..])
  }

  /** The variable names a checksum sequence hashes, in order, or None when
      the text is not a sequence of `hash(seed, name);` lines. */
  function CheckedNames(text: string): Option<seq<string>>
    decreases |text|
  {
    if |text| == 0 then Some([])
    else if !StartsWith(text, HashPrefix) then None
    else
      var rest := text[|HashPrefix|..];
      var n := NameLength(rest);
      if !StartsWith(rest[n..], HashSuffix) then None
      else
        match CheckedNames(rest[n + |HashSuffix|..])
        case None => None
        case Some(names) => Some([rest[..n]] + names)
  }

  function Names(vars: seq<Variable>): (names: seq<string>)
    ensures |names| == |vars|
    ensures forall k :: 0 <= k < |vars| ==> names[k] == vars[k].name
  {
    seq(|vars|, k requires 0 <= k < |vars| => vars[k].name)
  }

  /** Reading one checksum line off the front of a text. */
  lemma CheckedNamesCons(name: string, tail: string)
    requires NoParen(name)
    ensures CheckedNames(HashLine(name) + tail)
      == match CheckedNames(tail) case None => None case Some(names) => Some([name] + names)
  {
    var text := HashLine(name) + tail;
    assert text == HashPrefix + (name + (HashSuffix + tail));
    StartsWithAppend(HashPrefix, name + (HashSuffix + tail));
    var rest := text[|HashPrefix|..];
    assert rest == name + (HashSuffix + tail);
    NameLengthOf(name, HashSuffix + tail);
    assert rest[..|name|] == name;
    assert rest[|name|..] == HashSuffix + tail;
    StartsWithAppend(HashSuffix, tail);
    assert rest[|name| + |HashSuffix|..] == tail;
  }

  lemma {:induction false} NameLengthOf(name: string, tail: string)
    requires NoParen(name)
    requires |tail| > 0 && tail[0] == ')'
    ensures NameLength(name + tail) == |name|
  {
    if |name| > 0 {
      assert (name + tail)[1..] == name[1..] + tail;
      NameLengthOf(name[1..], tail);
    } else {
      assert name + tail == tail;
    }
  }

  lemma CheckEntriesCons(vars: seq<Variable>)
    requires |vars| > 0
    ensures Concat(CheckEntries(vars)) == HashLine(vars[0].name) + Concat(CheckEntries(vars[1..]))
    ensures Names(vars) == [vars[0].name] + Names(vars[1..])
  {
    assert CheckEntries(vars)[1..] == CheckEntries(vars[1..]);
  }

  /** The checksum sequence reads back as the table's variable names, in
      table order, provided no name contains a closing parenthesis. */
  lemma {:induction false} CheckRoundTrip(vars: seq<Variable>)
    requires forall k :: 0 <= k < |vars| ==> NoParen(vars[k].name)
    ensures CheckedNames(Concat(CheckEntries(vars))) == Some(Names(vars))
  {
    if |vars| > 0 {
      CheckEntriesCons(vars);
      CheckRoundTrip(vars[1..]);
      CheckedNamesCons(vars[0].name, Concat(CheckEntries(vars[1..])));
    }
  }

  // Struct initialisation

  /** The assignments `emit_single_struct_init` builds for `s`, reached
      through `parent`: one per member, in member-index order, where a
      struct-typed member contributes the assignments of its own walk. */
  function Assigns(parent: Option<MemberExpr>, s: Struct): seq<AssignExpr>
    decreases s, 1
  {
    MemberAssigns(parent, s, 0)
  }

  function MemberAssigns(parent: Option<MemberExpr>, s: Struct, j: nat): seq<AssignExpr>
    requires j <= |s.members|
    decreases s, 0, |s.members| - j
  {
    if j == |s.members| then [] else MemberPart(parent, s, j) + MemberAssigns(parent, s, j + 1)
  }

  /** What member `j` of `s` contributes. */
  function MemberPart(parent: Option<MemberExpr>, s: Struct, j: nat): seq<AssignExpr>
    requires j < |s.members|
    decreases s, 0, 0
  {
    var e := MemberExpr(s, j, parent);
    match s.members[j]
    case Nested(c) => Assigns(Some(e), c)
    case Scalar(v) => [AssignExpr(e, ConstExpr(v.ty, v.value))]
  }

  /** The text of a list of assignments, one `;`-terminated line each. */
  function AssignLines(p: Printer, assigns: seq<AssignExpr>): string
  {
    if |assigns| == 0 then "" else p.assignText(assigns[0]) + ";\n" + AssignLines(p, assigns[1..])
  }

  lemma {:induction false} AssignLinesAppend(p: Printer, a: seq<AssignExpr>, b: seq<AssignExpr>)
    ensures AssignLines(p, a + b) == AssignLines(p, a) + AssignLines(p, b)
  {
    if |a| == 0 {
      assert a + b == b;
    } else {
      assert (a + b)[1..] == a[1..] + b;
      AssignLinesAppend(p, a[1..], b);
    }
  }

  /** `emit_single_struct_init`: walks the members of `s` in order, recursing
      into struct-typed members and emitting one assignment per scalar one. */
  method EmitSingleStructInit(p: Printer, parent: Option<MemberExpr>, s: Struct) returns (r: string)
    ensures r == AssignLines(p, Assigns(parent, s))
    decreases s
  {
    r := "";
    var j := 0;
    while j < |s.members|
      invariant 0 <= j <= |s.members|
      invariant r + AssignLines(p, MemberAssigns(parent, s, j)) == AssignLines(p, Assigns(parent, s))
      decreases |s.members| - j
    {
      var e := MemberExpr(s, j, parent);
      var part;
      match s.members[j] {
        case Nested(c) =>
          part := EmitSingleStructInit(p, Some(e), c);
          assert MemberPart(parent, s, j) == Assigns(Some(e), c);
        case Scalar(v) =>
          var assign := AssignExpr(e, ConstExpr(v.ty, v.value));
          part := p.assignText(assign) + ";\n";
          assert MemberPart(parent, s, j) == [assign];
          assert [assign][1..] == [];
      }
      assert part == AssignLines(p, MemberPart(parent, s, j));
      assert MemberAssigns(parent, s, j) == MemberPart(parent, s, j) + MemberAssigns(parent, s, j + 1);
      AssignLinesAppend(p, MemberPart(parent, s, j), MemberAssigns(parent, s, j + 1));
      r := r + part;
      j := j + 1;
    }
  }

  function StructInitEntries(p: Printer, structs: seq<Struct>): seq<string>
  {
    seq(|structs|, k requires 0 <= k < |structs| => AssignLines(p, Assigns(None, structs[k])))
  }

  /** `emit_struct_init`: the initialisation of every struct instance, in
      table order, each walked from the top (no parent member). */
  method EmitStructInit(t: SymbolTable, p: Printer) returns (r: string)
    ensures r == Concat(StructInitEntries(p, t.structs))
  {
    var entries := StructInitEntries(p, t.structs);
    r := "";
    var i := 0;
    while i < |t.structs|
      invariant 0 <= i <= |t.structs|
      invariant r == Concat(entries[..i])
    {
      ConcatStep(entries, i);
      var part := EmitSingleStructInit(p, None, t.structs[i]);
      r := r + part;
      i := i + 1;
    }
    assert entries[..i] == entries;
  }

  // Leaf paths: what the struct initialisation walk must cover

  /** The member indices leading from a top-level struct to the member `e`
      names, outermost first. */
  function Path(e: MemberExpr): (q: seq<nat>)
    ensures |q| > 0 && q[|q| - 1] == e.index
    decreases e
  {
    match e.parent
    case None => [e.index]
    case Some(up) => Path(up) + [e.index]
  }

  /** The path of the member a walk starts from; empty at the top. */
  function ParentPath(parent: Option<MemberExpr>): seq<nat>
  {
    match parent
    case None => []
    case Some(up) => Path(up)
  }

  /** The object reached from `d` by following the member indices `q`. */
  function At(d: Data, q: seq<nat>): Option<Data>
    decreases |q|
  {
    if |q| == 0 then Some(d)
    else
      match d
      case Scalar(_) => None
      case Nested(s) => if q[0] < |s.members| then At(s.members[q[0]], q[1..]) else None
  }

  /** `q` leads from `d` to a scalar. */
  predicate IsLeaf(d: Data, q: seq<nat>)
  {
    At(d, q).Some? && At(d, q).value.Scalar?
  }

  /** The initializer the scalar at `q` calls for: its type and its current
      value; None when `q` does not lead to a scalar. */
  function InitAt(d: Data, q: seq<nat>): (r: Option<ConstExpr>)
    ensures r.Some? <==> IsLeaf(d, q)
  {
    match At(d, q)
    case Some(Scalar(v)) => Some(ConstExpr(v.ty, v.value))
    case _ => None
  }

  function Prefixed(j: nat, paths: seq<seq<nat>>): (r: seq<seq<nat>>)
    ensures |r| == |paths|
    ensures forall k :: 0 <= k < |paths| ==> r[k] == [j] + paths[k]
  {
    seq(|paths|, k requires 0 <= k < |paths| => [j] + paths[k])
  }

  /** The paths to the scalars of `d`, depth-first in member-index order. */
  function LeafPaths(d: Data): seq<seq<nat>>
    decreases d, 1
  {
    match d
    case Scalar(_) => [[]]
    case Nested(s) => MemberLeafPaths(s, 0)
  }

  function MemberLeafPaths(s: Struct, j: nat): seq<seq<nat>>
    requires j <= |s.members|
    decreases s, 0, |s.members| - j
  {
    if j == |s.members| then [] else Prefixed(j, LeafPaths(s.members[j])) + MemberLeafPaths(s, j + 1)
  }

  /** Strict lexicographic order on paths. */
  predicate LexLess(a: seq<nat>, b: seq<nat>)
  {
    |b| > 0 && (|a| == 0 || a[0] < b[0] || (a[0] == b[0] && LexLess(a[1..], b[1..])))
  }

  predicate Sorted(paths: seq<seq<nat>>)
  {
    forall a, b :: 0 <= a < b < |paths| ==> LexLess(paths[a], paths[b])
  }

  lemma AtStep(s: Struct, j: nat, q: seq<nat>)
    requires j < |s.members|
    ensures At(Nested(s), [j] + q) == At(s.members[j], q)
  {
    assert ([j] + q)[1..] == q;
  }

  lemma PrefixedHas(j: nat, paths: seq<seq<nat>>, q: seq<nat>)
    ensures q in Prefixed(j, paths) <==> |q| > 0 && q[0] == j && q[1..] in paths
  {
    if |q| > 0 && q[0] == j && q[1..] in paths {
      var k :| 0 <= k < |paths| && paths[k] == q[1..];
      assert Prefixed(j, paths)[k] == q;
    }
  }

  lemma {:induction false} MemberLeafPathsHas(s: Struct, j: nat, q: seq<nat>)
    requires j <= |s.members|
    ensures q in MemberLeafPaths(s, j)
      <==> |q| > 0 && j <= q[0] < |s.members| && q[1..] in LeafPaths(s.members[q[0]])
    decreases |s.members| - j
  {
    if j < |s.members| {
      PrefixedHas(j, LeafPaths(s.members[j]), q);
      MemberLeafPathsHas(s, j + 1, q);
    }
  }

  /** The leaf paths are exactly the paths that lead to a scalar. */
  lemma {:induction false} LeafPathsExact(d: Data, q: seq<nat>)
    ensures q in LeafPaths(d) <==> IsLeaf(d, q)
    decreases d
  {
    match d
    case Scalar(_) =>
    case Nested(s) =>
      MemberLeafPathsHas(s, 0, q);
      if |q| > 0 && q[0] < |s.members| {
        LeafPathsExact(s.members[q[0]], q[1..]);
      }
  }

  lemma LexLessPrefixed(j: nat, a: seq<nat>, b: seq<nat>)
    requires LexLess(a, b)
    ensures LexLess([j] + a, [j] + b)
  {
    assert ([j] + a)[1..] == a && ([j] + b)[1..] == b;
  }

  lemma SortedAppend(a: seq<seq<nat>>, b: seq<seq<nat>>)
    requires Sorted(a) && Sorted(b)
    requires forall x, y :: x in a && y in b ==> LexLess(x, y)
    ensures Sorted(a + b)
  {
    forall i, k | 0 <= i < k < |a + b|
      ensures LexLess((a + b)[i], (a + b)[k])
    {
      if k < |a| {
        assert LexLess(a[i], a[k]);
      } else if i >= |a| {
        assert LexLess(b[i - |a|], b[k - |a|]);
      } else {
        assert a[i] in a && b[k - |a|] in b;
      }
    }
  }

  lemma PrefixedSorted(j: nat, paths: seq<seq<nat>>)
    requires Sorted(paths)
    ensures Sorted(Prefixed(j, paths))
  {
    forall a, b | 0 <= a < b < |paths|
      ensures LexLess(Prefixed(j, paths)[a], Prefixed(j, paths)[b])
    {
      LexLessPrefixed(j, paths[a], paths[b]);
    }
  }

  /** The leaf paths come in strictly increasing lexicographic order: the
      walk is depth-first, in member-index order, and meets no leaf twice. */
  lemma {:induction false} LeafPathsSorted(d: Data)
    ensures Sorted(LeafPaths(d))
    decreases d, 1
  {
    match d
    case Scalar(_) =>
    case Nested(s) => MemberLeafPathsSorted(s, 0);
  }

  lemma {:induction false} MemberLeafPathsSorted(s: Struct, j: nat)
    requires j <= |s.members|
    ensures Sorted(MemberLeafPaths(s, j))
    ensures forall q :: q in MemberLeafPaths(s, j) ==> |q| > 0 && j <= q[0]
    decreases s, 0, |s.members| - j
  {
    if j < |s.members| {
      var first := Prefixed(j, LeafPaths(s.members[j]));
      var rest := MemberLeafPaths(s, j + 1);
      LeafPathsSorted(s.members[j]);
      PrefixedSorted(j, LeafPaths(s.members[j]));
      MemberLeafPathsSorted(s, j + 1);
      forall x, y | x in first && y in rest
        ensures LexLess(x, y)
      {
        PrefixedHas(j, LeafPaths(s.members[j]), x);
      }
      SortedAppend(first, rest);
      forall q | q in MemberLeafPaths(s, j)
        ensures |q| > 0 && j <= q[0]
      {
        PrefixedHas(j, LeafPaths(s.members[j]), q);
      }
    }
  }

  /** Assignment `k` writes the member at `pp + paths[k]` and assigns it the
      initializer of the scalar at `paths[k]` in `d`. */
  predicate FollowsLeaves(pp: seq<nat>, d: Data, assigns: seq<AssignExpr>, paths: seq<seq<nat>>)
  {
    |assigns| == |paths| &&
    forall k :: 0 <= k < |assigns| ==>
      Path(assigns[k].to) == pp + paths[k] && Some(assigns[k].from) == InitAt(d, paths[k])
  }

  lemma FollowsAppend(pp: seq<nat>, d: Data, a1: seq<AssignExpr>, p1: seq<seq<nat>>, a2: seq<AssignExpr>, p2: seq<seq<nat>>)
    requires FollowsLeaves(pp, d, a1, p1) && FollowsLeaves(pp, d, a2, p2)
    ensures FollowsLeaves(pp, d, a1 + a2, p1 + p2)
  {
    forall k | 0 <= k < |a1 + a2|
      ensures Path((a1 + a2)[k].to) == pp + (p1 + p2)[k] && Some((a1 + a2)[k].from) == InitAt(d, (p1 + p2)[k])
    {
      if k >= |a1| {
        assert (a1 + a2)[k] == a2[k - |a1|];
      }
    }
  }

  lemma FollowsPrefixed(pp: seq<nat>, s: Struct, j: nat, assigns: seq<AssignExpr>, paths: seq<seq<nat>>)
    requires j < |s.members|
    requires FollowsLeaves(pp + [j], s.members[j], assigns, paths)
    ensures FollowsLeaves(pp, Nested(s), assigns, Prefixed(j, paths))
  {
    forall k | 0 <= k < |assigns|
      ensures Path(assigns[k].to) == pp + Prefixed(j, paths)[k]
      ensures Some(assigns[k].from) == InitAt(Nested(s), Prefixed(j, paths)[k])
    {
      assert pp + [j] + paths[k] == pp + ([j] + paths[k]);
      AtStep(s, j, paths[k]);
    }
  }

  /** What member `j` contributes covers the leaves below that member. */
  lemma {:induction false} MemberPartFollowsLeaves(parent: Option<MemberExpr>, s: Struct, j: nat)
    requires j < |s.members|
    ensures FollowsLeaves(ParentPath(parent) + [j], s.members[j], MemberPart(parent, s, j), LeafPaths(s.members[j]))
    decreases s, 0, 0
  {
    var e := MemberExpr(s, j, parent);
    assert Path(e) == ParentPath(parent) + [j];
    match s.members[j]
    case Nested(c) =>
      AssignsFollowLeaves(Some(e), c);
    case Scalar(v) =>
      assert Path(e) == ParentPath(parent) + [j] + [];
  }

  lemma {:induction false} MemberAssignsFollowLeaves(parent: Option<MemberExpr>, s: Struct, j: nat)
    requires j <= |s.members|
    ensures FollowsLeaves(ParentPath(parent), Nested(s), MemberAssigns(parent, s, j), MemberLeafPaths(s, j))
    decreases s, 0, |s.members| - j
  {
    if j < |s.members| {
      MemberPartFollowsLeaves(parent, s, j);
      FollowsPrefixed(ParentPath(parent), s, j, MemberPart(parent, s, j), LeafPaths(s.members[j]));
      MemberAssignsFollowLeaves(parent, s, j + 1);
      FollowsAppend(ParentPath(parent), Nested(s),
        MemberPart(parent, s, j), Prefixed(j, LeafPaths(s.members[j])),
        MemberAssigns(parent, s, j + 1), MemberLeafPaths(s, j + 1));
    }
  }

  /** The walk of `s` emits exactly one assignment per leaf path of `s`, in
      the same order: assignment `k` writes the member at the walk's
      starting path followed by leaf path `k`, and assigns it that scalar's
      type and current value. */
  lemma {:induction false} AssignsFollowLeaves(parent: Option<MemberExpr>, s: Struct)
    ensures FollowsLeaves(ParentPath(parent), Nested(s), Assigns(parent, s), LeafPaths(Nested(s)))
    decreases s, 1
  {
    MemberAssignsFollowLeaves(parent, s, 0);
  }

  /** Initialising a top-level struct writes every scalar leaf exactly once,
      with that scalar's type and value, depth-first in member-index order,
      and writes nothing else. */
  lemma StructInitCoversLeaves(s: Struct)
    ensures forall k :: 0 <= k < |Assigns(None, s)| ==>
      IsLeaf(Nested(s), Path(Assigns(None, s)[k].to)) &&
      Some(Assigns(None, s)[k].from) == InitAt(Nested(s), Path(Assigns(None, s)[k].to))
    ensures forall q :: IsLeaf(Nested(s), q) ==>
      exists k :: 0 <= k < |Assigns(None, s)| && Path(Assigns(None, s)[k].to) == q
    ensures forall a, b :: 0 <= a < b < |Assigns(None, s)| ==>
      LexLess(Path(Assigns(None, s)[a].to), Path(Assigns(None, s)[b].to))
  {
    var assigns := Assigns(None, s);
    var paths := LeafPaths(Nested(s));
    AssignsFollowLeaves(None, s);
    LeafPathsSorted(Nested(s));
    forall k | 0 <= k < |assigns|
      ensures Path(assigns[k].to) == paths[k]
    {
      assert [] + paths[k] == paths[k];
    }
    forall k | 0 <= k < |assigns|
      ensures IsLeaf(Nested(s), Path(assigns[k].to))
    {
      LeafPathsExact(Nested(s), paths[k]);
    }
    forall q | IsLeaf(Nested(s), q)
      ensures exists k :: 0 <= k < |assigns| && Path(assigns[k].to) == q
    {
      LeafPathsExact(Nested(s), q);
      var k :| 0 <= k < |paths| && paths[k] == q;
      assert Path(assigns[k].to) == q;
    }
  }
}
