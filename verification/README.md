# yarpgen: option parser, symbol table emission and scope context

This project is a Dafny model of two self-contained parts of yarpgen, a
random program generator used to test compilers.

## What is modelled

**The command-line option parser** (`src/options.cpp`).
- The table of option descriptors holds, in order: help, version, seed,
  standard, asserts level and input-as-arguments level. Each row has its
  short and long spelling, whether it takes a value, its error message,
  default value and possible values (`Options.OptionsSet`).
- The long matcher accepts `--name` for options without a value and
  `--name=value` for options with one. The short matcher compares
  the argument exactly with the row's short spelling, which may be empty; a
  valued short option takes the next argument as its value.
- For each argument, the driver tries the rows in table order, long
  spelling before short, and the first row that matches claims the
  argument.
- The value decoders cover the seed, the language standard and the two
  level options. Default initialisation is also modelled.
- Every call that prints usage or the version and then ends the process is
  modelled as an `Exit` outcome, carrying the status the program passes
  to `exit`: 0 when the message is empty, -1 otherwise (which the operating
  system reports as 255).
- The options singleton is a `Settings` record. It is passed in and
  returned, not mutated.

**The symbol table** (`sym_table.cpp`, `SymbolTable`).
- Random choice of a variable or an array: the random draw is a parameter
  in the inclusive range the generator is asked for.
- The emission passes: `extern` declarations and definitions of variables
  and of struct instances, struct type definitions, and the
  `hash(seed, name);` checksum sequence.
- The recursive struct initialisation walk.
- The text of a single declaration, assignment or struct type definition
  comes from node classes that are not part of this model. It is taken from
  a `Printer`, a record of functions. What the model fixes is which nodes
  each pass builds, for which entries, in which order, and how their texts
  are joined.

**The generation context** (`sym_table.cpp`, `Context::Context`).
- A context inherits the depth, the if-depth and the extern tables from its
  parent.
- An `if` statement adds one to the if-depth.
- The depth is copied from the parent and never incremented
  (sym_table.cpp:138-146).

### Things the model makes visible

- The rows for help, version and seed carry the message "Unreachable
  Error", but the parser can reach it:
  - `--helpx` is rejected with it (`OptionScenarios.LongerNameIsError`);
  - `-s` as the last argument is rejected with it
    (`OptionScenarios.MissingShortValue`).
- The standard, asserts and input-as-arguments rows have an empty short
  spelling. An empty argument therefore matches the standard option and
  takes the next argument as the standard
  (`OptionScenarios.EmptyArgumentIsStd`).
- The decoder for `--inp-as-args` reports a bad value with the asserts
  message "Can't recognize asserts use level". The model keeps that message
  as written.

Files:
- `strings.dfy`: prefixes, concatenation and decimal digits.
- `options.dfy`: the option parser.
- `option_scenarios.dfy`: concrete command lines.
- `sym_table.dfy`: the symbol table.
- `context.dfy`: the context.

## Model

| member | source | states |
|---|---|---|
| `Strings.StartsWithChars` | src/options.cpp:161-163 | the prefix test holds exactly when the name is no longer than the argument and agrees with it character by character |
| `Strings.DiffersAt` | src/options.cpp:161-163 | an argument that differs from an option name at some position inside the name does not start with it |
| `Strings.LeadingDigitsOf` | src/options.cpp:237-243 | the digits a read takes are the unique leading run of digits that is followed by a non-digit or the end |
| `Strings.DecimalRoundTrip` | src/options.cpp:237-243 | reading back the decimal digits of a number gives the number |
| `Options.VersionAndExit` | src/options.cpp:108-115 | the version printer always ends the process, with status 0 exactly when its argument is empty and -1 otherwise, without usage text |
| `Options.HelpAndExit` | src/options.cpp:117-159 | printing usage always ends the process, carrying its error message, with status 0 exactly when the message is empty and -1 otherwise |
| `Options.SeedValue` | src/options.cpp:237-243 | a seed read from text always fits in a `size_t` |
| `Options.SeedOfDigits` | src/options.cpp:237-243 | any run of digits followed by a non-digit or the end reads as its value, leading zeros included, and as `SIZE_MAX` when the value does not fit |
| `Options.SeedOfDecimal` | src/options.cpp:237-243 | the seed read from the decimal spelling of any `size_t` value is that value, whatever non-digit text follows |
| `Options.ParseStandard` | src/options.cpp:245-255 | "cpp", "ispc" and "sycl" decode to CXX, ISPC and SYCL, each exactly for that string; every other string is refused |
| `Options.StandardRoundTrip` | src/options.cpp:79-87 | each standard's spelling decodes back to it, a decoded string is the spelling of its result, and the strings accepted are exactly the possible values the standard row lists |
| `Options.ParseLevel` | src/options.cpp:268-290 | "none", "some" and "all" decode to NONE, SOME and ALL, each exactly for that string; every other string is refused |
| `Options.LevelRoundTrip` | src/options.cpp:88-106 | each level's spelling decodes back to it, and the strings accepted are exactly the possible values listed by the asserts row and the input-as-arguments row, which are the same |
| `Options.Act` | src/options.cpp:51-106 | per row kind: the seed is stored; a valid standard or level is stored in its own field; an invalid one ends the process with status -1 and the decoder's message; help prints usage and version does not, both exiting with status 0 exactly when their value is empty; nothing else changes |
| `Options.InitFromKeepsLevels` | src/options.cpp:257-266 | default initialisation over any table leaves the asserts level and the input-as-arguments level alone |
| `Options.InitOverOptionsSet` | src/options.cpp:257-266 | the default loop over the option table stores seed 0 and the C++ standard and no row ends the process |
| `Options.InitOptions` | src/options.cpp:257-266 | initialisation is the default loop over the option table, which never ends the process; it sets seed 0 and the C++ standard and keeps the other fields |
| `Options.MatchLong` | src/options.cpp:190-216 | a valued option matches exactly the arguments that start with `--name=`, is rejected with its error message exactly on a bare `--name=`, and otherwise passes on the non-empty suffix after `=`; an option without a value claims exactly `--name` and rejects any longer argument with that prefix |
| `Options.MatchShort` | src/options.cpp:167-186 | the argument matches exactly when it equals the short name; a valued option then takes the next argument as its value and is rejected exactly when there is none; an option without a value is never rejected |
| `Options.MatchOption` | src/options.cpp:218-222 | a claim uses the argument and at most following ones that exist; a rejection carries the row's error message |
| `Options.LongBeforeShort` | src/options.cpp:218-222 | the long spelling is tried first, the short one only when the long one does not match at all, and the row matches iff either does |
| `Options.Select` | src/options.cpp:226-231 | the row picked is in the table and its match is what that row makes of the argument |
| `Options.SelectFirstMatch` | src/options.cpp:226-231 | no row before the one picked matches, and no row is picked exactly when no row matches |
| `Options.SelectFirst` | src/options.cpp:226-231 | when the rows before row k do not match and row k does, row k is picked |
| `Options.ParseTurn` | src/options.cpp:224-235 | a turn that lets parsing carry on claims the argument at its own position and ends inside the argument list |
| `Options.TurnFacts` | src/options.cpp:224-235 | a turn claims with the first matching row and uses at most one more argument; it ends the process on that row's action, or with "Unknown option" when no row matches, or with the row's message when the first matching row rejects; each end has status 0 exactly when its message is empty |
| `Options.ParseFrom` | src/options.cpp:224-235 | at most one claim per remaining argument; what the loop does is stated by `ParseFromClaims`, `ParseFromAppliesClaims` and the status lemmas below |
| `Options.ContiguousCovers` | src/options.cpp:224-235 | contiguous claims leave no gap: every position up to their reach belongs to a claim |
| `Options.ParseFromClaims` | src/options.cpp:224-235 | the claims form a contiguous run from the first position; each is made by the first matching row; when parsing carries on, the run reaches the last argument |
| `Options.ParseFromAppliesClaims` | src/options.cpp:224-235 | when parsing carries on, the settings are what the claimed rows' actions make of the initial ones, in command-line order |
| `Options.ParseFromStatus` | src/options.cpp:224-235 | every way parsing ends the process has status 0 exactly when its message is empty, and -1 otherwise |
| `Options.ParseFromZeroStatus` | src/options.cpp:224-235 | over any table whose rows all carry error messages, status 0 happens only when the last claimed row is a help or version request |
| `Options.TurnRequestStatus` | src/options.cpp:224-235 | a turn that ends on a help or version row claims it with the empty value, so it exits with status 0, with usage exactly for help |
| `Options.ParseFromRequestStatus` | src/options.cpp:224-235 | over any table whose help and version rows take no value, when the last claim is a help or version request the process ends with status 0 |
| `Options.Parse` | src/options.cpp:224-235 | with no argument after the program name nothing is claimed and the options are unchanged; there are fewer claims than arguments; the loop's properties are stated by the `Parse…` lemmas below |
| `Options.ParseFromExit` | src/options.cpp:224-235 | a loop that ends the process either ends with the outcome of running its claimed actions in order, or, when they all let it carry on, at the first argument after the claims, which matches no row and gives "Unknown option: " plus the argument, or is rejected by the first matching row with that row's message |
| `Options.ParseFromExitsAtLast` | src/options.cpp:224-235 | when a loop that claimed something ends the process, every claimed action but the last lets it carry on, and the exit is the last claim's action, or comes at the argument right after the claims as above |
| `Options.ParseExit` | src/options.cpp:224-235 | both statements for `parse`, from the first argument after the program name |
| `Options.ParseClaimsEveryArgument` | src/options.cpp:224-235 | when parsing returns, every argument after the program name is an option or the value of the option before it, claimed by the first matching row |
| `Options.ParseStatus` | src/options.cpp:224-235 | parsing ends the process with status 0 exactly when the last argument claimed is a help or version request, and with -1 on every error |
| `Options.ParseAppliesClaims` | src/options.cpp:224-235 | when parsing returns, the options record holds what the claimed actions make of it, later occurrences overriding earlier ones |
| `OptionScenarios.EmptyArgumentIsStd` | src/options.cpp:172-184 | an empty argument is claimed by the standard row's empty short name, and the next argument becomes the standard |
| `OptionScenarios.HelpExitsZero` | src/options.cpp:108-115 | `--help` and `-h` end the process with status 0 after usage |
| `OptionScenarios.VersionExitsZero` | src/options.cpp:108-115 | `--version` and `-v` end the process with status 0, without usage |
| `OptionScenarios.LongerNameIsError` | src/options.cpp:206-213 | `--helpx` is an error with the help row's message, status -1 |
| `OptionScenarios.BareValuedOption` | src/options.cpp:199-201 | `--std=` is an error with the standard row's message |
| `OptionScenarios.MissingShortValue` | src/options.cpp:172-176 | `-s` with nothing after it is an error with the seed row's message |
| `OptionScenarios.UnknownOption` | src/options.cpp:224-234 | an argument no row matches ends the process with "Unknown option: " followed by the argument |
| `OptionScenarios.SeedAndStandard` | src/options.cpp:167-235 | `-s 42 --std=sycl` sets seed 42 and the SYCL standard |
| `OptionScenarios.LaterOverrides` | src/options.cpp:224-235 | with `--asserts` given twice, the later value wins |
| `OptionScenarios.SeedSaturates` | src/options.cpp:237-243 | a seed of twenty nines is read as `SIZE_MAX` |
| `OptionScenarios.SeedLeadingZeros` | src/options.cpp:237-243 | `007` is read as seed 7 |
| `SymTable.GetRandVariable` | sym_table.cpp:23-26 | for a non-empty table and a draw in [0, size-1], the variable chosen is the one at the draw and is in the table |
| `SymTable.GetRandArray` | sym_table.cpp:28-31 | the same for arrays |
| `SymTable.RandomChoiceCoversTable` | sym_table.cpp:23-31 | every variable and every array in the table is picked by some draw in the range the generator is asked for |
| `SymTable.EmitVariableExternDecl` | sym_table.cpp:33-42 | the text is one `extern` declaration of each variable, `;`-terminated, in table order |
| `SymTable.EmitVariableDef` | sym_table.cpp:44-58 | the text is one definition of each variable, in table order, initialised with a literal of the variable's type and current value |
| `SymTable.VariablePassesAgree` | sym_table.cpp:33-58 | both variable passes have one entry per variable; the definitions declare the same variables as the `extern` declarations, with the initializer added and the extern flag dropped |
| `SymTable.EmitStructTypeDef` | sym_table.cpp:60-66 | the text is the definitions of the struct types, in order |
| `SymTable.EmitStructDef` | sym_table.cpp:68-77 | the text is one definition of each struct instance, in order |
| `SymTable.EmitStructExternDecl` | sym_table.cpp:79-88 | the text is one `extern` declaration of each struct instance, in order |
| `SymTable.StructPassesDifferOnlyInExtern` | sym_table.cpp:68-88 | the two struct passes declare the same instances in the same order and differ only in the extern flag |
| `SymTable.EmitVariableCheck` | sym_table.cpp:123-129 | the text is `hash(seed, name);` for each variable in table order, and empty for an empty table |
| `SymTable.CheckRoundTrip` | sym_table.cpp:123-129 | the checksum text reads back as the variable names in table order, provided no name holds a closing parenthesis |
| `SymTable.EmitSingleStructInit` | sym_table.cpp:98-121 | the walk emits one `;`-terminated assignment per scalar member, in member order, with struct members replaced by their own walk |
| `SymTable.EmitStructInit` | sym_table.cpp:90-96 | the text is the initialisation of every struct instance in table order, each walked from the top |
| `SymTable.LeafPathsExact` | sym_table.cpp:98-121 | the leaf paths are exactly the member-index paths that lead to a scalar |
| `SymTable.LeafPathsSorted` | sym_table.cpp:98-121 | the leaf paths come in strictly increasing lexicographic order: depth first, in member order, none twice |
| `SymTable.AssignsFollowLeaves` | sym_table.cpp:98-121 | assignment k of a walk writes the member at the walk's starting path followed by leaf path k, with that scalar's type and value |
| `SymTable.StructInitCoversLeaves` | sym_table.cpp:90-121 | initialising a top-level struct writes every scalar leaf once, in depth-first member order, with its type and value, and writes nothing else |
| `Scopes.IfCount` | sym_table.cpp:147-148 | an `if` statement counts one, any other statement none |
| `Scopes.NewContext` | sym_table.cpp:131-149 | without a parent: depth 0, if-depth 1 exactly for an `if` and 0 otherwise, no extern tables; with a parent: its depth, its if-depth plus one exactly for an `if`, its extern tables |
| `Scopes.NewContextBuilt` | sym_table.cpp:131-149 | a context made by the constructor from a chain of constructor-made contexts keeps the whole chain constructor-made |
| `Scopes.BuiltChain` | sym_table.cpp:131-149 | below an outermost context of any state, every constructor-made context has the outermost one's depth, however deep the nesting, and its extern tables; its if-depth is the outermost one's plus the `if` statements below it |
| `Scopes.RootedChain` | sym_table.cpp:131-149 | when the outermost context was made by the constructor as well, the depth is 0 everywhere and the if-depth counts every `if` on the chain |

## Left out

- Help text layout: the padding and line layout of the usage text
  (src/options.cpp:117-156) is output formatting. Only the exit decision is
  modelled.
- Version and build text: the text the version printer writes is output
  only.
- The process exit: it is the `Exit` outcome. Status -1 is kept as the
  program passes it; the operating system would report it as 255.
- SeedValue: models `std::stringstream >> size_t` only on text that starts
  with decimal digits, with saturation at `SIZE_MAX`. Leading whitespace,
  a sign, and the stream's failure state are not modelled, because the
  standard library's parsing is not part of this model. Text that does not
  start with a digit gives 0, as a failed extraction leaves the seed at 0.
- Argument strings are C strings. They are modelled as character sequences
  without NUL, so `strlen` is the length.
- `main.cpp` is not part of this model: its option handling, the
  orchestration, and the passes it calls whose code is not shown.
- The random generator: each draw is a parameter. `get_rand_variable` and
  `get_rand_array` on an empty table ask for a draw in [0, -1], so they
  require a non-empty table.
- Node texts: `DeclStmt::emit`, `AssignExpr::emit`, `ConstExpr`,
  `MemberExpr` and `StructType::get_definition` are not part of this model.
  They are the functions of a `Printer`.
- Types: a variable's integer type is its type identifier only. The type
  classes, value ranges and the check that a member is struct-typed are
  reduced to the `Scalar`/`Nested` distinction.
- The rest of the generator (type system, expressions, statements, UB
  checks, policies) is not part of this model.
- Context policy and statement: both are opaque type parameters. The
  extern-table setters are not part of this model. The outermost context of
  a chain may hold any tables, but every inner context is assumed to be
  unchanged since its construction.
- Shared pointers: a parent is held by value and a table by an optional
  reference number, where None is a null pointer. Aliasing and lifetimes
  are not modelled.
