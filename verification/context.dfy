/** The generation context: the scope a statement is generated in, linked
    to the context of the enclosing statement. A context records the
    generation policy, the statement and its kind, the global symbol table,
    the tables of external inputs and outputs, the nesting depth and the
    number of enclosing `if` statements.

    Shared pointers are modelled by value: a table is known by a reference
    `TableRef`, and a null pointer is None. The policy and the statement are
    opaque to the constructor and stay type parameters. */
module Scopes {
  import opened Strings

  /** The kind of a statement node; only `if` matters to a context. */
  datatype NodeId = IF | OtherNode(code: nat)

  /** A reference to a symbol table. */
  datatype TableRef = TableRef(id: nat)

  datatype Context<Policy, Stmt> = Context(
    policy: Policy,
    stmt: Stmt,
    stmtId: NodeId,
    globalTable: Option<TableRef>,
    parent: Option<Context<Policy, Stmt>>,
    depth: int,
    ifDepth: int,
    externInp: Option<TableRef>,
    externOut: Option<TableRef>)

  /** 1 for an `if` statement, 0 for any other. */
  function IfCount(id: NodeId): (n: nat)
    ensures n <= 1
    ensures n == 1 <==> id == IF
  {
    if id == IF then 1 else 0
  }

  /** `Context::Context`: a context for statement `stmt` of kind `id`. Without
      a parent it starts at depth 0 with no extern tables; with one it takes
      the parent's depth, if-depth and extern tables. In both cases an `if`
      statement adds one to the if-depth. The depth is never incremented. */
  function NewContext<Policy, Stmt>(policy: Policy, stmt: Stmt, id: NodeId, global: Option<TableRef>,
                                    parent: Option<Context<Policy, Stmt>>): (c: Context<Policy, Stmt>)
    ensures c.policy == policy && c.stmt == stmt && c.stmtId == id
    ensures c.globalTable == global && c.parent == parent
    ensures parent.None? ==> c.depth == 0 && c.externInp == None && c.externOut == None
    ensures parent.None? ==> (c.ifDepth == 1 <==> id == IF) && (c.ifDepth == 0 <==> id != IF)
    ensures parent.Some? ==> c.depth == parent.value.depth
    ensures parent.Some? ==> c.externInp == parent.value.externInp && c.externOut == parent.value.externOut
    ensures parent.Some? ==> (c.ifDepth == parent.value.ifDepth + 1 <==> id == IF)
    ensures parent.Some? ==> (c.ifDepth == parent.value.ifDepth <==> id != IF)
  {
    match parent
    case None =>
      Context(policy, stmt, id, global, parent, 0, IfCount(id), None, None)
    case Some(up) =>
      Context(policy, stmt, id, global, parent, up.depth, up.ifDepth + IfCount(id), up.externInp, up.externOut)
  }

  /** Every context on the chain from `c` out to the outermost one, the
      outermost excluded, was made by the constructor from its own fields and
      its parent. The outermost context is arbitrary: its extern tables are
      set after construction. */
  ghost predicate Built<Policy, Stmt>(c: Context<Policy, Stmt>)
    decreases c
  {
    match c.parent
    case None => true
    case Some(up) => c == NewContext(c.policy, c.stmt, c.stmtId, c.globalTable, c.parent) && Built(up)
  }

  /** The outermost context of the chain from `c`. */
  function Root<Policy, Stmt>(c: Context<Policy, Stmt>): (r: Context<Policy, Stmt>)
    ensures r.parent.None?
    decreases c
  {
    match c.parent
    case None => c
    case Some(up) => Root(up)
  }

  /** The number of `if` statements on the chain from `c` outwards, `c`
      included and the outermost context excluded. */
  function IfsBelowRoot<Policy, Stmt>(c: Context<Policy, Stmt>): nat
    decreases c
  {
    match c.parent
    case None => 0
    case Some(up) => IfCount(c.stmtId) + IfsBelowRoot(up)
  }

  /** The number of `if` statements on the chain from `c` outwards, `c`
      and the outermost context included. */
  function EnclosingIfs<Policy, Stmt>(c: Context<Policy, Stmt>): nat
    decreases c
  {
    IfCount(c.stmtId) + match c.parent case None => 0 case Some(up) => EnclosingIfs(up)
  }

  /** A context made from a built parent is built. */
  lemma NewContextBuilt<Policy, Stmt>(policy: Policy, stmt: Stmt, id: NodeId, global: Option<TableRef>,
                                      parent: Option<Context<Policy, Stmt>>)
    requires parent.Some? ==> Built(parent.value)
    ensures Built(NewContext(policy, stmt, id, global, parent))
  {
  }

  /** Along a chain of contexts made by the constructor below an outermost
      context, every context shares the outermost one's depth (however deep
      the nesting) and its extern tables, and its if-depth is the outermost
      one's plus the `if` statements below it. */
  lemma {:induction false} BuiltChain<Policy, Stmt>(c: Context<Policy, Stmt>)
    requires Built(c)
    ensures c.depth == Root(c).depth
    ensures c.externInp == Root(c).externInp && c.externOut == Root(c).externOut
    ensures c.ifDepth == Root(c).ifDepth + IfsBelowRoot(c)
    decreases c
  {
    match c.parent
    case None =>
    case Some(up) =>
      BuiltChain(up);
  }

  /** When the outermost context was itself made by the constructor, the
      depth is 0 along the whole chain and the if-depth counts every `if`
      statement on it. */
  lemma {:induction false} RootedChain<Policy, Stmt>(c: Context<Policy, Stmt>)
    requires Built(c)
    requires Root(c).ifDepth == IfCount(Root(c).stmtId) && Root(c).depth == 0
    ensures c.depth == 0
    ensures c.ifDepth == EnclosingIfs(c)
    decreases c
  {
    match c.parent
    case None =>
    case Some(up) =>
      RootedChain(up);
  }
}
