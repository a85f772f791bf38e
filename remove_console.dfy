/**
 * packages/babel-plugin-transform-remove-console/src/index.js: calls on
 * `console` are removed (as statements) or replaced by `void 0` (inside
 * expressions), `console.x.bind(...)` calls and bare `console.x` values
 * are replaced by an empty function. The plugin's two visitors are modelled
 * as decisions on one node, and Babel's traversal of a tree with those
 * visitors as the function `Strip`.
 */
module RemoveConsole {
  import opened Wrappers

  /**
   * The nodes the plugin inspects or builds; every other node is `Other`,
   * whose children are visited in order. The `computed` flag of a member
   * expression is absent because the plugin never consults it.
   */
  datatype Node =
    | Identifier(name: string)
    | Member(obj: Node, property: Node)
    | Call(callee: Node, arguments: seq<Node>)
    | FunctionExpr(id: Option<string>, params: seq<Node>, body: seq<Node>)
    | Unary(operator: string, argument: Node)
    | NumericLiteral(value: int)
    | ExpressionStatement(expression: Node)
    | Other(children: seq<Node>)

  /** What the parent path of a node is, as far as the visitors ask. */
  datatype Parent = StatementParent | MemberParent | OtherParent

  predicate IsIdentifierNamed(n: Node, name: string)
  {
    n.Identifier? && n.name == name
  }

  /** `path.get("object").isIdentifier({ name: "console" })` on a node that may not be a member expression. */
  predicate ObjectIsConsole(n: Node)
  {
    n.Member? && IsIdentifierNamed(n.obj, "console")
  }

  /** `isConsole(memberExpr)`: `console.x`, or `console.x.call` / `console.x.apply`. */
  predicate IsConsole(m: Node)
    requires m.Member?
  {
    || IsIdentifierNamed(m.obj, "console")
    || (ObjectIsConsole(m.obj) && (IsIdentifierNamed(m.property, "call") || IsIdentifierNamed(m.property, "apply")))
  }

  /** `isConsoleBind(memberExpr)`: `console.x.bind`. */
  predicate IsConsoleBind(m: Node)
    requires m.Member?
  {
    m.obj.Member? && ObjectIsConsole(m.obj) && IsIdentifierNamed(m.property, "bind")
  }

  /**
   * `console.log`, `console["log"]` (an `Other` property), `console.log.call` and `console.log.apply` are
   * console members; `console.log.bind`, `a.console.log` and
   * `console.log.foo` are not. `console.log.bind` is a bound console method,
   * `console.bind` and `a.log.bind` are not.
   */
  lemma ConsoleTestExamples()
    ensures var console, log := Identifier("console"), Identifier("log");
      && IsConsole(Member(console, log)) && IsConsole(Member(console, Other([])))
      && IsConsole(Member(Member(console, log), Identifier("call")))
      && IsConsole(Member(Member(console, log), Identifier("apply")))
      && !IsConsole(Member(Member(console, log), Identifier("bind")))
      && !IsConsole(Member(Member(Identifier("a"), console), log))
      && !IsConsole(Member(Member(console, log), Identifier("foo")))
      && IsConsoleBind(Member(Member(console, log), Identifier("bind")))
      && !IsConsoleBind(Member(console, Identifier("bind")))
      && !IsConsoleBind(Member(Member(Identifier("a"), log), Identifier("bind")))
  {
  }

  /** A bound console method is never a console call, so the order of the two tests in the call visitor is immaterial. */
  lemma ConsoleBindExclusive(m: Node)
    requires m.Member?
    ensures IsConsoleBind(m) ==> !IsConsole(m)
  {
  }

  /** `createNoop()`: `function () {}`, a replacement that holds no console call under any parent. */
  function Noop(): (r: Node)
    ensures forall parent :: Clean(r, parent)
  {
    FunctionExpr(None, [], [])
  }

  /** `createVoid0()`: `void 0`, a replacement that holds no console call under any parent. */
  function Void0(): (r: Node)
    ensures forall parent :: Clean(r, parent)
  {
    Unary("void", NumericLiteral(0))
  }

  datatype CallAction = KeepCall | RemoveCall | ReplaceCall(replacement: Node)

  /** The `CallExpression` visitor on a call with callee `callee`. */
  function CallDecision(callee: Node, parent: Parent): (r: CallAction)
    ensures r == RemoveCall <==> callee.Member? && IsConsole(callee) && parent == StatementParent
    ensures r == ReplaceCall(Void0()) <==> callee.Member? && IsConsole(callee) && parent != StatementParent
    ensures r == ReplaceCall(Noop()) <==> callee.Member? && IsConsoleBind(callee)
    ensures r == KeepCall <==> !(callee.Member? && (IsConsole(callee) || IsConsoleBind(callee)))
    ensures r.ReplaceCall? ==> r == ReplaceCall(Void0()) || r == ReplaceCall(Noop())
  {
    if !callee.Member? then KeepCall
    else if IsConsole(callee) then
      if parent == StatementParent then RemoveCall else ReplaceCall(Void0())
    else if IsConsoleBind(callee) then ReplaceCall(Noop())
    else KeepCall
  }

  /** `MemberExpression.exit`: whether the member expression `m` is replaced by the empty function. */
  predicate MemberExitReplaces(m: Node, parent: Parent)
    requires m.Member?
  {
    IsConsole(m) && parent != MemberParent
  }

  /**
   * The path a visitor is called with: its node (`None` once removed) and
   * the kind of its parent. The visitors change the tree through it.
   */
  class NodePath {
    var node: Option<Node>
    const parent: Parent

    constructor (node: Node, parent: Parent)
      ensures this.node == Some(node) && this.parent == parent
    {
      this.node := Some(node);
      this.parent := parent;
    }

    /** The `CallExpression` visitor: `path.remove()`, `path.replaceWith(...)`, or nothing. */
    method VisitCall()
      requires node.Some? && node.value.Call?
      modifies this
      ensures node == match CallDecision(old(node).value.callee, parent)
        case KeepCall => old(node)
        case RemoveCall => None
        case ReplaceCall(r) => Some(r)
    {
      var callee := node.value.callee;
      if !callee.Member? {
        return;
      }
      if IsConsole(callee) {
        if parent == StatementParent {
          node := None;
        } else {
          node := Some(Void0());
        }
      } else if IsConsoleBind(callee) {
        node := Some(Noop());
      }
    }

    /** `MemberExpression.exit`: `path.replaceWith(createNoop())` or nothing. */
    method ExitMember()
      requires node.Some? && node.value.Member?
      modifies this
      ensures node == if MemberExitReplaces(old(node).value, parent) then Some(Noop()) else old(node)
    {
      if IsConsole(node.value) && parent != MemberParent {
        node := Some(Noop());
      }
    }
  }

  /**
   * The child in an expression slot (callee, member object or property,
   * unary argument). Only an expression statement is ever removed, and no
   * well-formed tree has one in an expression slot, so the empty node stands
   * for a case that does not arise; Babel's removal hooks are not modelled.
   */
  function Slot(n: Option<Node>): Node
  {
    if n.Some? then n.value else Other([])
  }

  /**
   * The plugin's traversal of `n` under a parent of kind `parent`: `None`
   * when the node goes away with its statement. A call is decided on
   * entry, before its children; a member expression on exit, after them;
   * a replacement node is traversed again, which changes nothing (see `ReplacementsUnchanged`).
   */
  function Strip(n: Node, parent: Parent): Option<Node>
    decreases n
  {
    match n
    case Identifier(_) => Some(n)
    case NumericLiteral(_) => Some(n)
    case Call(callee, args) =>
      (match CallDecision(callee, parent)
       case RemoveCall => None
       case ReplaceCall(r) => Some(r)
       case KeepCall => Some(Call(Slot(Strip(callee, OtherParent)), StripList(args))))
    case Member(o, p) =>
      var m := Member(Slot(Strip(o, MemberParent)), Slot(Strip(p, MemberParent)));
      if MemberExitReplaces(m, parent) then Some(Noop()) else Some(m)
    case FunctionExpr(id, ps, body) => Some(FunctionExpr(id, StripList(ps), StripList(body)))
    case Unary(op, a) => Some(Unary(op, Slot(Strip(a, OtherParent))))
    case ExpressionStatement(e) =>
      (match Strip(e, StatementParent)
       case None => None
       case Some(e') => Some(ExpressionStatement(e')))
    case Other(cs) => Some(Other(StripList(cs)))
  }

  /** The traversal of a list of nodes: removed statements drop out of the list. */
  function StripList(ns: seq<Node>): seq<Node>
    decreases ns
  {
    if ns == [] then []
    else (match Strip(ns[0], OtherParent) case None => [] case Some(x) => [x]) + StripList(ns[1..])
  }

  /** `programPath.traverse(visitor)` on a program body. */
  function RemoveConsoleFrom(program: seq<Node>): seq<Node>
  {
    StripList(program)
  }

  /**
   * No call on `console` and no bound console method is left, and no
   * `console.x` value is left except as the object or property of a larger
   * member expression.
   */
  predicate Clean(n: Node, parent: Parent)
    decreases n
  {
    match n
    case Identifier(_) => true
    case NumericLiteral(_) => true
    case Call(callee, args) =>
      && !(callee.Member? && (IsConsole(callee) || IsConsoleBind(callee)))
      && Clean(callee, OtherParent) && CleanList(args)
    case Member(o, p) => (parent != MemberParent ==> !IsConsole(n)) && Clean(o, MemberParent) && Clean(p, MemberParent)
    case FunctionExpr(_, ps, body) => CleanList(ps) && CleanList(body)
    case Unary(_, a) => Clean(a, OtherParent)
    case ExpressionStatement(e) => Clean(e, StatementParent)
    case Other(cs) => CleanList(cs)
  }

  predicate CleanList(ns: seq<Node>)
    decreases ns
  {
    ns == [] || (Clean(ns[0], OtherParent) && CleanList(ns[1..]))
  }

  /**
   * A call goes away exactly when it is a console call that is the
   * expression of a statement, and a statement whose expression is a call
   * goes away exactly with that call; nothing else goes away.
   */
  lemma StripRemoves(n: Node, parent: Parent)
    ensures n.Call? ==> (Strip(n, parent).None? <==> n.callee.Member? && IsConsole(n.callee) && parent == StatementParent)
    ensures n.ExpressionStatement? && n.expression.Call? ==>
      (Strip(n, parent).None? <==> n.expression.callee.Member? && IsConsole(n.expression.callee))
    ensures !n.Call? && !n.ExpressionStatement? ==> Strip(n, parent).Some?
  {
  }

  /**
   * The traversal keeps the shape the visitors look at: identifiers are
   * unchanged, only a member expression becomes one, and the children of
   * a member expression under a member expression are traversed in place.
   */
  lemma StripShape(n: Node, parent: Parent)
    ensures n.Identifier? ==> Strip(n, parent) == Some(n)
    ensures Slot(Strip(n, parent)).Identifier? ==> n.Identifier?
    ensures Slot(Strip(n, parent)).Member? ==> n.Member?
    ensures n.Member? && parent == MemberParent ==>
      Strip(n, parent) == Some(Member(Slot(Strip(n.obj, MemberParent)), Slot(Strip(n.property, MemberParent))))
  {
  }

  /** Traversing the children of a member expression does not change whether it is `isConsole` or `isConsoleBind`. */
  lemma ConsoleTestsKept(o: Node, p: Node)
    ensures var m := Member(Slot(Strip(o, MemberParent)), Slot(Strip(p, MemberParent)));
      && (IsConsole(m) <==> IsConsole(Member(o, p)))
      && (IsConsoleBind(m) <==> IsConsoleBind(Member(o, p)))
  {
    StripShape(o, MemberParent);
    StripShape(p, MemberParent);
    if o.Member? {
      StripShape(o.obj, MemberParent);
    }
  }

  /** Whatever the traversal leaves is clean. */
  lemma {:induction false} StripIsClean(n: Node, parent: Parent)
    ensures Strip(n, parent).Some? ==> Clean(Strip(n, parent).value, parent)
    decreases n
  {
    match n
    case Identifier(_) =>
    case NumericLiteral(_) =>
    case Call(callee, args) =>
      if CallDecision(callee, parent) == KeepCall {
        StripIsClean(callee, OtherParent);
        StripListIsClean(args);
        StripShape(callee, OtherParent);
        if callee.Member? {
          ConsoleTestsKept(callee.obj, callee.property);
        }
      }
    case Member(o, p) =>
      StripIsClean(o, MemberParent);
      StripIsClean(p, MemberParent);
    case FunctionExpr(_, ps, body) =>
      StripListIsClean(ps);
      StripListIsClean(body);
    case Unary(_, a) =>
      StripIsClean(a, OtherParent);
    case ExpressionStatement(e) =>
      StripIsClean(e, StatementParent);
    case Other(cs) =>
      StripListIsClean(cs);
  }

  lemma {:induction false} StripListIsClean(ns: seq<Node>)
    ensures CleanList(StripList(ns))
    decreases ns
  {
    if ns != [] {
      StripIsClean(ns[0], OtherParent);
      StripListIsClean(ns[1..]);
      var head := match Strip(ns[0], OtherParent) case None => [] case Some(x) => [x];
      CleanListAppend(head, StripList(ns[1..]));
    }
  }

  lemma {:induction false} CleanListAppend(a: seq<Node>, b: seq<Node>)
    requires CleanList(a) && CleanList(b)
    ensures CleanList(a + b)
    decreases |a|
  {
    if a == [] {
      assert a + b == b;
    } else {
      assert (a + b)[0] == a[0] && (a + b)[1..] == a[1..] + b;
      CleanListAppend(a[1..], b);
    }
  }

  /** On clean code the traversal changes nothing: code without console calls is left as it is. */
  lemma {:induction false} CleanIsKept(n: Node, parent: Parent)
    requires Clean(n, parent)
    ensures Strip(n, parent) == Some(n)
    decreases n
  {
    match n
    case Identifier(_) =>
    case NumericLiteral(_) =>
    case Call(callee, args) =>
      CleanIsKept(callee, OtherParent);
      CleanListIsKept(args);
    case Member(o, p) =>
      CleanIsKept(o, MemberParent);
      CleanIsKept(p, MemberParent);
    case FunctionExpr(_, ps, body) =>
      CleanListIsKept(ps);
      CleanListIsKept(body);
    case Unary(_, a) =>
      CleanIsKept(a, OtherParent);
    case ExpressionStatement(e) =>
      CleanIsKept(e, StatementParent);
    case Other(cs) =>
      CleanListIsKept(cs);
  }

  lemma {:induction false} CleanListIsKept(ns: seq<Node>)
    requires CleanList(ns)
    ensures StripList(ns) == ns
    decreases ns
  {
    if ns != [] {
      CleanIsKept(ns[0], OtherParent);
      CleanListIsKept(ns[1..]);
      assert ns == [ns[0]] + ns[1..];
    }
  }

  /** Running the plugin twice gives what running it once gives. */
  /**
   * Babel traverses a node put in place by `path.replaceWith` again; for the
   * two replacements of the plugin that second visit changes nothing.
   */
  lemma ReplacementsUnchanged(callee: Node, parent: Parent)
    ensures Strip(Noop(), parent) == Some(Noop()) && Strip(Void0(), parent) == Some(Void0())
    ensures CallDecision(callee, parent).ReplaceCall? ==>
      var r := CallDecision(callee, parent).replacement;
      Clean(r, parent) && Strip(r, parent) == Some(r)
  {
    CleanIsKept(Noop(), parent);
    CleanIsKept(Void0(), parent);
  }

  lemma RemoveConsoleIdempotent(program: seq<Node>)
    ensures RemoveConsoleFrom(RemoveConsoleFrom(program)) == RemoveConsoleFrom(program)
  {
    StripListIsClean(program);
    CleanListIsKept(StripList(program));
  }

  /** A program with no console calls comes out unchanged; one that comes out is clean. */
  lemma RemoveConsoleSpec(program: seq<Node>)
    ensures CleanList(RemoveConsoleFrom(program))
    ensures CleanList(program) ==> RemoveConsoleFrom(program) == program
  {
    StripListIsClean(program);
    if CleanList(program) {
      CleanListIsKept(program);
    }
  }

  /**
   * `console.log(x);` goes away, `f(console.log(x))` becomes `f(void 0)`,
   * `f(console.log)` becomes `f(function () {})`, and `console.log.bind(console)`
   * becomes `function () {}`.
   */
  lemma RemoveConsoleExamples()
    ensures var log := Member(Identifier("console"), Identifier("log"));
      var x := Identifier("x");
      && RemoveConsoleFrom([ExpressionStatement(Call(log, [x])), ExpressionStatement(x)]) == [ExpressionStatement(x)]
      && Strip(Call(Identifier("f"), [Call(log, [x])]), OtherParent) == Some(Call(Identifier("f"), [Void0()]))
      && Strip(Call(Identifier("f"), [log]), OtherParent) == Some(Call(Identifier("f"), [Noop()]))
      && Strip(Call(Member(log, Identifier("bind")), [Identifier("console")]), OtherParent) == Some(Noop())
  {
    var log := Member(Identifier("console"), Identifier("log"));
    var x := Identifier("x");
    assert StripList([ExpressionStatement(x)]) == [ExpressionStatement(x)];
    assert StripList([Call(log, [x])]) == [Void0()];
    assert StripList([log]) == [Noop()];
  }
}
