/**
 * packages/babel-plugin-transform-merge-sibling-variables/src/index.js:
 * adjacent declarations of one kind are merged, a `var` declaration is
 * folded into the `var` initializer of the `for` loop after it, and a
 * single declarator at the head of a loop body is lifted into the loop's
 * initializer. Statements are values; the statement list a declaration
 * sits in and the `for` loop the visitor is called on are objects whose
 * fields the visitors update.
 */
module MergeSiblings {
  import opened Wrappers

  datatype Kind = Var | Let | Const

  /** The expressions the plugin builds or inspects; every other expression or pattern is `OtherExpr`. */
  datatype Expr = Identifier(name: string) | Assignment(target: Expr, value: Expr) | OtherExpr(code: string)

  /** A `VariableDeclarator`: a pattern and an optional initializer. */
  datatype Declarator = Declarator(id: Expr, init: Option<Expr>)

  /** The `init` of a `for` statement. */
  datatype ForInit = NoInit | InitDeclaration(kind: Kind, declarations: seq<Declarator>) | InitExpression(expr: Expr)

  datatype Stmt =
    | Declaration(kind: Kind, declarations: seq<Declarator>)
    | ForLoop(init: ForInit, body: Stmt)
    | Block(stmts: seq<Stmt>)
    | ExpressionStatement(expr: Expr)
    | OtherStatement(code: string)

  /** `isVariableDeclaration({ kind })` */
  predicate IsDeclarationOf(st: Stmt, kind: Kind)
  {
    st.Declaration? && st.kind == kind
  }

  /** `getSibling(i).isVariableDeclaration({ kind })`: a sibling past the end is no declaration. */
  predicate SiblingIsDeclarationOf(stmts: seq<Stmt>, i: nat, kind: Kind)
  {
    i < |stmts| && IsDeclarationOf(stmts[i], kind)
  }

  /** A declarator together with the kind of the declaration that holds it. */
  datatype Declared = Declared(kind: Kind, declarator: Declarator)

  function Tagged(kind: Kind, ds: seq<Declarator>): (r: seq<Declared>)
    ensures |r| == |ds|
    decreases |ds|
  {
    if ds == [] then [] else [Declared(kind, ds[0])] + Tagged(kind, ds[1..])
  }

  lemma {:induction false} TaggedAppend(kind: Kind, a: seq<Declarator>, b: seq<Declarator>)
    ensures Tagged(kind, a + b) == Tagged(kind, a) + Tagged(kind, b)
    decreases |a|
  {
    if a == [] {
      assert a + b == b;
    } else {
      assert (a + b)[0] == a[0] && (a + b)[1..] == a[1..] + b;
      TaggedAppend(kind, a[1..], b);
    }
  }

  /** The declarators a statement introduces at its own level: a declaration's, or those of a loop's `init`. */
  function DeclaredBy(st: Stmt): seq<Declared>
  {
    match st
    case Declaration(kind, ds) => Tagged(kind, ds)
    case ForLoop(InitDeclaration(kind, ds), _) => Tagged(kind, ds)
    case _ => []
  }

  /** The declarators of a statement list, in order, with their kinds. */
  function DeclaredIn(stmts: seq<Stmt>): seq<Declared>
    decreases |stmts|
  {
    if stmts == [] then [] else DeclaredBy(stmts[0]) + DeclaredIn(stmts[1..])
  }

  lemma {:induction false} DeclaredInAppend(a: seq<Stmt>, b: seq<Stmt>)
    ensures DeclaredIn(a + b) == DeclaredIn(a) + DeclaredIn(b)
    decreases |a|
  {
    if a == [] {
      assert a + b == b;
    } else {
      assert (a + b)[0] == a[0] && (a + b)[1..] == a[1..] + b;
      DeclaredInAppend(a[1..], b);
    }
  }

  /** Replacing two statements by one that declares what both did keeps the declarators in order. */
  lemma DeclaredInReplacePair(pre: seq<Stmt>, x: Stmt, y: Stmt, post: seq<Stmt>, st: Stmt)
    requires DeclaredBy(st) == DeclaredBy(x) + DeclaredBy(y)
    ensures DeclaredIn(pre + ([st] + post)) == DeclaredIn(pre + ([x, y] + post))
  {
    DeclaredInAppend(pre, [x, y] + post);
    DeclaredInAppend(pre, [st] + post);
    DeclaredInPair(x, y, post);
    DeclaredInCons(st, post);
  }

  lemma DeclaredInPair(x: Stmt, y: Stmt, post: seq<Stmt>)
    ensures DeclaredIn([x, y] + post) == (DeclaredBy(x) + DeclaredBy(y)) + DeclaredIn(post)
  {
    assert [x, y] + post == [x] + ([y] + post);
    DeclaredInCons(x, [y] + post);
    DeclaredInCons(y, post);
    AppendAssociates(DeclaredBy(x), DeclaredBy(y), DeclaredIn(post));
  }

  lemma AppendAssociates(a: seq<Declared>, b: seq<Declared>, c: seq<Declared>)
    ensures a + (b + c) == (a + b) + c
  {
  }

  /** The list around the pair at `key`, and the list with `st` in place of the pair. */
  lemma SplitAtPair(stmts: seq<Stmt>, key: nat, st: Stmt)
    requires key + 1 < |stmts|
    ensures stmts == stmts[..key] + ([stmts[key], stmts[key + 1]] + stmts[key + 2..])
    ensures stmts[..key] + [st] + stmts[key + 2..] == stmts[..key] + ([st] + stmts[key + 2..])
  {
  }

  lemma DeclaredInCons(st: Stmt, rest: seq<Stmt>)
    ensures DeclaredIn([st] + rest) == DeclaredBy(st) + DeclaredIn(rest)
  {
    assert ([st] + rest)[0] == st && ([st] + rest)[1..] == rest;
  }

  // ---------------------------------------------------------------------------
  // First enter function: concatenate same-kind siblings
  // ---------------------------------------------------------------------------

  /** One turn of the `while (true)` loop: the next sibling's declarators are appended, and the sibling is removed. */
  function Absorbed(stmts: seq<Stmt>, key: nat): (r: seq<Stmt>)
    requires key + 1 < |stmts| && stmts[key].Declaration? && stmts[key + 1].Declaration?
    ensures |r| == |stmts| - 1
  {
    stmts[..key] + [stmts[key].(declarations := stmts[key].declarations + stmts[key + 1].declarations)] + stmts[key + 2..]
  }

  /** The statement list after the loop has absorbed every same-kind declaration that follows the one at `key`. */
  function Merged(stmts: seq<Stmt>, key: nat): (r: seq<Stmt>)
    requires key < |stmts| && stmts[key].Declaration?
    ensures key < |r| <= |stmts| && r[key].Declaration? && r[key].kind == stmts[key].kind
    decreases |stmts|
  {
    if SiblingIsDeclarationOf(stmts, key + 1, stmts[key].kind) then Merged(Absorbed(stmts, key), key)
    else stmts
  }

  /**
   * After the merge, the statements before `key` are as they were, the
   * declaration at `key` has its kind and at least its own declarators, the
   * next sibling is no declaration of that kind, and any statement list
   * only shrinks.
   */
  lemma {:induction false} MergedShape(stmts: seq<Stmt>, key: nat)
    requires key < |stmts| && stmts[key].Declaration?
    ensures var r := Merged(stmts, key);
      && r[..key] == stmts[..key]
      && |stmts[key].declarations| <= |r[key].declarations|
      && r[key].declarations[..|stmts[key].declarations|] == stmts[key].declarations
      && !SiblingIsDeclarationOf(r, key + 1, stmts[key].kind)
    decreases |stmts|
  {
    if SiblingIsDeclarationOf(stmts, key + 1, stmts[key].kind) {
      var a := Absorbed(stmts, key);
      assert a[..key] == stmts[..key];
      assert a[key].declarations[..|stmts[key].declarations|] == stmts[key].declarations;
      MergedShape(a, key);
      var r := Merged(a, key);
      assert r[key].declarations[..|stmts[key].declarations|] == r[key].declarations[..|a[key].declarations|][..|stmts[key].declarations|];
    }
  }

  /** The merge keeps every declarator, with its kind, in its order: it only regroups them. */
  lemma {:induction false} MergedKeepsDeclared(stmts: seq<Stmt>, key: nat)
    requires key < |stmts| && stmts[key].Declaration?
    ensures DeclaredIn(Merged(stmts, key)) == DeclaredIn(stmts)
    decreases |stmts|
  {
    if SiblingIsDeclarationOf(stmts, key + 1, stmts[key].kind) {
      var st := stmts[key].(declarations := stmts[key].declarations + stmts[key + 1].declarations);
      TaggedAppend(stmts[key].kind, stmts[key].declarations, stmts[key + 1].declarations);
      SplitAtPair(stmts, key, st);
      DeclaredInReplacePair(stmts[..key], stmts[key], stmts[key + 1], stmts[key + 2..], st);
      MergedKeepsDeclared(Absorbed(stmts, key), key);
    }
  }

  /** Merging a second time changes nothing. */
  lemma MergedIdempotent(stmts: seq<Stmt>, key: nat)
    requires key < |stmts| && stmts[key].Declaration?
    ensures Merged(Merged(stmts, key), key) == Merged(stmts, key)
  {
    MergedShape(stmts, key);
  }

  // ---------------------------------------------------------------------------
  // Second enter function: fold a `var` declaration into the next `for` loop
  // ---------------------------------------------------------------------------

  /** The conditions under which the declaration at `key` is folded into the loop after it. */
  predicate FoldsIntoFor(stmts: seq<Stmt>, key: nat)
    requires key < |stmts| && stmts[key].Declaration?
  {
    && stmts[key].kind == Var
    && key + 1 < |stmts| && stmts[key + 1].ForLoop?
    && stmts[key + 1].init.InitDeclaration? && stmts[key + 1].init.kind == stmts[key].kind
  }

  /** The statement list after the second enter function. */
  function FoldedIntoFor(stmts: seq<Stmt>, key: nat): (r: seq<Stmt>)
    requires key < |stmts| && stmts[key].Declaration?
  {
    if FoldsIntoFor(stmts, key) then
      var loop := stmts[key + 1];
      var init := InitDeclaration(Var, stmts[key].declarations + loop.init.declarations);
      stmts[..key] + [loop.(init := init)] + stmts[key + 2..]
    else stmts
  }

  /**
   * The fold happens exactly under its conditions: then the loop's
   * initializer declares the outer declarators first and its own after them,
   * and the outer declaration is gone; `let` and `const` are never moved.
   */
  lemma FoldedIntoForCases(stmts: seq<Stmt>, key: nat)
    requires key < |stmts| && stmts[key].Declaration?
    ensures stmts[key].kind != Var ==> FoldedIntoFor(stmts, key) == stmts
    ensures FoldedIntoFor(stmts, key) != stmts <==> FoldsIntoFor(stmts, key)
    ensures FoldsIntoFor(stmts, key) ==>
      var r := FoldedIntoFor(stmts, key);
      && |r| == |stmts| - 1 && r[..key] == stmts[..key] && r[key + 1..] == stmts[key + 2..]
      && r[key] == stmts[key + 1].(init := InitDeclaration(Var, stmts[key].declarations + stmts[key + 1].init.declarations))
  {
    if FoldsIntoFor(stmts, key) {
      var r := FoldedIntoFor(stmts, key);
      assert |r| < |stmts|;
      assert r[key + 1..] == stmts[key + 2..];
    }
  }

  /** The fold keeps every declarator, with its kind, in its order. */
  lemma FoldedKeepsDeclared(stmts: seq<Stmt>, key: nat)
    requires key < |stmts| && stmts[key].Declaration?
    ensures DeclaredIn(FoldedIntoFor(stmts, key)) == DeclaredIn(stmts)
  {
    if FoldsIntoFor(stmts, key) {
      var loop := stmts[key + 1];
      var st := loop.(init := InitDeclaration(Var, stmts[key].declarations + loop.init.declarations));
      TaggedAppend(Var, stmts[key].declarations, loop.init.declarations);
      SplitAtPair(stmts, key, st);
      DeclaredInReplacePair(stmts[..key], stmts[key], stmts[key + 1], stmts[key + 2..], st);
    }
  }

  /** The statement list a declaration's path sits in, when `path.inList` holds. */
  class StatementList {
    var stmts: seq<Stmt>

    constructor (stmts: seq<Stmt>)
      ensures this.stmts == stmts
    {
      this.stmts := stmts;
    }

    /** The first enter function on the declaration at `key`: the `while (true)` loop over the next sibling. */
    method ConcatSiblings(key: nat)
      requires key < |stmts| && stmts[key].Declaration?
      modifies this
      ensures stmts == Merged(old(stmts), key)
    {
      while SiblingIsDeclarationOf(stmts, key + 1, stmts[key].kind)
        invariant key < |stmts| && stmts[key].Declaration?
        invariant Merged(stmts, key) == Merged(old(stmts), key)
        decreases |stmts|
      {
        ghost var before := stmts;
        var node := stmts[key];
        var sibling := stmts[key + 1];
        stmts := stmts[key := node.(declarations := node.declarations + sibling.declarations)];
        stmts := stmts[..key + 1] + stmts[key + 2..];
        assert stmts == Absorbed(before, key);
      }
    }

    /** The second enter function on the declaration at `key`. */
    method FoldIntoFor(key: nat)
      requires key < |stmts| && stmts[key].Declaration?
      modifies this
      ensures stmts == FoldedIntoFor(old(stmts), key)
    {
      var node := stmts[key];
      if node.kind != Var {
        return;
      }
      if key + 1 >= |stmts| || !stmts[key + 1].ForLoop? {
        return;
      }
      var next := stmts[key + 1];
      if !(next.init.InitDeclaration? && next.init.kind == node.kind) {
        return;
      }
      stmts := stmts[key + 1 := next.(init := InitDeclaration(Var, node.declarations + next.init.declarations))];
      stmts := stmts[..key] + stmts[key + 1..];
    }
  }

  /** Where a declaration's path sits: in a statement list at `key`, or elsewhere (`path.inList` is false). */
  datatype Location = InList(list: StatementList, key: nat) | NotInList

  /** Both enter functions of `VariableDeclaration`, in order, on the declaration at `at`; outside a list they do nothing. */
  method EnterDeclaration(at: Location)
    requires at.InList? ==> at.key < |at.list.stmts| && at.list.stmts[at.key].Declaration?
    modifies if at.InList? then {at.list} else {}
    ensures at.InList? ==> at.list.stmts == FoldedIntoFor(Merged(old(at.list.stmts), at.key), at.key)
  {
    if at.NotInList? {
      return;
    }
    at.list.ConcatSiblings(at.key);
    at.list.FoldIntoFor(at.key);
  }

  /** Every declarator survives both enter functions, with its kind, in its order. */
  lemma EnterKeepsDeclared(stmts: seq<Stmt>, key: nat)
    requires key < |stmts| && stmts[key].Declaration?
    ensures DeclaredIn(FoldedIntoFor(Merged(stmts, key), key)) == DeclaredIn(stmts)
  {
    MergedKeepsDeclared(stmts, key);
    FoldedKeepsDeclared(Merged(stmts, key), key);
  }

  /** `var a = 1; var b; for (var i = 0; ...) ...` becomes `for (var a = 1, b, i = 0; ...) ...`. */
  lemma EnterExample()
    ensures var one, zero := OtherExpr("1"), OtherExpr("0");
      var a, b, i := Declarator(Identifier("a"), Some(one)), Declarator(Identifier("b"), None), Declarator(Identifier("i"), Some(zero));
      var loop := ForLoop(InitDeclaration(Var, [i]), Block([]));
      FoldedIntoFor(Merged([Declaration(Var, [a]), Declaration(Var, [b]), loop], 0), 0)
        == [ForLoop(InitDeclaration(Var, [a, b, i]), Block([]))]
  {
    var one, zero := OtherExpr("1"), OtherExpr("0");
    var a, b, i := Declarator(Identifier("a"), Some(one)), Declarator(Identifier("b"), None), Declarator(Identifier("i"), Some(zero));
    var loop := ForLoop(InitDeclaration(Var, [i]), Block([]));
    var stmts := [Declaration(Var, [a]), Declaration(Var, [b]), loop];
    assert stmts[..0] == [] && stmts[2..] == [loop] && [a] + [b] == [a, b];
    var merged := [Declaration(Var, [a, b]), loop];
    assert Absorbed(stmts, 0) == merged;
    assert Merged(stmts, 0) == merged;
    assert merged[..0] == [] && merged[2..] == [] && [a, b] + [i] == [a, b, i];
  }

  // ---------------------------------------------------------------------------
  // The ForStatement visitor: lift a declaration into the loop initializer
  // ---------------------------------------------------------------------------

  /** `body.isBlockStatement() ? body.get("body") : [ body ]` */
  function BodyList(body: Stmt): seq<Stmt>
  {
    if body.Block? then body.stmts else [body]
  }

  /** The loop body with its first statement (in the sense of BodyList) replaced. */
  function WithFirst(body: Stmt, st: Stmt): (r: Stmt)
    requires |BodyList(body)| > 0 && !st.Block?
    ensures BodyList(r) == [st] + BodyList(body)[1..]
  {
    if body.Block? then Block([st] + body.stmts[1..]) else st
  }

  /**
   * The conditions of `liftDeclaration` for `kind`: the first body statement
   * declares one identifier with an initializer, the second is no such
   * declaration, and the loop declares its `init` with the same kind.
   */
  predicate Lifts(init: ForInit, body: Stmt, kind: Kind)
  {
    var list := BodyList(body);
    && |list| > 0 && IsDeclarationOf(list[0], kind) && |list[0].declarations| == 1
    && !SiblingIsDeclarationOf(list, 1, kind)
    && list[0].declarations[0].id.Identifier? && list[0].declarations[0].init.Some?
    && init.InitDeclaration? && init.kind == kind
  }

  /** The loop's `init` and `body` after `liftDeclaration(path, body, kind)`. */
  function Lifted(init: ForInit, body: Stmt, kind: Kind): (ForInit, Stmt)
  {
    if Lifts(init, body, kind) then
      var first := BodyList(body)[0].declarations[0];
      (InitDeclaration(kind, init.declarations + [Declarator(first.id, None)]),
       WithFirst(body, ExpressionStatement(Assignment(first.id, first.init.value))))
    else (init, body)
  }

  /** The declarators of a loop's `init`, with their kind. */
  function InitDeclared(init: ForInit): seq<Declared>
  {
    if init.InitDeclaration? then Tagged(init.kind, init.declarations) else []
  }

  /**
   * `liftDeclaration` changes the loop exactly under its conditions, and
   * then moves the one declarator: the initializer declares it (without a
   * value), the first body statement becomes the assignment of its value,
   * and the rest of the body is untouched.
   */
  lemma LiftedCases(init: ForInit, body: Stmt, kind: Kind)
    ensures Lifted(init, body, kind) != (init, body) <==> Lifts(init, body, kind)
    ensures Lifts(init, body, kind) ==>
      var first := BodyList(body)[0].declarations[0];
      var (init', body') := Lifted(init, body, kind);
      && init'.InitDeclaration? && init'.kind == kind
      && init'.declarations == init.declarations + [Declarator(first.id, None)]
      && BodyList(body') == [ExpressionStatement(Assignment(first.id, first.init.value))] + BodyList(body)[1..]
  {
    if Lifts(init, body, kind) {
      var body' := Lifted(init, body, kind).1;
      assert BodyList(body')[0] != BodyList(body)[0];
    }
  }

  /**
   * A lift moves one declarator: it leaves the head of the body's
   * declarators and joins the end of the initializer's, without its value,
   * which stays behind as an assignment.
   */
  lemma LiftedMovesDeclarator(init: ForInit, body: Stmt, kind: Kind)
    requires Lifts(init, body, kind)
    ensures var first := BodyList(body)[0].declarations[0];
      var (init', body') := Lifted(init, body, kind);
      && InitDeclared(init') == InitDeclared(init) + [Declared(kind, Declarator(first.id, None))]
      && DeclaredIn(BodyList(body)) == [Declared(kind, first)] + DeclaredIn(BodyList(body'))
  {
    var first := BodyList(body)[0].declarations[0];
    LiftedCases(init, body, kind);
    TaggedAppend(kind, init.declarations, [Declarator(first.id, None)]);
    var list := BodyList(body);
    assert list[0].declarations == [first];
    DeclaredInReplaceHead(list, ExpressionStatement(Assignment(first.id, first.init.value)));
  }

  /** Replacing the head of a list by a statement that declares nothing drops the head's declarators. */
  lemma DeclaredInReplaceHead(list: seq<Stmt>, st: Stmt)
    requires list != [] && DeclaredBy(st) == []
    ensures DeclaredIn(list) == DeclaredBy(list[0]) + DeclaredIn([st] + list[1..])
  {
    assert list == [list[0]] + list[1..];
    DeclaredInCons(list[0], list[1..]);
    DeclaredInCons(st, list[1..]);
  }

  /** Lifting twice with one kind lifts once: the first body statement is then an assignment. */
  lemma LiftedIdempotent(init: ForInit, body: Stmt, kind: Kind)
    ensures var (init', body') := Lifted(init, body, kind); Lifted(init', body', kind) == (init', body')
  {
    if Lifts(init, body, kind) {
      var (init', body') := Lifted(init, body, kind);
      assert !BodyList(body')[0].Declaration?;
    }
  }

  /** The visitor runs `liftDeclaration` with `var`, then with `let`: it lifts at most one declaration. */
  function Visited(init: ForInit, body: Stmt): (ForInit, Stmt)
  {
    var (init', body') := Lifted(init, body, Var);
    Lifted(init', body', Let)
  }

  lemma VisitedLiftsOnce(init: ForInit, body: Stmt)
    ensures Lifts(init, body, Var) ==> Visited(init, body) == Lifted(init, body, Var)
    ensures !Lifts(init, body, Var) ==> Visited(init, body) == Lifted(init, body, Let)
  {
    if Lifts(init, body, Var) {
      var (init', body') := Lifted(init, body, Var);
      assert !Lifts(init', body', Let) by {
        assert !BodyList(body')[0].Declaration?;
      }
    }
  }

  /** The `for` statement node the `ForStatement` visitor is called on. */
  class ForStatement {
    var init: ForInit
    var body: Stmt

    constructor (init: ForInit, body: Stmt)
      ensures this.init == init && this.body == body
    {
      this.init := init;
      this.body := body;
    }

    /** `liftDeclaration(path, body, kind)` */
    method LiftDeclaration(kind: Kind)
      modifies this
      ensures (init, body) == Lifted(old(init), old(body), kind)
    {
      var list := BodyList(body);
      if |list| > 0 && IsDeclarationOf(list[0], kind) {
        if |list[0].declarations| > 1 {
          return;
        }
        if SiblingIsDeclarationOf(list, 1, kind) {
          return;
        }
        if |list[0].declarations| == 0 {
          return;
        }
        var firstNode := list[0].declarations[0];
        if !firstNode.id.Identifier? || firstNode.init.None? {
          return;
        }
        if !(init.InitDeclaration? && init.kind == kind) {
          return;
        }
        init := InitDeclaration(kind, init.declarations + [Declarator(firstNode.id, None)]);
        body := WithFirst(body, ExpressionStatement(Assignment(firstNode.id, firstNode.init.value)));
      }
    }

    /** The `ForStatement` visitor. */
    method Visit()
      modifies this
      ensures (init, body) == Visited(old(init), old(body))
    {
      LiftDeclaration(Var);
      LiftDeclaration(Let);
    }
  }
}
