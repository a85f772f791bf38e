/**
 * The part of Babel's scope graph that the name mangler reads and writes, as
 * index-based tables: scopes with parent ids, binding tables from names to
 * binding ids, binding records, and the names of the identifier nodes of the
 * tree. `rename` (packages/babel-plugin-minify-mangle-names/src/index.js,
 * lines 180-228) is specified here as the function `Renamed` on these tables.
 */
module ScopeGraph {
  import opened Wrappers

  type ScopeId = nat
  type BindingId = nat
  type NodeId = nat

  /** The root of the scope tree: the program scope. */
  const PROGRAM: ScopeId := 0

  // ---------------------------------------------------------------------------
  // Binding tables: JavaScript objects keyed by name, keys in insertion order
  // ---------------------------------------------------------------------------

  /** `s` without the element `k`. */
  function Without(s: seq<string>, k: string): (r: seq<string>)
    ensures forall x :: x in r <==> x in s && x != k
    ensures |r| <= |s|
    decreases |s|
  {
    if s == [] then []
    else if s[0] == k then Without(s[1..], k)
    else [s[0]] + Without(s[1..], k)
  }

  /** No name occurs twice in `s`. */
  predicate DistinctNames(s: seq<string>)
    decreases |s|
  {
    s == [] || (s[0] !in s[1..] && DistinctNames(s[1..]))
  }

  lemma {:induction false} DistinctNamesAt(s: seq<string>, i: nat, j: nat)
    requires DistinctNames(s) && i < j < |s|
    ensures s[i] != s[j]
    decreases |s|
  {
    if i > 0 {
      DistinctNamesAt(s[1..], i - 1, j - 1);
    } else {
      assert s[j] == s[1..][j - 1];
    }
  }

  lemma {:induction false} DistinctNamesSnoc(s: seq<string>, k: string)
    ensures DistinctNames(s) && k !in s ==> DistinctNames(s + [k])
    decreases |s|
  {
    if s != [] && DistinctNames(s) && k !in s {
      assert (s + [k])[1..] == s[1..] + [k];
      DistinctNamesSnoc(s[1..], k);
    }
  }

  lemma {:induction false} WithoutDistinct(s: seq<string>, k: string)
    ensures DistinctNames(s) ==> DistinctNames(Without(s, k))
    decreases |s|
  {
    if s != [] && DistinctNames(s) {
      WithoutDistinct(s[1..], k);
      var w := Without(s[1..], k);
      if s[0] != k {
        var r := [s[0]] + w;
        assert r[1..] == w;
      }
    }
  }

  /**
   * A binding table: `entries` maps each name to its binding; `keys` lists the
   * names in the order `Object.keys` enumerates them (insertion order).
   */
  datatype Table = Table(keys: seq<string>, entries: map<string, BindingId>) {

    ghost predicate Valid()
    {
      DistinctNames(keys) && forall k :: k in entries <==> k in keys
    }

    /** `hop.call(table, k)` / `hasOwnBinding(k)` */
    predicate Has(k: string)
    {
      k in entries
    }

    function Get(k: string): Option<BindingId>
    {
      if k in entries then Some(entries[k]) else None
    }

    /** `table[k] = v`: a new key is enumerated last, an existing key keeps its place. */
    function Put(k: string, v: BindingId): (r: Table)
      ensures Valid() ==> r.Valid()
      ensures forall j :: r.Get(j) == if j == k then Some(v) else Get(j)
      ensures forall n: nat :: ValuesBelow(n) && v < n ==> r.ValuesBelow(n)
    {
      if k in entries then Table(keys, entries[k := v])
      else
        assert Valid() ==> k !in keys;
        DistinctNamesSnoc(keys, k);
        Table(keys + [k], entries[k := v])
    }

    /** `delete table[k]` */
    function Delete(k: string): (r: Table)
      ensures Valid() ==> r.Valid()
      ensures forall j :: r.Get(j) == if j == k then None else Get(j)
      ensures forall n: nat :: ValuesBelow(n) ==> r.ValuesBelow(n)
    {
      WithoutDistinct(keys, k);
      Table(Without(keys, k), entries - {k})
    }

    /** Every binding id in the table is below `n`. */
    predicate ValuesBelow(n: nat)
    {
      forall k :: k in entries ==> entries[k] < n
    }
  }

  const EMPTY: Table := Table([], map[])

  /**
   * lodash `defaults(ids, src)` restricted to the keys `ks` of `src`, in order:
   * each key that `ids` does not have yet is added with its value in `src`.
   */
  function AddMissing(ids: Table, src: Table, ks: seq<string>): (r: Table)
    ensures ids.Valid() ==> r.Valid()
    ensures forall j :: r.Get(j) == if ids.Has(j) || j !in ks then ids.Get(j) else src.Get(j)
    decreases |ks|
  {
    if ks == [] then ids
    else
      var k := ks[0];
      var next := if ids.Has(k) || k !in src.entries then ids else ids.Put(k, src.entries[k]);
      var r := AddMissing(next, src, ks[1..]);
      assert forall j :: j in ks <==> j == k || j in ks[1..];
      r
  }

  /** lodash `defaults(ids, src)`: the keys of `ids` win, the other keys of `src` are appended. */
  function Defaults(ids: Table, src: Table): (r: Table)
    requires src.Valid()
    ensures ids.Valid() ==> r.Valid()
    ensures forall j :: r.Get(j) == if ids.Has(j) then ids.Get(j) else src.Get(j)
  {
    AddMissing(ids, src, src.keys)
  }

  // ---------------------------------------------------------------------------
  // Scopes
  // ---------------------------------------------------------------------------

  /**
   * One scope: its parent, its own binding table, whether it is marked as
   * containing a direct `eval` call, and the names for which the host's
   * `hasGlobal` and `hasReference` answer true.
   */
  datatype Scope = Scope(
    parent: Option<ScopeId>,
    bindings: Table,
    hasEval: bool,
    globals: set<string>,
    references: set<string>)

  /**
   * The scopes form a tree rooted at the program scope: only the program scope
   * has no parent, and every parent is numbered before its children.
   */
  predicate ScopeTree(scopes: seq<Scope>)
  {
    && |scopes| > 0
    && scopes[PROGRAM].parent == None
    && forall t :: 0 < t < |scopes| ==> scopes[t].parent.Some? && scopes[t].parent.value < t
  }

  /** `scope.getBinding(name)`: the innermost binding of `name` visible from scope `s`. */
  function Lookup(scopes: seq<Scope>, s: ScopeId, name: string): Option<BindingId>
    requires ScopeTree(scopes) && s < |scopes|
    decreases s
  {
    if scopes[s].bindings.Has(name) then scopes[s].bindings.Get(name)
    else match scopes[s].parent
      case None => None
      case Some(q) => Lookup(scopes, q, name)
  }

  /** The do-while loop of `getAllBindings`: fold `defaults` over `s` and its ancestors. */
  function Collect(ids: Table, scopes: seq<Scope>, s: ScopeId): Table
    requires ScopeTree(scopes) && s < |scopes|
    requires forall t :: 0 <= t < |scopes| ==> scopes[t].bindings.Valid()
    decreases s
  {
    var next := Defaults(ids, scopes[s].bindings);
    match scopes[s].parent
    case None => next
    case Some(q) => Collect(next, scopes, q)
  }

  /** `scope.getAllBindings()`: every binding visible from `s`, innermost first. */
  function AllBindings(scopes: seq<Scope>, s: ScopeId): Table
    requires ScopeTree(scopes) && s < |scopes|
    requires forall t :: 0 <= t < |scopes| ==> scopes[t].bindings.Valid()
  {
    Collect(EMPTY, scopes, s)
  }

  /** The names already collected win; the others resolve as `getBinding` does. */
  lemma {:induction false} CollectLookup(ids: Table, scopes: seq<Scope>, s: ScopeId)
    requires ScopeTree(scopes) && s < |scopes|
    requires forall t :: 0 <= t < |scopes| ==> scopes[t].bindings.Valid()
    ensures ids.Valid() ==> Collect(ids, scopes, s).Valid()
    ensures forall j :: Collect(ids, scopes, s).Get(j) == if ids.Has(j) then ids.Get(j) else Lookup(scopes, s, j)
    decreases s
  {
    match scopes[s].parent
    case None =>
    case Some(q) =>
      var next := Defaults(ids, scopes[s].bindings);
      CollectLookup(next, scopes, q);
  }

  /** The snapshot of `getAllBindings()` binds each name exactly as `getBinding` resolves it. */
  lemma AllBindingsLookup(scopes: seq<Scope>, s: ScopeId)
    requires ScopeTree(scopes) && s < |scopes|
    requires forall t :: 0 <= t < |scopes| ==> scopes[t].bindings.Valid()
    ensures AllBindings(scopes, s).Valid()
    ensures forall j :: AllBindings(scopes, s).Get(j) == Lookup(scopes, s, j)
  {
    CollectLookup(EMPTY, scopes, s);
  }

  /** Every binding of the snapshot is one of the tables' values. */
  lemma AllBindingsBelow(scopes: seq<Scope>, s: ScopeId, n: nat)
    requires ScopeTree(scopes) && s < |scopes|
    requires forall t :: 0 <= t < |scopes| ==> scopes[t].bindings.Valid()
    requires forall t :: 0 <= t < |scopes| ==> scopes[t].bindings.ValuesBelow(n)
    ensures AllBindings(scopes, s).ValuesBelow(n)
  {
    AllBindingsLookup(scopes, s);
    forall k | k in AllBindings(scopes, s).entries ensures AllBindings(scopes, s).entries[k] < n {
      LookupBelow(scopes, s, k, n);
    }
  }

  /** A binding found by lookup is one of the tables' values. */
  lemma {:induction false} LookupBelow(scopes: seq<Scope>, s: ScopeId, name: string, n: nat)
    requires ScopeTree(scopes) && s < |scopes|
    requires forall t :: 0 <= t < |scopes| ==> scopes[t].bindings.ValuesBelow(n)
    ensures Lookup(scopes, s, name).Some? ==> Lookup(scopes, s, name).value < n
    decreases s
  {
    if !scopes[s].bindings.Has(name) && scopes[s].parent.Some? {
      LookupBelow(scopes, scopes[s].parent.value, name, n);
    }
  }

  /** Lookup of a name depends only on the parents and on each table's entry for that name. */
  lemma {:induction false} LookupAgree(a: seq<Scope>, b: seq<Scope>, s: ScopeId, name: string)
    requires ScopeTree(a) && |b| == |a| && s < |a|
    requires forall t :: 0 <= t < |a| ==> b[t].parent == a[t].parent
    requires forall t :: 0 <= t < |a| ==> b[t].bindings.Get(name) == a[t].bindings.Get(name)
    ensures ScopeTree(b) && Lookup(b, s, name) == Lookup(a, s, name)
    decreases s
  {
    assert b[s].bindings.Has(name) == a[s].bindings.Has(name) by {
      assert a[s].bindings.Get(name).Some? == a[s].bindings.Has(name);
    }
    if !a[s].bindings.Has(name) && a[s].parent.Some? {
      LookupAgree(a, b, a[s].parent.value, name);
    }
  }

  /** `s` and all its ancestors up to the program scope. */
  function Ancestors(scopes: seq<Scope>, s: ScopeId): set<ScopeId>
    requires ScopeTree(scopes) && s < |scopes|
    decreases s
  {
    match scopes[s].parent
    case None => {s}
    case Some(q) => {s} + Ancestors(scopes, q)
  }

  /**
   * The ancestors of `s` are valid scope ids no greater than `s`, include `s`
   * and the program scope, and are closed under taking the parent.
   */
  lemma {:induction false} AncestorsClosed(scopes: seq<Scope>, s: ScopeId)
    requires ScopeTree(scopes) && s < |scopes|
    ensures s in Ancestors(scopes, s) && PROGRAM in Ancestors(scopes, s)
    ensures forall t :: t in Ancestors(scopes, s) ==> t <= s
    ensures forall t :: t in Ancestors(scopes, s) && scopes[t].parent.Some? ==>
      scopes[t].parent.value in Ancestors(scopes, s)
    decreases s
  {
    match scopes[s].parent
    case None =>
    case Some(q) =>
      AncestorsClosed(scopes, q);
  }

  // ---------------------------------------------------------------------------
  // Bindings and the identifier nodes they own
  // ---------------------------------------------------------------------------

  /** The node type of `binding.path`, as far as the mangler inspects it. */
  datatype DeclarationKind =
    | FunctionDeclaration
    | FunctionExpression
    | ClassDeclaration
    | ClassExpression
    | LabeledStatement
    | OtherDeclaration

  /** `isFunction(path)`, for `keepFnName` */
  predicate IsFunction(k: DeclarationKind)
  {
    k == FunctionExpression || k == FunctionDeclaration
  }

  /** `isClass(path)`, for `keepClassName` */
  predicate IsClass(k: DeclarationKind)
  {
    k == ClassExpression || k == ClassDeclaration
  }

  /** A constant violation (reassignment or redeclaration) of a binding. */
  datatype Violation =
    | LabeledViolation
      /** the identifier nodes `getBindingIdentifiers()` returns for the violation */
    | ViolationPath(bindingIdentifiers: seq<NodeId>)

  /** The node type of an identifier's parent. */
  datatype ParentKind = LabeledStatementParent | BreakStatementParent | ContinueStatementParent | OtherParent

  /** An identifier's parent, and whether the identifier is that parent's `label` child. */
  datatype IdentifierParent = IdentifierParent(kind: ParentKind, isLabelChild: bool)

  /** `isLabelIdentifier(path)`: the identifier is the label of a labeled, break or continue statement. */
  predicate IsLabelIdentifier(p: IdentifierParent)
  {
    (p.kind == LabeledStatementParent || p.kind == BreakStatementParent || p.kind == ContinueStatementParent)
    && p.isLabelChild
  }

  /** A `ReferencedIdentifier` found inside a reference path, with the scope it belongs to. */
  datatype NestedIdentifier = NestedIdentifier(node: NodeId, scope: ScopeId)

  /** One of `binding.referencePaths`. */
  datatype Reference =
      /** the path is an identifier */
    | IdentifierReference(node: NodeId, parent: IdentifierParent)
      /** the path is not an identifier: the referenced identifiers inside it, in traversal order */
    | WrappedReference(nested: seq<NestedIdentifier>)

  /** A binding record. */
  datatype Binding = Binding(
    identifier: NodeId,
    kind: DeclarationKind,
    constantViolations: seq<Violation>,
    referencePaths: seq<Reference>,
    renamed: bool)

  /** The tree as the mangler sees it: scopes, binding records and identifier names. */
  datatype Program = Program(scopes: seq<Scope>, bindings: seq<Binding>, identifiers: seq<string>)

  predicate ViolationNodesBelow(vs: seq<Violation>, n: nat)
  {
    forall k, m :: 0 <= k < |vs| && vs[k].ViolationPath? && 0 <= m < |vs[k].bindingIdentifiers| ==>
      vs[k].bindingIdentifiers[m] < n
  }

  predicate NestedNodesBelow(nested: seq<NestedIdentifier>, n: nat)
  {
    forall m :: 0 <= m < |nested| ==> nested[m].node < n
  }

  predicate ReferenceNodesBelow(refs: seq<Reference>, n: nat)
  {
    forall k :: 0 <= k < |refs| ==>
      match refs[k]
      case IdentifierReference(node, _) => node < n
      case WrappedReference(nested) => NestedNodesBelow(nested, n)
  }

  predicate BindingNodesBelow(b: Binding, n: nat)
  {
    b.identifier < n && ViolationNodesBelow(b.constantViolations, n) && ReferenceNodesBelow(b.referencePaths, n)
  }

  /**
   * `q` differs from `p` at most in the scopes' binding tables, the bindings'
   * `renamed` flags and the identifiers' names.
   */
  ghost predicate SameShape(p: Program, q: Program)
  {
    && |q.scopes| == |p.scopes| && |q.bindings| == |p.bindings| && |q.identifiers| == |p.identifiers|
    && (forall t :: 0 <= t < |p.scopes| ==> q.scopes[t] == p.scopes[t].(bindings := q.scopes[t].bindings))
    && (forall b :: 0 <= b < |p.bindings| ==> q.bindings[b] == p.bindings[b].(renamed := q.bindings[b].renamed))
  }

  lemma SameShapeTrans(p: Program, q: Program, r: Program)
    requires SameShape(p, q) && SameShape(q, r)
    ensures SameShape(p, r)
  {
  }

  /** Every scope's table has the same entry for `n` in `p` and in `q`. */
  ghost predicate TablesAgree(p: Program, q: Program, n: string)
  {
    |q.scopes| == |p.scopes| && forall t :: 0 <= t < |p.scopes| ==> q.scopes[t].bindings.Get(n) == p.scopes[t].bindings.Get(n)
  }

  lemma TablesAgreeTrans(p: Program, q: Program, r: Program, n: string)
    requires TablesAgree(p, q, n) && TablesAgree(q, r, n)
    ensures TablesAgree(p, r, n)
  {
  }

  /** Every id the program holds names an existing scope, binding or identifier node. */
  ghost predicate WellFormed(p: Program)
  {
    && ScopeTree(p.scopes)
    && (forall t :: 0 <= t < |p.scopes| ==> p.scopes[t].bindings.Valid())
    && (forall t :: 0 <= t < |p.scopes| ==> p.scopes[t].bindings.ValuesBelow(|p.bindings|))
    && (forall b :: 0 <= b < |p.bindings| ==> BindingNodesBelow(p.bindings[b], |p.identifiers|))
  }

  // ---------------------------------------------------------------------------
  // rename: the steps that rewrite identifier names
  // ---------------------------------------------------------------------------

  /** `bindings[b].name = name` for each node of `nodes`, in order. */
  function SetNames(ids: seq<string>, nodes: seq<NodeId>, name: string): (r: seq<string>)
    requires forall m :: 0 <= m < |nodes| ==> nodes[m] < |ids|
    ensures |r| == |ids|
    decreases |nodes|
  {
    if nodes == [] then ids
    else SetNames(ids, nodes[..|nodes| - 1], name)[nodes[|nodes| - 1] := name]
  }

  /** The loop over `binding.constantViolations`: labeled statements are skipped. */
  function RenameViolations(ids: seq<string>, vs: seq<Violation>, name: string): (r: seq<string>)
    requires ViolationNodesBelow(vs, |ids|)
    ensures |r| == |ids|
    decreases |vs|
  {
    if vs == [] then ids
    else
      var prev := RenameViolations(ids, vs[..|vs| - 1], name);
      match vs[|vs| - 1]
      case LabeledViolation => prev
      case ViolationPath(nodes) => SetNames(prev, nodes, name)
  }

  /**
   * The `ReferencedIdentifier` visitor over a non-identifier reference: a nested
   * identifier is renamed when its current name is `oldName` and it belongs to
   * `scope`.
   */
  function RenameNested(ids: seq<string>, nested: seq<NestedIdentifier>, oldName: string, newName: string,
                        scope: ScopeId): (r: seq<string>)
    requires NestedNodesBelow(nested, |ids|)
    ensures |r| == |ids|
    decreases |nested|
  {
    if nested == [] then ids
    else
      var prev := RenameNested(ids, nested[..|nested| - 1], oldName, newName, scope);
      var last := nested[|nested| - 1];
      if prev[last.node] == oldName && last.scope == scope then prev[last.node := newName] else prev
  }

  /** The loop over `binding.referencePaths`. */
  function RenameReferences(ids: seq<string>, refs: seq<Reference>, oldName: string, newName: string,
                            scope: ScopeId): (r: seq<string>)
    requires ReferenceNodesBelow(refs, |ids|)
    ensures |r| == |ids|
    decreases |refs|
  {
    if refs == [] then ids
    else
      var prev := RenameReferences(ids, refs[..|refs| - 1], oldName, newName, scope);
      match refs[|refs| - 1]
      case IdentifierReference(node, parent) => if IsLabelIdentifier(parent) then prev else prev[node := newName]
      case WrappedReference(nested) => RenameNested(prev, nested, oldName, newName, scope)
  }

  /** The binding `rename(s, oldName, newName)` acts on: `scope.getBinding(oldName)`. */
  function RenameTarget(p: Program, s: ScopeId, oldName: string): (b: BindingId)
    requires WellFormed(p) && s < |p.scopes| && Lookup(p.scopes, s, oldName).Some?
    ensures b < |p.bindings|
  {
    LookupBelow(p.scopes, s, oldName, |p.bindings|);
    Lookup(p.scopes, s, oldName).value
  }

  /**
   * `rename(scope, oldName, newName)`: the binding that `oldName` resolves to
   * from `s` gets the new name at its declaration, in scope `s`'s table, at its
   * constant violations and at its references.
   */
  function Renamed(p: Program, s: ScopeId, oldName: string, newName: string): (r: Program)
    requires WellFormed(p) && s < |p.scopes| && Lookup(p.scopes, s, oldName).Some?
    ensures WellFormed(r) && SameShape(p, r) && r.bindings == p.bindings
    ensures forall t :: 0 <= t < |p.scopes| && t != s ==> r.scopes[t] == p.scopes[t]
    ensures r.scopes[s].bindings == p.scopes[s].bindings.Put(newName, RenameTarget(p, s, oldName)).Delete(oldName)
  {
    var b := RenameTarget(p, s, oldName);
    var binding := p.bindings[b];
    var table := p.scopes[s].bindings.Put(newName, b).Delete(oldName);
    var ids := p.identifiers[binding.identifier := newName];
    var ids' := RenameViolations(ids, binding.constantViolations, newName);
    var ids'' := RenameReferences(ids', binding.referencePaths, oldName, newName, s);
    Program(p.scopes[s := p.scopes[s].(bindings := table)], p.bindings, ids'')
  }

  // ---------------------------------------------------------------------------
  // What rename changes
  // ---------------------------------------------------------------------------

  /** Every node some non-labeled constant violation binds. */
  function ViolationTargets(vs: seq<Violation>): set<NodeId>
  {
    set k, m | 0 <= k < |vs| && vs[k].ViolationPath? && 0 <= m < |vs[k].bindingIdentifiers| ::
      vs[k].bindingIdentifiers[m]
  }

  /** The nested identifiers that carry `oldName` and belong to `scope`. */
  function NestedTargets(ids: seq<string>, nested: seq<NestedIdentifier>, oldName: string, scope: ScopeId): set<NodeId>
    requires NestedNodesBelow(nested, |ids|)
  {
    set m | 0 <= m < |nested| && nested[m].scope == scope && ids[nested[m].node] == oldName :: nested[m].node
  }

  /** Identifier references that are not labels, and matching nested identifiers of the others. */
  function ReferenceTargets(ids: seq<string>, refs: seq<Reference>, oldName: string, scope: ScopeId): set<NodeId>
    requires ReferenceNodesBelow(refs, |ids|)
  {
    (set k | 0 <= k < |refs| && refs[k].IdentifierReference? && !IsLabelIdentifier(refs[k].parent) :: refs[k].node)
    + (set k, x | 0 <= k < |refs| && refs[k].WrappedReference? && x in NestedTargets(ids, refs[k].nested, oldName, scope) :: x)
  }

  lemma {:induction false} SetNamesAt(ids: seq<string>, nodes: seq<NodeId>, name: string, x: NodeId)
    requires forall m :: 0 <= m < |nodes| ==> nodes[m] < |ids|
    requires x < |ids|
    ensures SetNames(ids, nodes, name)[x] == if x in nodes then name else ids[x]
    decreases |nodes|
  {
    if nodes != [] {
      var init := nodes[..|nodes| - 1];
      SetNamesAt(ids, init, name, x);
      assert nodes == init + [nodes[|nodes| - 1]];
    }
  }

  lemma {:induction false} RenameViolationsAt(ids: seq<string>, vs: seq<Violation>, name: string, x: NodeId)
    requires ViolationNodesBelow(vs, |ids|) && x < |ids|
    ensures RenameViolations(ids, vs, name)[x] == if x in ViolationTargets(vs) then name else ids[x]
    decreases |vs|
  {
    if vs != [] {
      var init := vs[..|vs| - 1];
      var last := vs[|vs| - 1];
      RenameViolationsAt(ids, init, name, x);
      var prev := RenameViolations(ids, init, name);
      match last
      case LabeledViolation =>
        assert ViolationTargets(vs) == ViolationTargets(init) by {
          forall y | y in ViolationTargets(vs) ensures y in ViolationTargets(init) {
            var k, m :| 0 <= k < |vs| && vs[k].ViolationPath? && 0 <= m < |vs[k].bindingIdentifiers|
              && y == vs[k].bindingIdentifiers[m];
            assert k < |init| && init[k] == vs[k];
          }
          forall y | y in ViolationTargets(init) ensures y in ViolationTargets(vs) {
            var k, m :| 0 <= k < |init| && init[k].ViolationPath? && 0 <= m < |init[k].bindingIdentifiers|
              && y == init[k].bindingIdentifiers[m];
            assert vs[k] == init[k];
          }
        }
      case ViolationPath(nodes) =>
        SetNamesAt(prev, nodes, name, x);
        assert ViolationTargets(vs) == ViolationTargets(init) + set m | 0 <= m < |nodes| :: nodes[m] by {
          forall y | y in ViolationTargets(vs) ensures y in ViolationTargets(init) || y in nodes {
            var k, m :| 0 <= k < |vs| && vs[k].ViolationPath? && 0 <= m < |vs[k].bindingIdentifiers|
              && y == vs[k].bindingIdentifiers[m];
            if k < |init| {
              assert init[k] == vs[k];
            }
          }
          forall y | y in ViolationTargets(init) ensures y in ViolationTargets(vs) {
            var k, m :| 0 <= k < |init| && init[k].ViolationPath? && 0 <= m < |init[k].bindingIdentifiers|
              && y == init[k].bindingIdentifiers[m];
            assert vs[k] == init[k];
          }
          forall m | 0 <= m < |nodes| ensures nodes[m] in ViolationTargets(vs) {
            assert vs[|vs| - 1].bindingIdentifiers[m] == nodes[m];
          }
        }
    }
  }

  lemma {:induction false} RenameNestedAt(ids: seq<string>, nested: seq<NestedIdentifier>, oldName: string,
                                          newName: string, scope: ScopeId, x: NodeId)
    requires NestedNodesBelow(nested, |ids|) && x < |ids| && oldName != newName
    ensures RenameNested(ids, nested, oldName, newName, scope)[x] ==
      if x in NestedTargets(ids, nested, oldName, scope) then newName else ids[x]
    decreases |nested|
  {
    if nested != [] {
      var init := nested[..|nested| - 1];
      var last := nested[|nested| - 1];
      RenameNestedAt(ids, init, oldName, newName, scope, x);
      RenameNestedAt(ids, init, oldName, newName, scope, last.node);
      assert NestedTargets(ids, nested, oldName, scope) ==
        NestedTargets(ids, init, oldName, scope) + (if last.scope == scope && ids[last.node] == oldName then {last.node} else {}) by {
        forall y | y in NestedTargets(ids, nested, oldName, scope)
          ensures y in NestedTargets(ids, init, oldName, scope) || (y == last.node && last.scope == scope && ids[last.node] == oldName)
        {
          var m :| 0 <= m < |nested| && nested[m].scope == scope && ids[nested[m].node] == oldName && y == nested[m].node;
          if m < |init| {
            assert init[m] == nested[m];
          }
        }
        forall y | y in NestedTargets(ids, init, oldName, scope) ensures y in NestedTargets(ids, nested, oldName, scope) {
          var m :| 0 <= m < |init| && init[m].scope == scope && ids[init[m].node] == oldName && y == init[m].node;
          assert nested[m] == init[m];
        }
        if last.scope == scope && ids[last.node] == oldName {
          assert nested[|nested| - 1] == last;
        }
      }
    }
  }

  lemma {:induction false} RenameReferencesAt(ids: seq<string>, refs: seq<Reference>, oldName: string,
                                              newName: string, scope: ScopeId, x: NodeId)
    requires ReferenceNodesBelow(refs, |ids|) && x < |ids| && oldName != newName
    ensures RenameReferences(ids, refs, oldName, newName, scope)[x] ==
      if x in ReferenceTargets(ids, refs, oldName, scope) then newName else ids[x]
    decreases |refs|
  {
    if refs != [] {
      var init := refs[..|refs| - 1];
      var last := refs[|refs| - 1];
      assert ReferenceNodesBelow(init, |ids|) by {
        forall k | 0 <= k < |init| ensures init[k] == refs[k] { }
      }
      RenameReferencesAt(ids, init, oldName, newName, scope, x);
      var prev := RenameReferences(ids, init, oldName, newName, scope);
      ReferenceTargetsSnoc(ids, refs, oldName, scope);
      match last
      case IdentifierReference(node, parent) =>
      case WrappedReference(nested) =>
        RenameNestedAt(prev, nested, oldName, newName, scope, x);
        if x in NestedTargets(prev, nested, oldName, scope) {
          var m :| 0 <= m < |nested| && nested[m].scope == scope && prev[nested[m].node] == oldName && x == nested[m].node;
          assert ids[x] == oldName && x in NestedTargets(ids, nested, oldName, scope);
        } else if x in NestedTargets(ids, nested, oldName, scope) {
          var m :| 0 <= m < |nested| && nested[m].scope == scope && ids[nested[m].node] == oldName && x == nested[m].node;
          assert prev[x] != oldName;
          assert x in ReferenceTargets(ids, init, oldName, scope);
        }
    }
  }

  lemma ReferenceTargetsSnoc(ids: seq<string>, refs: seq<Reference>, oldName: string, scope: ScopeId)
    requires ReferenceNodesBelow(refs, |ids|) && refs != []
    ensures ReferenceNodesBelow(refs[..|refs| - 1], |ids|)
    ensures ReferenceTargets(ids, refs, oldName, scope) ==
      ReferenceTargets(ids, refs[..|refs| - 1], oldName, scope) +
      match refs[|refs| - 1]
      case IdentifierReference(node, parent) => if IsLabelIdentifier(parent) then {} else {node}
      case WrappedReference(nested) => NestedTargets(ids, nested, oldName, scope)
  {
    var init := refs[..|refs| - 1];
    var n := |refs| - 1;
    assert forall k :: 0 <= k < |init| ==> init[k] == refs[k];
    var extra := match refs[n]
      case IdentifierReference(node, parent) => if IsLabelIdentifier(parent) then {} else {node}
      case WrappedReference(nested) => NestedTargets(ids, nested, oldName, scope);
    forall y | y in ReferenceTargets(ids, refs, oldName, scope)
      ensures y in ReferenceTargets(ids, init, oldName, scope) + extra
    {
      if k :| 0 <= k < |refs| && refs[k].IdentifierReference? && !IsLabelIdentifier(refs[k].parent) && y == refs[k].node {
        if k < n {
          assert y in ReferenceTargets(ids, init, oldName, scope);
        }
      } else {
        var k, x :| 0 <= k < |refs| && refs[k].WrappedReference? && x in NestedTargets(ids, refs[k].nested, oldName, scope) && y == x;
        if k < n {
          assert y in ReferenceTargets(ids, init, oldName, scope);
        }
      }
    }
    forall y | y in ReferenceTargets(ids, init, oldName, scope) + extra
      ensures y in ReferenceTargets(ids, refs, oldName, scope)
    {
      if y in extra {
        match refs[n]
        case IdentifierReference(node, parent) =>
        case WrappedReference(nested) =>
          assert refs[n].WrappedReference? && y in NestedTargets(ids, refs[n].nested, oldName, scope);
      } else if k :| 0 <= k < |init| && init[k].IdentifierReference? && !IsLabelIdentifier(init[k].parent) && y == init[k].node {
        assert refs[k] == init[k];
      } else {
        var k, x :| 0 <= k < |init| && init[k].WrappedReference? && x in NestedTargets(ids, init[k].nested, oldName, scope) && y == x;
        assert refs[k] == init[k];
      }
    }
  }

  /** Whether `x` is a reference target depends on no other node's name. */
  lemma ReferenceTargetsAgree(a: seq<string>, b: seq<string>, refs: seq<Reference>, oldName: string,
                              scope: ScopeId, x: NodeId)
    requires |a| == |b| && ReferenceNodesBelow(refs, |a|) && x < |a| && a[x] == b[x]
    ensures x in ReferenceTargets(a, refs, oldName, scope) ==> x in ReferenceTargets(b, refs, oldName, scope)
  {
    if x in ReferenceTargets(a, refs, oldName, scope) {
      if !exists k :: 0 <= k < |refs| && refs[k].IdentifierReference? && !IsLabelIdentifier(refs[k].parent) && x == refs[k].node {
        var k, y :| 0 <= k < |refs| && refs[k].WrappedReference? && y in NestedTargets(a, refs[k].nested, oldName, scope) && x == y;
        var nested := refs[k].nested;
        var m :| 0 <= m < |nested| && nested[m].scope == scope && a[nested[m].node] == oldName && x == nested[m].node;
        assert x in NestedTargets(b, nested, oldName, scope);
      }
    }
  }

  /**
   * The loop over the references skips an identifier that is the label of a
   * labeled, `break` or `continue` statement, and renames any other.
   */
  lemma LabelReferencesKeepName(ids: seq<string>, refs: seq<Reference>, oldName: string, newName: string,
                                scope: ScopeId, node: NodeId, parent: IdentifierParent)
    requires ReferenceNodesBelow(refs, |ids|) && node < |ids|
    ensures var r := IdentifierReference(node, parent);
      ReferenceNodesBelow(refs + [r], |ids|) &&
      var before := RenameReferences(ids, refs, oldName, newName, scope);
      var after := RenameReferences(ids, refs + [r], oldName, newName, scope);
      && (IsLabelIdentifier(parent) ==> after == before)
      && (!IsLabelIdentifier(parent) ==> after == before[node := newName])
    ensures IsLabelIdentifier(parent) <==>
      parent.isLabelChild && parent.kind != OtherParent
  {
    var r := IdentifierReference(node, parent);
    assert (refs + [r])[..|refs|] == refs;
  }

  /**
   * After `rename(s, oldName, newName)` an identifier node carries `newName`
   * exactly when it is the binding's declaration, a node bound by one of its
   * non-labeled constant violations, a non-label identifier reference, or a
   * referenced identifier of scope `s` named `oldName` inside another
   * reference; every other node keeps its name.
   */
  lemma RenamedIdentifiers(p: Program, s: ScopeId, oldName: string, newName: string, x: NodeId)
    requires WellFormed(p) && s < |p.scopes| && Lookup(p.scopes, s, oldName).Some?
    requires oldName != newName && x < |p.identifiers|
    ensures var binding := p.bindings[RenameTarget(p, s, oldName)];
      Renamed(p, s, oldName, newName).identifiers[x] ==
        if x == binding.identifier || x in ViolationTargets(binding.constantViolations)
           || x in ReferenceTargets(p.identifiers, binding.referencePaths, oldName, s)
        then newName else p.identifiers[x]
  {
    var binding := p.bindings[RenameTarget(p, s, oldName)];
    var ids := p.identifiers[binding.identifier := newName];
    var ids' := RenameViolations(ids, binding.constantViolations, newName);
    RenameViolationsAt(ids, binding.constantViolations, newName, x);
    RenameReferencesAt(ids', binding.referencePaths, oldName, newName, s, x);
    if x != binding.identifier && x !in ViolationTargets(binding.constantViolations) {
      ReferenceTargetsAgree(ids', p.identifiers, binding.referencePaths, oldName, s, x);
      ReferenceTargetsAgree(p.identifiers, ids', binding.referencePaths, oldName, s, x);
    }
  }
}
