/**
 * The `Mangler` object of packages/babel-plugin-minify-mangle-names/src/index.js:
 * its fields, and the methods that walk the scopes, pick names and rename,
 * each proved against the specification functions of module Mangling.
 */
module ManglePlugin {
  import opened Wrappers
  import opened Charsets
  import opened ScopeGraph
  import opened Mangling

  class Mangler {
    const charset: Charset
    const opts: Options
    /** The names `t.isValidIdentifier` rejects (reserved words). */
    const reserved: set<string>
    var program: Program
    var unsafeScopes: set<ScopeId>
    var visitedScopes: set<ScopeId>

    ghost predicate Valid()
      reads this, charset
    {
      charset.Valid() && Alphabet(charset.chars) && WellFormed(program)
    }

    constructor (charset: Charset, program: Program, opts: Options, reserved: set<string>)
      requires charset.Valid() && WellFormed(program)
      ensures Valid()
      ensures this.charset == charset && this.program == program && this.opts == opts && this.reserved == reserved
      ensures unsafeScopes == {} && visitedScopes == {}
    {
      charset.CharsAlphabet();
      this.charset := charset;
      this.program := program;
      this.opts := opts;
      this.reserved := reserved;
      unsafeScopes := {};
      visitedScopes := {};
    }

    /** `markUnsafeScopes(scope)`: add the scope and every ancestor up to the program scope. */
    method MarkUnsafeScopes(s: ScopeId)
      requires Valid() && s < |program.scopes|
      modifies this
      ensures program == old(program) && visitedScopes == old(visitedScopes) && Valid()
      ensures unsafeScopes == old(unsafeScopes) + Ancestors(program.scopes, s)
    {
      var e := s;
      unsafeScopes := unsafeScopes + {e};
      while program.scopes[e].parent.Some?
        invariant program == old(program) && visitedScopes == old(visitedScopes) && Valid()
        invariant e < |program.scopes| && e in unsafeScopes
        invariant unsafeScopes + Ancestors(program.scopes, e) == old(unsafeScopes) + Ancestors(program.scopes, s)
        invariant unsafeScopes <= old(unsafeScopes) + Ancestors(program.scopes, s)
        decreases e
      {
        e := program.scopes[e].parent.value;
        unsafeScopes := unsafeScopes + {e};
      }
    }

    /**
     * `collect()`: with frequency optimisation on, count the characters of
     * each property name, object key and literal the traversal meets, given
     * here as `texts` in traversal order.
     */
    method Collect(texts: seq<string>)
      requires charset.Valid()
      modifies charset
      ensures charset.Valid() && charset.chars == old(charset.chars) && charset.finalized == old(charset.finalized)
      ensures charset.frequency == if charset.shouldConsider then Counted(old(charset.frequency), Concat(texts))
                                   else old(charset.frequency)
    {
      if !charset.shouldConsider {
        return;
      }
      for k := 0 to |texts|
        invariant charset.Valid() && charset.chars == old(charset.chars) && charset.finalized == old(charset.finalized)
        invariant charset.frequency == Counted(old(charset.frequency), Concat(texts[..k]))
      {
        assert texts[..k + 1][..k] == texts[..k];
        CountedAppend(old(charset.frequency), Concat(texts[..k]), texts[k]);
        charset.Consider(texts[k]);
      }
      assert texts[..|texts|] == texts;
    }

    /**
     * The do-while loop that draws candidates with `getNext()` until one is a
     * valid identifier, not a name of the snapshot, and neither a global nor
     * a reference of the scope. Returns the name and the counter after it.
     */
    method NextCandidate(scope: Scope, snapshot: Table, i: nat) returns (next: string, i': nat)
      requires charset.Valid() && Alphabet(charset.chars) && charset.finalized
      ensures i' == FirstFree(charset.chars, Rejected(reserved, snapshot, scope), i) + 1
      ensures next == Ident(charset.chars, i' - 1)
    {
      ghost var j := FirstFree(charset.chars, Rejected(reserved, snapshot, scope), i);
      var r := charset.GetIdentifier(i);
      next := r.value;
      i' := i + 1;
      while next in reserved || snapshot.Has(next) || next in scope.globals || next in scope.references
        invariant i < i' <= j + 1 && next == Ident(charset.chars, i' - 1)
        invariant FirstFree(charset.chars, Rejected(reserved, snapshot, scope), i' - 1) == j
        decreases j + 1 - i'
      {
        r := charset.GetIdentifier(i');
        next := r.value;
        i' := i' + 1;
      }
    }

    /**
     * One turn of the loop of `mangle` over the names of scope `s`'s
     * snapshot: the name is left alone when it is kept for a reason;
     * otherwise the do-while loop draws the next free candidate, the binding
     * is renamed in `s` (and in the program scope when it is top-level) and
     * marked renamed.
     */
    method MangleName(ghost p0: Program, s: ScopeId, bindings: Table, k: nat, prog: Program, i: nat,
                      ghost commits: seq<Commit>) returns (prog': Program, i': nat, ghost commits': seq<Commit>)
      requires charset.Valid() && Alphabet(charset.chars) && charset.finalized
      requires SnapshotOf(p0, s, bindings) && k < |bindings.keys|
      requires Plan(commits, i) == PlanNames(p0, s, bindings, k, opts, reserved, charset.chars)
      requires Applicable(p0, s, bindings, commits) && prog == Apply(p0, s, bindings, commits)
      ensures Plan(commits', i') == PlanNames(p0, s, bindings, k + 1, opts, reserved, charset.chars)
      ensures Applicable(p0, s, bindings, commits') && prog' == Apply(p0, s, bindings, commits')
    {
      ghost var chars := charset.chars;
      LoopKeeps(p0, s, bindings, k, opts, reserved, chars);
      var oldName := bindings.keys[k];
      var b := bindings.entries[oldName];
      if Kept(prog, opts, s, oldName, b) {
        return prog, i, commits;
      }
      var isTopLevel := IsTopLevel(prog.scopes, oldName, b);
      var next;
      next, i' := NextCandidate(prog.scopes[s], bindings, i);
      LoopRenames(p0, s, bindings, k, opts, reserved, chars, commits, i, prog, oldName, b, i');
      commits' := commits + [Commit(oldName, next, i' - 1, b, isTopLevel)];
      prog' := RenameBinding(prog, s, oldName, next, b, isTopLevel, i' - 1);
    }

    /**
     * The `Scopable` visitor of `mangle` for scope `s`: skip a scope with
     * `eval` (unless the option allows it) or one already visited; otherwise
     * walk the names of `getAllBindings()`, and give each name not kept for
     * a reason the next free candidate.
     */
    method MangleScope(s: ScopeId)
      requires Valid() && charset.finalized && 0 < s < |program.scopes|
      modifies this
      ensures Valid() && unsafeScopes == old(unsafeScopes)
      ensures (program, visitedScopes) == AfterScope(old(program), old(visitedScopes), s, opts, reserved, charset.chars)
    {
      if !opts.eval && program.scopes[s].hasEval {
        return;
      }
      if s in visitedScopes {
        return;
      }
      visitedScopes := visitedScopes + {s};
      ghost var p0 := program;
      ghost var chars := charset.chars;
      var prog := program;
      var bindings := AllBindings(prog.scopes, s);
      AllBindingsLookup(prog.scopes, s);
      AllBindingsBelow(prog.scopes, s, |prog.bindings|);
      var names := bindings.keys;
      var i := 0;
      ghost var commits: seq<Commit> := [];
      for k := 0 to |names|
        invariant program == p0 && visitedScopes == old(visitedScopes) + {s} && unsafeScopes == old(unsafeScopes)
        invariant Plan(commits, i) == PlanNames(p0, s, bindings, k, opts, reserved, chars)
        invariant Applicable(p0, s, bindings, commits)
        invariant prog == Apply(p0, s, bindings, commits)
      {
        prog, i, commits := MangleName(p0, s, bindings, k, prog, i, commits);
      }
      assert (prog, visitedScopes) == AfterScope(p0, old(visitedScopes), s, opts, reserved, chars);
      program := prog;
    }

    /**
     * `mangle()`: `program.traverse` meets the `Scopable` nodes, whose
     * scopes are given as `order`, and the visitor handles each.
     */
    method Mangle(order: seq<ScopeId>)
      requires Valid() && charset.finalized && InnerScopes(program, order)
      modifies this
      ensures Valid() && unsafeScopes == old(unsafeScopes)
      ensures (program, visitedScopes) == AfterTraversal(old(program), old(visitedScopes), order, opts, reserved, charset.chars)
    {
      for k := 0 to |order|
        invariant Valid() && unsafeScopes == old(unsafeScopes)
        invariant (program, visitedScopes) == AfterTraversal(old(program), old(visitedScopes), order[..k], opts, reserved, charset.chars)
      {
        AfterTraversalPrefix(old(program), old(visitedScopes), order, k, opts, reserved, charset.chars);
        MangleScope(order[k]);
      }
      assert order[..|order|] == order;
    }

    /** `run()`: collect, sort the charset, then mangle. */
    method Run(texts: seq<string>, order: seq<ScopeId>)
      requires Valid() && InnerScopes(program, order)
      modifies this, charset
      ensures Valid() && charset.finalized && unsafeScopes == old(unsafeScopes)
      ensures charset.chars == if charset.shouldConsider
                               then SortByFrequency(old(charset.chars), Counted(old(charset.frequency), Concat(texts)))
                               else old(charset.chars)
      ensures (program, visitedScopes) == AfterTraversal(old(program), old(visitedScopes), order, opts, reserved, charset.chars)
    {
      Collect(texts);
      charset.Sort();
      charset.CharsAlphabet();
      Mangle(order);
    }
  }

  /** The source length over which the charset is ordered by frequency. */
  const CONSIDER_THRESHOLD: nat := 70000

  /** The alphabet `run()` mangles with: the default one, sorted by the counts over `texts` for a long source. */
  function RunAlphabet(sourceLength: nat, texts: seq<string>): seq<char>
  {
    if sourceLength > CONSIDER_THRESHOLD then SortByFrequency(CHARSET, Counted(InitialFrequency(), Concat(texts)))
    else CHARSET
  }

  /**
   * The `Program` visitor of the plugin: a charset whose frequency
   * optimisation is on exactly for a source over 70000 characters, a fresh
   * mangler over the program, and `run()`.
   */
  method MinifyMangleNames(program: Program, sourceLength: nat, opts: Options, reserved: set<string>,
                           texts: seq<string>, order: seq<ScopeId>) returns (r: Program)
    requires WellFormed(program) && InnerScopes(program, order)
    ensures Alphabet(RunAlphabet(sourceLength, texts))
    ensures r == AfterTraversal(program, {}, order, opts, reserved, RunAlphabet(sourceLength, texts)).0
  {
    var charset := new Charset(sourceLength > CONSIDER_THRESHOLD);
    var mangler := new Mangler(charset, program, opts, reserved);
    mangler.Run(texts, order);
    r := mangler.program;
  }

  /**
   * The statements after the do-while loop: `rename` in the scope, again in
   * the program scope for a top-level binding, and `binding.renamed = true`.
   */
  method RenameBinding(p: Program, s: ScopeId, oldName: string, newName: string, b: BindingId, isTopLevel: bool,
                       ghost ordinal: nat) returns (r: Program)
    requires WellFormed(p) && 0 < s < |p.scopes| && b < |p.bindings|
    requires Lookup(p.scopes, s, oldName) == Some(b)
    requires isTopLevel ==> IsTopLevel(p.scopes, oldName, b)
    ensures r == ApplyCommit(p, s, Commit(oldName, newName, ordinal, b, isTopLevel))
  {
    r := Rename(p, s, oldName, newName);
    if isTopLevel {
      r := Rename(r, PROGRAM, oldName, newName);
    }
    r := MarkRenamed(r, b);
  }

  /**
   * `rename(scope, oldName, newName)`: the binding `getBinding(oldName)`
   * finds gets the new name at its declaration and in the scope's table,
   * then at each of its constant violations and references.
   */
  method Rename(p: Program, s: ScopeId, oldName: string, newName: string) returns (r: Program)
    requires WellFormed(p) && s < |p.scopes| && Lookup(p.scopes, s, oldName).Some?
    ensures r == Renamed(p, s, oldName, newName)
  {
    var b := RenameTarget(p, s, oldName);
    var binding := p.bindings[b];
    assert BindingNodesBelow(binding, |p.identifiers|);
    var ids := p.identifiers[binding.identifier := newName];
    var table := p.scopes[s].bindings.Put(newName, b).Delete(oldName);
    ids := RenameViolationsLoop(ids, binding.constantViolations, newName);
    ids := RenameReferencesLoop(ids, binding.referencePaths, oldName, newName, s);
    r := Program(p.scopes[s := p.scopes[s].(bindings := table)], p.bindings, ids);
  }

  /** `bindings[b].name = name` for each identifier node of a violation. */
  method SetNamesLoop(ids: seq<string>, nodes: seq<NodeId>, name: string) returns (r: seq<string>)
    requires forall m :: 0 <= m < |nodes| ==> nodes[m] < |ids|
    ensures r == SetNames(ids, nodes, name)
  {
    r := ids;
    for m := 0 to |nodes|
      invariant r == SetNames(ids, nodes[..m], name)
    {
      assert nodes[..m + 1][..m] == nodes[..m];
      r := r[nodes[m] := name];
    }
    assert nodes[..|nodes|] == nodes;
  }

  /** The loop of `rename` over `binding.constantViolations`. */
  method RenameViolationsLoop(ids: seq<string>, violations: seq<Violation>, name: string) returns (r: seq<string>)
    requires ViolationNodesBelow(violations, |ids|)
    ensures r == RenameViolations(ids, violations, name)
  {
    r := ids;
    for i := 0 to |violations|
      invariant r == RenameViolations(ids, violations[..i], name)
    {
      assert violations[..i + 1][..i] == violations[..i];
      match violations[i]
      case LabeledViolation =>
      case ViolationPath(nodes) =>
        assert forall m :: 0 <= m < |nodes| ==> violations[i].bindingIdentifiers[m] < |ids|;
        r := SetNamesLoop(r, nodes, name);
    }
    assert violations[..|violations|] == violations;
  }

  /** The `ReferencedIdentifier` visitor `rename` runs inside a reference that is not an identifier. */
  method RenameNestedLoop(ids: seq<string>, nested: seq<NestedIdentifier>, oldName: string, newName: string,
                          scope: ScopeId) returns (r: seq<string>)
    requires NestedNodesBelow(nested, |ids|)
    ensures r == RenameNested(ids, nested, oldName, newName, scope)
  {
    r := ids;
    for m := 0 to |nested|
      invariant r == RenameNested(ids, nested[..m], oldName, newName, scope)
    {
      assert nested[..m + 1][..m] == nested[..m];
      if r[nested[m].node] == oldName && nested[m].scope == scope {
        r := r[nested[m].node := newName];
      }
    }
    assert nested[..|nested|] == nested;
  }

  /** The loop of `rename` over `binding.referencePaths`. */
  method RenameReferencesLoop(ids: seq<string>, refs: seq<Reference>, oldName: string, newName: string,
                              scope: ScopeId) returns (r: seq<string>)
    requires ReferenceNodesBelow(refs, |ids|)
    ensures r == RenameReferences(ids, refs, oldName, newName, scope)
  {
    r := ids;
    for i := 0 to |refs|
      invariant r == RenameReferences(ids, refs[..i], oldName, newName, scope)
    {
      assert refs[..i + 1][..i] == refs[..i];
      match refs[i]
      case IdentifierReference(node, parent) =>
        if !IsLabelIdentifier(parent) {
          r := r[node := newName];
        }
      case WrappedReference(nested) =>
        r := RenameNestedLoop(r, nested, oldName, newName, scope);
    }
    assert refs[..|refs|] == refs;
  }
}
