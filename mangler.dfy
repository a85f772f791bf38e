/**
 * The name mangler of packages/babel-plugin-minify-mangle-names/src/index.js:
 * which bindings of a scope are given a short name, how that name is chosen,
 * and the `Mangler` object that walks the scopes and renames.
 */
module Mangling {
  import opened Wrappers
  import opened Charsets
  import opened ScopeGraph

  /** The plugin options the mangler reads. */
  datatype Options = Options(
    blacklist: set<string>,
    keepFnName: bool,
    keepClassName: bool,
    eval: bool,
    topLevel: bool)
  {
    /** `isBlacklist(name)`: the blacklist object has `name` as an own key. */
    predicate IsBlacklist(name: string)
    {
      name in blacklist
    }
  }

  // ---------------------------------------------------------------------------
  // Which names of a scope are mangled
  // ---------------------------------------------------------------------------

  /**
   * `hasOwnBinding(name)` inside the visitor of scope `s`: a scope whose parent
   * is the program scope also counts the program scope's bindings as its own.
   */
  predicate HasOwnBinding(scopes: seq<Scope>, s: ScopeId, name: string)
    requires s < |scopes|
  {
    if scopes[s].parent != Some(PROGRAM) then scopes[s].bindings.Has(name)
    else scopes[PROGRAM].bindings.Has(name) || scopes[s].bindings.Has(name)
  }

  /** `isTopLevel`: the program scope's table maps `name` to this very binding. */
  predicate IsTopLevel(scopes: seq<Scope>, name: string, b: BindingId)
    requires |scopes| > 0
  {
    scopes[PROGRAM].bindings.Get(name) == Some(b)
  }

  /**
   * The reasons, other than an earlier rename, for which the loop of `mangle`
   * leaves the name `name` of binding `b` alone when it visits scope `s`.
   */
  predicate StaticallyKept(p: Program, opts: Options, s: ScopeId, name: string, b: BindingId)
    requires s < |p.scopes| && b < |p.bindings|
  {
    var kind := p.bindings[b].kind;
    || name == "arguments"
    || (if opts.topLevel then false else IsTopLevel(p.scopes, name, b))
    || !HasOwnBinding(p.scopes, s, name)
    || kind == LabeledStatement
    || opts.IsBlacklist(name)
    || (if opts.keepFnName then IsFunction(kind) else false)
    || (if opts.keepClassName then IsClass(kind) else false)
  }

  /** The whole condition under which the loop `continue`s. */
  predicate Kept(p: Program, opts: Options, s: ScopeId, name: string, b: BindingId)
    requires s < |p.scopes| && b < |p.bindings|
  {
    p.bindings[b].renamed || StaticallyKept(p, opts, s, name, b)
  }

  /** A blacklisted name is kept whatever else holds of it. */
  lemma BlacklistKept(p: Program, opts: Options, s: ScopeId, name: string, b: BindingId)
    requires s < |p.scopes| && b < |p.bindings|
    ensures opts.IsBlacklist(name) ==> Kept(p, opts, s, name, b)
  {
  }

  /**
   * `keepFnName` keeps the names of function declarations and expressions,
   * `keepClassName` those of class declarations and expressions; without
   * the options neither kind is kept for being a function or a class.
   */
  lemma FunctionClassKept(p: Program, opts: Options, s: ScopeId, name: string, b: BindingId)
    requires s < |p.scopes| && b < |p.bindings|
    ensures opts.keepFnName && (p.bindings[b].kind == FunctionDeclaration || p.bindings[b].kind == FunctionExpression)
      ==> Kept(p, opts, s, name, b)
    ensures opts.keepClassName && (p.bindings[b].kind == ClassDeclaration || p.bindings[b].kind == ClassExpression)
      ==> Kept(p, opts, s, name, b)
    ensures !IsFunction(ClassDeclaration) && !IsFunction(ClassExpression) && !IsClass(FunctionDeclaration)
      && !IsClass(FunctionExpression) && !IsFunction(OtherDeclaration) && !IsClass(OtherDeclaration)
  {
  }

  /**
   * A name is kept exactly for the reasons the loop lists: once renamed, the
   * name `arguments`, top-level without the `topLevel` option, not an own
   * binding, a label, blacklisted, or a function or class under its option.
   */
  lemma KeptReasons(p: Program, opts: Options, s: ScopeId, name: string, b: BindingId)
    requires s < |p.scopes| && b < |p.bindings|
    ensures var kind := p.bindings[b].kind;
      Kept(p, opts, s, name, b) <==>
        || p.bindings[b].renamed || name == "arguments" || kind == LabeledStatement
        || name in opts.blacklist || !HasOwnBinding(p.scopes, s, name)
        || (!opts.topLevel && p.scopes[PROGRAM].bindings.Get(name) == Some(b))
        || (opts.keepFnName && (kind == FunctionDeclaration || kind == FunctionExpression))
        || (opts.keepClassName && (kind == ClassDeclaration || kind == ClassExpression))
  {
  }

  /**
   * The candidates the do-while loop of `mangle` rejects: names that are not
   * valid identifiers (`reserved`), names of the snapshot `bindings`, and the
   * scope's globals and references.
   */
  function Rejected(reserved: set<string>, snapshot: Table, scope: Scope): set<string>
  {
    reserved + snapshot.entries.Keys + scope.globals + scope.references
  }

  // ---------------------------------------------------------------------------
  // Choosing the next name
  // ---------------------------------------------------------------------------

  /** The ordinals at or after `i` whose identifiers are in `bad`. */
  ghost function BadOrdinals(chars: seq<char>, bad: set<string>, i: nat): set<nat>
    requires |chars| == BASE
  {
    set x | x in bad && |x| > 0 && Over(chars, x) && Value(chars, x) >= i :: Value(chars, x)
  }

  lemma BadOrdinalsShrink(chars: seq<char>, bad: set<string>, i: nat)
    requires Alphabet(chars) && Ident(chars, i) in bad
    ensures BadOrdinals(chars, bad, i + 1) < BadOrdinals(chars, bad, i)
  {
    ValueOfIdent(chars, i);
    assert i in BadOrdinals(chars, bad, i);
  }

  /**
   * The ordinal the do-while loop of `mangle` settles on when its counter
   * stands at `i`: the first ordinal from `i` on whose identifier is not `bad`.
   * Only finitely many names are bad, so the loop ends.
   */
  function FirstFree(chars: seq<char>, bad: set<string>, i: nat): (j: nat)
    requires Alphabet(chars)
    ensures i <= j && Ident(chars, j) !in bad
    decreases BadOrdinals(chars, bad, i)
  {
    if Ident(chars, i) !in bad then i
    else
      BadOrdinalsShrink(chars, bad, i);
      FirstFree(chars, bad, i + 1)
  }

  /** No ordinal between `i` and `FirstFree` has an acceptable identifier: it is the first one. */
  lemma {:induction false} FirstFreeIsFirst(chars: seq<char>, bad: set<string>, i: nat, k: nat)
    requires Alphabet(chars) && i <= k < FirstFree(chars, bad, i)
    ensures Ident(chars, k) in bad
    decreases BadOrdinals(chars, bad, i)
  {
    if k > i {
      BadOrdinalsShrink(chars, bad, i);
      FirstFreeIsFirst(chars, bad, i + 1, k);
    }
  }

  // ---------------------------------------------------------------------------
  // One scope: which names the loop renames, and to what
  // ---------------------------------------------------------------------------

  /** One rename the loop performs: the names, the ordinal used, the binding, and whether it is top-level. */
  datatype Commit = Commit(oldName: string, newName: string, ordinal: nat, binding: BindingId, topLevel: bool)

  /** The renames of one scope so far, and the counter `i` of `getNext`. */
  datatype Plan = Plan(commits: seq<Commit>, next: nat)

  function RenamedBindings(commits: seq<Commit>): set<BindingId>
  {
    set a | 0 <= a < |commits| :: commits[a].binding
  }

  function OldNames(commits: seq<Commit>): set<string>
  {
    set a | 0 <= a < |commits| :: commits[a].oldName
  }

  function NewNames(commits: seq<Commit>): set<string>
  {
    set a | 0 <= a < |commits| :: commits[a].newName
  }

  lemma NameSetsSnoc(commits: seq<Commit>)
    requires commits != []
    ensures var init := commits[..|commits| - 1];
      var c := commits[|commits| - 1];
      && OldNames(commits) == OldNames(init) + {c.oldName}
      && NewNames(commits) == NewNames(init) + {c.newName}
  {
    var init := commits[..|commits| - 1];
    assert forall a :: 0 <= a < |init| ==> init[a] == commits[a];
  }

  lemma RenamedBindingsSnoc(commits: seq<Commit>, b: BindingId)
    requires commits != []
    ensures b in RenamedBindings(commits) <==> b in RenamedBindings(commits[..|commits| - 1]) || b == commits[|commits| - 1].binding
  {
    var init := commits[..|commits| - 1];
    assert forall a :: 0 <= a < |init| ==> init[a] == commits[a];
  }

  /** What the loop over the snapshot of scope `s` relies on: it binds each name as lookup from `s` does. */
  ghost predicate SnapshotOf(p: Program, s: ScopeId, snapshot: Table)
  {
    && WellFormed(p) && 0 < s < |p.scopes|
    && snapshot.Valid() && snapshot.ValuesBelow(|p.bindings|)
    && forall n :: snapshot.Has(n) ==> Lookup(p.scopes, s, n) == snapshot.Get(n)
  }

  /** The counter `i` when the loop reaches the renames after `commits[..a]`: one past the last ordinal used. */
  function Start(commits: seq<Commit>, a: nat): nat
    requires a <= |commits|
  {
    if a == 0 then 0 else commits[a - 1].ordinal + 1
  }

  /**
   * The decisions of the loop of `mangle` over the first `k` names of the
   * snapshot of scope `s`, read off the program `p0` the loop starts from: a
   * binding counts as renamed once the loop has renamed it, and every other
   * reason to keep a name is the same at every iteration as at the start.
   */
  function PlanNames(p0: Program, s: ScopeId, snapshot: Table, k: nat, opts: Options,
                     reserved: set<string>, chars: seq<char>): (r: Plan)
    requires 0 < s < |p0.scopes| && Alphabet(chars) && k <= |snapshot.keys|
    requires snapshot.Valid() && snapshot.ValuesBelow(|p0.bindings|)
    ensures r.next == Start(r.commits, |r.commits|)
    decreases k
  {
    if k == 0 then Plan([], 0)
    else
      var pl := PlanNames(p0, s, snapshot, k - 1, opts, reserved, chars);
      var name := snapshot.keys[k - 1];
      var b := snapshot.entries[name];
      if p0.bindings[b].renamed || b in RenamedBindings(pl.commits) || StaticallyKept(p0, opts, s, name, b) then pl
      else
        var j := FirstFree(chars, Rejected(reserved, snapshot, p0.scopes[s]), pl.next);
        Plan(pl.commits + [Commit(name, Ident(chars, j), j, b, IsTopLevel(p0.scopes, name, b))], j + 1)
  }

  /** What the loop's `k`-th iteration adds to the plan, if anything. */
  lemma PlanNamesSnoc(p0: Program, s: ScopeId, snapshot: Table, k: nat, opts: Options,
                      reserved: set<string>, chars: seq<char>)
    requires 0 < s < |p0.scopes| && Alphabet(chars) && 0 < k <= |snapshot.keys|
    requires snapshot.Valid() && snapshot.ValuesBelow(|p0.bindings|)
    ensures var pl := PlanNames(p0, s, snapshot, k - 1, opts, reserved, chars);
      var r := PlanNames(p0, s, snapshot, k, opts, reserved, chars);
      var name := snapshot.keys[k - 1];
      && name in snapshot.entries
      && |pl.commits| <= |r.commits| <= |pl.commits| + 1
      && (forall a :: 0 <= a < |pl.commits| ==> r.commits[a] == pl.commits[a])
      && pl.next <= r.next
      && (|r.commits| == |pl.commits| + 1 ==>
            r.commits[|pl.commits|].oldName == name && r.commits[|pl.commits|].ordinal >= pl.next)
  {
  }

  /** The iteration at name `k`, for a name the start program does not keep: the plan grows by one rename. */
  lemma PlanNamesGrows(p0: Program, s: ScopeId, snapshot: Table, k: nat, opts: Options,
                       reserved: set<string>, chars: seq<char>)
    requires 0 < s < |p0.scopes| && Alphabet(chars) && k < |snapshot.keys|
    requires snapshot.Valid() && snapshot.ValuesBelow(|p0.bindings|)
    requires var pl := PlanNames(p0, s, snapshot, k, opts, reserved, chars);
      var name := snapshot.keys[k];
      name in snapshot.entries &&
      var b := snapshot.entries[name];
      !(p0.bindings[b].renamed || b in RenamedBindings(pl.commits) || StaticallyKept(p0, opts, s, name, b))
    ensures var pl := PlanNames(p0, s, snapshot, k, opts, reserved, chars);
      var name := snapshot.keys[k];
      var b := snapshot.entries[name];
      var j := FirstFree(chars, Rejected(reserved, snapshot, p0.scopes[s]), pl.next);
      PlanNames(p0, s, snapshot, k + 1, opts, reserved, chars)
        == Plan(pl.commits + [Commit(name, Ident(chars, j), j, b, IsTopLevel(p0.scopes, name, b))], j + 1)
  {
  }

  /** The iteration at name `k`, for a name the start program keeps: the plan stays as it is. */
  lemma PlanNamesStays(p0: Program, s: ScopeId, snapshot: Table, k: nat, opts: Options,
                       reserved: set<string>, chars: seq<char>)
    requires 0 < s < |p0.scopes| && Alphabet(chars) && k < |snapshot.keys|
    requires snapshot.Valid() && snapshot.ValuesBelow(|p0.bindings|)
    requires var pl := PlanNames(p0, s, snapshot, k, opts, reserved, chars);
      var name := snapshot.keys[k];
      name in snapshot.entries &&
      var b := snapshot.entries[name];
      p0.bindings[b].renamed || b in RenamedBindings(pl.commits) || StaticallyKept(p0, opts, s, name, b)
    ensures PlanNames(p0, s, snapshot, k + 1, opts, reserved, chars) == PlanNames(p0, s, snapshot, k, opts, reserved, chars)
  {
  }

  /** Every rename of the plan renames a name of the snapshot, before name `k`, that the start program does not keep. */
  lemma {:induction false} PlanCommitSource(p0: Program, s: ScopeId, snapshot: Table, k: nat, opts: Options,
                                            reserved: set<string>, chars: seq<char>, a: nat)
    requires 0 < s < |p0.scopes| && Alphabet(chars) && k <= |snapshot.keys|
    requires snapshot.Valid() && snapshot.ValuesBelow(|p0.bindings|)
    requires a < |PlanNames(p0, s, snapshot, k, opts, reserved, chars).commits|
    ensures var c := PlanNames(p0, s, snapshot, k, opts, reserved, chars).commits[a];
      && (forall m :: k <= m < |snapshot.keys| ==> c.oldName != snapshot.keys[m])
      && snapshot.Get(c.oldName) == Some(c.binding)
      && !p0.bindings[c.binding].renamed && !StaticallyKept(p0, opts, s, c.oldName, c.binding)
      && c.topLevel == IsTopLevel(p0.scopes, c.oldName, c.binding)
    decreases k
  {
    var pl := PlanNames(p0, s, snapshot, k - 1, opts, reserved, chars);
    var name := snapshot.keys[k - 1];
    assert name in snapshot.entries;
    var b := snapshot.entries[name];
    if p0.bindings[b].renamed || b in RenamedBindings(pl.commits) || StaticallyKept(p0, opts, s, name, b) {
      PlanNamesStays(p0, s, snapshot, k - 1, opts, reserved, chars);
      PlanCommitSource(p0, s, snapshot, k - 1, opts, reserved, chars, a);
    } else {
      PlanNamesGrows(p0, s, snapshot, k - 1, opts, reserved, chars);
      if a < |pl.commits| {
        PlanCommitSource(p0, s, snapshot, k - 1, opts, reserved, chars, a);
      } else {
        forall m | k <= m < |snapshot.keys| ensures name != snapshot.keys[m] {
          DistinctNamesAt(snapshot.keys, k - 1, m);
        }
      }
    }
  }

  /** Every rename of the plan takes the first acceptable ordinal from where the previous one left the counter. */
  lemma {:induction false} PlanCommit(p0: Program, s: ScopeId, snapshot: Table, k: nat, opts: Options,
                                      reserved: set<string>, chars: seq<char>, a: nat)
    requires 0 < s < |p0.scopes| && Alphabet(chars) && k <= |snapshot.keys|
    requires snapshot.Valid() && snapshot.ValuesBelow(|p0.bindings|)
    requires a < |PlanNames(p0, s, snapshot, k, opts, reserved, chars).commits|
    ensures var r := PlanNames(p0, s, snapshot, k, opts, reserved, chars);
      var c := r.commits[a];
      && c.ordinal < r.next
      && c.ordinal == FirstFree(chars, Rejected(reserved, snapshot, p0.scopes[s]), Start(r.commits, a))
      && c.newName == Ident(chars, c.ordinal)
      && c.newName !in Rejected(reserved, snapshot, p0.scopes[s])
    decreases k
  {
    var pl := PlanNames(p0, s, snapshot, k - 1, opts, reserved, chars);
    var r := PlanNames(p0, s, snapshot, k, opts, reserved, chars);
    PlanNamesSnoc(p0, s, snapshot, k, opts, reserved, chars);
    if a < |pl.commits| {
      PlanCommit(p0, s, snapshot, k - 1, opts, reserved, chars, a);
      assert r.commits[a] == pl.commits[a];
      if a > 0 {
        assert r.commits[a - 1] == pl.commits[a - 1];
      }
    } else {
      PlanNamesNew(p0, s, snapshot, k, opts, reserved, chars);
      if a > 0 {
        assert r.commits[a - 1] == pl.commits[a - 1];
      }
      assert Start(r.commits, a) == pl.next;
    }
  }

  /** A rename the `k`-th iteration adds takes the first free ordinal from the counter, which moves one past it. */
  lemma PlanNamesNew(p0: Program, s: ScopeId, snapshot: Table, k: nat, opts: Options,
                     reserved: set<string>, chars: seq<char>)
    requires 0 < s < |p0.scopes| && Alphabet(chars) && 0 < k <= |snapshot.keys|
    requires snapshot.Valid() && snapshot.ValuesBelow(|p0.bindings|)
    requires |PlanNames(p0, s, snapshot, k - 1, opts, reserved, chars).commits|
      < |PlanNames(p0, s, snapshot, k, opts, reserved, chars).commits|
    ensures var pl := PlanNames(p0, s, snapshot, k - 1, opts, reserved, chars);
      var r := PlanNames(p0, s, snapshot, k, opts, reserved, chars);
      && |r.commits| == |pl.commits| + 1
      && r.commits[|pl.commits|].ordinal == FirstFree(chars, Rejected(reserved, snapshot, p0.scopes[s]), pl.next)
      && r.commits[|pl.commits|].newName == Ident(chars, r.commits[|pl.commits|].ordinal)
      && r.next == r.commits[|pl.commits|].ordinal + 1
  {
  }

  /** The renames of a plan use increasing ordinals and distinct old names. */
  lemma {:induction false} PlanOrdered(p0: Program, s: ScopeId, snapshot: Table, k: nat, opts: Options,
                                       reserved: set<string>, chars: seq<char>, a: nat, c: nat)
    requires 0 < s < |p0.scopes| && Alphabet(chars) && k <= |snapshot.keys|
    requires snapshot.Valid() && snapshot.ValuesBelow(|p0.bindings|)
    requires a < c < |PlanNames(p0, s, snapshot, k, opts, reserved, chars).commits|
    ensures var r := PlanNames(p0, s, snapshot, k, opts, reserved, chars);
      r.commits[a].ordinal < r.commits[c].ordinal && r.commits[a].oldName != r.commits[c].oldName
      && r.commits[a].newName != r.commits[c].newName
    decreases k
  {
    PlanNamesSnoc(p0, s, snapshot, k, opts, reserved, chars);
    var pl := PlanNames(p0, s, snapshot, k - 1, opts, reserved, chars);
    var r := PlanNames(p0, s, snapshot, k, opts, reserved, chars);
    if c < |pl.commits| {
      PlanOrdered(p0, s, snapshot, k - 1, opts, reserved, chars, a, c);
    } else {
      PlanCommitSource(p0, s, snapshot, k - 1, opts, reserved, chars, a);
      PlanCommit(p0, s, snapshot, k - 1, opts, reserved, chars, a);
      PlanCommit(p0, s, snapshot, k, opts, reserved, chars, a);
      PlanCommit(p0, s, snapshot, k, opts, reserved, chars, c);
      IdentInjective(chars, r.commits[a].ordinal, r.commits[c].ordinal);
    }
  }

  /**
   * The renames of a plan can be applied in turn: each old name is a name of
   * the snapshot, bound there to the renamed binding, and the new names are
   * pairwise different and none of them is a snapshot name.
   */
  ghost predicate Applicable(p0: Program, s: ScopeId, snapshot: Table, commits: seq<Commit>)
  {
    && SnapshotOf(p0, s, snapshot)
    && (forall a :: 0 <= a < |commits| ==>
          && snapshot.Get(commits[a].oldName) == Some(commits[a].binding)
          && !snapshot.Has(commits[a].newName)
          && (commits[a].topLevel ==> IsTopLevel(p0.scopes, commits[a].oldName, commits[a].binding)))
    && (forall a, c :: 0 <= a < c < |commits| ==>
          commits[a].oldName != commits[c].oldName && commits[a].newName != commits[c].newName)
  }

  lemma PlanApplicable(p0: Program, s: ScopeId, snapshot: Table, k: nat, opts: Options,
                       reserved: set<string>, chars: seq<char>)
    requires SnapshotOf(p0, s, snapshot) && Alphabet(chars) && k <= |snapshot.keys|
    ensures Applicable(p0, s, snapshot, PlanNames(p0, s, snapshot, k, opts, reserved, chars).commits)
  {
    var commits := PlanNames(p0, s, snapshot, k, opts, reserved, chars).commits;
    forall a | 0 <= a < |commits|
      ensures snapshot.Get(commits[a].oldName) == Some(commits[a].binding)
      ensures !snapshot.Has(commits[a].newName)
      ensures commits[a].topLevel ==> IsTopLevel(p0.scopes, commits[a].oldName, commits[a].binding)
    {
      PlanCommitSource(p0, s, snapshot, k, opts, reserved, chars, a);
      PlanCommit(p0, s, snapshot, k, opts, reserved, chars, a);
    }
    forall a, c | 0 <= a < c < |commits|
      ensures commits[a].oldName != commits[c].oldName && commits[a].newName != commits[c].newName
    {
      PlanOrdered(p0, s, snapshot, k, opts, reserved, chars, a, c);
    }
  }

  // ---------------------------------------------------------------------------
  // The renames on the two tables they touch
  // ---------------------------------------------------------------------------

  /** The tables the renames of scope `s` change: its own and the program scope's. */
  datatype Tables = Tables(local: Table, top: Table)

  function TablesOf(p: Program, s: ScopeId): Tables
    requires s < |p.scopes|
  {
    Tables(p.scopes[s].bindings, p.scopes[PROGRAM].bindings)
  }

  /** What `rename` does to one table: the new name takes the binding, then the old name is deleted. */
  function Moved(t: Table, c: Commit): Table
  {
    t.Put(c.newName, c.binding).Delete(c.oldName)
  }

  /** One rename on the two tables: the program scope's table only changes for a top-level binding. */
  function Step(t: Tables, c: Commit): Tables
  {
    Tables(Moved(t.local, c), if c.topLevel then Moved(t.top, c) else t.top)
  }

  /** The renames of a plan, in order, on the two tables. */
  function Replay(t: Tables, commits: seq<Commit>): Tables
    decreases |commits|
  {
    if commits == [] then t
    else Step(Replay(t, commits[..|commits| - 1]), commits[|commits| - 1])
  }

  /** A name that no rename of the plan mentions keeps its entry in both tables. */
  lemma {:induction false} ReplayKeepsName(t: Tables, commits: seq<Commit>, n: string)
    requires n !in OldNames(commits) && n !in NewNames(commits)
    ensures Replay(t, commits).local.Get(n) == t.local.Get(n)
    ensures Replay(t, commits).top.Get(n) == t.top.Get(n)
    decreases |commits|
  {
    if commits != [] {
      NameSetsSnoc(commits);
      ReplayKeepsName(t, commits[..|commits| - 1], n);
    }
  }

  /** Rename `c` holds in `t`: the old name is gone, and the new name binds the binding, in each table `c` renamed in. */
  predicate Holds(t: Tables, c: Commit)
  {
    && t.local.Get(c.oldName) == None
    && t.local.Get(c.newName) == Some(c.binding)
    && (c.topLevel ==> t.top.Get(c.oldName) == None && t.top.Get(c.newName) == Some(c.binding))
  }

  /** No rename reuses a name an earlier rename of the plan mentioned, and none keeps its name. */
  predicate Separate(commits: seq<Commit>)
  {
    && (forall a :: 0 <= a < |commits| ==> commits[a].oldName != commits[a].newName)
    && (forall a, c :: 0 <= a < c < |commits| ==>
          && commits[c].oldName != commits[a].oldName && commits[c].oldName != commits[a].newName
          && commits[c].newName != commits[a].oldName && commits[c].newName != commits[a].newName)
  }

  /** After the plan, each rename it made still holds, because later renames touch other names only. */
  lemma {:induction false} ReplayCommitted(t: Tables, commits: seq<Commit>, a: nat)
    requires Separate(commits) && a < |commits|
    ensures Holds(Replay(t, commits), commits[a])
    decreases |commits|
  {
    var init := commits[..|commits| - 1];
    var c := commits[|commits| - 1];
    if a < |init| {
      assert init[a] == commits[a];
      assert Separate(init) by {
        assert forall x :: 0 <= x < |init| ==> init[x] == commits[x];
      }
      ReplayCommitted(t, init, a);
    } else {
      assert commits[a] == c;
    }
  }

  lemma ApplicableSeparate(p0: Program, s: ScopeId, snapshot: Table, commits: seq<Commit>)
    requires Applicable(p0, s, snapshot, commits)
    ensures Separate(commits)
  {
    forall a | 0 <= a < |commits| ensures commits[a].oldName != commits[a].newName {
      assert snapshot.Has(commits[a].oldName);
    }
    forall a, c | 0 <= a < c < |commits|
      ensures commits[c].oldName != commits[a].newName && commits[c].newName != commits[a].oldName
    {
      assert snapshot.Has(commits[c].oldName) && snapshot.Has(commits[a].oldName);
    }
  }

  // ---------------------------------------------------------------------------
  // The renames on the program
  // ---------------------------------------------------------------------------

  /** `binding.renamed = true` */
  function MarkRenamed(p: Program, b: BindingId): (r: Program)
    requires WellFormed(p) && b < |p.bindings|
    ensures WellFormed(r) && SameShape(p, r) && r.scopes == p.scopes && r.identifiers == p.identifiers
    ensures forall x :: 0 <= x < |p.bindings| ==> r.bindings[x].renamed == (p.bindings[x].renamed || x == b)
  {
    var r := p.(bindings := p.bindings[b := p.bindings[b].(renamed := true)]);
    assert forall x :: 0 <= x < |p.bindings| ==> BindingNodesBelow(r.bindings[x], |r.identifiers|) by {
      assert BindingNodesBelow(p.bindings[b], |p.identifiers|);
    }
    r
  }

  /**
   * One rename on the program: `rename` in scope `s`, `rename` in the program
   * scope when the binding is top-level, and `binding.renamed = true`.
   */
  function ApplyCommit(p: Program, s: ScopeId, c: Commit): (r: Program)
    requires WellFormed(p) && 0 < s < |p.scopes| && c.binding < |p.bindings|
    requires Lookup(p.scopes, s, c.oldName) == Some(c.binding)
    requires c.topLevel ==> IsTopLevel(p.scopes, c.oldName, c.binding)
    ensures WellFormed(r) && SameShape(p, r)
    ensures forall x :: 0 <= x < |p.bindings| ==> r.bindings[x].renamed == (p.bindings[x].renamed || x == c.binding)
    ensures forall t :: 0 <= t < |p.scopes| && t != s && t != PROGRAM ==> r.scopes[t] == p.scopes[t]
    ensures TablesOf(r, s) == Step(TablesOf(p, s), c)
  {
    var p1 := Renamed(p, s, c.oldName, c.newName);
    assert p1.scopes[PROGRAM] == p.scopes[PROGRAM];
    var p2 := if c.topLevel then Renamed(p1, PROGRAM, c.oldName, c.newName) else p1;
    var r := MarkRenamed(p2, c.binding);
    SameShapeTrans(p, p1, p2);
    SameShapeTrans(p, p2, r);
    r
  }

  /** Tables `s` and the program scope's decide, with the rest unchanged, every table's entry for `n`. */
  lemma AgreeFromTables(p: Program, q: Program, s: ScopeId, n: string)
    requires 0 < s < |p.scopes| && |q.scopes| == |p.scopes|
    requires forall t :: 0 <= t < |p.scopes| && t != s && t != PROGRAM ==> q.scopes[t] == p.scopes[t]
    requires TablesOf(q, s).local.Get(n) == TablesOf(p, s).local.Get(n)
    requires TablesOf(q, s).top.Get(n) == TablesOf(p, s).top.Get(n)
    ensures TablesAgree(p, q, n)
  {
  }

  /** The renames of a plan, in order, on the program the loop started from. */
  function Apply(p0: Program, s: ScopeId, snapshot: Table, commits: seq<Commit>): (r: Program)
    requires Applicable(p0, s, snapshot, commits)
    ensures WellFormed(r) && SameShape(p0, r)
    ensures forall t :: 0 <= t < |p0.scopes| && t != s && t != PROGRAM ==> r.scopes[t] == p0.scopes[t]
    ensures TablesOf(r, s) == Replay(TablesOf(p0, s), commits)
    decreases |commits|
  {
    if commits == [] then p0
    else
      var init := commits[..|commits| - 1];
      var c := commits[|commits| - 1];
      ApplicableInit(p0, s, snapshot, commits);
      var p := Apply(p0, s, snapshot, init);
      ReplayKeepsName(TablesOf(p0, s), init, c.oldName);
      AgreeFromTables(p0, p, s, c.oldName);
      LookupAgree(p0.scopes, p.scopes, s, c.oldName);
      var r := ApplyCommit(p, s, c);
      SameShapeTrans(p0, p, r);
      r
  }

  lemma ApplicableInit(p0: Program, s: ScopeId, snapshot: Table, commits: seq<Commit>)
    requires Applicable(p0, s, snapshot, commits) && commits != []
    ensures Applicable(p0, s, snapshot, commits[..|commits| - 1])
    ensures var c := commits[|commits| - 1];
      && snapshot.Has(c.oldName) && c.oldName != c.newName
      && c.oldName !in OldNames(commits[..|commits| - 1]) && c.oldName !in NewNames(commits[..|commits| - 1])
  {
    var init := commits[..|commits| - 1];
    assert forall a :: 0 <= a < |init| ==> init[a] == commits[a];
  }

  /** A name no rename of the plan touches has the same entry in every table as at the start. */
  lemma ApplyKeepsName(p0: Program, s: ScopeId, snapshot: Table, commits: seq<Commit>, n: string)
    requires Applicable(p0, s, snapshot, commits) && n !in OldNames(commits) && n !in NewNames(commits)
    ensures TablesAgree(p0, Apply(p0, s, snapshot, commits), n)
  {
    ReplayKeepsName(TablesOf(p0, s), commits, n);
    AgreeFromTables(p0, Apply(p0, s, snapshot, commits), s, n);
  }

  /**
   * After the plan, each rename it made still holds: in scope `s` (and in the
   * program scope when top-level) the old name is gone and the new name binds
   * the renamed binding.
   */
  lemma ApplyCommitted(p0: Program, s: ScopeId, snapshot: Table, commits: seq<Commit>, a: nat)
    requires Applicable(p0, s, snapshot, commits) && a < |commits|
    ensures Holds(TablesOf(Apply(p0, s, snapshot, commits), s), commits[a])
  {
    ApplicableSeparate(p0, s, snapshot, commits);
    ReplayCommitted(TablesOf(p0, s), commits, a);
  }

  /** The last rename of a plan marks its binding renamed and no other. */
  lemma ApplyFlagsStep(p0: Program, s: ScopeId, snapshot: Table, commits: seq<Commit>, b: BindingId)
    requires Applicable(p0, s, snapshot, commits) && commits != [] && b < |p0.bindings|
    ensures Applicable(p0, s, snapshot, commits[..|commits| - 1])
    ensures Apply(p0, s, snapshot, commits).bindings[b].renamed ==
      (Apply(p0, s, snapshot, commits[..|commits| - 1]).bindings[b].renamed || b == commits[|commits| - 1].binding)
  {
    ApplicableInit(p0, s, snapshot, commits);
  }

  /** After the plan, exactly the bindings renamed before or by the plan are marked renamed. */
  lemma {:induction false} ApplyFlags(p0: Program, s: ScopeId, snapshot: Table, commits: seq<Commit>, b: BindingId)
    requires Applicable(p0, s, snapshot, commits) && b < |p0.bindings|
    ensures Apply(p0, s, snapshot, commits).bindings[b].renamed == (p0.bindings[b].renamed || b in RenamedBindings(commits))
    decreases |commits|
  {
    if commits != [] {
      ApplyFlagsStep(p0, s, snapshot, commits, b);
      RenamedBindingsSnoc(commits, b);
      ApplyFlags(p0, s, snapshot, commits[..|commits| - 1], b);
    }
  }

  /** The plan renames binding `b` exactly when some name of the snapshot binds it and is not kept for another reason. */
  lemma {:induction false} PlanRenamedBindings(p0: Program, s: ScopeId, snapshot: Table, k: nat, opts: Options,
                                               reserved: set<string>, chars: seq<char>, b: BindingId)
    requires 0 < s < |p0.scopes| && Alphabet(chars) && k <= |snapshot.keys|
    requires snapshot.Valid() && snapshot.ValuesBelow(|p0.bindings|) && b < |p0.bindings|
    ensures b in RenamedBindings(PlanNames(p0, s, snapshot, k, opts, reserved, chars).commits) <==>
      !p0.bindings[b].renamed
      && exists m :: 0 <= m < k && snapshot.Get(snapshot.keys[m]) == Some(b)
                     && !StaticallyKept(p0, opts, s, snapshot.keys[m], b)
    decreases k
  {
    if k > 0 {
      PlanNamesSnoc(p0, s, snapshot, k, opts, reserved, chars);
      PlanRenamedBindings(p0, s, snapshot, k - 1, opts, reserved, chars, b);
      var pl := PlanNames(p0, s, snapshot, k - 1, opts, reserved, chars);
      var r := PlanNames(p0, s, snapshot, k, opts, reserved, chars);
      if |r.commits| == |pl.commits| + 1 {
        RenamedBindingsSnoc(r.commits, b);
        assert r.commits[..|r.commits| - 1] == pl.commits;
      }
      if b in RenamedBindings(r.commits) {
        var a :| 0 <= a < |r.commits| && r.commits[a].binding == b;
        PlanCommitSource(p0, s, snapshot, k, opts, reserved, chars, a);
      }
    }
  }

  // ---------------------------------------------------------------------------
  // The loop reads the current program, the plan the start program
  // ---------------------------------------------------------------------------

  /** The reasons to keep a name, and `isTopLevel`, read only the binding's kind and the tables' entries for that name. */
  lemma StaticallyKeptAgree(p: Program, q: Program, opts: Options, s: ScopeId, name: string, b: BindingId)
    requires SameShape(p, q) && s < |p.scopes| && b < |p.bindings| && TablesAgree(p, q, name)
    ensures IsTopLevel(q.scopes, name, b) == IsTopLevel(p.scopes, name, b)
    ensures StaticallyKept(q, opts, s, name, b) == StaticallyKept(p, opts, s, name, b)
  {
    assert q.scopes[s].parent == p.scopes[s].parent;
    assert q.bindings[b].kind == p.bindings[b].kind;
    assert q.scopes[s].bindings.Get(name) == p.scopes[s].bindings.Get(name);
    assert q.scopes[PROGRAM].bindings.Get(name) == p.scopes[PROGRAM].bindings.Get(name);
  }

  /**
   * At name `k` of the snapshot, after the renames planned for the names
   * before it, the loop finds on the current program what the plan reads
   * from the start program: the same reasons to keep the name, the same
   * `isTopLevel`, the same binding for `getBinding`, and the same rejected
   * candidates.
   */
  lemma LoopSees(p0: Program, s: ScopeId, snapshot: Table, k: nat, opts: Options,
                 reserved: set<string>, chars: seq<char>)
    requires SnapshotOf(p0, s, snapshot) && Alphabet(chars) && k < |snapshot.keys|
    ensures Applicable(p0, s, snapshot, PlanNames(p0, s, snapshot, k, opts, reserved, chars).commits)
    ensures var commits := PlanNames(p0, s, snapshot, k, opts, reserved, chars).commits;
      var p := Apply(p0, s, snapshot, commits);
      var name := snapshot.keys[k];
      && name in snapshot.entries && snapshot.entries[name] < |p0.bindings|
      && var b := snapshot.entries[name];
      && Kept(p, opts, s, name, b) == (p0.bindings[b].renamed || b in RenamedBindings(commits) || StaticallyKept(p0, opts, s, name, b))
      && IsTopLevel(p.scopes, name, b) == IsTopLevel(p0.scopes, name, b)
      && Lookup(p.scopes, s, name) == Some(b)
      && Rejected(reserved, snapshot, p.scopes[s]) == Rejected(reserved, snapshot, p0.scopes[s])
  {
    PlanApplicable(p0, s, snapshot, k, opts, reserved, chars);
    var commits := PlanNames(p0, s, snapshot, k, opts, reserved, chars).commits;
    var p := Apply(p0, s, snapshot, commits);
    var name := snapshot.keys[k];
    assert name in snapshot.entries;
    var b := snapshot.entries[name];
    forall a | 0 <= a < |commits| ensures commits[a].oldName != name && commits[a].newName != name {
      PlanCommitSource(p0, s, snapshot, k, opts, reserved, chars, a);
      PlanCommit(p0, s, snapshot, k, opts, reserved, chars, a);
    }
    ApplyKeepsName(p0, s, snapshot, commits, name);
    ApplyFlags(p0, s, snapshot, commits, b);
    StaticallyKeptAgree(p0, p, opts, s, name, b);
    LookupAgree(p0.scopes, p.scopes, s, name);
    assert p.scopes[s].globals == p0.scopes[s].globals && p.scopes[s].references == p0.scopes[s].references;
  }

  /** One turn of the loop of `mangle` on a name the current program `p` keeps: the plan stays as it is. */
  lemma LoopKeeps(p0: Program, s: ScopeId, snapshot: Table, k: nat, opts: Options,
                  reserved: set<string>, chars: seq<char>)
    requires SnapshotOf(p0, s, snapshot) && Alphabet(chars) && k < |snapshot.keys|
    ensures Applicable(p0, s, snapshot, PlanNames(p0, s, snapshot, k, opts, reserved, chars).commits)
    ensures var pl := PlanNames(p0, s, snapshot, k, opts, reserved, chars);
      var p := Apply(p0, s, snapshot, pl.commits);
      var name := snapshot.keys[k];
      && name in snapshot.entries && snapshot.entries[name] < |p.bindings|
      && (Kept(p, opts, s, name, snapshot.entries[name]) ==> PlanNames(p0, s, snapshot, k + 1, opts, reserved, chars) == pl)
  {
    LoopSees(p0, s, snapshot, k, opts, reserved, chars);
    var pl := PlanNames(p0, s, snapshot, k, opts, reserved, chars);
    var name := snapshot.keys[k];
    if Kept(Apply(p0, s, snapshot, pl.commits), opts, s, name, snapshot.entries[name]) {
      PlanNamesStays(p0, s, snapshot, k, opts, reserved, chars);
    }
  }

  /**
   * One turn of the loop of `mangle` on a name the current program `p` does
   * not keep: the name takes the first free candidate from the counter on
   * (the counter then stands one past it), the plan grows by that rename, and
   * the program becomes `p` with that one rename applied.
   */
  lemma LoopRenames(p0: Program, s: ScopeId, snapshot: Table, k: nat, opts: Options, reserved: set<string>,
                    chars: seq<char>, commits: seq<Commit>, i: nat, p: Program, name: string, b: BindingId, i': nat)
    requires SnapshotOf(p0, s, snapshot) && Alphabet(chars) && k < |snapshot.keys|
    requires Plan(commits, i) == PlanNames(p0, s, snapshot, k, opts, reserved, chars) && Applicable(p0, s, snapshot, commits)
    requires p == Apply(p0, s, snapshot, commits)
    requires name == snapshot.keys[k] && name in snapshot.entries && b == snapshot.entries[name] && b < |p.bindings|
    requires !Kept(p, opts, s, name, b)
    requires i' == FirstFree(chars, Rejected(reserved, snapshot, p.scopes[s]), i) + 1
    ensures Lookup(p.scopes, s, name) == Some(b)
    ensures var c := Commit(name, Ident(chars, i' - 1), i' - 1, b, IsTopLevel(p.scopes, name, b));
      && Plan(commits + [c], i') == PlanNames(p0, s, snapshot, k + 1, opts, reserved, chars)
      && Applicable(p0, s, snapshot, commits + [c])
      && Apply(p0, s, snapshot, commits + [c]) == ApplyCommit(p, s, c)
  {
    LoopSees(p0, s, snapshot, k, opts, reserved, chars);
    PlanNamesGrows(p0, s, snapshot, k, opts, reserved, chars);
    PlanApplicable(p0, s, snapshot, k + 1, opts, reserved, chars);
    var c := Commit(name, Ident(chars, i' - 1), i' - 1, b, IsTopLevel(p.scopes, name, b));
    ApplySnoc(p0, s, snapshot, commits, c);
  }

  /** A plan one rename longer is the shorter plan's program with that rename applied. */
  lemma ApplySnoc(p0: Program, s: ScopeId, snapshot: Table, commits: seq<Commit>, c: Commit)
    requires Applicable(p0, s, snapshot, commits) && Applicable(p0, s, snapshot, commits + [c])
    requires c.binding < |p0.bindings| && Lookup(Apply(p0, s, snapshot, commits).scopes, s, c.oldName) == Some(c.binding)
    requires c.topLevel ==> IsTopLevel(Apply(p0, s, snapshot, commits).scopes, c.oldName, c.binding)
    ensures Apply(p0, s, snapshot, commits + [c]) == ApplyCommit(Apply(p0, s, snapshot, commits), s, c)
  {
    assert (commits + [c])[..|commits|] == commits;
  }

  // ---------------------------------------------------------------------------
  // The traversal: one visit per Scopable node
  // ---------------------------------------------------------------------------

  /**
   * The `Scopable` visitor of `mangle` for scope `s`: scopes with a direct
   * `eval` are skipped unless the `eval` option is set, a scope is handled at
   * most once, and otherwise the loop runs over the names of the snapshot
   * `getAllBindings()`.
   */
  function AfterScope(p: Program, visited: set<ScopeId>, s: ScopeId, opts: Options,
                      reserved: set<string>, chars: seq<char>): (r: (Program, set<ScopeId>))
    requires WellFormed(p) && 0 < s < |p.scopes| && Alphabet(chars)
    ensures WellFormed(r.0) && SameShape(p, r.0)
    ensures forall t :: 0 <= t < |p.scopes| && t != s && t != PROGRAM ==> r.0.scopes[t] == p.scopes[t]
  {
    if !opts.eval && p.scopes[s].hasEval then (p, visited)
    else if s in visited then (p, visited)
    else (Mangled(p, s, opts, reserved, chars), visited + {s})
  }

  /** The loop over the names of the snapshot `getAllBindings()` of scope `s`, run to the end. */
  function Mangled(p: Program, s: ScopeId, opts: Options, reserved: set<string>, chars: seq<char>): (r: Program)
    requires WellFormed(p) && 0 < s < |p.scopes| && Alphabet(chars)
    ensures WellFormed(r) && SameShape(p, r)
    ensures forall t :: 0 <= t < |p.scopes| && t != s && t != PROGRAM ==> r.scopes[t] == p.scopes[t]
  {
    var snapshot := AllBindings(p.scopes, s);
    AllBindingsLookup(p.scopes, s);
    AllBindingsBelow(p.scopes, s, |p.bindings|);
    var plan := PlanNames(p, s, snapshot, |snapshot.keys|, opts, reserved, chars);
    PlanApplicable(p, s, snapshot, |snapshot.keys|, opts, reserved, chars);
    Apply(p, s, snapshot, plan.commits)
  }

  /** Every scope of the traversal order is a scope of the program other than the program scope. */
  predicate InnerScopes(p: Program, order: seq<ScopeId>)
  {
    forall k :: 0 <= k < |order| ==> 0 < order[k] < |p.scopes|
  }

  /** `program.traverse` with the `Scopable` visitor, given the scopes in the order it meets them. */
  function AfterTraversal(p: Program, visited: set<ScopeId>, order: seq<ScopeId>, opts: Options,
                          reserved: set<string>, chars: seq<char>): (r: (Program, set<ScopeId>))
    requires WellFormed(p) && Alphabet(chars) && InnerScopes(p, order)
    ensures WellFormed(r.0) && SameShape(p, r.0)
    decreases |order|
  {
    if order == [] then (p, visited)
    else
      var q := AfterTraversal(p, visited, order[..|order| - 1], opts, reserved, chars);
      var r := AfterScope(q.0, q.1, order[|order| - 1], opts, reserved, chars);
      SameShapeTrans(p, q.0, r.0);
      r
  }

  /** The traversal of a prefix of `order` one scope longer. */
  lemma AfterTraversalPrefix(p: Program, visited: set<ScopeId>, order: seq<ScopeId>, k: nat, opts: Options,
                             reserved: set<string>, chars: seq<char>)
    requires WellFormed(p) && Alphabet(chars) && InnerScopes(p, order) && k < |order|
    ensures InnerScopes(p, order[..k]) && InnerScopes(p, order[..k + 1])
    ensures var q := AfterTraversal(p, visited, order[..k], opts, reserved, chars);
      0 < order[k] < |q.0.scopes| &&
      AfterTraversal(p, visited, order[..k + 1], opts, reserved, chars) == AfterScope(q.0, q.1, order[k], opts, reserved, chars)
  {
    assert order[..k + 1][..k] == order[..k];
    AfterTraversalSnoc(p, visited, order[..k + 1], opts, reserved, chars);
  }

  /** The scopes of `order` the visitor does not skip for `eval`. */
  function Handled(p: Program, order: seq<ScopeId>, opts: Options): set<ScopeId>
    requires InnerScopes(p, order)
  {
    set k | 0 <= k < |order| && (opts.eval || !p.scopes[order[k]].hasEval) :: order[k]
  }

  /** The traversal of `order` is the traversal of all but its last scope, then that scope. */
  lemma AfterTraversalSnoc(p: Program, visited: set<ScopeId>, order: seq<ScopeId>, opts: Options,
                           reserved: set<string>, chars: seq<char>)
    requires WellFormed(p) && Alphabet(chars) && InnerScopes(p, order) && order != []
    ensures InnerScopes(p, order[..|order| - 1])
    ensures var q := AfterTraversal(p, visited, order[..|order| - 1], opts, reserved, chars);
      var t := order[|order| - 1];
      && 0 < t < |q.0.scopes| && q.0.scopes[t].hasEval == p.scopes[t].hasEval
      && AfterTraversal(p, visited, order, opts, reserved, chars) == AfterScope(q.0, q.1, t, opts, reserved, chars)
  {
  }

  /** The visitor adds the scope to the visited ones exactly when it does not skip it for `eval`. */
  lemma AfterScopeVisited(p: Program, visited: set<ScopeId>, s: ScopeId, opts: Options,
                          reserved: set<string>, chars: seq<char>)
    requires WellFormed(p) && 0 < s < |p.scopes| && Alphabet(chars)
    ensures AfterScope(p, visited, s, opts, reserved, chars).1 == visited + (if opts.eval || !p.scopes[s].hasEval then {s} else {})
  {
  }

  /** After the traversal, the visited scopes are the earlier ones and every scope met that has no `eval` (or all met, with the `eval` option). */
  lemma {:induction false} TraversalVisited(p: Program, visited: set<ScopeId>, order: seq<ScopeId>, opts: Options,
                                            reserved: set<string>, chars: seq<char>)
    requires WellFormed(p) && Alphabet(chars) && InnerScopes(p, order)
    ensures AfterTraversal(p, visited, order, opts, reserved, chars).1 == visited + Handled(p, order, opts)
    decreases |order|
  {
    if order != [] {
      var init := order[..|order| - 1];
      var t := order[|order| - 1];
      AfterTraversalSnoc(p, visited, order, opts, reserved, chars);
      TraversalVisited(p, visited, init, opts, reserved, chars);
      var q := AfterTraversal(p, visited, init, opts, reserved, chars);
      AfterScopeVisited(q.0, q.1, t, opts, reserved, chars);
      HandledSnoc(p, order, opts);
    }
  }

  lemma HandledSnoc(p: Program, order: seq<ScopeId>, opts: Options)
    requires InnerScopes(p, order) && order != []
    ensures InnerScopes(p, order[..|order| - 1])
    ensures var t := order[|order| - 1];
      Handled(p, order, opts) ==
        Handled(p, order[..|order| - 1], opts) + (if opts.eval || !p.scopes[t].hasEval then {t} else {})
  {
    var init := order[..|order| - 1];
    assert forall k :: 0 <= k < |init| ==> init[k] == order[k];
  }

  /** Meeting a scope a second time changes nothing: each scope is mangled at most once. */
  lemma TraversalRevisit(p: Program, visited: set<ScopeId>, order: seq<ScopeId>, t: ScopeId, opts: Options,
                         reserved: set<string>, chars: seq<char>)
    requires WellFormed(p) && Alphabet(chars) && InnerScopes(p, order) && t in order
    ensures InnerScopes(p, order + [t])
    ensures AfterTraversal(p, visited, order + [t], opts, reserved, chars) == AfterTraversal(p, visited, order, opts, reserved, chars)
  {
    assert (order + [t])[..|order|] == order;
    AfterTraversalSnoc(p, visited, order + [t], opts, reserved, chars);
    TraversalVisited(p, visited, order, opts, reserved, chars);
    var k :| 0 <= k < |order| && order[k] == t;
  }

  /** Without the `eval` option, the table of a scope marked as containing `eval` is never changed. */
  lemma {:induction false} TraversalSparesEval(p: Program, visited: set<ScopeId>, order: seq<ScopeId>, opts: Options,
                                               reserved: set<string>, chars: seq<char>, t: ScopeId)
    requires WellFormed(p) && Alphabet(chars) && InnerScopes(p, order)
    requires !opts.eval && 0 < t < |p.scopes| && p.scopes[t].hasEval
    ensures AfterTraversal(p, visited, order, opts, reserved, chars).0.scopes[t] == p.scopes[t]
    decreases |order|
  {
    if order != [] {
      var init := order[..|order| - 1];
      AfterTraversalSnoc(p, visited, order, opts, reserved, chars);
      TraversalSparesEval(p, visited, init, opts, reserved, chars, t);
    }
  }

  /**
   * `var x; function f() { eval("x") } function g() {}`: the program scope is
   * marked as containing `eval` (it encloses `f`), scope 1 is `g`. With the
   * `topLevel` option the visitor of `g` counts the program scope's bindings
   * as its own and renames the top-level `x`, so the program scope is not
   * spared although it contains `eval`.
   */
  function EvalProgram(): Program
  {
    Program(
      [Scope(None, Table(["x"], map["x" := 0]), true, {}, {}), Scope(Some(PROGRAM), EMPTY, false, {}, {})],
      [Binding(0, OtherDeclaration, [], [], false)],
      ["x"])
  }

  lemma EvalProgramSnapshot()
    ensures WellFormed(EvalProgram()) && InnerScopes(EvalProgram(), [1])
    ensures SnapshotOf(EvalProgram(), 1, AllBindings(EvalProgram().scopes, 1))
    ensures AllBindings(EvalProgram().scopes, 1).Get("x") == Some(0)
    ensures forall n :: AllBindings(EvalProgram().scopes, 1).Get(n) == Some(0) ==> n == "x"
  {
    var p := EvalProgram();
    assert DistinctNames(p.scopes[PROGRAM].bindings.keys);
    assert WellFormed(p);
    AllBindingsLookup(p.scopes, 1);
    AllBindingsBelow(p.scopes, 1, |p.bindings|);
  }

  /** With `topLevel` on and no other option, the top-level `x` of `EvalProgram` is renamed by the visitor of scope 1. */
  lemma EvalProgramCommit(opts: Options)
    requires opts == Options({}, false, false, false, true)
    ensures WellFormed(EvalProgram()) && Alphabet(CHARSET)
    ensures var p := EvalProgram();
      var snapshot := AllBindings(p.scopes, 1);
      var commits := PlanNames(p, 1, snapshot, |snapshot.keys|, opts, {}, CHARSET).commits;
      && Applicable(p, 1, snapshot, commits)
      && exists a :: 0 <= a < |commits| && commits[a].oldName == "x" && commits[a].topLevel
  {
    CharsetAlphabet();
    EvalProgramSnapshot();
    var p := EvalProgram();
    var snapshot := AllBindings(p.scopes, 1);
    var m :| 0 <= m < |snapshot.keys| && snapshot.keys[m] == "x";
    assert !StaticallyKept(p, opts, 1, "x", 0);
    var k := |snapshot.keys|;
    PlanRenamedBindings(p, 1, snapshot, k, opts, {}, CHARSET, 0);
    var commits := PlanNames(p, 1, snapshot, k, opts, {}, CHARSET).commits;
    var a :| 0 <= a < |commits| && commits[a].binding == 0;
    PlanCommitSource(p, 1, snapshot, k, opts, {}, CHARSET, a);
    PlanApplicable(p, 1, snapshot, k, opts, {}, CHARSET);
  }

  /** A traversal that meets one scope without `eval` runs that scope's loop. */
  lemma TraversalOfOne(p: Program, s: ScopeId, opts: Options, reserved: set<string>, chars: seq<char>)
    requires WellFormed(p) && 0 < s < |p.scopes| && Alphabet(chars) && !p.scopes[s].hasEval
    ensures InnerScopes(p, [s])
    ensures AfterTraversal(p, {}, [s], opts, reserved, chars) == (Mangled(p, s, opts, reserved, chars), {s})
  {
    assert [s][..0] == [];
    AfterTraversalSnoc(p, {}, [s], opts, reserved, chars);
    assert AfterTraversal(p, {}, [s][..0], opts, reserved, chars) == (p, {});
    var visited: set<ScopeId> := {};
    assert s !in visited && visited + {s} == {s};
    assert AfterScope(p, visited, s, opts, reserved, chars) == (Mangled(p, s, opts, reserved, chars), {s});
  }

  lemma TopLevelEvalRenamed()
    ensures var p := EvalProgram();
      var opts := Options({}, false, false, false, true);
      && Alphabet(CHARSET) && WellFormed(p) && InnerScopes(p, [1])
      && p.scopes[PROGRAM].hasEval && !opts.eval
      && AfterTraversal(p, {}, [1], opts, {}, CHARSET).0.scopes[PROGRAM].bindings.Get("x") == None
      && p.scopes[PROGRAM].bindings.Get("x") == Some(0)
  {
    var p := EvalProgram();
    var opts := Options({}, false, false, false, true);
    EvalProgramSnapshot();
    EvalProgramCommit(opts);
    var snapshot := AllBindings(p.scopes, 1);
    var commits := PlanNames(p, 1, snapshot, |snapshot.keys|, opts, {}, CHARSET).commits;
    var a :| 0 <= a < |commits| && commits[a].oldName == "x" && commits[a].topLevel;
    ApplyCommitted(p, 1, snapshot, commits, a);
    TraversalOfOne(p, 1, opts, {}, CHARSET);
  }
}
