/**
 * deep_first_search_by_pc: the walk over a DIE tree that finds the DIEs
 * whose code covers a program counter and hands each of them, innermost
 * first, to a callback.  Both backends have one; the libdwarf one also keeps
 * a stack of the enclosing namespace and class names.
 *
 * The callback does not influence the walk, so the walk is stated as the
 * list of its callback invocations (Visit: the DIE, its path of child
 * positions below the search root, and the namespace stack at that moment);
 * die_names.dfy applies the callbacks to that list in order.
 */
module DieSearch {
  import opened Common
  import opened Dies

  datatype Dialect = Libdw | Libdwarf

  datatype Visit = Visit(path: seq<nat>, die: Die, ns: seq<string>)

  /** What a search returns: its result, the namespace stack afterwards, and the callback invocations. */
  datatype Search = Search(hit: bool, ns: seq<string>, visits: seq<Visit>)

  /** Only the libdwarf walk keeps names: of namespaces and of classes. */
  predicate OpensScope(dl: Dialect, c: Die)
  {
    dl == Libdwarf && (c.tag == Namespace || c.tag == ClassType)
  }

  function ScopeName(c: Die): string
  {
    if c.name.Some? then c.name.value else "<unknown>"
  }

  /** The libdwarf walk does not read DW_AT_declaration of a class. */
  predicate IsDeclaration(dl: Dialect, c: Die)
  {
    c.declaration && !(dl == Libdwarf && c.tag == ClassType)
  }

  function HasPcIn(dl: Dialect, c: Die, pc: U64): bool
  {
    if dl == Libdwarf then DieHasPc(c, pc) else DieHasPcDw(c, pc)
  }

  /** ns.pop_back() */
  function Pop(ns: seq<string>): (r: seq<string>)
    ensures ns != [] ==> r + [ns[|ns| - 1]] == ns
    ensures ns == [] ==> r == []
  {
    if ns == [] then [] else ns[..|ns| - 1]
  }

  /** The search below `parent`, whose own path is `path`. */
  function Dfs(dl: Dialect, parent: Die, pc: U64, ns: seq<string>, path: seq<nat>): (r: Search)
    ensures r.hit ==> r.visits != []
    ensures dl == Libdw ==> r.ns == ns
    decreases parent, 1
  {
    if |parent.children| == 0 then Search(false, ns, [])
    else Siblings(dl, parent, 0, pc, ns, path, false)
  }

  /**
   * One turn of the sibling loop: child c, entered with branch_has_pc ==
   * branch.  A declaration is not searched and keeps the branch_has_pc of
   * the previous sibling; c itself is handed to the callback when its
   * branch covers pc.  The namespace stack is returned before the pop.
   */
  function Child(dl: Dialect, c: Die, pc: U64, ns: seq<string>, here: seq<nat>, branch: bool): (r: Search)
    ensures r.hit ==> r.visits != [] && r.visits[|r.visits| - 1] == Visit(here, c, r.ns)
    ensures branch && IsDeclaration(dl, c) ==> r.hit
    ensures dl == Libdw ==> r.ns == ns
    decreases c, 2
  {
    var ns1 := if OpensScope(dl, c) then ns + [ScopeName(c)] else ns;
    var sub := if IsDeclaration(dl, c) then Search(branch, ns1, []) else Dfs(dl, c, pc, ns1, here);
    var hit := sub.hit || HasPcIn(dl, c, pc);
    Search(hit, sub.ns, sub.visits + (if hit then [Visit(here, c, sub.ns)] else []))
  }

  /**
   * The sibling loop from child i on.  After a child whose sibling cannot
   * be read, libdwarf returns false at once, without popping the child's
   * name; libdw ends the loop normally.
   */
  function Siblings(dl: Dialect, parent: Die, i: nat, pc: U64, ns: seq<string>, path: seq<nat>, branch: bool): (r: Search)
    requires i <= |parent.children|
    ensures r.hit ==> branch || r.visits != []
    ensures dl == Libdw ==> r.ns == ns
    decreases parent, 0, |parent.children| - i
  {
    if i == |parent.children| then Search(branch, ns, [])
    else
      var c := parent.children[i];
      var ch := Child(dl, c, pc, ns, path + [i], branch);
      if c.siblingError then Search(dl == Libdw && ch.hit, ch.ns, ch.visits)
      else
        var rest := Siblings(dl, parent, i + 1, pc, if OpensScope(dl, c) then Pop(ch.ns) else ch.ns, path, ch.hit);
        Search(rest.hit, rest.ns, ch.visits + rest.visits)
  }

  /** deep_first_search_by_pc, with the namespace vector passed in and out. */
  method DeepFirstSearchByPc(dl: Dialect, parent: Die, pc: U64, ns: seq<string>, path: seq<nat>)
    returns (hit: bool, nsOut: seq<string>, visits: seq<Visit>)
    ensures Search(hit, nsOut, visits) == Dfs(dl, parent, pc, ns, path)
    decreases parent, 1
  {
    hit, nsOut, visits := false, ns, [];
    if |parent.children| == 0 {
      return;
    }
    ghost var final := Dfs(dl, parent, pc, ns, path);
    var i := 0;
    while true
      invariant i < |parent.children|
      invariant Siblings(dl, parent, i, pc, nsOut, path, hit).hit == final.hit
      invariant Siblings(dl, parent, i, pc, nsOut, path, hit).ns == final.ns
      invariant visits + Siblings(dl, parent, i, pc, nsOut, path, hit).visits == final.visits
      decreases |parent.children| - i
    {
      var c := parent.children[i];
      ghost var nsBefore, hitBefore, prefix := nsOut, hit, visits;
      var hasNamespace := dl == Libdwarf && (c.tag == Namespace || c.tag == ClassType);
      var childVisits;
      hit, nsOut, childVisits := SearchChild(dl, c, pc, nsOut, path + [i], hit);
      SiblingsStep(dl, parent, i, pc, nsBefore, path, hitBefore, Search(hit, nsOut, childVisits));
      visits := visits + childVisits;
      if c.siblingError {
        if dl == Libdwarf {
          hit := false;
        }
        return;
      }
      if hasNamespace {
        nsOut := Pop(nsOut);
      }
      ConcatAssociative(prefix, childVisits, Siblings(dl, parent, i + 1, pc, nsOut, path, hit).visits);
      if i + 1 == |parent.children| {
        return;
      }
      i := i + 1;
    }
  }

  /** One turn of the sibling loop, with the child's result given. */
  lemma SiblingsStep(dl: Dialect, parent: Die, i: nat, pc: U64, ns: seq<string>, path: seq<nat>, branch: bool, ch: Search)
    requires i < |parent.children|
    requires ch == Child(dl, parent.children[i], pc, ns, path + [i], branch)
    ensures parent.children[i].siblingError ==>
      Siblings(dl, parent, i, pc, ns, path, branch) == Search(dl == Libdw && ch.hit, ch.ns, ch.visits)
    ensures !parent.children[i].siblingError ==>
      var c := parent.children[i];
      var rest := Siblings(dl, parent, i + 1, pc, if OpensScope(dl, c) then Pop(ch.ns) else ch.ns, path, ch.hit);
      Siblings(dl, parent, i, pc, ns, path, branch) == Search(rest.hit, rest.ns, ch.visits + rest.visits)
  {
  }

  /** The body of the sibling loop, up to the read of the next sibling. */
  method SearchChild(dl: Dialect, c: Die, pc: U64, ns: seq<string>, here: seq<nat>, branch: bool)
    returns (hit: bool, nsOut: seq<string>, visits: seq<Visit>)
    ensures Search(hit, nsOut, visits) == Child(dl, c, pc, ns, here, branch)
    decreases c, 2
  {
    hit, nsOut, visits := branch, ns, [];
    if dl == Libdwarf && (c.tag == Namespace || c.tag == ClassType) {
      nsOut := nsOut + [if c.name.Some? then c.name.value else "<unknown>"];
    }
    var declaration := c.declaration && !(dl == Libdwarf && c.tag == ClassType);
    if !declaration {
      hit, nsOut, visits := DeepFirstSearchByPc(dl, c, pc, nsOut, here);
    }
    if !hit {
      if dl == Libdwarf {
        hit := HasPc(c, pc);
      } else {
        hit := HasPcDw(c, pc);
      }
    }
    if hit {
      visits := visits + [Visit(here, c, nsOut)];
    }
  }

  // ---------------------------------------------------------------------
  // The namespace stack

  /** No sibling chain in the tree below d breaks off with an error. */
  ghost predicate NoSiblingErrors(d: Die)
    decreases d
  {
    forall i :: 0 <= i < |d.children| ==> !d.children[i].siblingError && NoSiblingErrors(d.children[i])
  }

  lemma PopPush(ns: seq<string>, x: string)
    ensures Pop(ns + [x]) == ns
  {
    assert (ns + [x])[..|ns|] == ns;
  }

  /** Without errors the search returns the namespace stack as it found it. */
  lemma {:induction false} NsRestored(dl: Dialect, parent: Die, pc: U64, ns: seq<string>, path: seq<nat>)
    requires NoSiblingErrors(parent)
    ensures Dfs(dl, parent, pc, ns, path).ns == ns
    decreases parent, 1
  {
    if |parent.children| != 0 {
      SiblingsRestoreNs(dl, parent, 0, pc, ns, path, false);
    }
  }

  lemma {:induction false} SiblingsRestoreNs(dl: Dialect, parent: Die, i: nat, pc: U64, ns: seq<string>, path: seq<nat>, branch: bool)
    requires i <= |parent.children|
    requires NoSiblingErrors(parent)
    ensures Siblings(dl, parent, i, pc, ns, path, branch).ns == ns
    decreases parent, 0, |parent.children| - i
  {
    if i < |parent.children| {
      var c := parent.children[i];
      var ns1 := if OpensScope(dl, c) then ns + [ScopeName(c)] else ns;
      if !IsDeclaration(dl, c) {
        NsRestored(dl, c, pc, ns1, path + [i]);
      }
      if OpensScope(dl, c) {
        PopPush(ns, ScopeName(c));
      }
      var sub := if IsDeclaration(dl, c) then Search(branch, ns1, []) else Dfs(dl, c, pc, ns1, path + [i]);
      var hit := sub.hit || HasPcIn(dl, c, pc);
      SiblingsRestoreNs(dl, parent, i + 1, pc, ns, path, hit);
    }
  }

  /**
   * The error path of the libdwarf walk: when the sibling of a namespace
   * cannot be read, the search returns false with the namespace's name still
   * on the stack.
   */
  lemma ErrorLeavesScopeOpen(parent: Die, pc: U64, ns: seq<string>, path: seq<nat>)
    requires |parent.children| == 1
    requires parent.children[0].tag == Namespace && !parent.children[0].declaration
    requires parent.children[0].siblingError && NoSiblingErrors(parent.children[0])
    ensures Dfs(Libdwarf, parent, pc, ns, path).ns == ns + [ScopeName(parent.children[0])]
    ensures !Dfs(Libdwarf, parent, pc, ns, path).hit
  {
    var n := parent.children[0];
    NsRestored(Libdwarf, n, pc, ns + [ScopeName(n)], path + [0]);
    assert Child(Libdwarf, n, pc, ns, path + [0], false).ns == ns + [ScopeName(n)];
  }

  // ---------------------------------------------------------------------
  // Order of the callbacks

  /** p names q or an ancestor of q. */
  predicate IsPrefix(p: seq<nat>, q: seq<nat>)
  {
    |p| <= |q| && q[..|p|] == p
  }

  /** Every visit lies strictly below `path`, at child i or a later one. */
  ghost predicate Below(vs: seq<Visit>, path: seq<nat>, i: nat)
  {
    forall a :: 0 <= a < |vs| ==> |vs[a].path| > |path| && vs[a].path[..|path|] == path && vs[a].path[|path|] >= i
  }

  /** Every visit lies at `here` or below it. */
  ghost predicate Within(vs: seq<Visit>, here: seq<nat>)
  {
    forall a :: 0 <= a < |vs| ==> IsPrefix(here, vs[a].path)
  }

  /**
   * Post-order: an earlier callback is never on the same DIE as a later
   * one, nor on one of its ancestors.  A DIE is handed to the callback after
   * everything below it.
   */
  ghost predicate PostOrder(vs: seq<Visit>)
  {
    forall a, b :: 0 <= a < b < |vs| ==> !IsPrefix(vs[a].path, vs[b].path)
  }

  lemma {:induction false} DfsPostOrder(dl: Dialect, parent: Die, pc: U64, ns: seq<string>, path: seq<nat>)
    ensures Below(Dfs(dl, parent, pc, ns, path).visits, path, 0)
    ensures PostOrder(Dfs(dl, parent, pc, ns, path).visits)
    decreases parent, 1
  {
    if |parent.children| != 0 {
      SiblingsPostOrder(dl, parent, 0, pc, ns, path, false);
    }
  }

  lemma {:induction false} ChildPostOrder(dl: Dialect, c: Die, pc: U64, ns: seq<string>, here: seq<nat>, branch: bool)
    ensures Within(Child(dl, c, pc, ns, here, branch).visits, here)
    ensures PostOrder(Child(dl, c, pc, ns, here, branch).visits)
    decreases c, 2
  {
    var ns1 := if OpensScope(dl, c) then ns + [ScopeName(c)] else ns;
    var sub := if IsDeclaration(dl, c) then Search(branch, ns1, []) else Dfs(dl, c, pc, ns1, here);
    if !IsDeclaration(dl, c) {
      DfsPostOrder(dl, c, pc, ns1, here);
    }
    var hit := sub.hit || HasPcIn(dl, c, pc);
    BelowIsWithin(sub.visits, here);
    if hit {
      AncestorLast(sub.visits, Visit(here, c, sub.ns));
    } else {
      assert sub.visits + [] == sub.visits;
    }
  }

  lemma BelowIsWithin(vs: seq<Visit>, here: seq<nat>)
    requires Below(vs, here, 0)
    ensures Within(vs, here)
  {
  }

  /** The visit of an ancestor may follow the visits below it. */
  lemma AncestorLast(vs: seq<Visit>, v: Visit)
    requires Below(vs, v.path, 0) && PostOrder(vs)
    ensures Within(vs + [v], v.path) && PostOrder(vs + [v])
  {
    var all := vs + [v];
    forall a, b | 0 <= a < b < |all|
      ensures !IsPrefix(all[a].path, all[b].path)
    {
      if b == |vs| {
        assert |all[a].path| > |v.path|;
      } else {
        assert all[a] == vs[a] && all[b] == vs[b];
      }
    }
  }

  lemma {:induction false} SiblingsPostOrder(dl: Dialect, parent: Die, i: nat, pc: U64, ns: seq<string>, path: seq<nat>, branch: bool)
    requires i <= |parent.children|
    ensures Below(Siblings(dl, parent, i, pc, ns, path, branch).visits, path, i)
    ensures PostOrder(Siblings(dl, parent, i, pc, ns, path, branch).visits)
    decreases parent, 0, |parent.children| - i
  {
    if i < |parent.children| {
      var c := parent.children[i];
      var here := path + [i];
      var ch := Child(dl, c, pc, ns, here, branch);
      ChildPostOrder(dl, c, pc, ns, here, branch);
      WithinChild(ch.visits, path, i);
      if !c.siblingError {
        var ns2 := if OpensScope(dl, c) then Pop(ch.ns) else ch.ns;
        SiblingsPostOrder(dl, parent, i + 1, pc, ns2, path, ch.hit);
        Concatenate(ch.visits, Siblings(dl, parent, i + 1, pc, ns2, path, ch.hit).visits, path, i);
      }
    }
  }

  /** What lies within child i of `path` lies below `path` at child i. */
  lemma WithinChild(vs: seq<Visit>, path: seq<nat>, i: nat)
    requires Within(vs, path + [i])
    ensures Below(vs, path, i) && LocalTo(vs, path, i)
  {
    forall a | 0 <= a < |vs|
      ensures |vs[a].path| > |path| && vs[a].path[..|path|] == path && vs[a].path[|path|] == i
    {
      var q := vs[a].path;
      assert q[..|path| + 1] == path + [i];
      assert q[..|path|] == q[..|path| + 1][..|path|];
      assert q[|path|] == q[..|path| + 1][|path|];
    }
  }

  /** All visits lie in the subtree of child i of `path`. */
  ghost predicate LocalTo(vs: seq<Visit>, path: seq<nat>, i: nat)
  {
    forall a :: 0 <= a < |vs| ==> |vs[a].path| > |path| && vs[a].path[|path|] == i
  }

  /** The visits of child i followed by those of the later children keep both properties. */
  lemma Concatenate(vs: seq<Visit>, ws: seq<Visit>, path: seq<nat>, i: nat)
    requires Below(vs, path, i) && PostOrder(vs) && LocalTo(vs, path, i)
    requires Below(ws, path, i + 1) && PostOrder(ws)
    ensures Below(vs + ws, path, i) && PostOrder(vs + ws)
  {
    var all := vs + ws;
    forall a, b | 0 <= a < b < |all|
      ensures !IsPrefix(all[a].path, all[b].path)
    {
      if a < |vs| && b >= |vs| {
        assert all[a].path[|path|] == i;
        assert all[b].path[|path|] >= i + 1;
      } else if a >= |vs| {
        assert all[a] == ws[a - |vs|] && all[b] == ws[b - |vs|];
      }
    }
  }

  // ---------------------------------------------------------------------
  // The carry-over of branch_has_pc

  /**
   * A declaration that follows a sibling covering pc is handed to the
   * callback too, though it covers nothing itself: it is not searched and
   * keeps the previous sibling's branch_has_pc.
   */
  lemma DeclarationInheritsHit(dl: Dialect, parent: Die, pc: U64, ns: seq<string>, path: seq<nat>)
    requires |parent.children| == 2
    requires var a := parent.children[0];
      && !a.declaration && |a.children| == 0 && !a.siblingError && HasPcIn(dl, a, pc) && !OpensScope(dl, a)
    requires var b := parent.children[1]; IsDeclaration(dl, b) && !OpensScope(dl, b) && !b.siblingError
    ensures Dfs(dl, parent, pc, ns, path).visits
      == [Visit(path + [0], parent.children[0], ns), Visit(path + [1], parent.children[1], ns)]
    ensures Dfs(dl, parent, pc, ns, path).hit
  {
    var a := parent.children[0];
    var b := parent.children[1];
    assert Dfs(dl, a, pc, ns, path + [0]) == Search(false, ns, []);
    var first := Child(dl, a, pc, ns, path + [0], false);
    assert first == Search(true, ns, [Visit(path + [0], a, ns)]);
    var second := Child(dl, b, pc, ns, path + [1], true);
    assert second == Search(true, ns, [Visit(path + [1], b, ns)]);
    var last := Siblings(dl, parent, 1, pc, ns, path, true);
    assert Siblings(dl, parent, 2, pc, ns, path, true) == Search(true, ns, []);
    assert last == Search(true, ns, second.visits);
  }
}
