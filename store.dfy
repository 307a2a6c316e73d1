/** The metadata tree as the file stores it: every section is a record
    reachable by its id, holding its attributes (name, type, repository,
    mapping, parent id, link id), the ids of its child sections and its
    properties.  Parent and link are ids, never handles; the parent ids form
    a tree.  This stands for the storage layer under `pandora::Section`. */
module Store {

  /** A property group: its id (the group's name) and its `name` attribute. */
  datatype Property = Property(id: string, name: string)

  /** One section group.  An attribute that was never set reads as "". */
  datatype SectionRec = SectionRec(
    name: string,
    kind: string,               // the "type" attribute
    repository: string,
    mapping: string,
    parent: string,
    link: string,
    children: seq<string>,      // the "sections" subgroup, in enumeration order
    properties: seq<Property>,  // the "properties" subgroup, in enumeration order
    valuesGroup: bool)          // whether the section group itself has a "values" subgroup

  /** All sections of one file, by id. */
  type Tree = map<string, SectionRec>

  /** `File::findSection`: the sections carrying `id`; ids are unique, so
      there is at most one. */
  function FindSection(s: Tree, id: string): (r: seq<string>)
    ensures |r| <= 1
    ensures r == [] <==> id !in s
    ensures r != [] ==> r[0] == id
  {
    if id in s then [id] else []
  }

  predicate NoDup(xs: seq<string>)
  {
    forall i, j :: 0 <= i < j < |xs| ==> xs[i] != xs[j]
  }

  predicate DistinctIds(ps: seq<Property>)
  {
    forall i, j :: 0 <= i < j < |ps| ==> ps[i].id != ps[j].id
  }

  /** Following parent ids from `x` reaches a root within `k` steps. */
  ghost predicate ReachesRoot(s: Tree, x: string, k: nat)
    decreases k
  {
    x in s && (s[x].parent == "" || (k > 0 && ReachesRoot(s, s[x].parent, k - 1)))
  }

  /** A non-empty parent id names a stored section. */
  ghost predicate ParentsResolve(s: Tree)
  {
    forall x {:trigger s[x].parent} | x in s :: s[x].parent == "" || s[x].parent in s
  }

  /** Every child id names a stored section whose parent id is the holder. */
  ghost predicate ChildrenPointBack(s: Tree)
  {
    forall x, c {:trigger c in s[x].children} | x in s && c in s[x].children :: c in s && s[c].parent == x
  }

  /** A section is listed among the children of its parent. */
  ghost predicate ParentsListChild(s: Tree)
  {
    forall x {:trigger s[x].parent} | x in s && s[x].parent != "" && s[x].parent in s ::
      x in s[s[x].parent].children
  }

  /** Group names are unique within the "sections" and "properties" groups. */
  ghost predicate GroupNamesUnique(s: Tree)
  {
    forall x | x in s :: NoDup(s[x].children) && DistinctIds(s[x].properties)
  }

  /** Following parent ids from `x` reaches a root. */
  ghost predicate Rooted(s: Tree, x: string)
  {
    exists k: nat :: ReachesRoot(s, x, k)
  }

  /** Parent chains end. */
  ghost predicate Acyclic(s: Tree)
  {
    forall x | x in s :: Rooted(s, x)
  }

  /** The shape the storage layer keeps: ids are non-empty, a parent id
      names a stored section, children and parent ids mirror each other,
      group names are unique within a group, and parent chains end. */
  ghost predicate WellFormed(s: Tree)
  {
    && "" !in s
    && ParentsResolve(s)
    && ChildrenPointBack(s)
    && ParentsListChild(s)
    && GroupNamesUnique(s)
    && Acyclic(s)
  }

  /** A tree in the shape the storage layer keeps. */
  type WfTree = s: Tree | WellFormed(s) witness map[]

  ghost function DepthK(s: Tree, x: string, k: nat): nat
    requires ReachesRoot(s, x, k)
    decreases k
  {
    if s[x].parent == "" then 0 else 1 + DepthK(s, s[x].parent, k - 1)
  }

  lemma {:induction false} DepthKUnique(s: Tree, x: string, k1: nat, k2: nat)
    requires ReachesRoot(s, x, k1) && ReachesRoot(s, x, k2)
    ensures DepthK(s, x, k1) == DepthK(s, x, k2)
    decreases k1
  {
    if s[x].parent != "" {
      DepthKUnique(s, s[x].parent, k1 - 1, k2 - 1);
    }
  }

  /** The number of parent steps from `x` to its root. */
  ghost function Depth(s: WfTree, x: string): nat
    requires x in s
  {
    var k: nat :| ReachesRoot(s, x, k); DepthK(s, x, k)
  }

  lemma DepthIs(s: WfTree, x: string, k: nat)
    requires ReachesRoot(s, x, k)
    ensures Depth(s, x) == DepthK(s, x, k)
  {
    forall k1, k2 | ReachesRoot(s, x, k1) && ReachesRoot(s, x, k2)
      ensures DepthK(s, x, k1) == DepthK(s, x, k2)
    {
      DepthKUnique(s, x, k1, k2);
    }
  }

  /** A parent is one step closer to the root. */
  lemma ParentDepth(s: WfTree, x: string)
    requires x in s && s[x].parent != ""
    ensures s[x].parent in s
    ensures Depth(s, s[x].parent) + 1 == Depth(s, x)
  {
    var k: nat :| ReachesRoot(s, x, k);
    DepthIs(s, x, k);
    DepthIs(s, s[x].parent, k - 1);
  }

  /** `a` is `x` or one of its ancestors along the parent ids. */
  predicate IsAncestorOrSelf(s: WfTree, x: string, a: string)
    requires x in s
    decreases Depth(s, x)
  {
    x == a || (s[x].parent != "" && (ParentDepth(s, x); IsAncestorOrSelf(s, s[x].parent, a)))
  }

  /** `a` is a proper ancestor of `x`. */
  ghost predicate IsProperAncestor(s: WfTree, a: string, x: string)
    requires x in s
  {
    x != a && IsAncestorOrSelf(s, x, a)
  }

  /** The ids of the subtree rooted at `a` (the group `a` and everything
      nested in it). */
  function Subtree(s: WfTree, a: string): (r: set<string>)
    ensures r <= s.Keys
    ensures a in s ==> a in r
  {
    set x | x in s && IsAncestorOrSelf(s, x, a)
  }

  lemma {:induction false} AncestorDepth(s: WfTree, x: string, a: string)
    requires x in s && IsAncestorOrSelf(s, x, a)
    ensures a in s && Depth(s, a) <= Depth(s, x)
    ensures x != a ==> Depth(s, a) < Depth(s, x)
    decreases Depth(s, x)
  {
    if x != a {
      ParentDepth(s, x);
      AncestorDepth(s, s[x].parent, a);
    }
  }

  lemma {:induction false} AncestorTrans(s: WfTree, x: string, b: string, a: string)
    requires x in s
    requires IsAncestorOrSelf(s, x, b)
    requires b in s && IsAncestorOrSelf(s, b, a)
    ensures IsAncestorOrSelf(s, x, a)
    decreases Depth(s, x)
  {
    if x != b {
      ParentDepth(s, x);
      AncestorTrans(s, s[x].parent, b, a);
    }
  }

  /** A proper ancestor of `x` is its parent or an ancestor of its parent. */
  lemma ProperAncestorStep(s: WfTree, a: string, x: string)
    requires x in s
    ensures IsProperAncestor(s, a, x) <==>
      s[x].parent != "" && s[x].parent in s && IsAncestorOrSelf(s, s[x].parent, a)
  {
    if s[x].parent != "" {
      ParentDepth(s, x);
      if IsAncestorOrSelf(s, s[x].parent, a) {
        AncestorDepth(s, s[x].parent, a);
      }
    }
  }

  /** A child's subtree is strictly inside its parent's. */
  lemma ChildSubtree(s: WfTree, a: string, c: string)
    requires a in s && c in s[a].children
    ensures c in s && s[c].parent == a
    ensures Subtree(s, c) < Subtree(s, a)
    ensures a !in Subtree(s, c)
  {
    forall x | x in Subtree(s, c)
      ensures x in Subtree(s, a)
    {
      assert IsAncestorOrSelf(s, c, a);
      AncestorTrans(s, x, c, a);
    }
    if IsAncestorOrSelf(s, a, c) {
      AncestorDepth(s, a, c);
      ParentDepth(s, c);
    }
  }

  /** A proper descendant of `a` lies in the subtree of one of its children. */
  lemma {:induction false} ChildOnPath(s: WfTree, x: string, a: string) returns (c: string)
    requires x in s && IsProperAncestor(s, a, x)
    ensures a in s && c in s[a].children && c in s
    ensures IsAncestorOrSelf(s, x, c)
    decreases Depth(s, x)
  {
    ParentDepth(s, x);
    var p := s[x].parent;
    if p == a {
      c := x;
    } else {
      AncestorDepth(s, p, a);
      c := ChildOnPath(s, p, a);
    }
  }

  // ---------------------------------------------------------------------
  // The two structural updates: adding and removing a child group

  /** `xs` without `c`. */
  function Remove(xs: seq<string>, c: string): (r: seq<string>)
    ensures forall x :: x in r <==> x in xs && x != c
    ensures NoDup(xs) ==> NoDup(r)
  {
    if xs == [] then []
    else
      var rest := Remove(xs[1..], c);
      assert NoDup(xs) ==> NoDup(xs[1..]) && xs[0] !in xs[1..];
      if xs[0] == c then rest else [xs[0]] + rest
  }

  /** The tree after `p` opens child group `c` (creating it unless it is
      already a child) and writes its name, type and parent id. */
  function WithChild(s: WfTree, p: string, c: string, name: string, kind: string): Tree
    requires p in s
  {
    if c in s[p].children then
      s[c := s[c].(name := name, kind := kind, parent := p)]
    else
      s[p := s[p].(children := s[p].children + [c])]
       [c := SectionRec(name, kind, "", "", p, "", [], [], false)]
  }

  /** The tree after `p` removes child group `c`, and with it everything
      nested in `c`. */
  function WithoutChild(s: WfTree, p: string, c: string): Tree
    requires p in s
  {
    (s - Subtree(s, c))[p := s[p].(children := Remove(s[p].children, c))]
  }

  lemma {:induction false} ReachesRootTransfer(s: Tree, s': Tree, x: string, k: nat)
    requires ReachesRoot(s, x, k) && x in s'
    requires forall y | y in s && y in s' :: s'[y].parent == s[y].parent
    requires forall y | y in s' :: s'[y].parent == "" || s'[y].parent in s'
    ensures ReachesRoot(s', x, k)
    decreases k
  {
    if s[x].parent != "" {
      ReachesRootTransfer(s, s', s[x].parent, k - 1);
    }
  }

  lemma AcyclicTransfer(s: Tree, s': Tree)
    requires Acyclic(s) && ParentsResolve(s')
    requires forall y | y in s' :: y in s && s'[y].parent == s[y].parent
    ensures Acyclic(s')
  {
    forall x | x in s'
      ensures exists k: nat :: ReachesRoot(s', x, k)
    {
      var k: nat :| ReachesRoot(s, x, k);
      ReachesRootTransfer(s, s', x, k);
    }
  }

  /** Adding a child keeps the tree well formed. */
  lemma WithChildWellFormed(s: WfTree, p: string, c: string, name: string, kind: string)
    requires p in s && c != ""
    requires c in s[p].children || c !in s
    ensures WellFormed(WithChild(s, p, c, name, kind))
  {
    if c in s[p].children {
      ReplaceRecordWellFormed(s, c, s[c].(name := name, kind := kind, parent := p));
    } else {
      var r := SectionRec(name, kind, "", "", p, "", [], [], false);
      NewChildResolve(s, p, c, r);
      NewChildPointBack(s, p, c, r);
      NewChildListed(s, p, c, r);
      NewChildUnique(s, p, c, r);
      NewChildAcyclic(s, p, c, r);
    }
  }

  /** Replacing a record by one with the same parent and children, and
      distinct property ids, keeps the tree well formed. */
  lemma ReplaceRecordWellFormed(s: WfTree, x: string, r: SectionRec)
    requires x in s
    requires r.parent == s[x].parent && r.children == s[x].children && DistinctIds(r.properties)
    ensures WellFormed(s[x := r])
  {
    var s' := s[x := r];
    assert forall y | y in s' :: y in s && s'[y].parent == s[y].parent;
    AcyclicTransfer(s, s');
  }

  lemma NewChildResolve(s: Tree, p: string, c: string, r: SectionRec)
    requires ParentsResolve(s) && p in s && c !in s && r.parent == p
    ensures ParentsResolve(s[p := s[p].(children := s[p].children + [c])][c := r])
  {
  }

  lemma NewChildPointBack(s: Tree, p: string, c: string, r: SectionRec)
    requires ChildrenPointBack(s) && p in s && c !in s && r.parent == p && r.children == []
    ensures ChildrenPointBack(s[p := s[p].(children := s[p].children + [c])][c := r])
  {
    var s' := s[p := s[p].(children := s[p].children + [c])][c := r];
    forall x, y | x in s' && y in s'[x].children
      ensures y in s' && s'[y].parent == x
    {
      if x == p && y != c {
        assert y in s[p].children;
      }
    }
  }

  lemma NewChildListed(s: Tree, p: string, c: string, r: SectionRec)
    requires ParentsListChild(s) && ParentsResolve(s) && p in s && c !in s && r.parent == p
    ensures ParentsListChild(s[p := s[p].(children := s[p].children + [c])][c := r])
  {
    var s' := s[p := s[p].(children := s[p].children + [c])][c := r];
    forall x | x in s' && s'[x].parent != "" && s'[x].parent in s'
      ensures x in s'[s'[x].parent].children
    {
      if x != c {
        assert x in s[s[x].parent].children;
      }
    }
  }

  lemma NewChildUnique(s: Tree, p: string, c: string, r: SectionRec)
    requires GroupNamesUnique(s) && ChildrenPointBack(s) && p in s && c !in s
    requires r.children == [] && r.properties == []
    ensures GroupNamesUnique(s[p := s[p].(children := s[p].children + [c])][c := r])
  {
    assert c !in s[p].children;
  }

  lemma NewChildAcyclic(s: Tree, p: string, c: string, r: SectionRec)
    requires Acyclic(s) && ParentsResolve(s) && p in s && c !in s && c != "" && r.parent == p
    ensures Acyclic(s[p := s[p].(children := s[p].children + [c])][c := r])
  {
    var s' := s[p := s[p].(children := s[p].children + [c])][c := r];
    NewChildResolve(s, p, c, r);
    forall x | x in s'
      ensures exists k: nat :: ReachesRoot(s', x, k)
    {
      if x in s {
        var k: nat :| ReachesRoot(s, x, k);
        ReachesRootTransfer(s, s', x, k);
      } else {
        var k: nat :| ReachesRoot(s, p, k);
        ReachesRootTransfer(s, s', p, k);
        assert ReachesRoot(s', x, k + 1);
      }
    }
  }

  /** A section outside a removed subtree has its parent outside it too. */
  lemma OutsideParentOutside(s: WfTree, c: string, x: string)
    requires x in s && x !in Subtree(s, c) && s[x].parent != ""
    ensures s[x].parent in s && s[x].parent !in Subtree(s, c)
  {
    ParentDepth(s, x);
    if s[x].parent in Subtree(s, c) {
      assert IsAncestorOrSelf(s, x, c);
    }
  }

  /** A child of a section outside the removed subtree of `c` is outside
      it too, unless it is `c` itself. */
  lemma OutsideChildOutside(s: WfTree, c: string, x: string, y: string)
    requires x in s && x !in Subtree(s, c) && y in s[x].children && y != c
    ensures y in s && y !in Subtree(s, c)
  {
    ParentDepth(s, y);
    assert IsAncestorOrSelf(s, y, c) <==> IsAncestorOrSelf(s, x, c);
  }

  /** Removing a child subtree keeps the tree well formed. */
  lemma WithoutChildWellFormed(s: WfTree, p: string, c: string)
    requires p in s && c in s[p].children
    ensures WellFormed(WithoutChild(s, p, c))
  {
    var gone := Subtree(s, c);
    ChildSubtree(s, p, c);
    forall x | x in s && x !in gone && s[x].parent != ""
      ensures s[x].parent in s && s[x].parent !in gone
    {
      OutsideParentOutside(s, c, x);
    }
    forall x, y | x in s && x !in gone && y in s[x].children && y != c
      ensures y in s && y !in gone
    {
      OutsideChildOutside(s, c, x, y);
    }
    PruneResolve(s, gone, p, c);
    PrunePointBack(s, gone, p, c);
    PruneListed(s, gone, p, c);
    PruneUnique(s, gone, p, c);
    var s' := (s - gone)[p := s[p].(children := Remove(s[p].children, c))];
    AcyclicTransfer(s, s');
  }

  lemma PruneResolve(s: Tree, gone: set<string>, p: string, c: string)
    requires ParentsResolve(s) && p in s && p !in gone
    requires forall x | x in s && x !in gone && s[x].parent != "" :: s[x].parent !in gone
    ensures ParentsResolve((s - gone)[p := s[p].(children := Remove(s[p].children, c))])
  {
  }

  lemma PrunePointBack(s: Tree, gone: set<string>, p: string, c: string)
    requires ChildrenPointBack(s) && p in s && p !in gone && c in s[p].children
    requires forall x, y | x in s && x !in gone && y in s[x].children && y != c :: y !in gone
    ensures ChildrenPointBack((s - gone)[p := s[p].(children := Remove(s[p].children, c))])
  {
    var s' := (s - gone)[p := s[p].(children := Remove(s[p].children, c))];
    forall x, y | x in s' && y in s'[x].children
      ensures y in s' && s'[y].parent == x
    {
      assert y in s[x].children;
      assert s[y].parent == x && s[c].parent == p;
    }
  }

  lemma PruneListed(s: Tree, gone: set<string>, p: string, c: string)
    requires ParentsListChild(s) && ChildrenPointBack(s) && p in s && p !in gone && c in gone
    ensures ParentsListChild((s - gone)[p := s[p].(children := Remove(s[p].children, c))])
  {
  }

  lemma PruneUnique(s: Tree, gone: set<string>, p: string, c: string)
    requires GroupNamesUnique(s) && p in s && p !in gone
    ensures GroupNamesUnique((s - gone)[p := s[p].(children := Remove(s[p].children, c))])
  {
  }

  /** After `WithChild`, `c` is a child of `p` with the given name, type
      and parent id; `p` lists it once, and no other section changes. */
  lemma WithChildShape(s: WfTree, p: string, c: string, name: string, kind: string)
    requires p in s && c != ""
    requires c in s[p].children || c !in s
    ensures var s' := WithChild(s, p, c, name, kind);
      && s'.Keys == s.Keys + {c}
      && c in s'[p].children
      && s'[c].parent == p && s'[c].name == name && s'[c].kind == kind
      && s'[p].children == (if c in s[p].children then s[p].children else s[p].children + [c])
      && s'[p] == s[p].(children := s'[p].children)
      && (forall y | y in s && y != c && y != p :: s'[y] == s[y])
  {
    if c in s[p].children {
      ChildSubtree(s, p, c);
    }
  }

  /** After `WithoutChild`, the subtree of `c` is gone, `p` lists every
      other child it had, and every remaining section other than `p` is
      unchanged. */
  lemma WithoutChildShape(s: WfTree, p: string, c: string)
    requires p in s && c in s[p].children
    ensures var s' := WithoutChild(s, p, c);
      && s'.Keys == s.Keys - Subtree(s, c)
      && c !in s'
      && (forall y :: y in s'[p].children <==> y in s[p].children && y != c)
      && s'[p] == s[p].(children := s'[p].children)
      && (forall y | y in s' && y != p :: s'[y] == s[y])
  {
    ChildSubtree(s, p, c);
  }
}
