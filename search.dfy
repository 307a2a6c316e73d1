/** The searches of `pandora::Section` over the section tree, as functions
    of the stored tree: the depth-limited walk shared by the tree iterator
    and `findSectionsRec`, the parent lookup, and the upstream, sideways
    and combined relationship searches.  Each is characterised by a lemma
    that says which sections it finds, independently of how it walks. */
module Search {
  import opened Errors
  import opened Store

  // ---------------------------------------------------------------------
  // Parent lookup

  /** `Section::hasParent`: the parent id is non-empty and names a section. */
  predicate HasParent(s: Tree, x: string)
    requires x in s
    ensures HasParent(s, x) <==> s[x].parent != "" && s[x].parent in s
  {
    s[x].parent != "" && FindSection(s, s[x].parent) != []
  }

  /** `Section::findParent`: the section the parent id names, or an error. */
  function FindParent(s: Tree, x: string): (r: Result<string>)
    requires x in s
    ensures r.Ok? <==> s[x].parent in s
    ensures r.Ok? ==> r.value == s[x].parent
    ensures r.Err? ==> r.error == ParentNotFound
  {
    var found := FindSection(s, s[x].parent);
    if found == [] then Err(ParentNotFound) else Ok(found[0])
  }

  /** In a well-formed tree a section has a parent exactly when it has a
      proper ancestor, and then `findParent` succeeds with that parent. */
  lemma HasParentIff(s: WfTree, x: string)
    requires x in s
    ensures HasParent(s, x) <==> exists a :: IsProperAncestor(s, a, x)
    ensures HasParent(s, x) <==> FindParent(s, x).Ok?
  {
    if s[x].parent != "" {
      ParentDepth(s, x);
      ProperAncestorStep(s, s[x].parent, x);
    } else {
      forall a
        ensures !IsProperAncestor(s, a, x)
      {
        ProperAncestorStep(s, a, x);
      }
    }
  }

  // ---------------------------------------------------------------------
  // The depth-limited walk

  /** The ids in `cs` that satisfy `pred`, in order. */
  function Filter(cs: seq<string>, pred: string -> bool): (r: seq<string>)
    ensures forall x :: x in r <==> x in cs && pred(x)
  {
    if cs == [] then []
    else
      var last := cs[|cs| - 1];
      assert forall x :: x in cs <==> x in cs[..|cs| - 1] || x == last;
      Filter(cs[..|cs| - 1], pred) + (if pred(last) then [last] else [])
  }

  /** The limit one level further down; 0 means no limit. */
  function Next(lim: nat): nat
  {
    if lim == 0 then 0 else lim - 1
  }

  /** The sections below `a` that satisfy `pred`, at most `lim` levels down
      (0: no limit), in the order `findSectionsRec` produces them: first
      the matching children of `a`, then the walk below each child in
      turn.  `treeIterator(type, depth)` is taken to enumerate the same
      sequence with `pred` testing the type; it does not yield `a` itself. */
  function Below(s: WfTree, a: string, pred: string -> bool, lim: nat): (r: seq<string>)
    requires a in s
    ensures forall y | y in r :: y in s && pred(y)
    decreases Subtree(s, a), 1, 0
  {
    Filter(s[a].children, pred)
      + (if lim == 1 then [] else BelowList(s, a, s[a].children, pred, Next(lim)))
  }

  /** The walks below the children `cs` of `a`, one after another. */
  function BelowList(s: WfTree, a: string, cs: seq<string>, pred: string -> bool, lim: nat): (r: seq<string>)
    requires a in s && forall c | c in cs :: c in s[a].children
    ensures forall y | y in r :: y in s && pred(y)
    decreases Subtree(s, a), 0, |cs|
  {
    if cs == [] then []
    else
      var c := cs[|cs| - 1];
      ChildSubtree(s, a, c);
      BelowList(s, a, cs[..|cs| - 1], pred, lim) + Below(s, c, pred, lim)
  }

  /** `x` lies strictly below `a`, at most `lim` levels down (0: any depth). */
  ghost predicate Within(s: WfTree, a: string, x: string, lim: nat)
    requires a in s && x in s
  {
    IsProperAncestor(s, a, x) && (lim == 0 || Depth(s, x) <= Depth(s, a) + lim)
  }

  /** The section type test the iterators apply. */
  function TypeIs(s: Tree, t: string): string -> bool
  {
    x => x in s && s[x].kind == t
  }

  /** `treeIterator(type, depth)` started at `a`. */
  function TreeIterator(s: WfTree, a: string, t: string, depth: nat): (r: seq<string>)
    requires a in s
    ensures forall y | y in r :: y in s && s[y].kind == t
  {
    Below(s, a, TypeIs(s, t), depth)
  }

  lemma {:induction false} BelowListMembers(s: WfTree, a: string, cs: seq<string>, pred: string -> bool, lim: nat, x: string)
    requires a in s && forall c | c in cs :: c in s[a].children
    ensures forall c | c in cs :: c in s
    ensures x in BelowList(s, a, cs, pred, lim) <==> exists c :: c in cs && c in s && x in Below(s, c, pred, lim)
    decreases |cs|
  {
    forall c | c in cs
      ensures c in s
    {
      ChildSubtree(s, a, c);
    }
    if cs != [] {
      var init := cs[..|cs| - 1];
      assert forall c :: c in cs <==> c in init || c == cs[|cs| - 1];
      BelowListMembers(s, a, init, pred, lim, x);
    }
  }

  /** The walk finds exactly the sections strictly below `a`, within the
      limit, that satisfy `pred`. */
  lemma {:induction false} BelowMembers(s: WfTree, a: string, pred: string -> bool, lim: nat, x: string)
    requires a in s
    ensures x in Below(s, a, pred, lim) <==> x in s && pred(x) && Within(s, a, x, lim)
    decreases Subtree(s, a)
  {
    var kids := s[a].children;
    if x in s && pred(x) && Within(s, a, x, lim) {
      ProperAncestorStep(s, a, x);
      ParentDepth(s, x);
      var p := s[x].parent;
      if p == a {
        assert x in kids;
      } else {
        var c := ChildOnPath(s, x, a);
        ChildSubtree(s, a, c);
        ParentDepth(s, c);
        AncestorDepth(s, x, c);
        assert x != c;
        assert Within(s, c, x, Next(lim));
        BelowMembers(s, c, pred, Next(lim), x);
        BelowListMembers(s, a, kids, pred, Next(lim), x);
      }
    }
    if x in Below(s, a, pred, lim) {
      if x in Filter(kids, pred) {
        ChildSubtree(s, a, x);
        ParentDepth(s, x);
        ProperAncestorStep(s, a, x);
      } else {
        assert lim != 1 && x in BelowList(s, a, kids, pred, Next(lim));
        BelowListMembers(s, a, kids, pred, Next(lim), x);
        var c :| c in kids && c in s && x in Below(s, c, pred, Next(lim));
        ChildSubtree(s, a, c);
        BelowMembers(s, c, pred, Next(lim), x);
        ParentDepth(s, c);
        AncestorDepth(s, x, c);
        assert IsAncestorOrSelf(s, c, a);
        AncestorTrans(s, x, c, a);
      }
    }
  }

  /** `treeIterator(t, 1)` yields exactly the children of type `t`. */
  lemma OneLevel(s: WfTree, a: string, t: string)
    requires a in s
    ensures forall x :: x in Kids(s, a, t) <==> x in s[a].children && x in s && s[x].kind == t
  {
  }

  // ---------------------------------------------------------------------
  // Upstream, sideways and the combined search

  /** `Section::findUpstream`: the first ancestor, going up from the parent,
      whose type is `t`; "" when there is none. */
  function FindUpstream(s: WfTree, x: string, t: string): (r: string)
    requires x in s
    ensures r != "" ==> r in s && s[r].kind == t && Depth(s, r) < Depth(s, x)
    decreases Depth(s, x)
  {
    if HasParent(s, x) then
      var p := s[x].parent;
      ParentDepth(s, x);
      if s[p].kind == t then p else FindUpstream(s, p, t)
    else ""
  }

  /** `FindUpstream` returns the nearest proper ancestor of type `t`, and
      "" exactly when no proper ancestor has that type. */
  lemma {:induction false} UpstreamNearest(s: WfTree, x: string, t: string)
    requires x in s
    ensures var r := FindUpstream(s, x, t);
      && (r == "" <==> forall a | a in s && IsProperAncestor(s, a, x) :: s[a].kind != t)
      && (r != "" ==>
            && r in s && IsProperAncestor(s, r, x) && s[r].kind == t
            && forall a | a in s && IsProperAncestor(s, a, x) && Depth(s, a) > Depth(s, r) :: s[a].kind != t)
    decreases Depth(s, x)
  {
    forall a | a in s
      ensures IsProperAncestor(s, a, x) <==> s[x].parent != "" && s[x].parent in s && IsAncestorOrSelf(s, s[x].parent, a)
    {
      ProperAncestorStep(s, a, x);
    }
    if HasParent(s, x) {
      var p := s[x].parent;
      ParentDepth(s, x);
      forall a | a in s
        ensures IsAncestorOrSelf(s, p, a) <==> a == p || IsProperAncestor(s, a, p)
        ensures IsAncestorOrSelf(s, p, a) ==> Depth(s, a) <= Depth(s, p)
      {
        if IsAncestorOrSelf(s, p, a) {
          AncestorDepth(s, p, a);
        }
      }
      assert IsProperAncestor(s, p, x);
      if s[p].kind != t {
        UpstreamNearest(s, p, t);
        var r := FindUpstream(s, p, t);
        if r != "" {
          AncestorDepth(s, p, r);
          AncestorTrans(s, x, p, r);
        }
      }
    }
  }

  /** The children of `a` whose type is `t`: `treeIterator(t, 1)` at `a`. */
  function Kids(s: WfTree, a: string, t: string): seq<string>
    requires a in s
  {
    TreeIterator(s, a, t, 1)
  }

  /** `Section::findSideways`: the type-`t` children of the nearest
      ancestor, going up from the parent, that has any; the section itself
      is among them when its own type is `t`. */
  function FindSideways(s: WfTree, x: string, t: string): (r: seq<string>)
    requires x in s
    ensures forall y | y in r :: y in s && s[y].kind == t
    decreases Depth(s, x)
  {
    if HasParent(s, x) then
      var p := s[x].parent;
      var found := Kids(s, p, t);
      if found != [] then found
      else
        ParentDepth(s, x);
        FindSideways(s, p, t)
    else []
  }

  /** `FindSideways` returns the type-`t` children of the nearest proper
      ancestor that has any, and nothing exactly when no proper ancestor
      has a child of type `t`. */
  lemma {:induction false} SidewaysNearest(s: WfTree, x: string, t: string)
    requires x in s
    ensures var r := FindSideways(s, x, t);
      && (r == [] <==> forall a | a in s && IsProperAncestor(s, a, x) :: Kids(s, a, t) == [])
      && (r != [] ==>
            exists a :: a in s && IsProperAncestor(s, a, x) && r == Kids(s, a, t)
              && forall b | b in s && IsProperAncestor(s, b, x) && Depth(s, b) > Depth(s, a) :: Kids(s, b, t) == [])
    decreases Depth(s, x)
  {
    forall a | a in s
      ensures IsProperAncestor(s, a, x) <==> s[x].parent != "" && s[x].parent in s && IsAncestorOrSelf(s, s[x].parent, a)
    {
      ProperAncestorStep(s, a, x);
    }
    if HasParent(s, x) {
      var p := s[x].parent;
      ParentDepth(s, x);
      forall a | a in s
        ensures IsAncestorOrSelf(s, p, a) <==> a == p || IsProperAncestor(s, a, p)
        ensures IsAncestorOrSelf(s, p, a) ==> Depth(s, a) <= Depth(s, p)
      {
        if IsAncestorOrSelf(s, p, a) {
          AncestorDepth(s, p, a);
        }
      }
      assert IsProperAncestor(s, p, x);
      if Kids(s, p, t) == [] {
        SidewaysNearest(s, p, t);
        var r := FindSideways(s, p, t);
        if r != [] {
          var a :| a in s && IsProperAncestor(s, a, p) && r == Kids(s, a, t)
            && forall b | b in s && IsProperAncestor(s, b, p) && Depth(s, b) > Depth(s, a) :: Kids(s, b, t) == [];
          AncestorDepth(s, p, a);
          AncestorTrans(s, x, p, a);
        }
      }
    }
  }

  /** A section of type `t` with a parent finds itself sideways. */
  lemma SelfIsSideways(s: WfTree, x: string, t: string)
    requires x in s && s[x].parent != "" && s[x].kind == t
    ensures x in FindSideways(s, x, t)
  {
    var p := s[x].parent;
    ParentDepth(s, x);
    OneLevel(s, p, t);
  }

  /** `Section::getRelatedSections`: the downstream matches if any, else
      the upstream match, else the sideways matches. */
  function Related(s: WfTree, x: string, t: string): (r: seq<string>)
    requires x in s
    ensures forall y | y in r :: y in s && s[y].kind == t
  {
    var down := TreeIterator(s, x, t, 0);
    if down != [] then down
    else
      var up := FindUpstream(s, x, t);
      if up != "" then [up] else FindSideways(s, x, t)
  }

  /** Some section strictly below `x` has type `t`. */
  ghost predicate HasDescendantOfType(s: WfTree, x: string, t: string)
    requires x in s
  {
    exists y :: y in s && s[y].kind == t && IsProperAncestor(s, x, y)
  }

  /** Some proper ancestor of `x` has type `t`. */
  ghost predicate HasAncestorOfType(s: WfTree, x: string, t: string)
    requires x in s
  {
    exists a :: a in s && s[a].kind == t && IsProperAncestor(s, a, x)
  }

  /** Some proper ancestor of `x` has a child of type `t`. */
  ghost predicate HasAncestorWithKid(s: WfTree, x: string, t: string)
    requires x in s
  {
    exists a :: a in s && IsProperAncestor(s, a, x) && Kids(s, a, t) != []
  }

  lemma DownstreamFound(s: WfTree, x: string, t: string)
    requires x in s
    ensures TreeIterator(s, x, t, 0) != [] <==> HasDescendantOfType(s, x, t)
  {
    var down := TreeIterator(s, x, t, 0);
    if down != [] {
      BelowMembers(s, x, TypeIs(s, t), 0, down[0]);
    }
    if HasDescendantOfType(s, x, t) {
      var y :| y in s && s[y].kind == t && IsProperAncestor(s, x, y);
      BelowMembers(s, x, TypeIs(s, t), 0, y);
    }
  }

  /** Something related of type `t` is found exactly when there is a
      descendant of type `t`, an ancestor of type `t`, or an ancestor with
      a child of type `t`. */
  lemma RelatedFound(s: WfTree, x: string, t: string)
    requires x in s
    ensures Related(s, x, t) != [] <==>
      HasDescendantOfType(s, x, t) || HasAncestorOfType(s, x, t) || HasAncestorWithKid(s, x, t)
  {
    DownstreamFound(s, x, t);
    UpstreamNearest(s, x, t);
    SidewaysNearest(s, x, t);
  }
}
