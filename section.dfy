/** `pandora::Section`: a view of one section of a file, by id.  The
    section's state lives in the file's section tree; the methods here
    read and update that tree the way the library's member functions read
    and update the HDF5 groups. */
module Sections {
  import opened Errors
  import opened Store
  import opened Search
  import opened Files
  import NDArrays

  // ---------------------------------------------------------------------
  // Properties of one section record

  /** The first position in `ps` whose property satisfies `want`, or |ps|. */
  function FirstWhere(ps: seq<Property>, want: Property -> bool): (k: nat)
    ensures k <= |ps|
    ensures k < |ps| ==> want(ps[k])
    ensures forall j | 0 <= j < k :: !want(ps[j])
  {
    if ps == [] then 0
    else if want(ps[0]) then 0
    else 1 + FirstWhere(ps[1..], want)
  }

  function NameIs(name: string): Property -> bool
  {
    (p: Property) => p.name == name
  }

  function IdIs(pid: string): Property -> bool
  {
    (p: Property) => p.id == pid
  }

  /** `Section::propertyCount`: the number of property groups, less one
      when the section group has a "values" subgroup, as a `size_t` (so
      one less than none is `SIZE_MAX`). */
  function PropertyCount(r: SectionRec): (n: nat)
    ensures n <= |r.properties| <==> !(r.valuesGroup && r.properties == [])
    ensures n < |r.properties| <==> r.valuesGroup && r.properties != []
  {
    var n := |r.properties|;
    if r.valuesGroup then (if n == 0 then NDArrays.SIZE_MAX else n - 1) else n
  }

  /** `Section::properties`: the first `propertyCount()` property groups;
      asking for a group past the last one fails. */
  function Visible(r: SectionRec): (res: Result<seq<Property>>)
    ensures res.Ok? <==> PropertyCount(r) <= |r.properties|
    ensures res.Ok? ==> res.value <= r.properties && |res.value| == PropertyCount(r)
    ensures res.Err? ==> res.error == ObjectIndexOutOfRange
  {
    var n := PropertyCount(r);
    if n <= |r.properties| then Ok(r.properties[..n]) else Err(ObjectIndexOutOfRange)
  }

  /** Without a "values" subgroup every property is listed; with one the
      last property is hidden, and a section with no properties fails. */
  lemma VisibleShape(r: SectionRec)
    ensures !r.valuesGroup ==> Visible(r) == Ok(r.properties)
    ensures r.valuesGroup && r.properties != [] ==>
      Visible(r) == Ok(r.properties[..|r.properties| - 1])
    ensures r.valuesGroup && r.properties == [] ==> Visible(r) == Err(ObjectIndexOutOfRange)
  {
    assert r.properties[..|r.properties|] == r.properties;
  }

  /** `Section::hasPropertyByName`: whether a listed property has `name`. */
  function HasName(r: SectionRec, name: string): (res: Result<bool>)
    ensures res.Err? <==> Visible(r).Err?
    ensures res.Err? ==> res.error == Visible(r).error
    ensures res == Ok(true) ==> exists p :: p in r.properties && p.name == name
  {
    match Visible(r)
    case Err(e) => Err(e)
    case Ok(ps) => Ok(FirstWhere(ps, NameIs(name)) < |ps|)
  }

  /** `hasPropertyByName` is true exactly when some listed property
      carries the name. */
  lemma HasNameIff(r: SectionRec, name: string)
    requires Visible(r).Ok?
    ensures HasName(r, name).Ok?
    ensures HasName(r, name).value <==> exists p :: p in Visible(r).value && p.name == name
  {
    var ps := Visible(r).value;
    var k := FirstWhere(ps, NameIs(name));
    if k < |ps| {
      assert ps[k] in ps;
    }
  }

  /** `Section::getProperty`: the property group `pid`, or an error. */
  function GetProperty(r: SectionRec, pid: string): (res: Result<Property>)
    ensures res.Ok? <==> exists p :: p in r.properties && p.id == pid
    ensures res.Ok? ==> res.value in r.properties && res.value.id == pid
    ensures res.Err? ==> res.error == PropertyNotFound
  {
    var k := FirstWhere(r.properties, IdIs(pid));
    if k < |r.properties| then Ok(r.properties[k])
    else
      assert forall p | p in r.properties :: p.id != pid;
      Err(PropertyNotFound)
  }

  /** Whether a property group with id `pid` exists (`hasObject`). */
  predicate HasId(ps: seq<Property>, pid: string)
  {
    exists p :: p in ps && p.id == pid
  }

  /** The properties without the group `pid`. */
  function WithoutId(ps: seq<Property>, pid: string): (r: seq<Property>)
    ensures forall p :: p in r <==> p in ps && p.id != pid
    ensures DistinctIds(ps) ==> DistinctIds(r)
    ensures !HasId(ps, pid) ==> r == ps
  {
    if ps == [] then []
    else
      var rest := WithoutId(ps[1..], pid);
      assert forall p :: p in ps <==> p == ps[0] || p in ps[1..];
      assert DistinctIds(ps) ==> DistinctIds(ps[1..]) && forall p | p in ps[1..] :: p.id != ps[0].id;
      if ps[0].id == pid then rest else [ps[0]] + rest
  }

  /** The link target of `x`, when its link id is set and resolves. */
  function LinkTarget(s: Tree, x: string): (r: seq<string>)
    requires x in s
    ensures |r| <= 1
    ensures r != [] ==> r[0] in s && r[0] == s[x].link
  {
    if s[x].link != "" then FindSection(s, s[x].link) else []
  }

  /** `Section::inheritedProperties`: the listed properties of the link
      target, or none when there is no link or it does not resolve. */
  function Inherited(s: Tree, x: string): (res: Result<seq<Property>>)
    requires x in s
    ensures LinkTarget(s, x) == [] ==> res == Ok([])
    ensures res.Ok? ==> forall p | p in res.value :: LinkTarget(s, x) != [] && p in s[s[x].link].properties
  {
    var target := LinkTarget(s, x);
    if target != [] then Visible(s[target[0]]) else Ok([])
  }

  /** `Section::getPropertyByName`: the first listed property of that name,
      else the first one of the link target (one level only: the target's
      own lookup succeeds locally once `hasPropertyByName` said it would),
      else an error. */
  function PropertyByName(s: Tree, x: string, name: string): (res: Result<Property>)
    requires x in s
    ensures res.Ok? ==> res.value.name == name
    ensures res.Ok? ==> res.value in s[x].properties || (s[x].link in s && res.value in s[s[x].link].properties)
    ensures res.Err? ==> res.error == PropertyNotFound || res.error == ObjectIndexOutOfRange
  {
    match Visible(s[x])
    case Err(e) => Err(e)
    case Ok(ps) =>
      var k := FirstWhere(ps, NameIs(name));
      if k < |ps| then Ok(ps[k])
      else
        var target := LinkTarget(s, x);
        if target == [] then Err(PropertyNotFound)
        else match Visible(s[target[0]])
          case Err(e) => Err(e)
          case Ok(tps) =>
            var j := FirstWhere(tps, NameIs(name));
            if j < |tps| then Ok(tps[j]) else Err(PropertyNotFound)
  }

  /** When both property listings succeed, the lookup by name returns a
      property of that name from the section itself if it has one, from
      its link target otherwise, and fails only when neither has one. */
  lemma PropertyByNameFound(s: Tree, x: string, name: string)
    requires x in s && Visible(s[x]).Ok? && Inherited(s, x).Ok?
    ensures var r := PropertyByName(s, x, name);
      var own := Visible(s[x]).value;
      var inherited := Inherited(s, x).value;
      && (r.Ok? ==> r.value.name == name && (r.value in own || r.value in inherited))
      && ((exists p :: p in own && p.name == name) ==> r.Ok? && r.value in own)
      && (r.Ok? <==> exists p :: (p in own || p in inherited) && p.name == name)
      && (r.Err? ==> r.error == PropertyNotFound)
  {
    var own := Visible(s[x]).value;
    var k := FirstWhere(own, NameIs(name));
    if k < |own| {
      assert own[k] in own;
    } else {
      var inherited := Inherited(s, x).value;
      var j := FirstWhere(inherited, NameIs(name));
      if j < |inherited| {
        assert inherited[j] in inherited;
      }
    }
  }

  /** The link rule of `Section::link` over what `findSection` returned. */
  function LinkCheck(s: Tree, found: seq<string>, kind: string): (r: Result<()>)
    requires forall f | f in found :: f in s
    ensures r.Ok? ==> |found| == 1 && s[found[0]].kind == kind
    ensures r == Err(LinkTargetMissing) <==> found == []
    ensures r == Err(LinkTypeDeviates) <==> found != [] && !(|found| == 1 && s[found[0]].kind == kind)
  {
    if |found| == 1 && s[found[0]].kind == kind then Ok(())
    else if found == [] then Err(LinkTargetMissing)
    else Err(LinkTypeDeviates)
  }

  /** A link to `l` is accepted exactly when `l` names a section of the same
      type; a missing target and a deviating type are told apart. */
  lemma LinkAccepted(s: Tree, l: string, kind: string)
    ensures var r := LinkCheck(s, FindSection(s, l), kind);
      && (r.Ok? <==> l in s && s[l].kind == kind)
      && (r == Err(LinkTargetMissing) <==> l !in s)
      && (r == Err(LinkTypeDeviates) <==> l in s && s[l].kind != kind)
  {
  }

  /** Once `x` links to `l`, it inherits exactly the listed properties of `l`. */
  lemma LinkThenInherit(s: WfTree, x: string, l: string)
    requires x in s && l in s
    ensures Inherited(s[x := s[x].(link := l)], x) == Visible(s[l])
  {
    assert l != "";
  }

  /** `operator==` is an equivalence on views: reflexive, symmetric and
      transitive, whatever files the views belong to. */
  lemma EqualsIsEquivalence(a: Section, b: Section, c: Section)
    ensures a.Equals(a)
    ensures a.Equals(b) ==> b.Equals(a)
    ensures a.Equals(b) && b.Equals(c) ==> a.Equals(c)
  {
  }

  /** Property names are unique among the listed properties. */
  predicate NamesUnique(ps: seq<Property>)
  {
    forall i, j :: 0 <= i < j < |ps| ==> ps[i].name != ps[j].name
  }

  /** Adding a property whose name is not listed keeps names unique when
      every property is listed (no "values" subgroup). */
  lemma AddKeepsNamesUnique(r: SectionRec, p: Property)
    requires !r.valuesGroup && NamesUnique(r.properties)
    requires HasName(r, p.name) == Ok(false)
    ensures NamesUnique(r.properties + [p])
  {
    VisibleShape(r);
    HasNameIff(r, p.name);
    var ps := r.properties + [p];
    forall i, j | 0 <= i < j < |ps|
      ensures ps[i].name != ps[j].name
    {
      if j == |ps| - 1 {
        assert ps[i] in r.properties;
      }
    }
  }

  /** With a "values" subgroup the hidden last property escapes the name
      check, so a second property of its name can be added. */
  lemma HiddenNameCanRepeat(r: SectionRec, p: Property)
    requires r.valuesGroup && |r.properties| == 1 && r.properties[0].name == p.name
    ensures HasName(r, p.name) == Ok(false)
    ensures !NamesUnique(r.properties + [p])
  {
    var ps := r.properties + [p];
    assert ps[0].name == ps[1].name;
  }

  /** `x` after `addProperty` appended the new property group `p`. */
  function WithProperty(s: Tree, x: string, p: Property): Tree
    requires x in s
  {
    s[x := s[x].(properties := s[x].properties + [p])]
  }

  /** Depth limit `findSectionsRec(cur, results, predicate, level, max_depth)`
      ends up applying below `cur`, as a number of levels (0: no limit):
      children are always collected, and the walk goes one level deeper
      while `level` has not passed a positive `max_depth`. */
  function RecLimit(level: int, maxDepth: int): (lim: nat)
    ensures maxDepth <= 0 <==> lim == 0
    ensures maxDepth > 0 && level > maxDepth ==> lim == 1
    ensures maxDepth > 0 && level <= maxDepth ==> lim >= 2
  {
    if maxDepth <= 0 then 0 else if level > maxDepth then 1 else maxDepth - level + 2
  }

  /** One level deeper, the limit is one level less (unless there is none). */
  lemma RecLimitStep(level: int, maxDepth: int)
    requires maxDepth <= 0 || level <= maxDepth
    ensures RecLimit(level, maxDepth) != 1
    ensures RecLimit(level + 1, maxDepth) == Next(RecLimit(level, maxDepth))
  {
  }

  /** As written, `findSections(p, exclude_root, max_depth)` calls
      `findSectionsRec` with level `max_depth` and limit 1: two or more
      gives only the children, 1 reaches grandchildren, 0 and below reach
      further the smaller it is, and nothing is unlimited. */
  lemma AsWrittenLimit(maxDepth: int)
    ensures maxDepth >= 2 ==> RecLimit(maxDepth, 1) == 1
    ensures maxDepth <= 1 ==> RecLimit(maxDepth, 1) == 3 - maxDepth
    ensures RecLimit(maxDepth, 1) != 0
  {
  }

  /** Passing level 1 and `max_depth` as declared: no limit for
      `max_depth <= 0`, otherwise `max_depth + 1` levels. */
  lemma FixedLimit(maxDepth: int)
    ensures maxDepth <= 0 ==> RecLimit(1, maxDepth) == 0
    ensures maxDepth > 0 ==> RecLimit(1, maxDepth) == maxDepth + 1
  {
  }

  /** With `max_depth = 2`, a matching grandchild is missed as written
      and found with the arguments in declared order. */
  lemma SwappedArgumentsMissGrandchild(s: WfTree, a: string, pred: string -> bool, y: string)
    requires a in s && y in s && pred(y)
    requires IsProperAncestor(s, a, y) && Depth(s, y) == Depth(s, a) + 2
    ensures y !in Below(s, a, pred, RecLimit(2, 1))
    ensures y in Below(s, a, pred, RecLimit(1, 2))
  {
    BelowMembers(s, a, pred, RecLimit(2, 1), y);
    BelowMembers(s, a, pred, RecLimit(1, 2), y);
  }

  // ---------------------------------------------------------------------
  // The section view

  class Section {
    const file: File
    const id: string

    constructor(file: File, id: string)
      ensures this.file == file && this.id == id
    {
      this.file := file;
      this.id := id;
    }

    /** The view names a stored section of a well-formed tree. */
    ghost predicate Valid()
      reads file
    {
      WellFormed(file.sections) && id in file.sections
    }

    /** `Section::operator==`: views are equal when their ids are. */
    predicate Equals(other: Section): (b: bool)
      ensures b <==> id == other.id
    {
      id == other.id
    }

    /** `Section::link`: store `l` as the link id when it names exactly one
        section of this section's type; otherwise fail and keep the old link. */
    method Link(l: string) returns (r: Result<()>)
      requires Valid()
      modifies file`sections
      ensures Valid()
      ensures r == LinkCheck(old(file.sections), FindSection(old(file.sections), l), old(file.sections)[id].kind)
      ensures r.Ok? ==> file.sections == old(file.sections)[id := old(file.sections)[id].(link := l)]
      ensures r.Err? ==> file.sections == old(file.sections)
    {
      var s := file.sections;
      var found := FindSection(s, l);
      if |found| == 1 && s[found[0]].kind == s[id].kind {
        ReplaceRecordWellFormed(s, id, s[id].(link := l));
        file.sections := s[id := s[id].(link := l)];
        r := Ok(());
      } else if found == [] {
        r := Err(LinkTargetMissing);
      } else {
        r := Err(LinkTypeDeviates);
      }
    }

    /** `Section::addSection`: open (creating if needed) the child group
        `newId` and write its name, type and parent id.  The random id is
        passed in; it is assumed not to name a section elsewhere. */
    method AddSection(name: string, kind: string, newId: string) returns (child: Section)
      requires Valid() && newId != ""
      requires newId in file.sections[id].children || newId !in file.sections
      modifies file`sections
      ensures Valid() && child.Valid()
      ensures child.file == file && child.id == newId
      ensures file.sections == WithChild(old(file.sections), id, newId, name, kind)
      ensures newId in file.sections[id].children
    {
      WithChildWellFormed(file.sections, id, newId, name, kind);
      WithChildShape(file.sections, id, newId, name, kind);
      file.sections := WithChild(file.sections, id, newId, name, kind);
      child := new Section(file, newId);
    }

    /** `Section::removeSection`: remove the child group `cid`, and with it
        everything below it; report whether it existed. */
    method RemoveSection(cid: string) returns (removed: bool)
      requires Valid()
      modifies file`sections
      ensures Valid()
      ensures removed <==> cid in old(file.sections)[id].children
      ensures removed ==> file.sections == WithoutChild(old(file.sections), id, cid)
      ensures !removed ==> file.sections == old(file.sections)
      ensures cid !in file.sections[id].children
    {
      removed := false;
      if cid in file.sections[id].children {
        WithoutChildWellFormed(file.sections, id, cid);
        WithoutChildShape(file.sections, id, cid);
        file.sections := WithoutChild(file.sections, id, cid);
        removed := true;
      }
    }

    /** `Section::hasSection`: whether `cid` names a child group. */
    method HasSection(cid: string) returns (b: bool)
      requires Valid()
      ensures b <==> cid in file.sections[id].children
      ensures b ==> cid in file.sections && file.sections[cid].parent == id
    {
      b := cid in file.sections[id].children;
    }

    /** `Section::addProperty`: refuse a name that is already listed;
        otherwise take the first candidate id that no property group has
        and create the group with that name.  The random ids are passed in,
        and some candidate is assumed to be fresh. */
    method AddProperty(name: string, candidates: seq<string>) returns (r: Result<Property>)
      requires Valid()
      requires exists j :: 0 <= j < |candidates| && !HasId(file.sections[id].properties, candidates[j])
      modifies file`sections
      ensures Valid()
      ensures var has := HasName(old(file.sections)[id], name);
        && (has.Err? ==> r == Err(has.error) && file.sections == old(file.sections))
        && (has == Ok(true) ==> r == Err(PropertyExists) && file.sections == old(file.sections))
        && (has == Ok(false) ==>
              && r.Ok? && r.value.name == name
              && !HasId(old(file.sections)[id].properties, r.value.id)
              && r.value.id in candidates
              && file.sections == WithProperty(old(file.sections), id, r.value))
    {
      var has := HasPropertyByName(name);
      if has.Err? {
        return Err(has.error);
      }
      if has.value {
        return Err(PropertyExists);
      }
      var props := file.sections[id].properties;
      var i := 0;
      var newId := candidates[0];
      while HasId(props, newId)
        invariant 0 <= i < |candidates| && newId == candidates[i]
        invariant exists j :: i <= j < |candidates| && !HasId(props, candidates[j])
        decreases |candidates| - i
      {
        i := i + 1;
        newId := candidates[i];
      }
      var p := Property(newId, name);
      var s := file.sections;
      ReplaceRecordWellFormed(s, id, s[id].(properties := props + [p]));
      file.sections := WithProperty(s, id, p);
      r := Ok(p);
    }

    /** `Section::removeProperty`: remove the property group `pid` if it
        exists; an absent id changes nothing. */
    method RemoveProperty(pid: string)
      requires Valid()
      modifies file`sections
      ensures Valid()
      ensures file.sections
        == old(file.sections)[id := old(file.sections)[id].(properties := WithoutId(old(file.sections)[id].properties, pid))]
      ensures !HasId(file.sections[id].properties, pid)
    {
      var s := file.sections;
      if HasId(s[id].properties, pid) {
        ReplaceRecordWellFormed(s, id, s[id].(properties := WithoutId(s[id].properties, pid)));
        file.sections := s[id := s[id].(properties := WithoutId(s[id].properties, pid))];
      } else {
        assert s[id].(properties := WithoutId(s[id].properties, pid)) == s[id];
      }
    }

    /** `Section::properties`: read the first `propertyCount()` groups one
        by one. */
    method Properties() returns (r: Result<seq<Property>>)
      requires Valid()
      ensures r == Visible(file.sections[id])
    {
      var rec := file.sections[id];
      var n := PropertyCount(rec);
      var props: seq<Property> := [];
      var i := 0;
      while i < n
        invariant i <= n && i <= |rec.properties| && props == rec.properties[..i]
      {
        if i >= |rec.properties| {
          return Err(ObjectIndexOutOfRange);
        }
        props := props + [rec.properties[i]];
        i := i + 1;
      }
      return Ok(props);
    }

    /** `Section::hasPropertyByName`: scan the listed properties. */
    method HasPropertyByName(name: string) returns (r: Result<bool>)
      requires Valid()
      ensures r == HasName(file.sections[id], name)
    {
      var props := Properties();
      if props.Err? {
        return Err(props.error);
      }
      var ps := props.value;
      var i := 0;
      while i < |ps|
        invariant 0 <= i <= |ps|
        invariant forall j | 0 <= j < i :: ps[j].name != name
      {
        if ps[i].name == name {
          return Ok(true);
        }
        i := i + 1;
      }
      return Ok(false);
    }

    /** Whether the lookup by name succeeds without consulting the link. */
    ghost predicate LocalHit(name: string)
      reads file
      requires Valid()
    {
      HasName(file.sections[id], name) == Ok(true)
    }

    /** `Section::getPropertyByName`: scan the listed properties, then ask
        the link target, which answers from its own properties. */
    method GetPropertyByName(name: string) returns (r: Result<Property>)
      requires Valid()
      ensures r == PropertyByName(file.sections, id, name)
      decreases if LocalHit(name) then 0 else 1
    {
      var props := Properties();
      if props.Err? {
        return Err(props.error);
      }
      var ps := props.value;
      var i := 0;
      while i < |ps|
        invariant 0 <= i <= |ps|
        invariant forall j | 0 <= j < i :: ps[j].name != name
      {
        if ps[i].name == name {
          assert FirstWhere(ps, NameIs(name)) == i;
          return Ok(ps[i]);
        }
        i := i + 1;
      }
      assert FirstWhere(ps, NameIs(name)) == |ps|;
      var link := file.sections[id].link;
      if link != "" {
        var found := FindSection(file.sections, link);
        if found != [] {
          var target := new Section(file, found[0]);
          var has := target.HasPropertyByName(name);
          if has.Err? {
            return Err(has.error);
          }
          if has.value {
            r := target.GetPropertyByName(name);
            return;
          }
        }
      }
      return Err(PropertyNotFound);
    }

    /** `Section::findDownstream`: collect what `treeIterator(t, 0)` yields. */
    method FindDownstream(t: string) returns (r: seq<string>)
      requires Valid()
      ensures r == TreeIterator(file.sections, id, t, 0)
    {
      var items := TreeIterator(file.sections, id, t, 0);
      r := [];
      var i := 0;
      while i < |items|
        invariant 0 <= i <= |items| && r == items[..i]
      {
        r := r + [items[i]];
        i := i + 1;
      }
      assert items[..|items|] == items;
    }

    /** `Section::findSideways`: collect the parent's type-`t` children;
        when there are none, ask the parent. */
    method FindSideways(t: string) returns (r: seq<string>)
      requires Valid()
      ensures r == Search.FindSideways(file.sections, id, t)
      decreases Depth(file.sections, id)
    {
      r := [];
      if HasParent(file.sections, id) {
        var p := new Section(file, file.sections[id].parent);
        var items := TreeIterator(file.sections, p.id, t, 1);
        var i := 0;
        while i < |items|
          invariant 0 <= i <= |items| && r == items[..i]
        {
          r := r + [items[i]];
          i := i + 1;
        }
        assert r == items;
        if r != [] {
          return;
        }
        ParentDepth(file.sections, id);
        r := p.FindSideways(t);
      }
    }

    /** `Section::getRelatedSections`. */
    method GetRelatedSections(t: string) returns (r: seq<string>)
      requires Valid()
      ensures r == Related(file.sections, id, t)
    {
      r := FindDownstream(t);
      if |r| != 0 {
        return;
      }
      var up := FindUpstream(file.sections, id, t);
      if |up| != 0 {
        return [up];
      }
      r := FindSideways(t);
    }

    /** `Section::hasRelatedSection`: true exactly when the related search
        finds something. */
    method HasRelatedSection(t: string) returns (b: bool)
      requires Valid()
      ensures b <==> Related(file.sections, id, t) != []
    {
      var down := FindDownstream(t);
      if |down| != 0 {
        return true;
      }
      if |FindUpstream(file.sections, id, t)| != 0 {
        return true;
      }
      var side := FindSideways(t);
      return |side| != 0;
    }

    /** `Section::findSectionsRec` over the tree `s` of this file: append
        the matching children of `cur`, then, unless `level` has passed a
        positive `max_depth`, recurse into each child one level deeper. */
    static method FindSectionsRec(s: WfTree, cur: string, results: seq<string>, pred: string -> bool,
                                  level: int, maxDepth: int)
      returns (out: seq<string>)
      requires cur in s
      ensures out == results + Below(s, cur, pred, RecLimit(level, maxDepth))
      decreases |Subtree(s, cur)|, 1
    {
      var kids := s[cur].children;
      var matches := MatchingChildren(kids, pred);
      out := results + matches;
      BelowUnfold(s, cur, pred, RecLimit(level, maxDepth));
      if maxDepth > 0 && level > maxDepth {
        return;
      }
      RecLimitStep(level, maxDepth);
      out := DescendChildren(s, cur, out, pred, level, maxDepth);
      AppendAssoc(results, matches, BelowList(s, cur, kids, pred, RecLimit(level + 1, maxDepth)));
    }

    /** The second loop of `findSectionsRec`: search below each child of
        `cur` in order, one level deeper. */
    static method DescendChildren(s: WfTree, cur: string, results: seq<string>, pred: string -> bool,
                                  level: int, maxDepth: int)
      returns (out: seq<string>)
      requires cur in s
      ensures out == results + BelowList(s, cur, s[cur].children, pred, RecLimit(level + 1, maxDepth))
      decreases |Subtree(s, cur)|, 0
    {
      var kids := s[cur].children;
      var lim := RecLimit(level + 1, maxDepth);
      out := results;
      ghost var below: seq<string> := [];
      var i := 0;
      while i < |kids|
        invariant 0 <= i <= |kids|
        invariant below == BelowList(s, cur, kids[..i], pred, lim)
        invariant out == results + below
      {
        DescendStep(s, cur, i, pred, lim);
        ghost var next := Below(s, kids[i], pred, lim);
        out := FindSectionsRec(s, kids[i], out, pred, level + 1, maxDepth);
        AppendAssoc(results, below, next);
        below := below + next;
        i := i + 1;
      }
      assert kids[..i] == kids;
    }

    /** The first loop of `findSectionsRec`: the children that satisfy
        `pred`, in order. */
    static method MatchingChildren(kids: seq<string>, pred: string -> bool) returns (m: seq<string>)
      ensures m == Filter(kids, pred)
    {
      m := [];
      var i := 0;
      while i < |kids|
        invariant 0 <= i <= |kids| && m == Filter(kids[..i], pred)
      {
        FilterSnoc(kids, i, pred);
        if pred(kids[i]) {
          m := m + [kids[i]];
        }
        i := i + 1;
      }
      assert kids[..i] == kids;
    }

    /** `Section::findSections` as written: the root when asked for and
        matching, then `findSectionsRec` called with `max_depth` in the
        level position and 1 in the limit position. */
    method FindSections(pred: string -> bool, excludeRoot: bool, maxDepth: int) returns (r: seq<string>)
      requires Valid()
      ensures r == (if !excludeRoot && pred(id) then [id] else [])
        + Below(file.sections, id, pred, RecLimit(maxDepth, 1))
    {
      r := [];
      if !excludeRoot && pred(id) {
        r := r + [id];
      }
      r := FindSectionsRec(file.sections, id, r, pred, maxDepth, 1);
    }

    /** `Section::findSections` with the arguments in declared order. */
    method FindSectionsFixed(pred: string -> bool, excludeRoot: bool, maxDepth: int) returns (r: seq<string>)
      requires Valid()
      ensures r == (if !excludeRoot && pred(id) then [id] else [])
        + Below(file.sections, id, pred, RecLimit(1, maxDepth))
      ensures forall x | x in file.sections ::
        x in r <==>
          ((x == id && !excludeRoot && pred(id))
           || (pred(x) && Within(file.sections, id, x, if maxDepth <= 0 then 0 else maxDepth + 1)))
    {
      r := [];
      if !excludeRoot && pred(id) {
        r := r + [id];
      }
      r := FindSectionsRec(file.sections, id, r, pred, 1, maxDepth);
      forall x | x in file.sections
        ensures x in Below(file.sections, id, pred, RecLimit(1, maxDepth))
          <==> pred(x) && Within(file.sections, id, x, RecLimit(1, maxDepth))
      {
        BelowMembers(file.sections, id, pred, RecLimit(1, maxDepth), x);
      }
    }
  }

  lemma FilterSnoc(cs: seq<string>, i: nat, pred: string -> bool)
    requires i < |cs|
    ensures Filter(cs[..i + 1], pred) == Filter(cs[..i], pred) + (if pred(cs[i]) then [cs[i]] else [])
  {
    assert cs[..i + 1][..i] == cs[..i];
  }

  lemma BelowListSnoc(s: WfTree, a: string, i: nat, pred: string -> bool, lim: nat)
    requires a in s && i < |s[a].children|
    ensures s[a].children[i] in s
    ensures BelowList(s, a, s[a].children[..i + 1], pred, lim)
      == BelowList(s, a, s[a].children[..i], pred, lim) + Below(s, s[a].children[i], pred, lim)
  {
    var cs := s[a].children;
    assert cs[..i + 1][..i] == cs[..i];
    ChildSubtree(s, a, cs[i]);
  }

  lemma BelowUnfold(s: WfTree, a: string, pred: string -> bool, lim: nat)
    requires a in s
    ensures Below(s, a, pred, lim) == Filter(s[a].children, pred)
      + (if lim == 1 then [] else BelowList(s, a, s[a].children, pred, Next(lim)))
  {
  }

  lemma AppendAssoc(a: seq<string>, b: seq<string>, c: seq<string>)
    ensures (a + b) + c == a + (b + c)
  {
  }

  lemma SmallerSet(a: set<string>, b: set<string>)
    requires a < b
    ensures |a| < |b|
  {
    var x :| x in b && x !in a;
    SubsetCard(a, b - {x});
  }

  lemma {:induction false} SubsetCard(a: set<string>, b: set<string>)
    requires a <= b
    ensures |a| <= |b|
    decreases a
  {
    if a != {} {
      var y :| y in a;
      SubsetCard(a - {y}, b - {y});
    }
  }

  /** One step of the descent loop of `findSectionsRec`. */
  lemma DescendStep(s: WfTree, a: string, i: nat, pred: string -> bool, lim: nat)
    requires a in s && i < |s[a].children|
    ensures s[a].children[i] in s
    ensures |Subtree(s, s[a].children[i])| < |Subtree(s, a)|
    ensures BelowList(s, a, s[a].children[..i], pred, lim) + Below(s, s[a].children[i], pred, lim)
      == BelowList(s, a, s[a].children[..i + 1], pred, lim)
  {
    var c := s[a].children[i];
    BelowListSnoc(s, a, i, pred, lim);
    ChildSubtree(s, a, c);
    SmallerSet(Subtree(s, c), Subtree(s, a));
  }
}
