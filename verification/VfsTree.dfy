/** The linked vnode tree of src/fs/tar.c and src/fs/vfs.c, proved against the map of module Vfs. */
module VfsTree {
  import opened Options
  import opened Vfs
  import opened TarArchive

  class Vnode {
    var name: string
    var kind: Kind
    var data: Bytes
    var parent: Vnode?
    var children: Vnode?
    var next: Vnode?

    constructor (name: string, kind: Kind, parent: Vnode?, next: Vnode?)
      ensures this.name == name && this.kind == kind && data == [] && this.parent == parent
      ensures children == null && this.next == next
    {
      this.name, this.kind, this.data, this.parent, this.next := name, kind, [], parent, next;
      this.children := null;
    }
  }

  // ---------------------------------------------------------------- the links, as numbers

  /**
   * Nodes numbered in order of creation: the path and contents of each, its parent, the newest
   * of its children and its next older sibling (-1 for none).
   */
  datatype Plan = Plan(paths: seq<Path>, infos: seq<Info>, up: seq<int>, kid: seq<int>, sib: seq<int>)

  ghost predicate Sized(g: Plan) {
    |g.paths| == |g.infos| == |g.up| == |g.kid| == |g.sib| > 0
  }

  ghost predicate Rooted(g: Plan)
    requires Sized(g)
  {
    g.paths[0] == []
    && (forall j {:trigger g.up[j]} :: 0 < j < |g.paths| ==>
          0 <= g.up[j] < j && |g.paths[j]| > 0 && g.paths[g.up[j]] == g.paths[j][..|g.paths[j]| - 1])
    && g.up[0] == -1
    && (forall i, j :: 0 <= i < j < |g.paths| ==> g.paths[i] != g.paths[j])
  }

  /** Each child list starts at the newest child. */
  ghost predicate Heads(up: seq<int>, kid: seq<int>) {
    |up| == |kid|
    && (forall i {:trigger kid[i]} :: 0 <= i < |kid| ==> kid[i] == -1 || (0 < kid[i] < |up| && up[kid[i]] == i))
    && (forall i, j {:trigger kid[i], up[j]} :: 0 <= i < |kid| && 0 < j < |up| && up[j] == i ==> j <= kid[i])
  }

  /** Sibling links go strictly back in time and skip no sibling. */
  ghost predicate Chains(up: seq<int>, sib: seq<int>) {
    |up| == |sib|
    && (forall j {:trigger sib[j]} :: 0 <= j < |sib| ==> sib[j] == -1 || (0 < sib[j] < j && up[sib[j]] == up[j]))
    && (forall j, k {:trigger sib[j], up[k]} :: 0 < k < j < |up| && up[k] == up[j] ==> k <= sib[j])
  }

  ghost predicate Shape(g: Plan) {
    Sized(g) && Rooted(g) && Heads(g.up, g.kid) && Chains(g.up, g.sib)
  }

  /** The plan and the map hold the same nodes. */
  ghost predicate Describes(g: Plan, fs: Fs)
    requires Sized(g)
  {
    (forall i :: 0 <= i < |g.paths| ==> g.paths[i] in fs && fs[g.paths[i]] == g.infos[i])
    && (forall p :: p in fs ==> p in g.paths)
  }

  function WithChild(g: Plan, i: nat, name: string, info: Info): Plan
    requires i < |g.paths| && i < |g.kid|
  {
    Plan(g.paths + [g.paths[i] + [name]], g.infos + [info], g.up + [i],
         g.kid[i := |g.kid|] + [-1], g.sib + [g.kid[i]])
  }

  function WithInfo(g: Plan, i: nat, info: Info): Plan
    requires i < |g.infos|
  {
    g.(infos := g.infos[i := info])
  }

  lemma ChildKeepsRooted(g: Plan, i: nat, name: string, info: Info)
    requires Shape(g) && i < |g.paths| && g.paths[i] + [name] !in g.paths
    ensures Sized(WithChild(g, i, name, info)) && Rooted(WithChild(g, i, name, info))
  {
    var h := WithChild(g, i, name, info);
    var n := |g.paths|;
    assert forall j :: 0 <= j < n ==> h.paths[j] == g.paths[j];
    assert h.paths[n][..|h.paths[n]| - 1] == g.paths[i];
    assert forall j :: 0 <= j < n ==> h.up[j] == g.up[j];
  }

  lemma ChildKeepsHeads(up: seq<int>, kid: seq<int>, i: nat)
    requires Heads(up, kid) && 0 < |up| && i < |up| && forall j :: 0 <= j < |up| ==> up[j] < |up|
    ensures Heads(up + [i], kid[i := |kid|] + [-1])
  {
    var up2, kid2 := up + [i], kid[i := |kid|] + [-1];
    assert forall j :: 0 <= j < |up| ==> up2[j] == up[j];
    assert forall j :: 0 <= j < |up| && j != i ==> kid2[j] == kid[j];
  }

  lemma ChildKeepsChains(up: seq<int>, kid: seq<int>, sib: seq<int>, i: nat)
    requires Heads(up, kid) && Chains(up, sib) && 0 < |up| && i < |up|
    ensures Chains(up + [i], sib + [kid[i]])
  {
    var up2, sib2 := up + [i], sib + [kid[i]];
    assert forall j :: 0 <= j < |up| ==> up2[j] == up[j] && sib2[j] == sib[j];
  }

  lemma ChildDescribes(g: Plan, fs: Fs, i: nat, name: string, info: Info)
    requires Shape(g) && Describes(g, fs) && i < |g.paths| && g.paths[i] + [name] !in g.paths
    ensures Sized(WithChild(g, i, name, info))
    ensures Describes(WithChild(g, i, name, info), fs[g.paths[i] + [name] := info])
  {
    var h := WithChild(g, i, name, info);
    assert forall j :: 0 <= j < |g.paths| ==> h.paths[j] == g.paths[j] && h.infos[j] == g.infos[j];
  }

  lemma InfoDescribes(g: Plan, fs: Fs, i: nat, info: Info)
    requires Shape(g) && Describes(g, fs) && i < |g.paths|
    ensures Shape(WithInfo(g, i, info))
    ensures Describes(WithInfo(g, i, info), fs[g.paths[i] := info])
  {
    var h := WithInfo(g, i, info);
    assert h.paths == g.paths && h.up == g.up && h.kid == g.kid && h.sib == g.sib;
  }

  /** Node `j` is the child of `i` called `name` exactly when its path says so. */
  lemma ChildByPath(g: Plan, i: nat, j: nat, name: string)
    requires Shape(g) && i < |g.paths| && 0 < j < |g.paths|
    ensures g.paths[j] == g.paths[i] + [name] <==> g.up[j] == i && Last(g.paths[j]) == name
  {
    var p := g.paths[j];
    assert p == p[..|p| - 1] + [Last(p)];
    if p == g.paths[i] + [name] {
      assert p[..|p| - 1] == g.paths[i];
    }
  }

  /** Two children of one directory never share a name. */
  lemma SiblingNamesDiffer(g: Plan, j: nat, k: nat)
    requires Shape(g) && 0 < j < k < |g.paths| && g.up[j] == g.up[k]
    ensures Last(g.paths[j]) != Last(g.paths[k])
  {
    ChildByPath(g, g.up[j], j, Last(g.paths[j]));
    ChildByPath(g, g.up[k], k, Last(g.paths[k]));
  }

  function Last(p: Path): string {
    if p == [] then "/" else p[|p| - 1]
  }

  // ---------------------------------------------------------------- links as object references

  ghost function RefIn(nodes: seq<Vnode>, k: int): Vnode? {
    if 0 <= k < |nodes| then nodes[k] else null
  }

  /** The references `ptrs` are the numbered links `ks`. */
  ghost predicate Points(nodes: seq<Vnode>, ks: seq<int>, ptrs: seq<Vnode?>) {
    |ks| == |ptrs| && forall i {:trigger ks[i]} {:trigger ptrs[i]} :: 0 <= i < |ks| ==> ptrs[i] == RefIn(nodes, ks[i])
  }

  ghost predicate Stored(g: Plan, nodes: seq<Vnode>, names: seq<string>, kids: seq<Vnode?>, sibs: seq<Vnode?>, ups: seq<Vnode?>)
  {
    |nodes| == |g.paths| == |names|
    && (forall i, j :: 0 <= i < j < |nodes| ==> nodes[i] != nodes[j])
    && (forall i {:trigger names[i]} :: 0 <= i < |nodes| ==> names[i] == Last(g.paths[i]))
    && Points(nodes, g.kid, kids) && Points(nodes, g.sib, sibs) && Points(nodes, g.up, ups)
  }

  /** One more node, with its own link. */
  lemma PointsGrow(nodes: seq<Vnode>, ks: seq<int>, ptrs: seq<Vnode?>, c: Vnode, k: int)
    requires Points(nodes, ks, ptrs) && k < |nodes|
    requires forall i :: 0 <= i < |ks| ==> ks[i] < |nodes|
    ensures Points(nodes + [c], ks + [k], ptrs + [RefIn(nodes, k)])
  {}

  /** Redirecting one link to the newest node. */
  lemma PointsRedirect(nodes: seq<Vnode>, ks: seq<int>, ptrs: seq<Vnode?>, i: nat, k: nat)
    requires Points(nodes, ks, ptrs) && i < |ks| && k < |nodes|
    ensures Points(nodes, ks[i := k], ptrs[i := nodes[k]])
  {}

  // ---------------------------------------------------------------- the walkers

  /** Copy one component into a 64-byte buffer and step over one slash. */
  method TakeSegment(path: string) returns (seg: string, rest: string)
    requires path != ""
    ensures seg == Head(path) && |rest| < |path|
    ensures rest == AfterSeg(path)
  {
    hide SegLen;
    var i := 0;
    while i < |path| && path[i] != '/' && i < NAME_MAX - 1
      invariant i <= |path| && i <= NAME_MAX - 1 && forall k :: 0 <= k < i ==> path[k] != '/'
    {
      i := i + 1;
    }
    SegLenIs(path, i);
    seg, rest := path[..i], path[i..];
    if rest != "" && rest[0] == '/' {
      rest := rest[1..];
    }
  }

  /** Where the loop stops is the length of the component. */
  lemma SegLenIs(s: string, i: nat)
    requires i <= |s| && i <= NAME_MAX - 1 && (forall k :: 0 <= k < i ==> s[k] != '/')
    requires i == |s| || i == NAME_MAX - 1 || s[i] == '/'
    ensures SegLen(s, NAME_MAX - 1) == i
  {
    hide SegLen;
  }

  /** Skip leading "./" pairs, then leading slashes. */
  method SkipLead(path: string) returns (rest: string)
    ensures rest == Strip(path)
  {
    rest := path;
    while |rest| >= 2 && rest[0] == '.' && rest[1] == '/'
      invariant StripDots(rest) == StripDots(path)
      decreases |rest|
    {
      rest := rest[2..];
    }
    while rest != "" && rest[0] == '/'
      invariant StripSlashes(rest) == Strip(path)
      decreases |rest|
    {
      rest := rest[1..];
    }
  }

  const ROOT_PLAN := Plan([[]], [EMPTY_DIR], [-1], [-1], [-1])

  lemma RootPlan(r: Vnode)
    ensures Shape(ROOT_PLAN) && Describes(ROOT_PLAN, ROOT_ONLY) && Stored(ROOT_PLAN, [r], ["/"], [null], [null], [null])
  {}

  class Tree {
    const root: Vnode
    ghost var nodes: seq<Vnode>
    ghost var plan: Plan
    ghost var fs: Fs

    ghost function Kids(): (r: seq<Vnode?>)
      reads this, nodes
      ensures |r| == |nodes| && forall i :: 0 <= i < |nodes| ==> r[i] == nodes[i].children
    {
      seq(|nodes|, i requires 0 <= i < |nodes| reads this, nodes => nodes[i].children)
    }

    ghost function Sibs(): (r: seq<Vnode?>)
      reads this, nodes
      ensures |r| == |nodes| && forall i :: 0 <= i < |nodes| ==> r[i] == nodes[i].next
    {
      seq(|nodes|, i requires 0 <= i < |nodes| reads this, nodes => nodes[i].next)
    }

    ghost function Parents(): (r: seq<Vnode?>)
      reads this, nodes
      ensures |r| == |nodes| && forall i :: 0 <= i < |nodes| ==> r[i] == nodes[i].parent
    {
      seq(|nodes|, i requires 0 <= i < |nodes| reads this, nodes => nodes[i].parent)
    }

    ghost function NamesOf(): (r: seq<string>)
      reads this, nodes
      ensures |r| == |nodes| && forall i :: 0 <= i < |nodes| ==> r[i] == nodes[i].name
    {
      seq(|nodes|, i requires 0 <= i < |nodes| reads this, nodes => nodes[i].name)
    }

    ghost function Infos(): (r: seq<Info>)
      reads this, nodes
      ensures |r| == |nodes| && forall i :: 0 <= i < |nodes| ==> r[i] == Info(nodes[i].kind, nodes[i].data)
    {
      seq(|nodes|, i requires 0 <= i < |nodes| reads this, nodes => Info(nodes[i].kind, nodes[i].data))
    }

    /** The numbered links and contents are what the objects hold. */
    ghost predicate Valid()
      reads this, nodes
    {
      Shape(plan) && Describes(plan, fs) && nodes != [] && nodes[0] == root && Infos() == plan.infos
      && Stored(plan, nodes, NamesOf(), Kids(), Sibs(), Parents())
    }

    /** vfs_init */
    constructor ()
      ensures Valid() && fresh(nodes) && fs == ROOT_ONLY
    {
      var r := new Vnode("/", Dir, null, null);
      root := r;
      nodes := [r];
      plan := ROOT_PLAN;
      fs := ROOT_ONLY;
      RootPlan(r);
      new;
      hide Shape, Describes, Stored;
      assert NamesOf() == ["/"] && Infos() == [EMPTY_DIR];
      assert Kids() == [null] && Sibs() == [null] && Parents() == [null];
    }

    /** The first child of node `i`, and that it is the newest. */
    lemma FirstChild(i: nat)
      requires Valid() && i < |nodes|
      ensures |plan.up| == |plan.kid| == |plan.paths| == |nodes|
      ensures -1 <= plan.kid[i] < |nodes| && nodes[i].children == RefIn(nodes, plan.kid[i])
      ensures plan.kid[i] == -1 || (0 < plan.kid[i] && plan.up[plan.kid[i]] == i)
      ensures forall k {:trigger plan.up[k]} :: plan.kid[i] < k < |nodes| && k > 0 ==> plan.up[k] != i
    {
      assert Kids()[i] == RefIn(nodes, plan.kid[i]);
    }

    /** The next sibling of node `j`, and that none lies between. */
    lemma NextSibling(j: nat)
      requires Valid() && 0 < j < |nodes|
      ensures |plan.up| == |plan.sib| == |plan.paths| == |nodes|
      ensures -1 <= plan.sib[j] < j && nodes[j].next == RefIn(nodes, plan.sib[j])
      ensures plan.sib[j] == -1 || (0 < plan.sib[j] && plan.up[plan.sib[j]] == plan.up[j])
      ensures forall k {:trigger plan.up[k]} :: plan.sib[j] < k < j && k > 0 ==> plan.up[k] != plan.up[j]
    {
      assert Sibs()[j] == RefIn(nodes, plan.sib[j]);
    }

    lemma NodeAt(j: nat)
      requires Valid() && j < |nodes|
      ensures |plan.paths| == |nodes| && nodes[j].name == Last(plan.paths[j])
      ensures plan.paths[j] in fs && fs[plan.paths[j]] == Info(nodes[j].kind, nodes[j].data)
    {}

    /** No child of `i` is called `seg`, so the map has no such path. */
    lemma NoSuchChild(i: nat, seg: string)
      requires Valid() && i < |nodes|
      requires |plan.up| == |plan.paths| == |nodes|
      requires forall k {:trigger plan.up[k]} :: 0 < k < |nodes| && plan.up[k] == i ==> Last(plan.paths[k]) != seg
      ensures plan.paths[i] + [seg] !in fs
    {
      hide Stored;
      forall k | 0 <= k < |plan.paths|
        ensures plan.paths[k] != plan.paths[i] + [seg]
      {
        if k > 0 {
          ChildByPath(plan, i, k, seg);
        }
      }
    }

    method ChildNamed(ghost i: nat, parent: Vnode, seg: string) returns (c: Vnode?, ghost j: int)
      requires Valid() && i < |nodes| && nodes[i] == parent
      ensures |plan.paths| == |nodes|
      ensures c == null ==> plan.paths[i] + [seg] !in fs
      ensures c != null ==> 0 <= j < |nodes| && nodes[j] == c && plan.paths[j] == plan.paths[i] + [seg]
    {
      hide Valid;
      FirstChild(i);
      c, j := parent.children, plan.kid[i];
      while c != null && c.name != seg
        invariant -1 <= j < |nodes| && c == RefIn(nodes, j)
        invariant j == -1 || (0 < j && plan.up[j] == i)
        invariant forall k {:trigger plan.up[k]} :: j < k < |nodes| && k > 0 && plan.up[k] == i ==> Last(plan.paths[k]) != seg
        decreases j
      {
        NodeAt(j);
        NextSibling(j);
        c, j := c.next, plan.sib[j];
      }
      if c != null {
        NodeAt(j);
        ShapeOf();
        ChildByPath(plan, i, j, seg);
      } else {
        NoSuchChild(i, seg);
      }
    }

    lemma ShapeOf()
      requires Valid()
      ensures Shape(plan) && |plan.paths| == |nodes|
    {}

    lemma OtherNodes(i: nat)
      requires Valid() && i < |nodes|
      ensures Sized(plan) && |plan.paths| == |nodes|
      ensures forall k :: 0 <= k < |nodes| && k != i ==> nodes[k] != nodes[i]
    {}

    method AddChild(ghost i: nat, parent: Vnode, seg: string, kind: Kind) returns (c: Vnode)
      requires Valid() && i < |nodes| && nodes[i] == parent
      requires plan.paths[i] + [seg] !in fs
      modifies this, parent
      ensures Valid() && fresh(c) && nodes == old(nodes) + [c]
      ensures plan == WithChild(old(plan), i, seg, Info(kind, []))
      ensures fs == old(fs)[old(plan.paths)[i] + [seg] := Info(kind, [])]
    {
      hide Shape, Describes, Stored, Points, NamesOf, Infos, Kids, Sibs, Parents;
      c := new Vnode(seg, kind, parent, parent.children);
      ghost var info := Info(kind, []);
      ghost var names, infos, kids, sibs, ups := NamesOf(), Infos(), Kids(), Sibs(), Parents();
      OtherNodes(i);
      GrownPlan(plan, fs, i, seg, info);
      GrownStored(plan, nodes, names, kids, sibs, ups, i, c, seg, info);
      parent.children := c;
      nodes := nodes + [c];
      plan := WithChild(plan, i, seg, info);
      fs := fs[old(plan.paths)[i] + [seg] := info];
      assert NamesOf() == names + [seg];
      assert Infos() == infos + [info];
      assert Kids() == (kids + [null])[i := c];
      assert Sibs() == sibs + [kids[i]];
      assert Parents() == ups + [parent];
    }

    /** The leaf of a file entry takes the entry's bytes. */
    method SetFile(ghost i: nat, v: Vnode, data: Bytes)
      requires Valid() && i < |nodes| && nodes[i] == v
      modifies this, v
      ensures Valid() && nodes == old(nodes) && plan == WithInfo(old(plan), i, Info(File, data))
      ensures fs == old(fs)[old(plan.paths)[i] := Info(File, data)]
    {
      hide Shape, Describes, Stored, Points, NamesOf, Infos, Kids, Sibs, Parents;
      ghost var info := Info(File, data);
      ghost var names, infos, kids, sibs, ups := NamesOf(), Infos(), Kids(), Sibs(), Parents();
      OtherNodes(i);
      InfoDescribes(plan, fs, i, info);
      InfoStored(plan, nodes, names, kids, sibs, ups, i, info);
      v.kind := File;
      v.data := data;
      plan, fs := WithInfo(plan, i, info), fs[plan.paths[i] := info];
      assert NamesOf() == names && Kids() == kids && Sibs() == sibs && Parents() == ups;
      assert Infos() == infos[i := info];
    }

    /** One component of walk_or_make: find or create the child, and give a leaf file its bytes. */
    method Descend(ghost i: nat, cur: Vnode, seg: string, last: bool, kind: Kind, data: Bytes)
      returns (next: Vnode, ghost j: nat)
      requires Valid() && i < |nodes| && nodes[i] == cur
      modifies this, nodes
      ensures Valid() && j < |nodes| && nodes[j] == next
      ensures |plan.paths| == |nodes| && i < |old(plan.paths)|
      ensures plan.paths[j] == old(plan.paths)[i] + [seg]
      ensures fs == PutStep(old(fs), old(plan.paths)[i] + [seg], last, kind, data)
      ensures forall k :: 0 <= k < |nodes| ==> nodes[k] in old(nodes) || fresh(nodes[k])
    {
      hide Valid, Last, RefIn;
      OtherNodes(i);
      ghost var q := plan.paths[i] + [seg];
      var c, k := ChildNamed(i, cur, seg);
      if c == null {
        next := AddChild(i, cur, seg, if last then kind else Dir);
        j := |nodes| - 1;
        OtherNodes(j);
      } else {
        next, j := c, k;
        NodeAt(j);
      }
      if last && kind == File {
        SetFile(j, next, data);
      }
    }

    /** walk_or_make */
    method WalkOrMake(path: string, kind: Kind, data: Bytes)
      requires Valid()
      modifies this, nodes
      ensures Valid() && fs == PutFrom(old(fs), [], Segs(Strip(path)), kind, data)
      ensures forall k :: 0 <= k < |nodes| ==> nodes[k] in old(nodes) || fresh(nodes[k])
    {
      hide *;
      var rest := SkipLead(path);
      WalkBelow(rest, kind, data);
    }

    /** The loop of walk_or_make, from the root. */
    method WalkBelow(path: string, kind: Kind, data: Bytes)
      requires Valid()
      modifies this, nodes
      ensures Valid() && fs == PutFrom(old(fs), [], Segs(path), kind, data)
      ensures forall k :: 0 <= k < |nodes| ==> nodes[k] in old(nodes) || fresh(nodes[k])
    {
      hide *;
      var rest := path;
      var cur := root;
      ghost var i: nat := 0;
      RootFacts();
      while rest != ""
        invariant Valid() && i < |nodes| == |plan.paths| && nodes[i] == cur
        invariant PutFrom(fs, plan.paths[i], Segs(rest), kind, data) == PutFrom(old(fs), [], Segs(path), kind, data)
        invariant forall k :: 0 <= k < |nodes| ==> nodes[k] in old(nodes) || fresh(nodes[k])
        decreases |rest|
      {
        PutUnfold(fs, plan.paths[i], rest, kind, data);
        var seg, after := TakeSegment(rest);
        if seg != "" {
          cur, i := Descend(i, cur, seg, after == "", kind, data);
        }
        rest := after;
      }
      PutNothing(fs, plan.paths[i], kind, data);
    }

    lemma RootFacts()
      requires Valid()
      ensures |nodes| == |plan.paths| > 0 && nodes[0] == root && plan.paths[0] == []
    {}

    /** vfs_lookup */
    method Find(path: string) returns (v: Vnode?)
      requires Valid()
      ensures Lookup(fs, path) == if v == null then None else Some(Info(v.kind, v.data))
      ensures v != null ==> v in nodes
    {
      if path == "" || path[0] != '/' {
        return null;
      }
      v := FindBelow(path[1..]);
    }

    /** The loop of vfs_lookup, from the root. */
    method FindBelow(path: string) returns (v: Vnode?)
      requires Valid()
      ensures LookupFrom(fs, [], Names(Segs(path))) == if v == null then None else Some(Info(v.kind, v.data))
      ensures v != null ==> v in nodes
    {
      hide Valid, LookupFrom, Segs, Head, AfterSeg, Names;
      var rest := path;
      var cur := root;
      ghost var i: nat := 0;
      RootFacts();
      while rest != ""
        invariant i < |nodes| == |plan.paths| && nodes[i] == cur
        invariant LookupFrom(fs, plan.paths[i], Names(Segs(rest))) == LookupFrom(fs, [], Names(Segs(path)))
        decreases |rest|
      {
        LookupUnfold(fs, plan.paths[i], rest);
        NodeAt(i);
        var seg, after := TakeSegment(rest);
        if seg != "" {
          if cur.kind != Dir {
            return null;
          }
          var child, j := ChildNamed(i, cur, seg);
          if child == null {
            AbsentIsNone(fs, plan.paths[i] + [seg], Names(Segs(after)));
            return null;
          }
          cur, i := child, j;
        }
        rest := after;
      }
      NodeAt(i);
      AbsentIsNone(fs, plan.paths[i], []);
      return cur;
    }

    /** tar_mount on the bytes of an archive. */
    method TarMount(b: Bytes) returns (ghost read: seq<Entry>)
      requires Valid()
      modifies this, nodes
      ensures Valid() && read == Headers(b, 0) && fs == BuiltOn(old(fs), read)
    {
      hide Valid, PutEntry, BuiltOn, Headers, HeaderAt, SizeAt, NextHeader;
      var off := 0;
      read := [];
      BuiltNone(fs);
      while off + BLOCK <= |b| && b[off] != '\0'
        invariant Valid() && fs == BuiltOn(old(fs), read) && read + Headers(b, off) == Headers(b, 0)
        invariant forall k :: 0 <= k < |nodes| ==> nodes[k] in old(nodes) || fresh(nodes[k])
        decreases |b| - off
      {
        var e, size := ReadHeader(b, off);
        HeadersStep(b, off);
        BuiltSnoc(old(fs), read, e);
        MountEntry(e);
        assert read + ([e] + Headers(b, NextHeader(off, size))) == read + [e] + Headers(b, NextHeader(off, size));
        read := read + [e];
        off := off + BLOCK + (size + 511) / 512 * 512;
      }
      HeadersEnd(b, off);
    }

    /** One header. */
    method MountEntry(e: Entry)
      requires Valid()
      modifies this, nodes
      ensures Valid() && fs == PutEntry(old(fs), e)
      ensures forall k :: 0 <= k < |nodes| ==> nodes[k] in old(nodes) || fresh(nodes[k])
    {
      EntryWalk(fs, e);
      hide Valid, PutEntry, PutFrom, Segs, Strip, FullPath;
      if FileFlag(e) {
        WalkOrMake(FullPath(e), File, e.data);
      } else if e.flag == '5' {
        WalkOrMake(FullPath(e), Dir, []);
      }
    }
  }

  /** One round of either walker's loop. */
  lemma SegsUnfold(s: string)
    requires s != ""
    ensures Segs(s) == if Head(s) == "" then Segs(AfterSeg(s)) else [Seg(Head(s), AfterSeg(s) == "")] + Segs(AfterSeg(s))
  {}

  lemma PutUnfold(fs: Fs, cur: Path, s: string, kind: Kind, data: Bytes)
    requires s != ""
    ensures var q := cur + [Head(s)];
            PutFrom(fs, cur, Segs(s), kind, data)
            == if Head(s) == "" then PutFrom(fs, cur, Segs(AfterSeg(s)), kind, data)
               else PutFrom(PutStep(fs, q, AfterSeg(s) == "", kind, data), q, Segs(AfterSeg(s)), kind, data)
  {
    SegsUnfold(s);
    hide Segs, Head, AfterSeg, PutStep;
  }

  lemma PutNothing(fs: Fs, cur: Path, kind: Kind, data: Bytes)
    ensures PutFrom(fs, cur, Segs(""), kind, data) == fs
  {}

  lemma LookupUnfold(fs: Fs, cur: Path, s: string)
    requires s != ""
    ensures LookupFrom(fs, cur, Names(Segs(s)))
            == if Head(s) == "" then LookupFrom(fs, cur, Names(Segs(AfterSeg(s))))
               else if cur !in fs || fs[cur].kind != Dir then None
               else LookupFrom(fs, cur + [Head(s)], Names(Segs(AfterSeg(s))))
  {
    SegsUnfold(s);
    hide Segs, Head, AfterSeg;
    if Head(s) != "" {
      NamesCons(Seg(Head(s), AfterSeg(s) == ""), Segs(AfterSeg(s)));
    }
  }

  lemma AbsentIsNone(fs: Fs, cur: Path, names: Path)
    ensures cur !in fs ==> LookupFrom(fs, cur, names) == None
    ensures LookupFrom(fs, cur, Names(Segs(""))) == At(fs, cur)
  {}

  lemma BuiltNone(base: Fs)
    ensures BuiltOn(base, []) == base
  {}

  lemma BuiltSnoc(base: Fs, es: seq<Entry>, e: Entry)
    ensures BuiltOn(base, es + [e]) == PutEntry(BuiltOn(base, es), e)
  {
    hide PutEntry;
    assert (es + [e])[..|es|] == es;
  }

  lemma HeadersStep(b: Bytes, off: nat)
    requires off + BLOCK <= |b| && b[off] != '\0'
    ensures Headers(b, off) == [HeaderAt(b, off)] + Headers(b, NextHeader(off, SizeAt(b, off)))
    ensures NextHeader(off, SizeAt(b, off)) == off + BLOCK + (SizeAt(b, off) + 511) / 512 * 512
  {
    hide HeaderAt, SizeAt;
  }

  lemma HeadersEnd(b: Bytes, off: nat)
    requires off + BLOCK > |b| || b[off] == '\0'
    ensures Headers(b, off) == []
  {}

  lemma EntryWalk(fs: Fs, e: Entry)
    ensures PutEntry(fs, e)
         == if FileFlag(e) then PutFrom(fs, [], Segs(Strip(FullPath(e))), File, e.data)
            else if e.flag == '5' then PutFrom(fs, [], Segs(Strip(FullPath(e))), Dir, [])
            else fs
  {}

  const SIZE_WORD: nat := 0x1_0000_0000_0000_0000

  /** The number of bytes the copy loop is asked for: the sum of offset and count is a 64-bit one. */
  function ClippedCount(size: nat, offset: nat, count: nat): nat
    requires offset < size
  {
    if (offset + count) % SIZE_WORD > size then size - offset else count
  }

  /** The bytes of the file from `offset` on that fit in `count`. */
  function Available(size: nat, offset: nat, count: nat): nat
    requires offset < size
  {
    if offset + count > size then size - offset else count
  }

  /** The loop stays within the file exactly when the sum does not wrap. */
  lemma ClipIsRightIff(size: nat, offset: nat, count: nat)
    requires offset < size < SIZE_WORD && count < SIZE_WORD
    ensures ClippedCount(size, offset, count) == Available(size, offset, count) <==> offset + count < SIZE_WORD
    ensures offset + ClippedCount(size, offset, count) <= size <==> offset + count < SIZE_WORD
  {}

  /** A count of 2^64 - 1 at offset 1 is not clipped at all. */
  lemma HugeCountIsNotClipped(size: nat)
    requires 1 < size < SIZE_WORD
    ensures ClippedCount(size, 1, SIZE_WORD - 1) == SIZE_WORD - 1
  {}

  /** What vfs_read does: an answer, or a loop that leaves the file. */
  datatype ReadResult = Answer(n: int) | Overrun

  /** vfs_read: -1 for anything but a file, 0 at the end, otherwise the bytes that are there; if the sum of
      offset and count wraps, the loop runs past the end of the file. */
  method Read(v: Vnode?, offset: nat, count: nat, buf: array<char>) returns (r: ReadResult)
    requires offset < SIZE_WORD && count < SIZE_WORD && (v != null ==> |v.data| < SIZE_WORD)
    requires v != null && offset < |v.data| ==> Available(|v.data|, offset, count) <= buf.Length
    modifies buf
    ensures v == null || v.kind != File ==> r == Answer(-1)
    ensures v != null && v.kind == File && offset >= |v.data| ==> r == Answer(0)
    ensures v != null && v.kind == File && offset < |v.data| ==>
              && r == (if offset + count < SIZE_WORD then Answer(Available(|v.data|, offset, count)) else Overrun)
              && var n := Available(|v.data|, offset, count);
              && n <= buf.Length && buf[..n] == v.data[offset..offset + n]
              && forall i :: n <= i < buf.Length ==> buf[i] == old(buf[i])
    ensures v == null || v.kind != File || offset >= |v.data| ==> buf[..] == old(buf[..])
  {
    if v == null || v.kind != File {
      return Answer(-1);
    }
    if offset >= |v.data| {
      return Answer(0);
    }
    var c := ClippedCount(|v.data|, offset, count);
    ClipIsRightIff(|v.data|, offset, count);
    var i := 0;
    while i < c
      invariant i <= c && offset + i <= |v.data| && i <= Available(|v.data|, offset, count)
      invariant forall k :: 0 <= k < i ==> buf[k] == v.data[offset + k]
      invariant forall k :: i <= k < buf.Length ==> buf[k] == old(buf[k])
    {
      if offset + i >= |v.data| {
        return Overrun;
      }
      buf[i] := v.data[offset + i];
      i := i + 1;
    }
    return Answer(c);
  }

  lemma GrownPlan(g: Plan, fs: Fs, i: nat, seg: string, info: Info)
    requires Shape(g) && Describes(g, fs) && i < |g.paths| && g.paths[i] + [seg] !in fs
    ensures Shape(WithChild(g, i, seg, info))
    ensures Describes(WithChild(g, i, seg, info), fs[g.paths[i] + [seg] := info])
  {
    assert g.paths[i] + [seg] !in g.paths;
    LinksInRange(g);
    ChildDescribes(g, fs, i, seg, info);
    hide Describes;
    ChildKeepsRooted(g, i, seg, info);
    hide Rooted;
    ChildKeepsHeads(g.up, g.kid, i);
    ChildKeepsChains(g.up, g.kid, g.sib, i);
    hide Heads, Chains;
  }

  lemma GrownStored(g: Plan, nodes: seq<Vnode>, names: seq<string>, kids: seq<Vnode?>, sibs: seq<Vnode?>, ups: seq<Vnode?>,
                    i: nat, c: Vnode, seg: string, info: Info)
    requires Shape(g) && i < |g.paths| && c !in nodes && Stored(g, nodes, names, kids, sibs, ups)
    ensures Stored(WithChild(g, i, seg, info), nodes + [c], names + [seg],
                   (kids + [null])[i := c], sibs + [kids[i]], ups + [nodes[i]])
  {
    LinksInRange(g);
    assert kids[i] == RefIn(nodes, g.kid[i]);
    assert Last(g.paths[i] + [seg]) == seg;
    hide Shape, Points;
    PointsGrow(nodes, g.kid, kids, c, -1);
    PointsRedirect(nodes + [c], g.kid + [-1], kids + [null], i, |nodes|);
    assert (g.kid + [-1])[i := |nodes|] == g.kid[i := |nodes|] + [-1];
    PointsGrow(nodes, g.sib, sibs, c, g.kid[i]);
    PointsGrow(nodes, g.up, ups, c, i);
  }

  lemma InfoStored(g: Plan, nodes: seq<Vnode>, names: seq<string>, kids: seq<Vnode?>, sibs: seq<Vnode?>, ups: seq<Vnode?>,
                   i: nat, info: Info)
    requires Sized(g) && i < |g.paths| && Stored(g, nodes, names, kids, sibs, ups)
    ensures Stored(WithInfo(g, i, info), nodes, names, kids, sibs, ups)
  {
    hide Points;
  }

  lemma LinksInRange(g: Plan)
    requires Shape(g)
    ensures forall j :: 0 <= j < |g.up| ==> g.up[j] < |g.up|
    ensures forall j :: 0 <= j < |g.kid| ==> g.kid[j] < |g.up|
    ensures forall j :: 0 <= j < |g.sib| ==> g.sib[j] < |g.up|
  {}
}
