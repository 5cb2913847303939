/** The property tree: nodes with parent and child links, changed in place, and the store of cells they stand for. */
module PropertyTree {
  import opened Bytes
  import opened Ordering
  import opened Sequences
  import opened Text

  datatype PropertyType = String | Bool | Null | Integral | Floating | Array | Trunk

  datatype PropertyValue = IntV(i: int) | BoolV(b: bool) | FloatV(r: real) | StringV(s: string)

  type Path = seq<string>

  /** What a node holds; an inner node has the value of a default-constructed variant. */
  datatype Cell = Cell(ntype: PropertyType, value: PropertyValue)

  type Store = map<Path, Cell>

  function Init(p: Path): Path
    requires p != []
  {
    p[..|p| - 1]
  }

  function Last(p: Path): string
    requires p != []
  {
    p[|p| - 1]
  }

  const TRUNK_CELL := Cell(Trunk, IntV(0))

  function TypeOf(v: PropertyValue): PropertyType {
    match v
    case IntV(_) => Integral
    case BoolV(_) => Bool
    case FloatV(_) => Floating
    case StringV(_) => String
  }

  function Leaf(v: PropertyValue): Cell {
    Cell(TypeOf(v), v)
  }

  // ------------------------------------------------------------------------------------------
  // The operations on stores

  /** The path with every node on it, the missing ones as trunks. */
  function EnsurePath(st: Store, p: Path): Store
    decreases |p|
  {
    if p == [] then st
    else
      var up := EnsurePath(st, Init(p));
      if p in up then up else up[p := TRUNK_CELL]
  }

  /** A new cell at loc in place of whatever was at and below loc. */
  function Replace(st: Store, loc: Path, cell: Cell): Store {
    (map q | q in st && !(loc <= q) :: st[q])[loc := cell]
  }

  function ChildKeys(st: Store, loc: Path): set<string> {
    set q | q in st && |q| == |loc| + 1 && loc <= q :: q[|loc|]
  }

  function GetIn(st: Store, p: Path, k: string, default: PropertyValue): PropertyValue {
    if p != [] && p + [k] in st then st[p + [k]].value else default
  }

  function SetIn(st: Store, p: Path, k: string, v: PropertyValue): Store {
    if p == [] then st else Replace(EnsurePath(st, p), p + [k], Leaf(v))
  }

  /** The key for a new element: the number of children, as uint32_t, in decimal. */
  function NextKey(children: nat): string {
    ToDecimal(children % U32)
  }

  /** add: only trunks and arrays take elements. */
  function AddIn(st: Store, loc: Path, v: PropertyValue): Store
    requires loc in st
  {
    if st[loc].ntype != Trunk && st[loc].ntype != Array then st
    else Replace(st, loc + [NextKey(|ChildKeys(st, loc)|)], Leaf(v))[loc := st[loc].(ntype := Array)]
  }

  function PushIn(st: Store, p: Path, k: string, v: PropertyValue): Store {
    if p == [] then st
    else
      var st1 := EnsurePath(st, p);
      AddIn(if p + [k] in st1 then st1 else st1[p + [k] := TRUNK_CELL], p + [k], v)
  }

  datatype Lookup<T> = Found(value: T) | PathEmpty | PathNotFound | KeyNotFound | NotArray | IndexOverflow

  function AtIn(st: Store, p: Path, k: string, idx: nat): Lookup<PropertyValue> {
    if p == [] then PathEmpty
    else if p !in st then PathNotFound
    else if p + [k] !in st then KeyNotFound
    else if st[p + [k]].ntype != Array then NotArray
    else if p + [k] + [ToDecimal(idx)] !in st then IndexOverflow
    else Found(st[p + [k] + [ToDecimal(idx)]].value)
  }

  /** The root is there, and so is the parent of everything that is there. */
  ghost predicate Closed(keys: set<Path>) {
    [] in keys && forall q | q in keys && q != [] :: Init(q) in keys
  }

  lemma {:induction false} NothingBelow(keys: set<Path>, loc: Path, q: Path)
    requires Closed(keys) && loc !in keys && loc <= q
    ensures q !in keys
    decreases |q|
  {
    if q != loc && q in keys {
      assert loc <= Init(q);
      NothingBelow(keys, loc, Init(q));
    }
  }

  lemma ReplaceNew(st: Store, loc: Path, cell: Cell)
    requires Closed(st.Keys) && loc !in st
    ensures Replace(st, loc, cell) == st[loc := cell]
  {
    forall q | q in st
      ensures !(loc <= q)
    {
      if loc <= q {
        NothingBelow(st.Keys, loc, q);
      }
    }
  }

  lemma EnsureNext(st: Store, p: Path, i: nat)
    requires i < |p|
    ensures var up := EnsurePath(st, p[..i]);
            EnsurePath(st, p[..i + 1]) == if p[..i + 1] in up then up else up[p[..i + 1] := TRUNK_CELL]
  {
    assert Init(p[..i + 1]) == p[..i];
  }

  /** Nothing that was there changes, and what is new are trunks on the path. */
  lemma {:induction false} EnsurePathMeaning(st: Store, p: Path)
    requires [] in st
    ensures p in EnsurePath(st, p)
    ensures forall q :: q in EnsurePath(st, p) <==> q in st || q <= p
    ensures forall q | q in EnsurePath(st, p) :: EnsurePath(st, p)[q] == if q in st then st[q] else Cell(Trunk, IntV(0))
    decreases |p|
  {
    if p != [] {
      EnsurePathMeaning(st, Init(p));
      forall q
        ensures q in EnsurePath(st, p) <==> q in st || q <= p
      {
        PrefixOfInit(q, p);
      }
    }
  }

  lemma PrefixOfInit(q: Path, p: Path)
    requires p != []
    ensures q <= p <==> q <= Init(p) || q == p
  {
    if q <= p && q != p {
      assert q == p[..|q|] && p[..|q|] == Init(p)[..|q|];
    }
  }

  function ValueAt(st: Store, q: Path): PropertyValue {
    if q in st then st[q].value else TRUNK_CELL.value
  }

  function ValuesOf(st: Store, loc: Path, keys: seq<string>): (vs: seq<PropertyValue>)
    ensures |vs| == |keys| && forall i | 0 <= i < |keys| :: vs[i] == ValueAt(st, loc + [keys[i]])
  {
    seq(|keys|, i requires 0 <= i < |keys| => ValueAt(st, loc + [keys[i]]))
  }

  lemma ChildKeysHave(st: Store, loc: Path)
    ensures forall k :: k in ChildKeys(st, loc) <==> loc + [k] in st
  {
    forall k
      ensures k in ChildKeys(st, loc) <==> loc + [k] in st
    {
      if k in ChildKeys(st, loc) {
        var q :| q in st && |q| == |loc| + 1 && loc <= q && k == q[|loc|];
        assert q == loc + [k];
      }
      if loc + [k] in st {
        assert (loc + [k])[|loc|] == k;
      }
    }
  }

  /** get_array: the values of all children in the order of their keys as strings. */
  function ArrayIn(st: Store, p: Path, k: string): Lookup<seq<PropertyValue>> {
    if p == [] then PathEmpty
    else if p !in st then PathNotFound
    else if p + [k] !in st then KeyNotFound
    else if st[p + [k]].ntype != Array then NotArray
    else
      LexIsOrder();
      Found(ValuesOf(st, p + [k], Ascending(ChildKeys(st, p + [k]), LexLess)))
  }

  // ------------------------------------------------------------------------------------------
  // The tree

  class MyPropertyTreeNode {
    const key: string
    var ntype: PropertyType
    var value: PropertyValue
    var parentNode: MyPropertyTreeNode?
    var childs: map<string, MyPropertyTreeNode>

    constructor (k: string)
      ensures key == k && ntype == Trunk && value == IntV(0) && parentNode == null && childs == map[]
    {
      key, ntype, value := k, Trunk, IntV(0);
      parentNode, childs := null, map[];
    }

    method Set(v: PropertyValue)
      modifies this`ntype, this`value
      ensures Cell(ntype, value) == Leaf(v)
    {
      ntype, value := TypeOf(v), v;
    }
  }

  // ------------------------------------------------------------------------------------------
  // How nodes hang together

  /** The link fields of a node. */
  datatype Link = Link(key: string, parent: MyPropertyTreeNode?, childs: map<string, MyPropertyTreeNode>)

  type Nodes = map<Path, MyPropertyTreeNode>

  type Links = map<Path, Link>

  /** Every node but the root knows its key and its parent, and is among the parent's children. */
  ghost predicate ParentsAgree(at: Nodes, links: Links) {
    links.Keys == at.Keys &&
    forall p | p in at && p != [] ::
      Init(p) in at && links[p].key == Last(p) && links[p].parent == at[Init(p)] && Last(p) in links[Init(p)].childs
  }

  /** A child of a node is the node one key further down. */
  ghost predicate ChildsAgree(at: Nodes, links: Links) {
    links.Keys == at.Keys &&
    forall p, k | p in at && k in links[p].childs :: p + [k] in at && links[p].childs[k] == at[p + [k]]
  }

  ghost predicate Distinct(at: Nodes) {
    forall p, q | p in at && q in at && at[p] == at[q] :: p == q
  }

  /** The nodes after a new one was put at loc. */
  function Grafted(at: Nodes, loc: Path, child: MyPropertyTreeNode): Nodes {
    (map q | q in at && !(loc <= q) :: at[q])[loc := child]
  }

  ghost function GraftedLinks(at: Nodes, links: Links, p: Path, k: string, child: MyPropertyTreeNode): Links
    requires p in at && links.Keys == at.Keys
  {
    map q | q in Grafted(at, p + [k], child) ::
      if q == p + [k] then Link(k, at[p], map[])
      else if q == p then links[p].(childs := links[p].childs[k := child])
      else links[q]
  }

  lemma BelowOrAt(loc: Path, q: Path, k: string)
    requires loc != []
    ensures loc <= q + [k] <==> loc <= q || loc == q + [k]
    ensures loc == q + [k] <==> q == Init(loc) && k == Last(loc)
  {
    if loc <= q + [k] && |loc| <= |q| {
      assert q == (q + [k])[..|q|];
    }
    if loc <= q {
      assert q + [k] == loc + (q + [k])[|loc|..];
    }
    if loc == q + [k] {
      assert loc[..|q|] == q;
    }
    assert loc == Init(loc) + [Last(loc)];
  }

  lemma ParentOf(at: Nodes, links: Links, p: Path)
    requires ParentsAgree(at, links) && p in at && p != []
    ensures var up, k := p[..|p| - 1], p[|p| - 1];
            up in at && links[p].key == k && links[p].parent == at[up] && k in links[up].childs
  {
  }

  lemma {:induction false} GraftKeepsParents(at: Nodes, links: Links, p: Path, k: string, child: MyPropertyTreeNode)
    requires ParentsAgree(at, links) && p in at
    ensures ParentsAgree(Grafted(at, p + [k], child), GraftedLinks(at, links, p, k, child))
  {
    var loc := p + [k];
    var at', links' := Grafted(at, loc, child), GraftedLinks(at, links, p, k, child);
    forall q | q in at' && q != []
      ensures Init(q) in at' && links'[q].key == Last(q) && links'[q].parent == at'[Init(q)] &&
              Last(q) in links'[Init(q)].childs
    {
      assert q == Init(q) + [Last(q)];
      GraftedParent(at, links, p, k, child, Init(q), Last(q));
    }
  }

  lemma GraftedParent(at: Nodes, links: Links, p: Path, k: string, child: MyPropertyTreeNode, up: Path, j: string)
    requires ParentsAgree(at, links) && p in at && up + [j] in Grafted(at, p + [k], child)
    ensures var at', links', q := Grafted(at, p + [k], child), GraftedLinks(at, links, p, k, child), up + [j];
            up in at' && links'[q].key == j && links'[q].parent == at'[up] && j in links'[up].childs
  {
    var loc, q := p + [k], up + [j];
    assert q[..|q| - 1] == up && q[|q| - 1] == j && loc[..|loc| - 1] == p && loc[|loc| - 1] == k;
    BelowOrAt(loc, up, j);
    if q == loc {
      GraftedParentOfNew(at, links, p, k, child);
    } else {
      ParentOf(at, links, q);
      hide ParentsAgree, Init, Last;
      GraftedOld(at, links, p, k, child, up);
      GraftedOld(at, links, p, k, child, q);
    }
  }

  lemma GraftedOld(at: Nodes, links: Links, p: Path, k: string, child: MyPropertyTreeNode, q: Path)
    requires p in at && links.Keys == at.Keys && q in at && !(p + [k] <= q)
    ensures var at', links' := Grafted(at, p + [k], child), GraftedLinks(at, links, p, k, child);
            q in at' && at'[q] == at[q] && links'[q].key == links[q].key && links'[q].parent == links[q].parent &&
            forall j | j in links[q].childs :: j in links'[q].childs
  {
  }

  lemma GraftedParentOfNew(at: Nodes, links: Links, p: Path, k: string, child: MyPropertyTreeNode)
    requires p in at && links.Keys == at.Keys
    ensures var at', links' := Grafted(at, p + [k], child), GraftedLinks(at, links, p, k, child);
            p in at' && p + [k] in at' && at'[p] == at[p] && links'[p + [k]] == Link(k, at[p], map[]) &&
            k in links'[p].childs
  {
    assert p != p + [k] && !(p + [k] <= p);
  }

  lemma GraftKeepsChilds(at: Nodes, links: Links, p: Path, k: string, child: MyPropertyTreeNode)
    requires ChildsAgree(at, links) && p in at
    ensures ChildsAgree(Grafted(at, p + [k], child), GraftedLinks(at, links, p, k, child))
  {
    var loc := p + [k];
    var at', links' := Grafted(at, loc, child), GraftedLinks(at, links, p, k, child);
    forall q, j | q in at' && j in links'[q].childs
      ensures q + [j] in at' && links'[q].childs[j] == at'[q + [j]]
    {
      BelowOrAt(loc, q, j);
    }
  }

  lemma OnlyAt(at: Nodes, p: Path)
    requires Distinct(at) && p in at
    ensures forall q | q in at && at[q] == at[p] :: q == p
  {
  }

  lemma GraftedNodes(at: Nodes, p: Path, k: string, child: MyPropertyTreeNode)
    requires p in at
    ensures var at' := Grafted(at, p + [k], child);
            at'.Values <= at.Values + {child} && p in at' && at'[p] == at[p]
  {
    assert p != p + [k] && !(p + [k] <= p);
  }

  lemma {:induction false} GraftKeeps(at: Nodes, links: Links, p: Path, k: string, child: MyPropertyTreeNode)
    requires ParentsAgree(at, links) && ChildsAgree(at, links) && Distinct(at) && p in at && child !in at.Values
    ensures var at', links' := Grafted(at, p + [k], child), GraftedLinks(at, links, p, k, child);
            ParentsAgree(at', links') && ChildsAgree(at', links') && Distinct(at') &&
            ([] in at ==> [] in at' && at'[[]] == at[[]])
  {
    GraftKeepsParents(at, links, p, k, child);
    GraftKeepsChilds(at, links, p, k, child);
    hide ParentsAgree, ChildsAgree;
    var at' := Grafted(at, p + [k], child);
    forall q, r | q in at' && r in at' && at'[q] == at'[r]
      ensures q == r
    {
      if q in at { assert at[q] in at.Values; }
      if r in at { assert at[r] in at.Values; }
    }
  }

  /** The cells of the nodes after that: all others are as they were. */
  lemma GraftedCells(st: Store, st': Store, loc: Path, cell: Cell)
    requires forall q :: q in st' <==> q == loc || (q in st && !(loc <= q))
    requires st'[loc] == cell && forall q | q in st' && q != loc :: st'[q] == st[q]
    ensures st' == Replace(st, loc, cell)
  {
  }

  lemma OneCellSet(st: Store, st': Store, loc: Path, cell: Cell)
    requires loc in st && st'.Keys == st.Keys
    requires st'[loc] == cell && forall q | q in st && q != loc :: st'[q] == st[q]
    ensures st' == st[loc := cell]
  {
  }

  class MyPropertyTree {
    const root: MyPropertyTreeNode
    ghost var at: Nodes

    ghost function AllLinks(): Links
      reads this, at.Values
    {
      map p | p in at :: Link(at[p].key, at[p].parentNode, at[p].childs)
    }

    /** `at` names every node of the tree by its path; child links, parent links and keys all agree with it. */
    ghost predicate Valid()
      reads this, at.Values
    {
      [] in at && at[[]] == root && Distinct(at) && ParentsAgree(at, AllLinks()) && ChildsAgree(at, AllLinks())
    }

    ghost function View(): Store
      reads this, at.Values
    {
      map p | p in at :: Cell(at[p].ntype, at[p].value)
    }

    constructor ()
      ensures Valid() && fresh(at.Values) && View() == map[[] := TRUNK_CELL]
    {
      root := new MyPropertyTreeNode("root");
      at := map[[] := root];
    }

    /** add_child of a node that is in no tree yet; a child of the same key goes, with everything below it. */
    method AddChild(parent: MyPropertyTreeNode, child: MyPropertyTreeNode, ghost p: Path)
      requires Valid() && p in at && at[p] == parent
      requires child !in at.Values && child.childs == map[]
      modifies this`at, parent`childs, child`parentNode
      ensures Valid() && at == Grafted(old(at), p + [child.key], child)
      ensures at.Values <= old(at.Values) + {child} && p in at && at[p] == parent
      ensures View() == Replace(old(View()), p + [child.key], Cell(child.ntype, child.value))
      ensures child.parentNode == parent && parent.childs == old(parent.childs)[child.key := child]
    {
      hide Valid, AllLinks, Replace;
      ghost var st := View();
      Graft(parent, child, p);
      GraftedCells(st, View(), p + [child.key], Cell(child.ntype, child.value));
    }

    method Graft(parent: MyPropertyTreeNode, child: MyPropertyTreeNode, ghost p: Path)
      requires Valid() && p in at && at[p] == parent
      requires child !in at.Values && child.childs == map[]
      modifies this`at, parent`childs, child`parentNode
      ensures Valid() && at == Grafted(old(at), p + [child.key], child)
      ensures at.Values <= old(at.Values) + {child} && p in at && at[p] == parent
      ensures child.parentNode == parent && parent.childs == old(parent.childs)[child.key := child]
    {
      hide ParentsAgree, ChildsAgree, Distinct;
      ghost var at0, links0 := at, AllLinks();
      OnlyAt(at0, p);
      GraftKeeps(at0, links0, p, child.key, child);
      GraftedNodes(at0, p, child.key, child);
      child.parentNode := parent;
      parent.childs := parent.childs[child.key := child];
      at := Grafted(at0, p + [child.key], child);
      ghost var links := GraftedLinks(at0, links0, p, child.key, child);
      forall q | q in at
        ensures AllLinks()[q] == links[q]
      {
        assert q != p && q != p + [child.key] ==> q in at0 && at0[q] != parent && at0[q] != child;
      }
      assert AllLinks() == links;
    }

    /** get_child: the children of a node and the paths one key further down are the same. */
    lemma ChildAt(p: Path, k: string)
      requires Valid() && p in at
      ensures k in at[p].childs <==> p + [k] in at
      ensures k in at[p].childs ==> at[p].childs[k] == at[p + [k]]
    {
      if p + [k] in at {
        assert Init(p + [k]) == p && Last(p + [k]) == k;
        assert k in AllLinks()[p].childs;
      }
      if k in at[p].childs {
        assert k in AllLinks()[p].childs;
      }
    }

    lemma ViewClosed()
      requires Valid()
      ensures Closed(at.Keys) && View().Keys == at.Keys
    {
      assert forall q | q in at && q != [] :: Init(q) in at;
    }

    /** The walk of all reading operations. */
    method FindNode(p: Path) returns (n: MyPropertyTreeNode?)
      requires Valid()
      ensures n == if p in at then at[p] else null
    {
      hide ParentsAgree, ChildsAgree, Distinct;
      ViewClosed();
      n := root;
      for i := 0 to |p|
        invariant p[..i] in at && n == at[p[..i]]
      {
        ChildAt(p[..i], p[i]);
        assert p[..i] + [p[i]] == p[..i + 1];
        if p[i] !in n.childs {
          NothingBelow(at.Keys, p[..i + 1], p);
          return null;
        }
        n := n.childs[p[i]];
      }
      assert p[..|p|] == p;
    }

    /** One step of a writing walk: the child of that key, created as a trunk if it is missing. */
    method Descend(parent: MyPropertyTreeNode, k: string, ghost p: Path) returns (child: MyPropertyTreeNode)
      requires Valid() && p in at && at[p] == parent
      modifies this`at, parent`childs
      ensures Valid() && p + [k] in at && at[p + [k]] == child
      ensures at.Values <= old(at.Values) + {child} && (child in old(at.Values) || fresh(child))
      ensures View() == if p + [k] in old(View()) then old(View()) else old(View())[p + [k] := TRUNK_CELL]
    {
      hide ParentsAgree, ChildsAgree, Distinct;
      ChildAt(p, k);
      ViewClosed();
      if k in parent.childs {
        return parent.childs[k];
      }
      child := AddTrunk(parent, k, p);
    }

    method AddTrunk(parent: MyPropertyTreeNode, k: string, ghost p: Path) returns (child: MyPropertyTreeNode)
      requires Valid() && p in at && at[p] == parent && p + [k] !in at
      modifies this`at, parent`childs
      ensures Valid() && p + [k] in at && at[p + [k]] == child
      ensures at.Values <= old(at.Values) + {child} && fresh(child)
      ensures View() == old(View())[p + [k] := TRUNK_CELL]
    {
      hide ParentsAgree, ChildsAgree, Distinct;
      ViewClosed();
      child := new MyPropertyTreeNode(k);
      ReplaceNew(View(), p + [k], TRUNK_CELL);
      AddChild(parent, child, p);
    }

    /** The walk of all writing operations: nodes that are missing are created as trunks. */
    method MakePath(p: Path) returns (parent: MyPropertyTreeNode)
      requires Valid()
      modifies this`at, at.Values
      ensures Valid() && View() == EnsurePath(old(View()), p)
      ensures p in at && at[p] == parent && fresh(at.Values - old(at.Values))
    {
      hide *;
      ghost var before := View();
      EnsureRoot(before);
      RootIsThere();
      parent := root;
      assert p[..0] == [];
      for i := 0 to |p|
        invariant Valid() && View() == EnsurePath(before, p[..i])
        invariant p[..i] in at && parent == at[p[..i]] && fresh(at.Values - old(at.Values))
      {
        assert p[..i] + [p[i]] == p[..i + 1];
        EnsureNext(before, p, i);
        assert parent in at.Values;
        parent := Descend(parent, p[i], p[..i]);
      }
      assert p[..|p|] == p;
    }

    method Get(path: string, k: string, default: PropertyValue) returns (v: PropertyValue)
      requires Valid()
      ensures v == GetIn(View(), Tokens(path, '/'), k, default)
    {
      hide ParentsAgree, ChildsAgree, Distinct, Tokens;
      var vpath := Split(path, '/');
      if vpath == [] {
        return default;
      }
      var node := FindNode(vpath);
      KnownChild(vpath, k);
      if node == null || k !in node.childs {
        return default;
      }
      v := node.childs[k].value;
    }

    method Set(path: string, k: string, v: PropertyValue)
      requires Valid()
      modifies this`at, at.Values
      ensures Valid() && fresh(at.Values - old(at.Values))
      ensures View() == SetIn(old(View()), Tokens(path, '/'), k, v)
    {
      hide *;
      var vpath := Split(path, '/');
      SetUnfolded(View(), vpath, k, v);
      if vpath == [] {
        return;
      }
      var parent := MakePath(vpath);
      assert parent in at.Values;
      var node := new MyPropertyTreeNode(k);
      node.Set(v);
      AddChild(parent, node, vpath);
    }

    /** add: one more element behind the children that a trunk or an array has. */
    method AddElement(node: MyPropertyTreeNode, v: PropertyValue, ghost loc: Path)
      requires Valid() && loc in at && at[loc] == node
      modifies this`at, node
      ensures Valid() && fresh(at.Values - old(at.Values))
      ensures View() == AddIn(old(View()), loc, v)
    {
      hide *;
      CellAt(loc);
      AddUnfolded(View(), loc, v);
      if node.ntype != Trunk && node.ntype != Array {
        return;
      }
      ChildCount(loc);
      var child := new MyPropertyTreeNode(NextKey(|node.childs|));
      child.Set(v);
      AddChild(node, child, loc);
      MarkArray(node, loc);
    }

    method MarkArray(node: MyPropertyTreeNode, ghost loc: Path)
      requires Valid() && loc in at && at[loc] == node
      modifies node`ntype
      ensures Valid() && View() == old(View())[loc := Cell(Array, node.value)]
    {
      OnlyAt(at, loc);
      ghost var st := View();
      hide ParentsAgree, ChildsAgree, Distinct;
      SetTypeArray(node);
      OneCellSet(st, View(), loc, Cell(Array, node.value));
    }

    method SetTypeArray(node: MyPropertyTreeNode)
      requires Valid()
      modifies node`ntype
      ensures Valid() && node.ntype == Array
    {
      hide ParentsAgree, ChildsAgree, Distinct;
      ghost var links := AllLinks();
      node.ntype := Array;
      assert AllLinks() == links;
    }

    /** An absent element is hung up before its first value is added rather than after; the outcome is the same. */
    method PushBack(path: string, k: string, v: PropertyValue)
      requires Valid()
      modifies this`at, at.Values
      ensures Valid() && fresh(at.Values - old(at.Values))
      ensures View() == PushIn(old(View()), Tokens(path, '/'), k, v)
    {
      hide *;
      var vpath := Split(path, '/');
      PushUnfolded(View(), vpath, k, v);
      if vpath == [] {
        return;
      }
      var parent := MakePath(vpath);
      assert parent in at.Values;
      var node := Descend(parent, k, vpath);
      AddElement(node, v, vpath + [k]);
    }

    method At(path: string, k: string, idx: nat) returns (r: Lookup<PropertyValue>)
      requires Valid()
      ensures r == AtIn(View(), Tokens(path, '/'), k, idx)
    {
      hide ParentsAgree, ChildsAgree, Distinct, Tokens;
      var vpath := Split(path, '/');
      if vpath == [] {
        return PathEmpty;
      }
      var node := FindNode(vpath);
      KnownChild(vpath, k);
      if node == null {
        return PathNotFound;
      }
      if k !in node.childs {
        return KeyNotFound;
      }
      var child := node.childs[k];
      if child.ntype != Array {
        return NotArray;
      }
      ChildAt(vpath + [k], ToDecimal(idx));
      if ToDecimal(idx) !in child.childs {
        return IndexOverflow;
      }
      r := Found(child.childs[ToDecimal(idx)].value);
    }

    method GetArray(path: string, k: string) returns (r: Lookup<seq<PropertyValue>>)
      requires Valid()
      ensures r == ArrayIn(View(), Tokens(path, '/'), k)
    {
      hide ParentsAgree, ChildsAgree, Distinct, Tokens;
      var vpath := Split(path, '/');
      if vpath == [] {
        return PathEmpty;
      }
      var node := FindNode(vpath);
      KnownChild(vpath, k);
      if node == null {
        return PathNotFound;
      }
      if k !in node.childs {
        return KeyNotFound;
      }
      if node.childs[k].ntype != Array {
        return NotArray;
      }
      var vs := ValuesInOrder(node.childs[k], vpath + [k]);
      r := Found(vs);
    }

    method ValuesInOrder(node: MyPropertyTreeNode, ghost loc: Path) returns (vs: seq<PropertyValue>)
      requires Valid() && loc in at && at[loc] == node
      ensures StrictOrder(LexLess) && vs == ValuesOf(View(), loc, Ascending(ChildKeys(View(), loc), LexLess))
    {
      hide *;
      ChildCount(loc);
      LexIsOrder();
      var keys := Ascending(node.childs.Keys, LexLess);
      AscendingElements(node.childs.Keys, LexLess);
      vs := [];
      for i := 0 to |keys|
        invariant |vs| == i && forall j | 0 <= j < i :: vs[j] == ValueAt(View(), loc + [keys[j]])
      {
        assert keys[i] in keys;
        ChildValue(loc, keys[i]);
        vs := vs + [node.childs[keys[i]].value];
      }
    }

    lemma ChildValue(loc: Path, k: string)
      requires Valid() && loc in at && k in at[loc].childs
      ensures at[loc].childs[k].value == ValueAt(View(), loc + [k])
    {
      hide ParentsAgree, ChildsAgree, Distinct;
      ChildAt(loc, k);
    }

    lemma CellAt(loc: Path)
      requires Valid() && loc in at
      ensures loc in View() && View()[loc] == Cell(at[loc].ntype, at[loc].value)
    {
    }

    lemma KnownChild(p: Path, k: string)
      requires Valid()
      ensures p + [k] in at <==> p in at && k in at[p].childs
      ensures p + [k] in at ==> at[p].childs[k] == at[p + [k]]
    {
      if p + [k] in at {
        assert Init(p + [k]) == p;
        ViewClosed();
      }
      if p in at {
        ChildAt(p, k);
      }
    }

    lemma ChildCount(loc: Path)
      requires Valid() && loc in at
      ensures at[loc].childs.Keys == ChildKeys(View(), loc) && |at[loc].childs| == |ChildKeys(View(), loc)|
    {
      hide ParentsAgree, ChildsAgree, Distinct;
      ChildKeysHave(View(), loc);
      forall k
        ensures k in at[loc].childs.Keys <==> k in ChildKeys(View(), loc)
      {
        ChildAt(loc, k);
      }
    }

    /**
     How the nodes of a consistent tree hang together: the root is at the empty path, and one key further down is just
     what hangs there among the children under this key, has this key, and points back.
     */
    lemma LinksAgree(up: Path, k: string)
      requires Valid()
      ensures [] in at && at[[]] == root
      ensures up + [k] in at <==> up in at && k in at[up].childs
      ensures up + [k] in at ==>
                var n := at[up + [k]]; n.key == k && n.parentNode == at[up] && at[up].childs[k] == n
    {
      KnownChild(up, k);
      if up + [k] in at {
        UpLink(up, k);
      }
      hide ParentsAgree, ChildsAgree, Distinct;
    }

    lemma UpLink(up: Path, k: string)
      requires Valid() && up + [k] in at
      ensures up in at && at[up + [k]].key == k && at[up + [k]].parentNode == at[up]
    {
      var p := up + [k];
      assert p[..|p| - 1] == up && p[|p| - 1] == k;
      ParentOf(at, AllLinks(), p);
      hide ParentsAgree, ChildsAgree, Distinct, Init, Last;
    }

    lemma RootIsThere()
      requires Valid()
      ensures [] in at && at[[]] == root
    {
    }
  }

  lemma SetUnfolded(st: Store, p: Path, k: string, v: PropertyValue)
    ensures SetIn(st, p, k, v) == if p == [] then st else Replace(EnsurePath(st, p), p + [k], Cell(TypeOf(v), v))
    ensures Leaf(v) == Cell(TypeOf(v), v)
  {
  }

  lemma AddUnfolded(st: Store, loc: Path, v: PropertyValue)
    requires loc in st
    ensures AddIn(st, loc, v) ==
            if st[loc].ntype != Trunk && st[loc].ntype != Array then st
            else Replace(st, loc + [NextKey(|ChildKeys(st, loc)|)], Leaf(v))[loc := Cell(Array, st[loc].value)]
  {
  }

  lemma PushUnfolded(st: Store, p: Path, k: string, v: PropertyValue)
    ensures PushIn(st, p, k, v) ==
            if p == [] then st
            else
              var st1 := EnsurePath(st, p);
              AddIn(if p + [k] in st1 then st1 else st1[p + [k] := TRUNK_CELL], p + [k], v)
  {
  }

  lemma EnsureRoot(st: Store)
    ensures EnsurePath(st, []) == st
  {
  }

  // ------------------------------------------------------------------------------------------
  // Laws

  /**
   What any get returns after a set: the new value at the location itself, the default below it, the value of a
   trunk at places on the way that the set had to create, and everywhere else what it returned before.
   */
  lemma GetAfterSet(st: Store, p: Path, k: string, v: PropertyValue, q: Path, j: string, default: PropertyValue)
    requires [] in st && p != [] && q != []
    ensures GetIn(SetIn(st, p, k, v), q, j, default) ==
            if q == p && j == k then v
            else if p + [k] <= q + [j] then default
            else if q + [j] !in st && q + [j] <= p then IntV(0)
            else GetIn(st, q, j, default)
  {
    EnsurePathMeaning(st, p);
    BelowOrAt(p + [k], q, j);
    assert Init(p + [k]) == p && Last(p + [k]) == k;
  }

  /** The frame: locations above, below and at the one that was set aside, no get notices. */
  lemma SetFrame(st: Store, p: Path, k: string, v: PropertyValue, q: Path, j: string, default: PropertyValue)
    requires [] in st && !(p + [k] <= q + [j]) && !(q + [j] <= p + [k])
    ensures GetIn(SetIn(st, p, k, v), q, j, default) == GetIn(st, q, j, default)
  {
    if p != [] && q != [] {
      GetAfterSet(st, p, k, v, q, j, default);
      PrefixOfInit(q + [j], p + [k]);
      assert Init(p + [k]) == p;
    }
  }

  /** What a set stores, for each of the four kinds of value. */
  lemma SetStores(st: Store, p: Path, k: string, i: int, b: bool, r: real, s: string)
    requires p != []
    ensures p + [k] in SetIn(st, p, k, IntV(i)) && SetIn(st, p, k, IntV(i))[p + [k]] == Cell(Integral, IntV(i))
    ensures p + [k] in SetIn(st, p, k, BoolV(b)) && SetIn(st, p, k, BoolV(b))[p + [k]] == Cell(Bool, BoolV(b))
    ensures p + [k] in SetIn(st, p, k, FloatV(r)) && SetIn(st, p, k, FloatV(r))[p + [k]] == Cell(Floating, FloatV(r))
    ensures p + [k] in SetIn(st, p, k, StringV(s)) && SetIn(st, p, k, StringV(s))[p + [k]] == Cell(String, StringV(s))
  {
  }

  /** A path without a key in it: gets answer with the default, sets and pushes do nothing, and array reads fail. */
  lemma EmptyPath(st: Store, k: string, v: PropertyValue, i: nat)
    ensures GetIn(st, [], k, v) == v && SetIn(st, [], k, v) == st && PushIn(st, [], k, v) == st
    ensures AtIn(st, [], k, i) == PathEmpty && ArrayIn(st, [], k) == PathEmpty
  {
  }

  /** Array reads in the order of their tests: the path, the key, and then whether it is an array. */
  lemma ArrayErrors(st: Store, p: Path, k: string, i: nat)
    requires p != []
    ensures AtIn(st, p, k, i).PathNotFound? <==> p !in st
    ensures ArrayIn(st, p, k).PathNotFound? <==> p !in st
    ensures AtIn(st, p, k, i).KeyNotFound? <==> p in st && p + [k] !in st
    ensures ArrayIn(st, p, k).KeyNotFound? <==> p in st && p + [k] !in st
    ensures AtIn(st, p, k, i).NotArray? <==> p in st && p + [k] in st && st[p + [k]].ntype != Array
    ensures ArrayIn(st, p, k).NotArray? <==> p in st && p + [k] in st && st[p + [k]].ntype != Array
  {
  }

  /** A leaf takes no elements: a push onto one changes nothing, and it is not read as an array. */
  lemma LeafTakesNoElement(st: Store, p: Path, k: string, v: PropertyValue, w: PropertyValue, i: nat)
    requires Closed(st.Keys) && p != []
    ensures var st' := SetIn(st, p, k, v);
            PushIn(st', p, k, w) == st' && AtIn(st', p, k, i) == NotArray && ArrayIn(st', p, k) == NotArray
  {
    var st', loc := SetIn(st, p, k, v), p + [k];
    EnsureClosed(st, p);
    assert Init(loc) == p && !(loc <= p);
    assert p in st' && loc in st' && st'[loc] == Leaf(v);
    ReplaceClosed(EnsurePath(st, p), loc, Leaf(v));
    EnsurePresent(st', p);
  }

  lemma ReplaceClosed(st: Store, loc: Path, cell: Cell)
    requires Closed(st.Keys) && loc != [] && Init(loc) in st
    ensures Closed(Replace(st, loc, cell).Keys)
  {
    var st' := Replace(st, loc, cell);
    assert !(loc <= Init(loc)) && !(loc <= []);
    forall q | q in st' && q != []
      ensures Init(q) in st'
    {
      if q != loc {
        NotBelowInit(loc, q);
      }
    }
  }

  lemma NotBelowInit(loc: Path, q: Path)
    requires q != [] && !(loc <= q)
    ensures !(loc <= Init(q))
  {
    PrefixOfPrefix(loc, Init(q), q);
  }

  /** The frame of a push: gets at locations that are neither above nor below the array do not notice it. */
  lemma PushFrame(st: Store, p: Path, k: string, v: PropertyValue, q: Path, j: string, default: PropertyValue)
    requires [] in st && !(p + [k] <= q + [j]) && !(q + [j] <= p + [k])
    ensures GetIn(PushIn(st, p, k, v), q, j, default) == GetIn(st, q, j, default)
  {
    if p != [] && q != [] {
      var loc, x := p + [k], q + [j];
      EnsurePathMeaning(st, p);
      PrefixOfInit(x, loc);
      assert Init(loc) == p;
      var st1 := EnsurePath(st, p);
      var st2 := if loc in st1 then st1 else st1[loc := TRUNK_CELL];
      PushUnfolded(st, p, k, v);
      AddUnfolded(st2, loc, v);
      NotBelowOne(loc, NextKey(|ChildKeys(st2, loc)|), x);
    }
  }

  lemma NotBelowOne(loc: Path, key: string, x: Path)
    requires !(loc <= x)
    ensures !(loc + [key] <= x) && x != loc + [key] && x != loc
  {
    PrefixOfPrefix(loc, loc + [key], x);
  }

  /** The key of an element is a uint32_t: behind 2^32 elements the next one takes the place of element 0 again. */
  lemma PushWraps(st: Store, loc: Path, v: PropertyValue)
    requires loc in st && st[loc].ntype == Array && |ChildKeys(st, loc)| == 0x1_0000_0000
    ensures AddIn(st, loc, v) == Replace(st, loc + ["0"], Leaf(v))[loc := st[loc]]
  {
    AddUnfolded(st, loc, v);
    assert NextKey(0x1_0000_0000) == ToDecimal(0) == [DigitChar(0)] == "0";
  }

  function PushAll(st: Store, p: Path, k: string, vs: seq<PropertyValue>): Store {
    if vs == [] then st else PushIn(PushAll(st, p, k, vs[..|vs| - 1]), p, k, vs[|vs| - 1])
  }

  predicate IsIndex(key: string, n: nat) {
    exists i :: 0 <= i < n && key == ToDecimal(i)
  }

  /** loc has the values vs under the decimal indices, and no other children. */
  ghost predicate HoldsArray(st: Store, loc: Path, vs: seq<PropertyValue>) {
    Closed(st.Keys) && loc in st &&
    (forall key :: loc + [key] in st <==> IsIndex(key, |vs|)) &&
    forall i | 0 <= i < |vs| :: ValueAt(st, loc + [ToDecimal(i)]) == vs[i]
  }

  function Indices(n: nat): (s: seq<string>)
    ensures |s| == n && forall i | 0 <= i < n :: s[i] == ToDecimal(i)
  {
    if n == 0 then [] else Indices(n - 1) + [ToDecimal(n - 1)]
  }

  predicate NoRepeats<T(==)>(s: seq<T>) {
    forall i, j | 0 <= i < j < |s| :: s[i] != s[j]
  }

  lemma IndicesDistinct(n: nat)
    ensures NoRepeats(Indices(n))
  {
    forall i, j | 0 <= i < j < n
      ensures Indices(n)[i] != Indices(n)[j]
    {
      if ToDecimal(i) == ToDecimal(j) {
        ToDecimalInjective(i, j);
      }
    }
  }

  lemma {:induction false} NoRepeatsSize<T>(s: seq<T>, elements: set<T>)
    requires NoRepeats(s) && forall x :: x in s <==> x in elements
    ensures |elements| == |s|
  {
    if s == [] {
      assert elements == {};
    } else {
      var n := |s| - 1;
      assert s == s[..n] + [s[n]];
      NoRepeatsSize(s[..n], elements - {s[n]});
    }
  }

  lemma {:induction false} NoRepeatsMultiset<T>(s: seq<T>)
    requires NoRepeats(s)
    ensures forall x :: multiset(s)[x] == if x in s then 1 else 0
  {
    if s != [] {
      var n := |s| - 1;
      assert s == s[..n] + [s[n]];
      NoRepeatsMultiset(s[..n]);
    }
  }

  lemma {:induction false} ArrayChildren(st: Store, loc: Path, vs: seq<PropertyValue>)
    requires HoldsArray(st, loc, vs)
    ensures forall key :: key in ChildKeys(st, loc) <==> key in Indices(|vs|)
    ensures |ChildKeys(st, loc)| == |vs|
  {
    ChildKeysHave(st, loc);
    IndicesDistinct(|vs|);
    forall key
      ensures key in ChildKeys(st, loc) <==> key in Indices(|vs|)
    {
      assert key in ChildKeys(st, loc) <==> loc + [key] in st;
      if IsIndex(key, |vs|) {
        var i :| 0 <= i < |vs| && key == ToDecimal(i);
        assert Indices(|vs|)[i] == key;
      }
    }
    NoRepeatsSize(Indices(|vs|), ChildKeys(st, loc));
  }

  lemma NextIndexIsNew(n: nat)
    ensures !IsIndex(ToDecimal(n), n)
    ensures forall key :: IsIndex(key, n + 1) <==> IsIndex(key, n) || key == ToDecimal(n)
  {
    if IsIndex(ToDecimal(n), n) {
      var i :| 0 <= i < n && ToDecimal(n) == ToDecimal(i);
      ToDecimalInjective(i, n);
    }
    forall key
      ensures IsIndex(key, n + 1) <==> IsIndex(key, n) || key == ToDecimal(n)
    {
      if IsIndex(key, n + 1) {
        var i :| 0 <= i < n + 1 && key == ToDecimal(i);
      }
    }
  }

  lemma {:induction false} NextKeyIs(n: nat)
    requires n < U32
    ensures NextKey(n) == ToDecimal(n)
  {
    hide ToDecimal;
    assert n % U32 == n;
  }

  lemma {:induction false} AddShape(st: Store, loc: Path, vs: seq<PropertyValue>, v: PropertyValue)
    requires HoldsArray(st, loc, vs) && |vs| < U32 && (st[loc].ntype == Trunk || st[loc].ntype == Array)
    ensures loc + [ToDecimal(|vs|)] !in st
    ensures AddIn(st, loc, v) == st[loc + [ToDecimal(|vs|)] := Leaf(v)][loc := Cell(Array, st[loc].value)]
  {
    NextKeyIs(|vs|);
    hide AddIn, Replace, ChildKeys, NextKey, ToDecimal, IsIndex, Leaf;
    ArrayChildren(st, loc, vs);
    AddUnfolded(st, loc, v);
    NextIndexIsNew(|vs|);
    ReplaceNew(st, loc + [ToDecimal(|vs|)], Leaf(v));
  }

  lemma KeyBelow(loc: Path, a: string, b: string)
    ensures loc + [a] == loc + [b] <==> a == b
    ensures loc + [a] != loc && loc + [a] != [] && Init(loc + [a]) == loc
  {
    assert Last(loc + [a]) == a && Last(loc + [b]) == b;
  }

  lemma AddHolds(st: Store, loc: Path, vs: seq<PropertyValue>, v: PropertyValue)
    requires HoldsArray(st, loc, vs) && |vs| < U32 && (st[loc].ntype == Trunk || st[loc].ntype == Array)
    ensures HoldsArray(AddIn(st, loc, v), loc, vs + [v]) && AddIn(st, loc, v)[loc].ntype == Array
    ensures st.Keys <= AddIn(st, loc, v).Keys
  {
    hide AddIn, IsIndex, ToDecimal;
    AddShape(st, loc, vs, v);
    var st' := AddIn(st, loc, v);
    NextIndexIsNew(|vs|);
    forall key
      ensures loc + [key] in st' <==> IsIndex(key, |vs| + 1)
      ensures key != ToDecimal(|vs|) ==> ValueAt(st', loc + [key]) == ValueAt(st, loc + [key])
    {
      KeyBelow(loc, key, ToDecimal(|vs|));
    }
    KeyBelow(loc, ToDecimal(|vs|), "");
    forall i | 0 <= i <= |vs|
      ensures ValueAt(st', loc + [ToDecimal(i)]) == (vs + [v])[i]
    {
      if i < |vs| && ToDecimal(i) == ToDecimal(|vs|) {
        ToDecimalInjective(i, |vs|);
      }
    }
  }

  lemma {:induction false} EnsurePresent(st: Store, p: Path)
    requires Closed(st.Keys) && p in st
    ensures EnsurePath(st, p) == st
    decreases |p|
  {
    if p != [] {
      EnsurePresent(st, Init(p));
    }
  }

  lemma {:induction false} EnsureClosed(st: Store, p: Path)
    requires Closed(st.Keys)
    ensures Closed(EnsurePath(st, p).Keys) && p in EnsurePath(st, p)
    decreases |p|
  {
    if p != [] {
      EnsureClosed(st, Init(p));
    }
  }

  /** The first push onto an absent node finds a path, a trunk without children, and adds element 0. */
  lemma FirstPush(st: Store, p: Path, k: string, v: PropertyValue)
    requires Closed(st.Keys) && p != [] && p + [k] !in st
    ensures var st' := PushIn(st, p, k, v);
            p in st' && HoldsArray(st', p + [k], [v]) && st'[p + [k]].ntype == Array
  {
    var loc, st1 := p + [k], EnsurePath(st, p);
    EnsureClosed(st, p);
    EnsurePathMeaning(st, p);
    KeyBelow(p, k, "");
    var st2 := st1[loc := TRUNK_CELL];
    forall key
      ensures loc + [key] !in st2
    {
      KeyBelow(loc, key, "");
      NothingBelow(st1.Keys, loc, loc + [key]);
    }
    assert HoldsArray(st2, loc, []);
    AddHolds(st2, loc, [], v);
    assert [] + [v] == [v];
  }

  lemma NextPush(st: Store, p: Path, k: string, vs: seq<PropertyValue>, v: PropertyValue)
    requires p != [] && p in st && HoldsArray(st, p + [k], vs) && st[p + [k]].ntype == Array && |vs| < U32
    ensures var st' := PushIn(st, p, k, v);
            p in st' && HoldsArray(st', p + [k], vs + [v]) && st'[p + [k]].ntype == Array
  {
    EnsurePresent(st, p);
    AddHolds(st, p + [k], vs, v);
  }

  lemma {:induction false} PushesHold(st: Store, p: Path, k: string, vs: seq<PropertyValue>)
    requires Closed(st.Keys) && p != [] && p + [k] !in st && 0 < |vs| <= U32
    ensures var st' := PushAll(st, p, k, vs);
            p in st' && HoldsArray(st', p + [k], vs) && st'[p + [k]].ntype == Array
    decreases |vs|
  {
    var n := |vs| - 1;
    assert vs == vs[..n] + [vs[n]];
    if n == 0 {
      assert vs == [vs[0]] && PushAll(st, p, k, vs[..0]) == st;
      FirstPush(st, p, k, vs[0]);
    } else {
      PushesHold(st, p, k, vs[..n]);
      NextPush(PushAll(st, p, k, vs[..n]), p, k, vs[..n], vs[n]);
    }
  }

  /** After pushes onto an absent node `at` returns the i-th pushed value, and fails behind the last. */
  lemma {:induction false} ArrayAt(st: Store, p: Path, k: string, vs: seq<PropertyValue>, i: nat)
    requires Closed(st.Keys) && p != [] && p + [k] !in st && 0 < |vs| <= U32
    ensures AtIn(PushAll(st, p, k, vs), p, k, i) == if i < |vs| then Found(vs[i]) else IndexOverflow
  {
    PushesHold(st, p, k, vs);
    hide PushAll;
    if IsIndex(ToDecimal(i), |vs|) {
      var j :| 0 <= j < |vs| && ToDecimal(i) == ToDecimal(j);
      ToDecimalInjective(i, j);
    }
  }

  lemma WithoutOne<T>(a: seq<T>, b: seq<T>, j: nat)
    requires multiset(a) == multiset(b) && a != [] && j < |b| && b[j] == a[|a| - 1]
    ensures multiset(a[..|a| - 1]) == multiset(b[..j] + b[j + 1..])
  {
    var init, x := a[..|a| - 1], a[|a| - 1];
    assert a == init + [x] && multiset(a) == multiset(init) + multiset{x};
    WithOne(b, j);
    SameWithout(multiset(init), multiset(b[..j] + b[j + 1..]), x);
  }

  lemma WithOne<T>(b: seq<T>, j: nat)
    requires j < |b|
    ensures multiset(b) == multiset(b[..j] + b[j + 1..]) + multiset{b[j]}
  {
    assert b == b[..j] + [b[j]] + b[j + 1..];
  }

  lemma SameWithout<T>(a: multiset<T>, b: multiset<T>, x: T)
    requires a + multiset{x} == b + multiset{x}
    ensures a == b
  {
    assert (a + multiset{x}) - multiset{x} == a && (b + multiset{x}) - multiset{x} == b;
  }

  lemma ValuesOfParts(st: Store, loc: Path, a: seq<string>, b: seq<string>)
    ensures ValuesOf(st, loc, a + b) == ValuesOf(st, loc, a) + ValuesOf(st, loc, b)
  {
    hide ValueAt;
    var keys := a + b;
    assert forall i | 0 <= i < |keys| :: keys[i] == if i < |a| then a[i] else b[i - |a|];
  }

  lemma ValuesWithoutOne(st: Store, loc: Path, b: seq<string>, j: nat)
    requires j < |b|
    ensures multiset(ValuesOf(st, loc, b))
         == multiset(ValuesOf(st, loc, b[..j] + b[j + 1..])) + multiset{ValueAt(st, loc + [b[j]])}
  {
    var left, right := ValuesOf(st, loc, b[..j]), ValuesOf(st, loc, b[j + 1..]);
    var x := ValueAt(st, loc + [b[j]]);
    ValuesOfParts(st, loc, b[..j], b[j + 1..]);
    ValuesOfParts(st, loc, b[..j], [b[j]] + b[j + 1..]);
    ValuesOfParts(st, loc, [b[j]], b[j + 1..]);
    assert ValuesOf(st, loc, [b[j]]) == [x];
    assert b == b[..j] + ([b[j]] + b[j + 1..]);
    hide *;
    PlusAssoc(left, [x], right);
    calc {
      multiset(left + [x] + right);
      multiset(left) + multiset{x} + multiset(right);
      multiset(left + right) + multiset{x};
    }
  }

  lemma {:induction false} ValuesMultiset(st: Store, loc: Path, a: seq<string>, b: seq<string>)
    requires multiset(a) == multiset(b)
    ensures multiset(ValuesOf(st, loc, a)) == multiset(ValuesOf(st, loc, b))
    decreases |a|
  {
    if a == [] {
      assert |b| == |multiset(b)| == 0;
    } else {
      var n := |a| - 1;
      assert a[n] in multiset(b);
      var j :| 0 <= j < |b| && b[j] == a[n];
      WithoutOne(a, b, j);
      ValuesMultiset(st, loc, a[..n], b[..j] + b[j + 1..]);
      ValuesWithoutOne(st, loc, a, n);
      ValuesWithoutOne(st, loc, b, j);
      assert a[..n] + a[n + 1..] == a[..n];
    }
  }

  /**
   get_array after pushes onto an absent node: the pushed values, each as often as it was pushed, in the order
   in which their decimal indices sort as strings.
   */
  lemma {:induction false} ArrayContents(st: Store, p: Path, k: string, vs: seq<PropertyValue>)
    requires Closed(st.Keys) && p != [] && p + [k] !in st && 0 < |vs| <= U32
    ensures StrictOrder(LexLess)
    ensures var st', keys := PushAll(st, p, k, vs), Ascending(ChildKeys(PushAll(st, p, k, vs), p + [k]), LexLess);
            ArrayIn(st', p, k) == Found(ValuesOf(st', p + [k], keys)) &&
            multiset(keys) == multiset(Indices(|vs|)) && multiset(ValuesOf(st', p + [k], keys)) == multiset(vs) &&
            forall i, j | 0 <= i < j < |keys| :: LexLess(keys[i], keys[j])
  {
    LexIsOrder();
    var st', loc := PushAll(st, p, k, vs), p + [k];
    PushesHold(st, p, k, vs);
    hide PushAll;
    ArrayChildren(st', loc, vs);
    var keys := Ascending(ChildKeys(st', loc), LexLess);
    SortedIndices(ChildKeys(st', loc), |vs|);
    ValuesMultiset(st', loc, keys, Indices(|vs|));
    assert ValuesOf(st', loc, Indices(|vs|)) == vs;
  }

  lemma {:induction false} SortedIndices(keys: set<string>, n: nat)
    requires forall key :: key in keys <==> key in Indices(n)
    ensures StrictOrder(LexLess)
    ensures var a := Ascending(keys, LexLess);
            multiset(a) == multiset(Indices(n)) && forall i, j | 0 <= i < j < |a| :: LexLess(a[i], a[j])
  {
    LexIsOrder();
    var a := Ascending(keys, LexLess);
    AscendingElements(keys, LexLess);
    AscendingSorted(keys, LexLess);
    SortedNoRepeats(a, LexLess);
    IndicesDistinct(n);
    hide Ascending, Indices, LexLess;
    SameMultiset(a, Indices(n));
  }

  lemma SortedNoRepeats<T(!new)>(a: seq<T>, less: (T, T) -> bool)
    requires StrictOrder(less) && forall i, j | 0 <= i < j < |a| :: less(a[i], a[j])
    ensures NoRepeats(a)
  {
  }

  lemma SameMultiset<T>(a: seq<T>, b: seq<T>)
    requires NoRepeats(a) && NoRepeats(b) && forall x :: x in a <==> x in b
    ensures multiset(a) == multiset(b)
  {
    NoRepeatsMultiset(a);
    NoRepeatsMultiset(b);
  }

  /** The 3rd of eleven pushed values comes after the 11th: "10" sorts before "2". */
  lemma TenBeforeTwo()
    ensures LexLess(ToDecimal(10), ToDecimal(2))
  {
    assert ToDecimal(10) == [DigitChar(1)] + [DigitChar(0)] && ToDecimal(2) == [DigitChar(2)];
  }
}
