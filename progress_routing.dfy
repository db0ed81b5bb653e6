/** Path-based routing over download trees, as values: the effect of
    `recProgressUpdate` (write a value at the end of an index path, then
    recompute every node of the path bottom-up) and the path `genQueue`
    computes (the first unfinished item, level by level). */
module ProgressRouting {
  import opened Common
  import opened ProgressTree

  // ---------------------------------------------------------------------
  // Addressing nodes by index paths

  /** A node standing for the list of top-level items, so that a path into
      the list is a path from this node. */
  function Root(ts: seq<Item>): Item { Item("", "", None, "", 0.0, ts) }

  /** `q` leads from `t` down to some node, one child index per level. */
  predicate IsPath(t: Item, q: seq<int>)
    decreases |q|
  {
    q == [] || (0 <= q[0] < |t.items| && IsPath(t.items[q[0]], q[1..]))
  }

  /** The node `q` leads to from `t` (`t` itself for the empty path). */
  function At(t: Item, q: seq<int>): Item
    requires IsPath(t, q)
    decreases |q|
  {
    if q == [] then t else At(t.items[q[0]], q[1..])
  }

  /** Same identifiers, labels, size hints, speeds and number of children
      everywhere: only stored progress may differ. */
  predicate SameShape(t: Item, u: Item)
    decreases t
  {
    && t.id == u.id && t.labelText == u.labelText && t.size == u.size && t.speed == u.speed
    && |t.items| == |u.items|
    && forall i :: 0 <= i < |t.items| ==> SameShape(t.items[i], u.items[i])
  }

  /** A node whose stored progress is what `setProgress(getProgress())`
      would store. */
  predicate Settled(t: Item) { t.progress == Clamp(Progress(t)) }

  /** The height of a tree: the number of nodes on its longest downward path. */
  function Height(t: Item): (h: nat)
    ensures h >= 1
    decreases t
  {
    1 + MaxHeight(t.items)
  }

  function MaxHeight(ts: seq<Item>): nat
    decreases ts
  {
    if ts == [] then 0
    else
      var h := Height(ts[|ts| - 1]);
      var m := MaxHeight(ts[..|ts| - 1]);
      if h < m then m else h
  }

  // ---------------------------------------------------------------------
  // recProgressUpdate

  /** `next.setProgress(next.getProgress())`. */
  function Refresh(t: Item): Item { t.(progress := Clamp(Progress(t))) }

  /** What `recProgressUpdate(p, t.items, path, t, k)` makes of `t`: follow
      `path[k]` into the children while it indexes one, refreshing each
      node on the way back; where the path ends or leaves the range, write
      `p` into the current node. */
  function Descend(p: real, t: Item, path: seq<int>, k: nat): Item
    decreases |path| - k
  {
    if k < |path| && 0 <= path[k] < |t.items| then
      t.(items := t.items[path[k] := Refresh(Descend(p, t.items[path[k]], path, k + 1))])
    else
      t.(progress := Clamp(p))
  }

  /** What `recProgressUpdate(p, roots, path, undefined, k)` makes of the
      top-level list: without a current item, an invalid first index
      changes nothing. */
  function UpdateRoots(p: real, roots: seq<Item>, path: seq<int>, k: nat): seq<Item>
  {
    if k < |path| && 0 <= path[k] < |roots| then
      roots[path[k] := Refresh(Descend(p, roots[path[k]], path, k + 1))]
    else
      roots
  }

  /** The part of `path` (from index `k`) that actually indexes existing
      children, starting below a node whose children are `ts`. */
  function Followed(ts: seq<Item>, path: seq<int>, k: nat): seq<int>
    decreases |path| - k
  {
    if k < |path| && 0 <= path[k] < |ts| then [path[k]] + Followed(ts[path[k]].items, path, k + 1)
    else []
  }

  lemma {:induction false} FollowedIsPath(t: Item, path: seq<int>, k: nat)
    ensures IsPath(t, Followed(t.items, path, k))
    decreases |path| - k
  {
    var f := Followed(t.items, path, k);
    if f != [] {
      FollowedIsPath(t.items[path[k]], path, k + 1);
      assert f[1..] == Followed(t.items[path[k]].items, path, k + 1);
    }
  }

  lemma {:induction false} RefreshBelow(t: Item, q: seq<int>)
    requires IsPath(t, q) && q != []
    ensures IsPath(Refresh(t), q) && At(Refresh(t), q) == At(t, q)
  {
  }

  lemma {:induction false} SameShapeRefl(t: Item)
    ensures SameShape(t, t)
    decreases t
  {
    forall i | 0 <= i < |t.items| { SameShapeRefl(t.items[i]); }
  }

  /** Updating never changes the shape of the tree. */
  lemma {:induction false} DescendSameShape(p: real, t: Item, path: seq<int>, k: nat)
    ensures SameShape(Descend(p, t, path, k), t)
    decreases |path| - k
  {
    var d := Descend(p, t, path, k);
    if k < |path| && 0 <= path[k] < |t.items| {
      var i := path[k];
      DescendSameShape(p, t.items[i], path, k + 1);
      forall j | 0 <= j < |t.items| ensures SameShape(d.items[j], t.items[j]) {
        if j != i { SameShapeRefl(t.items[j]); }
      }
    } else {
      forall j | 0 <= j < |t.items| ensures SameShape(d.items[j], t.items[j]) {
        SameShapeRefl(t.items[j]);
      }
    }
  }

  lemma {:induction false} SameShapePath(t: Item, u: Item, q: seq<int>)
    requires SameShape(t, u)
    ensures IsPath(t, q) <==> IsPath(u, q)
    ensures IsPath(t, q) ==> SameShape(At(t, q), At(u, q))
    decreases |q|
  {
    if q != [] && 0 <= q[0] < |t.items| {
      SameShapePath(t.items[q[0]], u.items[q[0]], q[1..]);
    }
  }

  /** Every node whose path is not a prefix of the followed path (siblings of
      the path, their subtrees, and the subtree below its last node) is left
      exactly as it was. */
  lemma {:induction false} DescendOffPath(p: real, t: Item, path: seq<int>, k: nat, q: seq<int>)
    requires IsPath(t, q) && q != [] && !(q <= Followed(t.items, path, k))
    ensures IsPath(Descend(p, t, path, k), q)
    ensures At(Descend(p, t, path, k), q) == At(t, q)
    decreases |path| - k
  {
    var d := Descend(p, t, path, k);
    DescendSameShape(p, t, path, k);
    SameShapePath(d, t, q);
    if k < |path| && 0 <= path[k] < |t.items| && q[0] == path[k] {
      var i := path[k];
      var f := Followed(t.items, path, k);
      assert f == [i] + Followed(t.items[i].items, path, k + 1);
      assert q == [i] + q[1..];
      DescendOffPath(p, t.items[i], path, k + 1, q[1..]);
      var c := Descend(p, t.items[i], path, k + 1);
      RefreshBelow(c, q[1..]);
    }
  }

  /** Every node on the followed path ends settled: it holds
      `min(getProgress(), 100)`, recomputed bottom-up. */
  lemma {:induction false} DescendSettlesPath(p: real, t: Item, path: seq<int>, k: nat, q: seq<int>)
    requires q != [] && q <= Followed(t.items, path, k)
    ensures IsPath(Descend(p, t, path, k), q)
    ensures Settled(At(Descend(p, t, path, k), q))
    decreases |path| - k
  {
    var f := Followed(t.items, path, k);
    var i := path[k];
    assert k < |path| && 0 <= i < |t.items| && q[0] == i;
    var c := Descend(p, t.items[i], path, k + 1);
    var d := Descend(p, t, path, k);
    assert d.items[i] == Refresh(c);
    if q[1..] == [] {
      if |c.items| > 0 {
        OwnProgressIgnored(c, Clamp(Progress(c)));
      }
    } else {
      assert f == [i] + Followed(t.items[i].items, path, k + 1);
      assert q[1..] <= Followed(t.items[i].items, path, k + 1);
      DescendSettlesPath(p, t.items[i], path, k + 1, q[1..]);
      RefreshBelow(c, q[1..]);
    }
  }

  /** What the last node reached holds afterwards: `min(p, 100)` for a
      leaf; for a node with children the aggregate of its (unchanged)
      children, since the recomputation overwrites the written value. */
  function EndNode(p: real, e: Item): Item
  {
    if |e.items| == 0 then e.(progress := Clamp(p)) else e.(progress := Clamp(Progress(e)))
  }

  lemma {:induction false} DescendEnd(p: real, t: Item, path: seq<int>, k: nat)
    ensures IsPath(t, Followed(t.items, path, k))
    ensures IsPath(Descend(p, t, path, k), Followed(t.items, path, k))
    ensures Followed(t.items, path, k) == [] ==> Descend(p, t, path, k) == t.(progress := Clamp(p))
    ensures Followed(t.items, path, k) != [] ==>
      At(Descend(p, t, path, k), Followed(t.items, path, k)) == EndNode(p, At(t, Followed(t.items, path, k)))
    decreases |path| - k
  {
    var f := Followed(t.items, path, k);
    FollowedIsPath(t, path, k);
    DescendSameShape(p, t, path, k);
    SameShapePath(Descend(p, t, path, k), t, f);
    if f != [] {
      var i := path[k];
      var c := Descend(p, t.items[i], path, k + 1);
      var g := Followed(t.items[i].items, path, k + 1);
      assert f == [i] + g && f[1..] == g;
      DescendEnd(p, t.items[i], path, k + 1);
      if g == [] {
        var e := t.items[i];
        assert c == e.(progress := Clamp(p));
        if |e.items| > 0 {
          OwnProgressIgnored(e, Clamp(p));
        }
      } else {
        FollowedIsPath(t.items[i], path, k + 1);
        DescendSameShape(p, t.items[i], path, k + 1);
        SameShapePath(c, t.items[i], g);
        RefreshBelow(c, g);
      }
    }
  }

  /** The top-level update is the node-level one applied to the list. */
  lemma UpdateRootsIsDescend(p: real, roots: seq<Item>, path: seq<int>, k: nat)
    ensures UpdateRoots(p, roots, path, k) == Descend(p, Root(roots), path, k).items
  {
  }

  /** All the promises of `recProgressUpdate` on a list of top-level items:
      the shape is kept; nodes off the followed path are unchanged (all of
      them when `path[k]` indexes no item); every node on it is settled;
      the last node reached holds `min(p, 100)` if it is a leaf and its
      children's aggregate otherwise. */
  lemma UpdateRootsSpec(p: real, roots: seq<Item>, path: seq<int>, k: nat)
    ensures SameShape(Root(UpdateRoots(p, roots, path, k)), Root(roots))
    ensures forall q :: IsPath(Root(roots), q) && q != [] && !(q <= Followed(roots, path, k)) ==>
      IsPath(Root(UpdateRoots(p, roots, path, k)), q) &&
      At(Root(UpdateRoots(p, roots, path, k)), q) == At(Root(roots), q)
    ensures forall q :: q != [] && q <= Followed(roots, path, k) ==>
      IsPath(Root(UpdateRoots(p, roots, path, k)), q) &&
      Settled(At(Root(UpdateRoots(p, roots, path, k)), q))
    ensures Followed(roots, path, k) != [] ==>
      IsPath(Root(roots), Followed(roots, path, k)) &&
      IsPath(Root(UpdateRoots(p, roots, path, k)), Followed(roots, path, k)) &&
      At(Root(UpdateRoots(p, roots, path, k)), Followed(roots, path, k))
        == EndNode(p, At(Root(roots), Followed(roots, path, k)))
    ensures Followed(roots, path, k) == [] ==> UpdateRoots(p, roots, path, k) == roots
  {
    var r := UpdateRoots(p, roots, path, k);
    var t := Root(roots);
    UpdateRootsIsDescend(p, roots, path, k);
    var d := Descend(p, t, path, k);
    assert Root(r) == d.(progress := 0.0);
    DescendSameShape(p, t, path, k);
    forall q | IsPath(t, q) && q != [] && !(q <= Followed(roots, path, k))
      ensures IsPath(Root(r), q) && At(Root(r), q) == At(t, q)
    {
      DescendOffPath(p, t, path, k, q);
    }
    forall q | q != [] && q <= Followed(roots, path, k)
      ensures IsPath(Root(r), q) && Settled(At(Root(r), q))
    {
      DescendSettlesPath(p, t, path, k, q);
    }
    DescendEnd(p, t, path, k);
  }

  // ---------------------------------------------------------------------
  // genQueue

  /** Index of the first item that is not done, if any. */
  function FirstPending(ts: seq<Item>): (r: Option<nat>)
    ensures r.Some? ==> (r.value < |ts| && !Done(ts[r.value])
      && forall j :: 0 <= j < r.value ==> Done(ts[j]))
    ensures r.None? ==> forall j :: 0 <= j < |ts| ==> Done(ts[j])
  {
    if ts == [] then None
    else if !Done(ts[0]) then Some(0)
    else match FirstPending(ts[1..])
      case None => None
      case Some(i) => Some(i + 1)
  }

  /** The path `genQueue` builds: at each level the first item that is not
      done, descending into its children, until a level has none. */
  function Queue(ts: seq<Item>): seq<int>
    decreases ts
  {
    match FirstPending(ts)
    case None => []
    case Some(i) => [i] + Queue(ts[i].items)
  }

  lemma {:induction false} PathWithinHeight(t: Item, q: seq<int>)
    requires IsPath(t, q)
    ensures |q| < Height(t)
    decreases |q|
  {
    if q != [] {
      PathWithinHeight(t.items[q[0]], q[1..]);
      ChildHeight(t.items, q[0]);
    }
  }

  lemma {:induction false} ChildHeight(ts: seq<Item>, i: int)
    requires 0 <= i < |ts|
    ensures Height(ts[i]) <= MaxHeight(ts)
    decreases ts
  {
    if i < |ts| - 1 {
      ChildHeight(ts[..|ts| - 1], i);
    }
  }

  /** Level `j` of the path `q`: it leads to an item that is not done, and
      every earlier sibling of that item is done. */
  predicate FirstPendingAt(ts: seq<Item>, q: seq<int>, j: nat)
    requires j < |q|
  {
    && IsPath(Root(ts), q[..j])
    && 0 <= q[j] < |At(Root(ts), q[..j]).items|
    && !Done(At(Root(ts), q[..j]).items[q[j]])
    && forall i :: 0 <= i < q[j] ==> Done(At(Root(ts), q[..j]).items[i])
  }

  /** The promises of `genQueue`: the result is a path of existing items;
      at every level its index names the FIRST item that is not done; the
      descent stops at a level where every item is done; it is shorter than
      the tree is high; it is empty exactly when every top-level item is
      done (in particular for an empty list). */
  lemma {:induction false} QueueSpec(ts: seq<Item>)
    ensures IsPath(Root(ts), Queue(ts))
    ensures forall j :: 0 <= j < |Queue(ts)| ==> FirstPendingAt(ts, Queue(ts), j)
    ensures forall i :: 0 <= i < |At(Root(ts), Queue(ts)).items| ==> Done(At(Root(ts), Queue(ts)).items[i])
    ensures |Queue(ts)| < Height(Root(ts))
    ensures Queue(ts) == [] <==> forall i :: 0 <= i < |ts| ==> Done(ts[i])
    decreases ts
  {
    var q := Queue(ts);
    match FirstPending(ts)
    case None =>
    case Some(i) =>
      QueueSpec(ts[i].items);
      var q' := Queue(ts[i].items);
      assert q == [i] + q' && q[1..] == q';
      assert Root(ts[i].items).items == ts[i].items;
      RootPath(ts[i], q');
      assert IsPath(Root(ts), q);
      forall j | 0 <= j < |q|
        ensures FirstPendingAt(ts, q, j)
      {
        if j == 0 {
          assert q[..1] == [i];
          assert q[..0] == [];
        } else {
          assert FirstPendingAt(ts[i].items, q', j - 1);
          assert q[..j] == [i] + q'[..j - 1] && q[..j + 1] == [i] + q'[..j];
          RootPath(ts[i], q'[..j - 1]);
          RootPath(ts[i], q'[..j]);
        }
      }
      PathWithinHeight(Root(ts), q);
  }

  /** Paths below a top-level item, seen from the list and from the item. */
  lemma RootPath(t: Item, q: seq<int>)
    ensures IsPath(Root(t.items), q) <==> IsPath(t, q)
    ensures IsPath(t, q) && q != [] ==> At(Root(t.items), q) == At(t, q)
  {
  }

  // ---------------------------------------------------------------------
  // The parent walk

  /** `t` with the progress stored at the end of `q` replaced by `v`. */
  function Put(t: Item, q: seq<int>, v: real): (r: Item)
    requires IsPath(t, q)
    ensures |r.items| == |t.items| && IsPath(r, q)
    decreases |q|
  {
    if q == [] then t.(progress := v)
    else t.(items := t.items[q[0] := Put(t.items[q[0]], q[1..], v)])
  }

  /** What the walk up the parent links from the node at the end of `q`
      makes of the tree `t`: every node strictly above that end, from the
      lowest up to `t` itself, stores `setProgress(getProgress())`. */
  function Walked(t: Item, q: seq<int>): Item
    requires IsPath(t, q)
    decreases |q|
  {
    if q == [] then t
    else Refresh(t.(items := t.items[q[0] := Walked(t.items[q[0]], q[1..])]))
  }

  /** `t` with the node at the end of `p` replaced by `s`. */
  function Graft(t: Item, p: seq<int>, s: Item): Item
    requires IsPath(t, p)
    decreases |p|
  {
    if p == [] then s
    else t.(items := t.items[p[0] := Graft(t.items[p[0]], p[1..], s)])
  }

  /** Grafting leaves the path in place and puts `s` at its end; grafting
      twice at the same place keeps the second graft only. */
  lemma {:induction false} GraftAt(t: Item, p: seq<int>, s: Item, s2: Item)
    requires IsPath(t, p)
    ensures IsPath(Graft(t, p, s), p) && At(Graft(t, p, s), p) == s
    ensures Graft(Graft(t, p, s), p, s2) == Graft(t, p, s2)
    decreases |p|
  {
    if p != [] {
      GraftAt(t.items[p[0]], p[1..], s, s2);
    }
  }

  lemma {:induction false} GraftSame(t: Item, p: seq<int>)
    requires IsPath(t, p)
    ensures Graft(t, p, At(t, p)) == t
    decreases |p|
  {
    if p != [] {
      GraftSame(t.items[p[0]], p[1..]);
    }
  }

  /** The node one step below the end of `p`. */
  lemma {:induction false} AtAppend(t: Item, p: seq<int>, i: int)
    requires IsPath(t, p + [i])
    ensures IsPath(t, p) && 0 <= i < |At(t, p).items| && At(t, p + [i]) == At(t, p).items[i]
    decreases |p|
  {
    if p == [] {
      assert [i][1..] == [];
    } else {
      assert (p + [i])[0] == p[0] && (p + [i])[1..] == p[1..] + [i];
      AtAppend(t.items[p[0]], p[1..], i);
    }
  }

  /** Prefixes of a path are paths, and the rest of the path continues
      from the node a prefix reaches. */
  lemma {:induction false} PrefixPath(t: Item, q: seq<int>, d: nat)
    requires IsPath(t, q) && d <= |q|
    ensures IsPath(t, q[..d]) && IsPath(At(t, q[..d]), q[d..])
    ensures At(At(t, q[..d]), q[d..]) == At(t, q)
    decreases d
  {
    if d > 0 {
      assert q[..d][0] == q[0] && q[..d][1..] == q[1..][..d - 1] && q[d..] == q[1..][d - 1..];
      PrefixPath(t.items[q[0]], q[1..], d - 1);
    }
  }

  /** A graft one level below `p` is a graft at `p` of the node with one
      child replaced. */
  lemma {:induction false} GraftChild(t: Item, p: seq<int>, i: int, s: Item)
    requires IsPath(t, p + [i])
    ensures IsPath(t, p) && 0 <= i < |At(t, p).items|
    ensures Graft(t, p + [i], s) == Graft(t, p, At(t, p).(items := At(t, p).items[i := s]))
    decreases |p|
  {
    if p == [] {
      assert [i][1..] == [];
    } else {
      assert (p + [i])[0] == p[0] && (p + [i])[1..] == p[1..] + [i];
      GraftChild(t.items[p[0]], p[1..], i, s);
    }
  }

  /** One step up: the walk from `t` through child `i` is the walk inside
      the child, then the refresh of `t`. */
  lemma WalkUp(t: Item, i: int, below: seq<int>)
    requires 0 <= i < |t.items| && IsPath(t.items[i], below)
    ensures IsPath(t, [i] + below) && At(t, [i] + below) == At(t.items[i], below)
    ensures Walked(t, [i] + below) == Refresh(t.(items := t.items[i := Walked(t.items[i], below)]))
  {
    assert ([i] + below)[0] == i && ([i] + below)[1..] == below;
  }

  /** The walk one level higher: once the walk below `q[..d + 1]` is in
      place, refreshing the node at `q[..d]` puts the walk below `q[..d]`
      in place. */
  lemma WalkStep(t: Item, q: seq<int>, d: nat)
    requires IsPath(t, q) && d < |q|
    ensures IsPath(t, q[..d]) && IsPath(At(t, q[..d]), q[d..])
    ensures IsPath(t, q[..d + 1]) && IsPath(At(t, q[..d + 1]), q[d + 1..])
    ensures var g := Graft(t, q[..d + 1], Walked(At(t, q[..d + 1]), q[d + 1..]));
      IsPath(g, q[..d]) &&
      Graft(g, q[..d], Refresh(At(g, q[..d]))) == Graft(t, q[..d], Walked(At(t, q[..d]), q[d..]))
  {
    PrefixPath(t, q, d);
    PrefixPath(t, q, d + 1);
    var i := q[d];
    var n := At(t, q[..d]);
    var w := Walked(At(t, q[..d + 1]), q[d + 1..]);
    assert q[..d + 1] == q[..d] + [i];
    GraftChild(t, q[..d], i, w);
    AtAppend(t, q[..d], i);
    assert q[d..] == [i] + q[d + 1..];
    WalkUp(n, i, q[d + 1..]);
    GraftAt(t, q[..d], n.(items := n.items[i := w]), Refresh(n.(items := n.items[i := w])));
  }

  /** Every node strictly above the end of the walk ends settled. */
  lemma {:induction false} WalkedSettles(t: Item, q: seq<int>, r: seq<int>)
    requires IsPath(t, q) && r < q
    ensures IsPath(Walked(t, q), r) && Settled(At(Walked(t, q), r))
    decreases |q|
  {
    var i := q[0];
    var c := Walked(t.items[i], q[1..]);
    var u := t.(items := t.items[i := c]);
    if r == [] {
      OwnProgressIgnored(u, Clamp(Progress(u)));
    } else {
      assert r[0] == i && r[1..] < q[1..];
      WalkedSettles(t.items[i], q[1..], r[1..]);
    }
  }

  /** Every node that is not strictly above the end of the walk (the end
      itself, everything below it, and everything off the path) is left
      exactly as it was. */
  lemma {:induction false} WalkedKeeps(t: Item, q: seq<int>, r: seq<int>)
    requires IsPath(t, q) && IsPath(t, r) && !(r < q)
    ensures IsPath(Walked(t, q), r) && At(Walked(t, q), r) == At(t, r)
    decreases |q|
  {
    if q != [] {
      var i := q[0];
      assert r != [];
      if r[0] == i {
        assert !(r[1..] < q[1..]);
        WalkedKeeps(t.items[i], q[1..], r[1..]);
      }
    }
  }

  /** Writing `p` into a leaf and walking up from it does what
      `recProgressUpdate` does along the same path, followed by the
      refresh of the top node that its caller performs. */
  lemma {:induction false} WalkIsDescend(p: real, t: Item, q: seq<int>, k: nat)
    requires k < |q| && IsPath(t, q[k..]) && |At(t, q[k..]).items| == 0
    ensures Walked(Put(t, q[k..], Clamp(p)), q[k..]) == Refresh(Descend(p, t, q, k))
    decreases |q| - k
  {
    var i := q[k];
    var c := t.items[i];
    var v := Clamp(p);
    assert q[k..][0] == i && q[k..][1..] == q[k + 1..];
    var u := Put(t, q[k..], v);
    assert u == t.(items := t.items[i := Put(c, q[k + 1..], v)]);
    var w := Walked(u.items[i], q[k + 1..]);
    if k + 1 < |q| {
      WalkIsDescend(p, c, q, k + 1);
    } else {
      assert q[k + 1..] == [];
    }
    assert w == Refresh(Descend(p, c, q, k + 1));
    assert u.(items := u.items[i := w]) == t.(items := t.items[i := w]);
  }
}
