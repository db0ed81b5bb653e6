/** The routing drafts over heap objects: `recProgressUpdate` updating the
    nodes of a path in place, `genQueue` pushing the indices of the first
    unfinished items, and the variant of the item that links every child to
    its parent, with the loop that recomputes the ancestors of a node. */
module TestDownloader {
  import opened Common
  import opened ProgressTree
  import opened ProgressRouting
  import opened Engine

  // ---------------------------------------------------------------------
  // recProgressUpdate

  /** Every object owned by the items of `s` lies in `bound`. */
  lemma ReprOfWithin(s: seq<DownloadItem>, bound: set<DownloadItem>)
    requires forall i :: 0 <= i < |s| ==> s[i].Repr <= bound
    ensures ReprOf(s) <= bound
    decreases |s|
  {
    if s != [] {
      ReprOfWithin(s[..|s| - 1], bound);
    }
  }

  /** `recProgressUpdate(p, items, path, cur, start)`. With a current item
      (whose children are `items`) the tree it holds becomes
      `Descend(p, ·, path, start)` of the old one; without one, the list
      becomes `UpdateRoots(p, ·, path, start)` of the old list. Only the
      `progress` of objects the items own, and of the current item, is
      written: `region` is any set holding them, and whatever else it
      holds keeps its progress. */
  method RecProgressUpdate(p: real, items: seq<DownloadItem>, path: seq<int>, cur: DownloadItem?, start: nat,
                           ghost region: set<DownloadItem>)
    requires forall i :: 0 <= i < |items| ==> items[i].Valid()
    requires forall i, j :: 0 <= i < j < |items| ==> items[i].Repr !! items[j].Repr
    requires cur != null ==> cur.Valid() && cur.items == items && cur in region
    requires ReprOf(items) <= region
    modifies region`progress
    ensures cur != null ==> cur.Model() == Descend(p, old(cur.Model()), path, start)
    ensures cur == null ==> ModelsOf(items) == UpdateRoots(p, old(ModelsOf(items)), path, start)
    ensures forall o :: o in region && o !in ReprOf(items) && o != cur ==> o.progress == old(o.progress)
    decreases |path| - start
  {
    ghost var m0 := ModelsOf(items);
    var next: DownloadItem? := null;
    if start < |path| && 0 <= path[start] < |items| {
      next := items[path[start]];
    }
    if next != null {
      ghost var i := path[start];
      ghost var d0 := next.Model();
      assert d0 == m0[i];
      ReprOfContains(items, i);
      ReprOfWithin(next.items, next.Repr);
      RecProgressUpdate(p, next.items, path, next, start + 1, next.Repr);
      ghost var d := Descend(p, d0, path, start + 1);
      assert next.Model() == d;
      var v := next.GetProgress();
      next.SetProgress(v);
      assert next.Model() == Refresh(d);
      ChildReplaced(items, i, cur);
      assert ModelsOf(items) == m0[i := Refresh(d)];
      if cur != null {
        ghost var c0 := old(cur.Model());
        assert c0.items == m0;
        assert Descend(p, c0, path, start) == c0.(items := m0[i := Refresh(d)]);
      }
    } else if cur != null {
      assert old(cur.Model()).items == m0;
      cur.SetProgress(p);
    }
  }

  /** Once only the `i`-th item's objects (and not `cur`) had their progress
      written, the list's trees differ in the `i`-th one only, and so do the
      children of `cur`. */
  twostate lemma ChildReplaced(new items: seq<DownloadItem>, i: nat, new cur: DownloadItem?)
    requires old(allocated(items)) && old(allocated(cur))
    requires i < |items|
    requires forall j :: 0 <= j < |items| ==> items[j].Valid()
    requires forall j, k :: 0 <= j < k < |items| ==> items[j].Repr !! items[k].Repr
    requires cur != null ==> cur.Valid() && cur.items == items && cur.progress == old(cur.progress)
    requires forall o :: o in ReprOf(items) && o !in items[i].Repr ==> old(allocated(o)) && o.progress == old(o.progress)
    ensures ModelsOf(items) == old(ModelsOf(items))[i := items[i].Model()]
    ensures cur != null ==> cur.Model() == old(cur.Model()).(items := old(ModelsOf(items))[i := items[i].Model()])
  {
    forall j | 0 <= j < |items| && j != i
      ensures items[j].Model() == old(items[j].Model())
    {
      ReprOfContains(items, j);
      ModelKept(items[j]);
    }
    ghost var m0, m1 := old(ModelsOf(items)), ModelsOf(items);
    assert m1 == m0[i := items[i].Model()];
    if cur != null {
      assert cur.Models(|items|) == m1;
      assert old(cur.Models(|items|)) == m0;
    }
  }

  /** An item none of whose objects had its progress written holds the
      same tree. */
  twostate lemma ModelKept(x: DownloadItem)
    requires x.Valid()
    requires forall o :: o in x.Repr ==> o.progress == old(o.progress)
    ensures x.Model() == old(x.Model())
  {
  }

  // ---------------------------------------------------------------------
  // genQueue

  /** `genQueue(queue)`: the index path of the first unfinished item,
      level by level. */
  method GenQueue(queue: seq<DownloadItem>) returns (r: seq<int>)
    requires forall i :: 0 <= i < |queue| ==> queue[i].Valid()
    ensures r == Queue(ModelsOf(queue))
  {
    if |queue| == 0 {
      assert ModelsOf(queue) == [];
      return [];
    }
    ghost var ms := ModelsOf(queue);
    r := Inner(queue, [], ms);
    assert [] + Queue(ms) == Queue(ms);
  }

  /** `inner(items, path)`: pushes onto `path` the index of the first item
      that is not done, then the path below it, and returns `path`. The
      trees the items hold are `ms`. */
  method Inner(items: seq<DownloadItem>, path: seq<int>, ghost ms: seq<Item>) returns (r: seq<int>)
    requires forall i :: 0 <= i < |items| ==> items[i].Valid()
    requires ms == ModelsOf(items)
    ensures r == path + Queue(ms)
    decreases ReprOf(items)
  {
    r := path;
    var i := 0;
    while i < |items|
      invariant 0 <= i <= |items|
      invariant r == path
      invariant forall j :: 0 <= j < i ==> ProgressTree.Done(ms[j])
    {
      if !items[i].Done() {
        assert FirstPending(ms) == Some(i) by {
          FirstPendingIs(ms, i);
        }
        var kids := items[i].items;
        assert ModelsOf(kids) == ms[i].items;
        ReprOfContains(items, i);
        ReprOfWithin(kids, items[i].Repr - {items[i]});
        r := r + [i];
        r := Inner(kids, r, ms[i].items);
        break;
      }
      i := i + 1;
    }
    if i == |items| {
      FirstPendingNone(ms);
    }
  }

  lemma FirstPendingIs(ts: seq<Item>, i: nat)
    requires i < |ts| && !ProgressTree.Done(ts[i])
    requires forall j :: 0 <= j < i ==> ProgressTree.Done(ts[j])
    ensures FirstPending(ts) == Some(i)
  {
  }

  lemma FirstPendingNone(ts: seq<Item>)
    requires forall j :: 0 <= j < |ts| ==> ProgressTree.Done(ts[j])
    ensures FirstPending(ts) == None
  {
  }

  // ---------------------------------------------------------------------
  // DlItem_parents

  /** The constructor's fields (this variant takes no children). */
  datatype ParentArgs = ParentArgs(
    id: Option<string>,
    labelText: Option<string>,
    size: Option<Option<string>>,
    speed: Option<string>,
    progress: Option<real>)

  /** The item variant with a private link to its parent. Only `progress`,
      `items` and the parent link are written after construction. */
  class ParentItem {
    const id: string
    const labelText: string
    const size: Option<string>
    const speed: string
    var progress: real
    var items: seq<ParentItem>
    var parent: ParentItem?
    ghost var Repr: set<ParentItem>

    /** The object owns a tree, as the engine's item does. */
    ghost predicate Tree()
      reads this`items, this`Repr, Repr`items, Repr`Repr
      decreases Repr
    {
      && this in Repr
      && (forall i :: 0 <= i < |items| ==>
            && items[i] in Repr && items[i].Repr <= Repr && this !in items[i].Repr
            && items[i].Tree())
      && (forall i, j :: 0 <= i < j < |items| ==> items[i].Repr !! items[j].Repr)
    }

    /** Every child in the tree links back to the node that holds it. */
    ghost predicate Linked()
      reads this`items, this`Repr, Repr`items, Repr`Repr, Repr`parent
      requires Tree()
      decreases Repr
    {
      forall i :: 0 <= i < |items| ==> items[i].parent == this && items[i].Linked()
    }

    ghost predicate Valid()
      reads this`items, this`Repr, Repr`items, Repr`Repr, Repr`parent
    {
      Tree() && Linked()
    }

    ghost function Model(): Item
      reads Repr`progress, Repr`items, Repr`Repr
      requires Tree()
      decreases Repr, 1
    {
      Item(id, labelText, size, speed, progress, Models(|items|))
    }

    ghost function Models(k: nat): (r: seq<Item>)
      reads Repr`progress, Repr`items, Repr`Repr
      requires Tree() && k <= |items|
      ensures |r| == k
      ensures forall i :: 0 <= i < k ==> r[i] == items[i].Model()
      decreases Repr, 0, k
    {
      if k == 0 then [] else Models(k - 1) + [items[k - 1].Model()]
    }

    constructor(args: ParentArgs)
      ensures Valid() && fresh(Repr) && parent == null
      ensures Model() == Item(OrElse(args.id, ""), OrElse(args.labelText, ""), OrElse(args.size, Some("")),
        OrElse(args.speed, ""), OrElse(args.progress, 0.0), [])
    {
      id := OrElse(args.id, "");
      labelText := OrElse(args.labelText, "");
      size := OrElse(args.size, Some(""));
      speed := OrElse(args.speed, "");
      progress := OrElse(args.progress, 0.0);
      items := [];
      parent := null;
      Repr := {this};
    }

    /** `getProgress` (the children's values are coerced with unary `+`,
        which leaves a number unchanged). */
    function GetProgress(): (r: real)
      reads Repr`progress, Repr`items, Repr`Repr
      requires Tree()
      ensures r == Progress(Model())
      decreases Repr, 1
    {
      if |items| > 0 then
        var s := SumTo(|items|);
        var n := |items| as real;
        ScaledMean(s, n);
        ((s / (n * 100.0)) * 100.0).Floor as real
      else progress
    }

    function SumTo(k: nat): (r: real)
      reads Repr`progress, Repr`items, Repr`Repr
      requires Tree() && k <= |items|
      ensures r == Sum(Models(k))
      decreases Repr, 0, k
    {
      if k == 0 then 0.0
      else
        var ms := Models(k);
        assert ms[..k - 1] == Models(k - 1);
        SumTo(k - 1) + items[k - 1].GetProgress()
    }

    method SetProgress(v: real)
      requires Tree()
      modifies this`progress
      ensures Tree() && progress == Clamp(v)
      ensures Model() == old(Model()).(progress := Clamp(v))
    {
      progress := if v <= 100.0 then v else 100.0;
      assert Models(|items|) == old(Models(|items|));
    }

    /** `add(c)`: links `c` to this object and appends it to the children;
        the tree held gains `c`'s tree as its last child. */
    method Add(c: ParentItem)
      requires Valid() && c.Valid() && Repr !! c.Repr
      modifies this`items, this`Repr, c`parent
      ensures Valid() && Repr == old(Repr) + c.Repr
      ensures c.parent == this && items == old(items) + [c]
      ensures Model() == old(Model()).(items := old(Model()).items + [c.Model()])
    {
      c.parent := this;
      items := items + [c];
      Repr := Repr + c.Repr;
      Appended(this, c);
    }
  }

  /** After `add`: the receiver owns the old children and `c`, all linked
      back to it, and holds the old tree with `c`'s tree appended. */
  twostate lemma Appended(new x: ParentItem, new c: ParentItem)
    requires old(allocated(x)) && old(allocated(c))
    requires old(x.Valid()) && old(c.Valid()) && old(x.Repr) !! old(c.Repr)
    requires x.items == old(x.items) + [c] && x.Repr == old(x.Repr) + old(c.Repr) && x.progress == old(x.progress)
    requires c.items == old(c.items) && c.Repr == old(c.Repr) && c.progress == old(c.progress) && c.parent == x
    requires forall o :: (o in old(x.Repr) || o in old(c.Repr)) && o != x && o != c ==> unchanged(o)
    ensures x.Valid() && x.Model() == old(x.Model()).(items := old(x.Model()).items + [c.Model()])
  {
    ghost var xs := old(x.items);
    assert forall i :: 0 <= i < |xs| ==> xs[i] != c && xs[i] != x && xs[i] in old(x.Repr);
    forall i | 0 <= i < |xs|
      ensures xs[i].Valid() && xs[i].Model() == old(xs[i].Model()) && xs[i].parent == x
      ensures xs[i].Repr <= x.Repr && xs[i].Repr !! c.Repr && x !in xs[i].Repr
    {
      Untouched(xs[i]);
    }
    Untouched(c);
    Assembled(x);
    assert x.Models(|x.items|) == old(x.Models(|xs|)) + [c.Model()];
  }

  /** The conditions `Valid` puts on a node, one level at a time. */
  lemma Assembled(x: ParentItem)
    requires x in x.Repr
    requires forall i :: 0 <= i < |x.items| ==>
      && x.items[i] in x.Repr && x.items[i].Repr <= x.Repr && x !in x.items[i].Repr
      && x.items[i].Valid() && x.items[i].parent == x
    requires forall i, j :: 0 <= i < j < |x.items| ==> x.items[i].Repr !! x.items[j].Repr
    ensures x.Valid()
  {
  }

  /** A node none of whose descendants was written, and whose own children,
      footprint and progress are as before, still holds a valid tree, and
      the same one; its own parent link may have changed. */
  twostate lemma Untouched(x: ParentItem)
    requires old(x.Valid())
    requires x.items == old(x.items) && x.Repr == old(x.Repr) && x.progress == old(x.progress)
    requires forall o :: o in old(x.Repr) && o != x ==> unchanged(o)
    ensures x.Valid() && x.Model() == old(x.Model())
    decreases old(x.Repr)
  {
    forall i | 0 <= i < |x.items|
      ensures x.items[i].Valid() && x.items[i].Model() == old(x.items[i].Model())
    {
      Untouched(x.items[i]);
    }
    assert x.Models(|x.items|) == old(x.Models(|x.items|));
  }

  // ---------------------------------------------------------------------
  // The parent walk

  /** The loop after `add` and `setProgress`: starting from the parent of
      the node at the end of `q`, each node stores `getProgress()` (clamped)
      and the walk moves on to its parent, until a node without one. The
      tree is the value held by the top node; the node at depth `d` on the
      way down to the leaf is the one `q[..d]` leads to, and its parent link
      leads to `q[..d - 1]`. The result is the old tree walked up from the
      leaf. */
  method WalkParents(t0: Item, q: seq<int>) returns (t: Item)
    requires IsPath(t0, q)
    ensures t == Walked(t0, q)
  {
    t := t0;
    var d := |q|;
    PrefixPath(t0, q, d);
    assert q[..d] == q && q[d..] == [];
    GraftAt(t0, q, At(t0, q), At(t0, q));
    assert Graft(t0, q, At(t0, q)) == t0 by { GraftSame(t0, q); }
    // `d > 0`: the node `q[..d]` has a parent, `q[..d - 1]`
    while d > 0
      invariant 0 <= d <= |q| && IsPath(t0, q[..d]) && IsPath(At(t0, q[..d]), q[d..])
      invariant t == Graft(t0, q[..d], Walked(At(t0, q[..d]), q[d..]))
    {
      d := d - 1;
      WalkStep(t0, q, d);
      t := Graft(t, q[..d], Refresh(At(t, q[..d])));
    }
    assert q[..0] == [] && q[0..] == q;
  }
}
