/** The download item of the download engine as a heap object: a node whose
    `progress` is updated in place, owning its children. Its contents at any
    moment are described by the value `ProgressTree.Item` it models, and
    every query is proved to agree with the value-level definition. */
module Engine {
  import opened Common
  import opened ProgressTree

  /** The fields a caller may pass to the constructor; `None` leaves the
      field at its default. For `size`, `Some(None)` passes `undefined`. */
  datatype ItemArgs = ItemArgs(
    id: Option<string>,
    labelText: Option<string>,
    size: Option<Option<string>>,
    speed: Option<string>,
    progress: Option<real>,
    items: Option<seq<DownloadItem>>)

  /** The objects owned by a list of items. */
  ghost function ReprOf(s: seq<DownloadItem>): set<DownloadItem>
  {
    if s == [] then {} else ReprOf(s[..|s| - 1]) + s[|s| - 1].Repr
  }

  lemma ReprOfContains(s: seq<DownloadItem>, i: int)
    requires 0 <= i < |s|
    ensures s[i].Repr <= ReprOf(s)
    decreases |s|
  {
    if i < |s| - 1 {
      ReprOfContains(s[..|s| - 1], i);
    }
  }

  /** Only `progress` is ever written after construction, so the other
      fields are constants. */
  class DownloadItem {
    const id: string
    const labelText: string
    const size: Option<string>
    const speed: string
    var progress: real
    const items: seq<DownloadItem>
    ghost const Repr: set<DownloadItem>

    /** The object owns a tree: every child is owned, owns no ancestor and
        shares nothing with its siblings. */
    ghost predicate Valid()
      decreases Repr
    {
      && this in Repr
      && (forall i :: 0 <= i < |items| ==>
            && items[i] in Repr && items[i].Repr <= Repr && this !in items[i].Repr
            && items[i].Valid())
      && (forall i, j :: 0 <= i < j < |items| ==> items[i].Repr !! items[j].Repr)
    }

    /** The tree this object currently holds, as a value. */
    ghost function Model(): Item
      reads Repr`progress
      requires Valid()
      decreases Repr, 1
    {
      Item(id, labelText, size, speed, progress, Models(|items|))
    }

    /** The values of the first `k` children. */
    ghost function Models(k: nat): (r: seq<Item>)
      reads Repr`progress
      requires Valid() && k <= |items|
      ensures |r| == k
      ensures forall i :: 0 <= i < k ==> r[i] == items[i].Model()
      decreases Repr, 0, k
    {
      if k == 0 then [] else Models(k - 1) + [items[k - 1].Model()]
    }

    constructor(args: ItemArgs)
      requires args.items.Some? ==> forall i :: 0 <= i < |args.items.value| ==> args.items.value[i].Valid()
      requires args.items.Some? ==>
        forall i, j :: 0 <= i < j < |args.items.value| ==> args.items.value[i].Repr !! args.items.value[j].Repr
      ensures Valid() && fresh(Repr - ReprOf(OrElse(args.items, [])))
      ensures Model() == Item(OrElse(args.id, ""), OrElse(args.labelText, ""), OrElse(args.size, Some("")),
        OrElse(args.speed, ""), OrElse(args.progress, 0.0), ModelsOf(OrElse(args.items, [])))
    {
      var kids := OrElse(args.items, []);
      id := OrElse(args.id, "");
      labelText := OrElse(args.labelText, "");
      size := OrElse(args.size, Some(""));
      speed := OrElse(args.speed, "");
      progress := OrElse(args.progress, 0.0);
      items := kids;
      Repr := {this} + ReprOf(kids);
      new;
      forall i | 0 <= i < |kids| ensures kids[i].Repr <= Repr {
        ReprOfContains(kids, i);
      }
    }

    /** The `done` getter. */
    predicate Done()
      reads this`progress
    {
      progress >= 100.0
    }

    /** The object is done exactly when the tree it holds is. */
    lemma DoneAgrees()
      requires Valid()
      ensures Done() <==> ProgressTree.Done(Model())
    {
    }

    /** `getProgress`, computed as the source writes it: the floor of
        `(sum / (n * 100)) * 100` over the children, or the stored value of
        a leaf. It is the value-level `Progress` of the tree held. */
    function GetProgress(): (r: real)
      reads Repr`progress
      requires Valid()
      ensures r == Progress(Model())
      decreases Repr, 1
    {
      if |items| > 0 then
        var s := SumTo(|items|);
        var n := |items| as real;
        ScaledMean(s, n);
        ((s / (n * 100.0)) * 100.0).Floor as real
      else progress
    }

    /** `reduce((a, i) => a + i.getProgress(), 0)` over the first `k` children. */
    function SumTo(k: nat): (r: real)
      reads Repr`progress
      requires Valid() && k <= |items|
      ensures r == Sum(Models(k))
      decreases Repr, 0, k
    {
      if k == 0 then 0.0
      else
        var ms := Models(k);
        assert ms[..k - 1] == Models(k - 1);
        SumTo(k - 1) + items[k - 1].GetProgress()
    }

    /** `setProgress(v)`: stores `min(v, 100)` and changes nothing else. */
    method SetProgress(v: real)
      requires Valid()
      modifies this`progress
      ensures Valid()
      ensures progress == Clamp(v)
      ensures Model() == old(Model()).(progress := Clamp(v))
    {
      progress := if v <= 100.0 then v else 100.0;
      assert Models(|items|) == old(Models(|items|));
    }

    /** `get(id)`: this object on a match, else the first child whose
        subtree holds the identifier; it returns the object whose tree is
        what the value-level `Get` returns. */
    function Get(key: string): (r: Option<DownloadItem>)
      reads Repr`progress
      requires Valid()
      ensures r.None? <==> ProgressTree.Get(Model(), key).None?
      ensures r.Some? ==> r.value in Repr && r.value.Valid() && r.value.Model() == ProgressTree.Get(Model(), key).value
      decreases Repr, 1
    {
      if id == key then Some(this) else FindFrom(0, key)
    }

    /** `items.find(i => i.get(key))` over the children from index `k`. */
    function FindFrom(k: nat, key: string): (r: Option<DownloadItem>)
      reads Repr`progress
      requires Valid() && k <= |items|
      ensures r.None? <==> Find(Models(|items|)[k..], key).None?
      ensures r.Some? ==> r.value in Repr && r.value.Valid() && r.value.Model() == Find(Models(|items|)[k..], key).value
      decreases Repr, 0, |items| - k
    {
      if k == |items| then None
      else
        var ms := Models(|items|)[k..];
        assert ms[0] == items[k].Model() && ms[1..] == Models(|items|)[k + 1..];
        if items[k].Get(key).Some? then Some(items[k]) else FindFrom(k + 1, key)
    }
  }

  /** The values of a list of items. */
  ghost function ModelsOf(s: seq<DownloadItem>): (r: seq<Item>)
    reads ReprOf(s)`progress
    requires forall i :: 0 <= i < |s| ==> s[i].Valid()
    ensures |r| == |s|
    ensures forall i :: 0 <= i < |s| ==> r[i] == s[i].Model()
  {
    if s == [] then [] else ModelsOf(s[..|s| - 1]) + [s[|s| - 1].Model()]
  }

  /** The source's `(s / (n * 100)) * 100` is the plain mean `s / n`. */
  lemma ScaledMean(s: real, n: real)
    requires n > 0.0
    ensures (s / (n * 100.0)) * 100.0 == s / n
  {
  }
}
