/** The flat download queue: a list of items downloaded one after the
    other, the index of the one in progress, a `done` flag and the overall
    progress, which counts every finished item as a full share and the
    current item by its own progress. */
module DownloadQueue {
  import opened Common

  /** A JavaScript number as `update` receives it. */
  datatype JsNumber = NaN | Num(value: real)

  class QueueItem {
    const id: string
    const filesize: Option<string>
    const labelText: string
    var progress: real

    /** The progress defaults to 0. */
    constructor(id: string, filesize: Option<string>, labelText: string, progress: Option<real>)
      ensures this.id == id && this.filesize == filesize && this.labelText == labelText
      ensures this.progress == OrElse(progress, 0.0)
    {
      this.id := id;
      this.filesize := filesize;
      this.labelText := labelText;
      this.progress := OrElse(progress, 0.0);
    }

    /** `isDone`: the stored value, which is never clamped, has reached
        100. */
    predicate IsDone(): (r: bool)
      reads this
      ensures r <==> progress >= 100.0
    {
      progress >= 100.0
    }

    /** `setProgress`: the value is stored as given, with no clamping, and
        the item itself is returned. */
    method SetProgress(p: real) returns (r: QueueItem)
      modifies this
      ensures progress == p && r == this
    {
      progress := p;
      return this;
    }
  }

  /** `Math.round`: the nearest integer, halves rounded up. */
  function Round(x: real): (r: int)
    ensures x - 0.5 < r as real <= x + 0.5
  {
    (x + 0.5).Floor
  }

  /** The overall progress with `count` items, the one at `index` being at
      `p` percent: `round((index / count + p / (count * 100)) * 100)`. */
  function Overall(index: int, count: nat, p: real): int
    requires count > 0
  {
    Round(((index as real) / (count as real) + p / ((count as real) * 100.0)) * 100.0)
  }

  /** The source's expression is the share of finished items plus the
      current item's share. */
  lemma OverallShares(index: int, count: nat, p: real)
    requires count > 0
    ensures Overall(index, count, p) == Round((100.0 * (index as real) + p) / (count as real))
  {
    var n := count as real;
    assert ((index as real) / n + p / (n * 100.0)) * 100.0 == (100.0 * (index as real) + p) / n;
  }

  /** With the current item somewhere in the list and its progress a
      percentage, the overall progress is a percentage too. */
  lemma OverallBounds(index: int, count: nat, p: real)
    requires count > 0 && 0 <= index < count && 0.0 <= p <= 100.0
    ensures 0 <= Overall(index, count, p) <= 100
  {
    OverallShares(index, count, p);
    var n := count as real;
    var a := 100.0 * (index as real) + p;
    assert a <= 100.0 * n by {
      assert (index as real) + 1.0 <= n;
    }
    ShareBounds(a, n);
  }

  lemma ShareBounds(a: real, n: real)
    requires n > 0.0 && 0.0 <= a <= 100.0 * n
    ensures 0.0 <= a / n <= 100.0
  {
    assert a / n <= (100.0 * n) / n;
    assert (100.0 * n) / n == 100.0;
  }

  /** Finishing one item and starting the next show the same overall
      progress: the count goes on without a jump. */
  lemma OverallContinues(index: int, count: nat)
    requires count > 0
    ensures Overall(index, count, 100.0) == Overall(index + 1, count, 0.0)
  {
    OverallShares(index, count, 100.0);
    OverallShares(index + 1, count, 0.0);
    assert 100.0 * (index as real) + 100.0 == 100.0 * ((index + 1) as real) + 0.0;
  }

  /** More progress on the current item never lowers the overall progress. */
  lemma OverallMonotone(index: int, count: nat, p: real, q: real)
    requires count > 0 && p <= q
    ensures Overall(index, count, p) <= Overall(index, count, q)
  {
    OverallShares(index, count, p);
    OverallShares(index, count, q);
    var n := count as real;
    assert (100.0 * (index as real) + p) / n <= (100.0 * (index as real) + q) / n;
  }

  /** The hook's state. `items` is `undefined` until a list is set. */
  class Queue {
    var items: Option<seq<QueueItem>>
    var index: int
    var done: bool
    var progress: int

    /** The hook's initial state. */
    constructor()
      ensures items == None && index == 0 && !done && progress == 0
    {
      items := None;
      index := 0;
      done := false;
      progress := 0;
    }

    /** `setItems`. */
    method SetItems(list: seq<QueueItem>)
      modifies this
      ensures items == Some(list) && index == old(index) && done == old(done) && progress == old(progress)
    {
      items := Some(list);
    }

    /** `current`: the item at `index`, if the list is set and the index is
        in range. */
    function Current(): (r: Option<QueueItem>)
      reads this
      ensures r.Some? <==> items.Some? && 0 <= index < |items.value|
      ensures r.Some? ==> r.value == items.value[index]
    {
      if items.Some? && 0 <= index < |items.value| then Some(items.value[index]) else None
    }

    /** The current item, as a set, for frames. */
    function CurrentSet(): set<QueueItem>
      reads this
    {
      if Current().Some? then {Current().value} else {}
    }

    /** `getProgress`: the overall progress, or 0 with no current item. */
    function GetProgress(): (r: int)
      reads this, CurrentSet()
      ensures Current().None? ==> r == 0
      ensures Current().Some? ==> r == Overall(index, |items.value|, Current().value.progress)
    {
      match Current()
      case None => 0
      case Some(item) => Overall(index, |items.value|, item.progress)
    }

    /** `next`: the index moves on by one, and `done` is set when the old
        index plus one is the last index. */
    method Next()
      modifies this
      ensures index == old(index) + 1
      ensures done == (old(done) || old(index) + 1 == LengthOr0(old(items)) - 1)
      ensures items == old(items) && progress == old(progress)
    {
      var oldIndex := index;
      index := index + 1;
      if oldIndex + 1 == LengthOr0(items) - 1 {
        done := true;
      }
    }

    /** `update(p)`: NaN is refused before anything changes; with no
        current item nothing changes; otherwise the current item takes `p`
        unclamped, the overall progress is recomputed from it, and a value
        of 100 or more moves on to the next item. */
    method Update(p: JsNumber) returns (error: Option<string>)
      modifies this, CurrentSet()
      ensures p.NaN? ==> error == Some("Cannot use NaN for progress.")
      ensures error.Some? <==> p.NaN?
      ensures p.NaN? || old(Current()).None? ==>
        items == old(items) && index == old(index) && done == old(done) && progress == old(progress)
      ensures p.NaN? || old(Current()).None? ==>
        forall o :: o in old(CurrentSet()) ==> o.progress == old(o.progress)
      ensures p.Num? && old(Current()).Some? ==>
        && old(Current()).value.progress == p.value
        && items == old(items)
        && progress == Overall(old(index), |old(items).value|, p.value)
        && index == old(index) + (if p.value >= 100.0 then 1 else 0)
        && done == (old(done) || (p.value >= 100.0 && old(index) + 1 == |old(items).value| - 1))
    {
      if p.NaN? {
        return Some("Cannot use NaN for progress.");
      }
      error := None;
      var current := Current();
      if current.Some? {
        var _ := current.value.SetProgress(p.value);
        progress := GetProgress();
        if p.value >= 100.0 {
          Next();
        }
      }
    }
  }

  /** `items?.length ?? 0`. */
  function LengthOr0(items: Option<seq<QueueItem>>): nat
  {
    if items.Some? then |items.value| else 0
  }

  /** A one-item queue whose item completes moves past it without setting
      `done`: the test in `next` looks for the move onto the last item. */
  method SingleItemRun() returns (index: int, done: bool, progress: int)
    ensures index == 1 && !done && progress == 100
  {
    var q := new Queue();
    var a := new QueueItem("a", None, "A", None);
    q.SetItems([a]);
    var _ := q.Update(Num(100.0));
    OverallShares(0, 1, 100.0);
    index, done, progress := q.index, q.done, q.progress;
  }

  /** In a two-item queue, `done` is already set once the first item
      completes, while the second has not started. */
  method TwoItemRun() returns (index: int, done: bool, progress: int, secondDone: bool)
    ensures index == 1 && done && progress == 50 && !secondDone
  {
    var q := new Queue();
    var a := new QueueItem("a", None, "A", None);
    var b := new QueueItem("b", None, "B", None);
    q.SetItems([a, b]);
    var _ := q.Update(Num(100.0));
    OverallShares(0, 2, 100.0);
    index, done, progress, secondDone := q.index, q.done, q.progress, b.IsDone();
  }
}
