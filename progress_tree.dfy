/** The download tree as a value: one node per trackable unit of work
    (a file, its audio stream, its video stream), and the rules the
    download items of the engine apply to it: clamping, the floored
    unweighted mean of children and the search by identifier. */
module ProgressTree {
  import opened Common

  /** A download item. `size` is a display hint only: `None` stands for a
      JavaScript `undefined` stored in the field. */
  datatype Item = Item(
    id: string,
    labelText: string,
    size: Option<string>,
    speed: string,
    progress: real,
    items: seq<Item>)

  /** The `done` getter: the stored progress has reached 100. */
  predicate Done(t: Item) { t.progress >= 100.0 }

  /** `Math.min(value, 100)`, the value `setProgress` stores. */
  function Clamp(v: real): (r: real)
    ensures r <= 100.0
    ensures r == v || r == 100.0
    ensures v <= 100.0 ==> r == v
  {
    if v <= 100.0 then v else 100.0
  }

  /** `getProgress`: a leaf reports its stored progress; a node with children
      reports the floor of the plain mean of its children's `getProgress`. */
  function Progress(t: Item): real
    decreases t, 1
  {
    if |t.items| == 0 then t.progress
    else ((Sum(t.items) / (|t.items| as real)).Floor) as real
  }

  /** The running total of the children's `getProgress`, left to right, as
      `reduce((a, i) => a + i.getProgress(), 0)` computes it. */
  function Sum(ts: seq<Item>): real
    decreases ts, 0
  {
    if ts == [] then 0.0 else Sum(ts[..|ts| - 1]) + Progress(ts[|ts| - 1])
  }

  /** Every leaf of the tree stores a progress in [0, 100]. */
  predicate LeavesInRange(t: Item)
    decreases t
  {
    if |t.items| == 0 then 0.0 <= t.progress <= 100.0
    else forall i :: 0 <= i < |t.items| ==> LeavesInRange(t.items[i])
  }

  /** Some node of the subtree (the node itself included) has identifier `id`. */
  predicate Contains(t: Item, id: string)
    decreases t
  {
    t.id == id || exists i :: 0 <= i < |t.items| && Contains(t.items[i], id)
  }

  /** `get(id)`: the node itself when its identifier matches; otherwise what
      `items.find(i => i.get(id))` yields, the first CHILD whose subtree
      holds the identifier (not the matching descendant itself). */
  function Get(t: Item, id: string): Option<Item>
    decreases t, 1
  {
    if t.id == id then Some(t) else Find(t.items, id)
  }

  /** `Array.prototype.find` with the predicate `i => i.get(id)`. */
  function Find(ts: seq<Item>, id: string): Option<Item>
    decreases ts, 0
  {
    if ts == [] then None
    else if Get(ts[0], id).Some? then Some(ts[0])
    else Find(ts[1..], id)
  }

  // ---------------------------------------------------------------------
  // Aggregation

  /** The children's `getProgress` values, in order. */
  function Values(ts: seq<Item>): (r: seq<real>)
    ensures |r| == |ts| && forall i :: 0 <= i < |ts| ==> r[i] == Progress(ts[i])
  {
    seq(|ts|, i requires 0 <= i < |ts| => Progress(ts[i]))
  }

  /** The left-to-right total of a sequence of numbers. */
  function Total(xs: seq<real>): real
  {
    if xs == [] then 0.0 else Total(xs[..|xs| - 1]) + xs[|xs| - 1]
  }

  lemma {:induction false} SumIsTotal(ts: seq<Item>)
    ensures Sum(ts) == Total(Values(ts))
  {
    if ts != [] {
      SumIsTotal(ts[..|ts| - 1]);
      assert Values(ts)[..|ts| - 1] == Values(ts[..|ts| - 1]);
    }
  }

  /** A total of n numbers within [lo, hi] lies between n * lo and n * hi. */
  lemma {:induction false} TotalBounds(xs: seq<real>, lo: real, hi: real)
    requires forall i :: 0 <= i < |xs| ==> lo <= xs[i] <= hi
    ensures lo * (|xs| as real) <= Total(xs) <= hi * (|xs| as real)
  {
    if xs != [] {
      var init := xs[..|xs| - 1];
      assert forall i :: 0 <= i < |init| ==> init[i] == xs[i];
      TotalBounds(init, lo, hi);
      var last := xs[|xs| - 1];
      assert Total(xs) == Total(init) + last && lo <= last <= hi;
      StepBounds(Total(init), last, |init| as real, lo, hi);
      assert |xs| as real == (|init| as real) + 1.0;
    }
  }

  /** One more number within [lo, hi] widens the bounds by one step. */
  lemma StepBounds(t: real, x: real, n: real, lo: real, hi: real)
    requires lo * n <= t <= hi * n && lo <= x <= hi
    ensures lo * (n + 1.0) <= t + x <= hi * (n + 1.0)
  {
    assert lo * (n + 1.0) == lo * n + lo;
    assert hi * (n + 1.0) == hi * n + hi;
  }

  /** Bounds on a total carry over to the mean. */
  lemma DivBounds(s: real, n: real, lo: real, hi: real)
    requires n > 0.0
    requires lo * n <= s <= hi * n
    ensures lo <= s / n <= hi
  {
    var q := s / n;
    assert q * n == s;
  }

  /** Flooring is monotonic and never increases a value. */
  lemma FloorBetween(m: real, lo: real, hi: real)
    requires lo <= m <= hi
    ensures lo.Floor as real <= m.Floor as real <= hi
  {
    var a, b := lo.Floor, m.Floor;
    assert a as real <= lo && m < (b + 1) as real;
    assert a < b + 1;
  }

  /** The floored mean of numbers within [lo, hi] lies within
      [floor(lo), hi]. */
  lemma FlooredMeanBetween(xs: seq<real>, lo: real, hi: real)
    requires |xs| > 0
    requires forall i :: 0 <= i < |xs| ==> lo <= xs[i] <= hi
    ensures lo.Floor as real <= (Total(xs) / (|xs| as real)).Floor as real <= hi
  {
    var n := |xs| as real;
    TotalBounds(xs, lo, hi);
    DivBounds(Total(xs), n, lo, hi);
    FloorBetween(Total(xs) / n, lo, hi);
  }

  /** A parent's progress is at most the largest bound on its children and
      at least the floor of the smallest one. */
  lemma MeanBetween(t: Item, lo: real, hi: real)
    requires |t.items| > 0
    requires forall i :: 0 <= i < |t.items| ==> lo <= Progress(t.items[i]) <= hi
    ensures lo.Floor as real <= Progress(t) <= hi
  {
    SumIsTotal(t.items);
    FlooredMeanBetween(Values(t.items), lo, hi);
  }

  /** If every leaf stores a progress in [0, 100], every node's progress is
      in [0, 100]. */
  lemma {:induction false} ProgressInRange(t: Item)
    requires LeavesInRange(t)
    ensures 0.0 <= Progress(t) <= 100.0
    decreases t
  {
    if |t.items| > 0 {
      forall i | 0 <= i < |t.items|
        ensures 0.0 <= Progress(t.items[i]) <= 100.0
      {
        ProgressInRange(t.items[i]);
      }
      MeanBetween(t, 0.0, 100.0);
    }
  }

  /** A node with children ignores its own stored progress. */
  lemma OwnProgressIgnored(t: Item, v: real)
    requires |t.items| > 0
    ensures Progress(t.(progress := v)) == Progress(t)
  {
  }

  /** `done` reads the stored value: after `setProgress(v)` an item is
      done exactly when `v` reached 100, and a leaf is done exactly when
      the progress it reports is 100 or more. */
  lemma DoneAfterSet(t: Item, v: real)
    ensures Done(t.(progress := Clamp(v))) <==> v >= 100.0
    ensures |t.items| == 0 ==> (Done(t) <==> Progress(t) >= 100.0)
  {
  }

  /** A node whose children are all complete reports 100 but is not done
      until its own stored value is written: `done` never looks at the
      children. */
  lemma DoneNotFromChildren(b: Item)
    requires b.items == [] && b.progress == 100.0
    ensures var t := Item("f", "F", None, "", 0.0, [b]);
      Progress(t) == 100.0 && Done(b) && !Done(t)
  {
    assert [b][..0] == [];
    assert Sum([b]) == 100.0;
  }

  /** Two trees with the same shape and the same leaf progress, whatever
      their identifiers, labels, size hints, speeds and the stored progress
      of inner nodes. */
  predicate SameLeafProgress(t: Item, u: Item)
    decreases t
  {
    && |t.items| == |u.items|
    && (|t.items| == 0 ==> t.progress == u.progress)
    && forall i :: 0 <= i < |t.items| ==> SameLeafProgress(t.items[i], u.items[i])
  }

  /** Aggregation is unweighted and reads only leaf progress: size hints (and
      every other field) never change any node's progress. */
  lemma {:induction false} ProgressOnlyFromLeaves(t: Item, u: Item)
    requires SameLeafProgress(t, u)
    ensures Progress(t) == Progress(u)
    decreases t
  {
    if |t.items| > 0 {
      SumOnlyFromLeaves(t.items, u.items);
    }
  }

  lemma {:induction false} SumOnlyFromLeaves(ts: seq<Item>, us: seq<Item>)
    requires |ts| == |us|
    requires forall i :: 0 <= i < |ts| ==> SameLeafProgress(ts[i], us[i])
    ensures Sum(ts) == Sum(us)
    decreases ts
  {
    if ts != [] {
      SumOnlyFromLeaves(ts[..|ts| - 1], us[..|us| - 1]);
      ProgressOnlyFromLeaves(ts[|ts| - 1], us[|us| - 1]);
    }
  }

  /** Examples of the rule: children at {0, 100} give 50, at {100, 100} give
      100, at {0, 0, 100} give 33. */
  lemma MeanExamples(a: Item, b: Item, c: Item)
    requires a.items == [] && b.items == [] && c.items == []
    requires a.progress == 0.0 && b.progress == 100.0 && c.progress == 0.0
    ensures Progress(Item("f", "F", None, "", 0.0, [a, b])) == 50.0
    ensures Progress(Item("f", "F", None, "", 0.0, [b, b])) == 100.0
    ensures Progress(Item("f", "F", None, "", 0.0, [a, c, b])) == 33.0
  {
    assert [a, b][..1] == [a] && [a][..0] == [];
    assert Sum([a]) == 0.0;
    assert Sum([a, b]) == 100.0;
    assert [b, b][..1] == [b] && [b][..0] == [];
    assert Sum([b]) == 100.0;
    assert Sum([b, b]) == 200.0;
    assert [a, c, b][..2] == [a, c] && [a, c][..1] == [a];
    assert Sum([a, c]) == 0.0;
    assert Sum([a, c, b]) == 100.0;
    assert (100.0 / 3.0).Floor == 33;
  }

  // ---------------------------------------------------------------------
  // Search by identifier

  lemma {:induction false} FindNoneIff(ts: seq<Item>, id: string)
    ensures Find(ts, id).None? <==> forall i :: 0 <= i < |ts| ==> !Contains(ts[i], id)
    decreases ts
  {
    if ts != [] {
      GetNoneIff(ts[0], id);
      FindNoneIff(ts[1..], id);
      assert forall i :: 1 <= i < |ts| ==> ts[i] == ts[1..][i - 1];
    }
  }

  /** `get(id)` yields undefined exactly when no node of the subtree has the
      identifier. */
  lemma {:induction false} GetNoneIff(t: Item, id: string)
    ensures Get(t, id).None? <==> !Contains(t, id)
    decreases t, 1
  {
    if t.id != id {
      FindNoneIff(t.items, id);
    }
  }

  /** `find` yields the first element whose subtree holds the identifier. */
  lemma {:induction false} FindFirst(ts: seq<Item>, id: string)
    requires Find(ts, id).Some?
    ensures exists k :: (0 <= k < |ts| && Find(ts, id).value == ts[k] && Contains(ts[k], id)
      && forall j :: 0 <= j < k ==> !Contains(ts[j], id))
    decreases ts
  {
    if Get(ts[0], id).Some? {
      GetNoneIff(ts[0], id);
      assert Find(ts, id).value == ts[0];
    } else {
      GetNoneIff(ts[0], id);
      FindFirst(ts[1..], id);
      var k :| 0 <= k < |ts[1..]| && Find(ts[1..], id).value == ts[1..][k] && Contains(ts[1..][k], id)
        && forall j :: 0 <= j < k ==> !Contains(ts[1..][j], id);
      assert forall j :: 1 <= j < k + 1 ==> ts[j] == ts[1..][j - 1];
      assert Find(ts, id).value == ts[k + 1];
    }
  }

  /** What `get(id)` returns when it finds something: the node itself on a
      match, otherwise the first direct child whose subtree holds the
      identifier. */
  lemma GetResult(t: Item, id: string)
    requires Get(t, id).Some?
    ensures t.id == id ==> Get(t, id).value == t
    ensures t.id != id ==> exists k :: (0 <= k < |t.items| && Get(t, id).value == t.items[k]
      && Contains(t.items[k], id) && forall j :: 0 <= j < k ==> !Contains(t.items[j], id))
  {
    if t.id != id {
      FindFirst(t.items, id);
    }
  }

  /** For a match two levels down, `get` returns the child on the way, not
      the matching grandchild. */
  lemma GetReturnsChildNotGrandchild(g: Item)
    requires g.id == "x" && g.items == []
    ensures var c := Item("c", "C", None, "", 0.0, [g]);
            Get(Item("r", "R", None, "", 0.0, [c]), "x") == Some(c)
  {
    var c := Item("c", "C", None, "", 0.0, [g]);
    assert Get(g, "x") == Some(g);
    assert Find([g], "x") == Some(g);
    assert Get(c, "x") == Some(g);
    assert Find([c], "x") == Some(c);
  }
}
