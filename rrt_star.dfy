/** One iteration of RRT* path rewiring (rrt-star.py, `RRTStar.rewire_path`).

    The iteration picks an interior node of the extracted path, jitters a
    sample around it, keeps the `k` path nodes nearest to the sample in two
    fixed-length lists, evaluates for each of them the cost of routing its
    parent -> sample -> child on a private copy of the sample, and picks the
    first index of the smallest cost difference. Nothing of the planner is
    changed. */
module StarPlanner {
  import opened Values
  import opened Nodes
  import opened ParentLinks
  import opened Planner

  /** `path[1:-1]`: the path without its first and last entries (empty for paths of length at most 2). */
  function Interior(path: seq<nat>): (r: seq<nat>)
    ensures |r| == if |path| <= 2 then 0 else |path| - 2
    ensures 2 < |path| ==> path == [path[0]] + r + [path[|path| - 1]]
  {
    if |path| <= 2 then [] else path[1..|path| - 1]
  }

  /** `Node(x=node.x + random_x, y=node.y + random_y)`, where `random_x` and `random_y`
      come from `random.uniform(-step, step)`. */
  function Jitter(anchor: Node, randomX: real, randomY: real, stepSize: real): (sample: Node)
    requires Abs(randomX) <= Abs(stepSize) && Abs(randomY) <= Abs(stepSize)
    ensures Abs(sample.x - anchor.x) <= Abs(stepSize) && Abs(sample.y - anchor.y) <= Abs(stepSize)
    ensures sample.parent.None? && sample.child.None? && sample.cost == 0.0
  {
    NewNode(anchor.x + randomX, anchor.y + randomY)
  }

  /** `max(s)` on floats that may be infinite. */
  function MaxOf(s: seq<Ext>): (m: Ext)
    requires |s| > 0
    ensures m in s
    ensures forall i :: 0 <= i < |s| ==> AtMost(s[i], m)
  {
    if |s| == 1 then s[0]
    else
      var rest := MaxOf(s[1..]);
      assert forall i :: 1 <= i < |s| ==> s[i] == s[1..][i - 1];
      if Less(s[0], rest) then rest else s[0]
  }

  /** `min(s)` on floats that may be infinite. */
  function MinOf(s: seq<Ext>): (m: Ext)
    requires |s| > 0
    ensures m in s
    ensures forall i :: 0 <= i < |s| ==> AtMost(m, s[i])
  {
    if |s| == 1 then s[0]
    else
      var rest := MinOf(s[1..]);
      assert forall i :: 1 <= i < |s| ==> s[i] == s[1..][i - 1];
      if Less(rest, s[0]) then rest else s[0]
  }

  /** `s.index(e)`: the first position holding `e`. */
  function IndexOf<T(==)>(s: seq<T>, e: T): (i: nat)
    requires e in s
    ensures i < |s| && s[i] == e
    ensures forall j :: 0 <= j < i ==> s[j] != e
  {
    if s[0] == e then 0 else 1 + IndexOf(s[1..], e)
  }

  /** `s.index(min(s))`: the first position of a smallest entry. */
  function FirstMinIndex(s: seq<Ext>): (i: nat)
    requires |s| > 0
    ensures i < |s|
    ensures forall j :: 0 <= j < |s| ==> AtMost(s[i], s[j])
    ensures forall j :: 0 <= j < i ==> Less(s[i], s[j])
  {
    IndexOf(s, MinOf(s))
  }

  /** When no entry is finite, `FirstMinIndex` chooses index 0; otherwise it chooses
      the first position of the smallest finite entry. */
  lemma {:induction false} FirstMinIndexChoice(s: seq<Ext>)
    requires |s| > 0
    ensures (forall j :: 0 <= j < |s| ==> s[j] == Inf) ==> FirstMinIndex(s) == 0
    ensures (exists j :: 0 <= j < |s| && s[j].Fin?) ==>
      s[FirstMinIndex(s)].Fin? &&
      forall j :: 0 <= j < |s| && s[j].Fin? ==> s[FirstMinIndex(s)].v <= s[j].v
  {
    var i := FirstMinIndex(s);
    if exists j :: 0 <= j < |s| && s[j].Fin? {
      var j :| 0 <= j < |s| && s[j].Fin?;
      assert AtMost(s[i], s[j]);
    }
  }

  /** Replacing the first maximal entry by a strictly smaller value does not raise the maximum. */
  lemma {:induction false} ReplaceMaxNeverIncreases(distances: seq<Ext>, d: real)
    requires |distances| > 0 && Less(Fin(d), MaxOf(distances))
    ensures var m := MaxOf(distances);
      AtMost(MaxOf(distances[IndexOf(distances, m) := Fin(d)]), m)
  {
    var m := MaxOf(distances);
    var after := distances[IndexOf(distances, m) := Fin(d)];
    var m' := MaxOf(after);
    var i :| 0 <= i < |after| && after[i] == m';
    assert AtMost(distances[i], m);
  }

  /** The number of filled slots. */
  function CountFilled(slots: seq<Option<nat>>): (n: nat)
    ensures n <= |slots|
    ensures n == |slots| <==> forall i :: 0 <= i < |slots| ==> slots[i].Some?
  {
    if |slots| == 0 then 0
    else
      assert forall i :: 1 <= i < |slots| ==> slots[i] == slots[1..][i - 1];
      (if slots[0].Some? then 1 else 0) + CountFilled(slots[1..])
  }

  /** A list of empty slots has no filled slot. */
  lemma {:induction false} CountFilledEmpty(slots: seq<Option<nat>>)
    requires forall i :: 0 <= i < |slots| ==> slots[i].None?
    ensures CountFilled(slots) == 0
  {
    if |slots| > 0 {
      CountFilledEmpty(slots[1..]);
    }
  }

  /** Filling one slot raises the count by one if it was empty and keeps it otherwise. */
  lemma {:induction false} CountFilledUpdate(slots: seq<Option<nat>>, i: nat, v: nat)
    requires i < |slots|
    ensures CountFilled(slots[i := Some(v)]) == CountFilled(slots) + (if slots[i].None? then 1 else 0)
  {
    if i > 0 {
      CountFilledUpdate(slots[1..], i - 1, v);
      assert slots[i := Some(v)][1..] == slots[1..][i - 1 := Some(v)];
    }
  }

  /** The two parallel lists agree: an empty slot holds `math.inf` and a filled slot
      holds the distance from the sample to a node among `scanned`. */
  ghost predicate SlotsMatch(nodes: seq<Node>, sample: Node, root: real -> real,
                             distances: seq<Ext>, slots: seq<Option<nat>>, scanned: seq<nat>)
    requires IsSquareRoot(root)
  {
    && |distances| == |slots|
    && (forall i :: 0 <= i < |slots| ==> (slots[i].None? <==> distances[i] == Inf))
    && (forall i :: 0 <= i < |slots| && slots[i].Some? ==>
          slots[i].value in scanned && slots[i].value < |nodes| &&
          distances[i] == Fin(Dist(sample, nodes[slots[i].value], root)))
  }

  /** Every scanned node that holds no slot is at least as far from the sample as every slot's distance. */
  ghost predicate UnselectedNoCloser(nodes: seq<Node>, sample: Node, root: real -> real,
                                     distances: seq<Ext>, slots: seq<Option<nat>>, scanned: seq<nat>)
    requires IsSquareRoot(root)
    requires forall m :: 0 <= m < |scanned| ==> scanned[m] < |nodes|
  {
    forall m, i :: 0 <= m < |scanned| && Some(scanned[m]) !in slots && 0 <= i < |distances| ==>
      AtMost(distances[i], Fin(Dist(sample, nodes[scanned[m]], root)))
  }

  /** No node holds two slots. */
  ghost predicate SlotsDistinct(slots: seq<Option<nat>>)
  {
    forall a, b :: 0 <= a < b < |slots| && slots[a].Some? ==> slots[a] != slots[b]
  }

  /** The outcome of the k-nearest scan: `distances` and `nodes` of rrt-star.py. */
  datatype Selection = Selection(distances: seq<Ext>, slots: seq<Option<nat>>)

  /** What the k-nearest scan guarantees about its result. */
  ghost predicate NearestSelection(nodes: seq<Node>, interior: seq<nat>, sample: Node, k: nat,
                                   root: real -> real, sel: Selection)
    requires IsSquareRoot(root)
    requires forall m :: 0 <= m < |interior| ==> interior[m] < |nodes|
  {
    && |sel.slots| == k
    && SlotsMatch(nodes, sample, root, sel.distances, sel.slots, interior)
    && UnselectedNoCloser(nodes, sample, root, sel.distances, sel.slots, interior)
    && CountFilled(sel.slots) == Min(k, |interior|)
    && (Distinct(interior) ==> SlotsDistinct(sel.slots))
  }

  /** The lists as lines 56-58 create them: `k` slots holding `math.inf` and `None`. */
  function Unfilled(k: nat): (sel: Selection)
    ensures |sel.distances| == k && |sel.slots| == k
    ensures forall i :: 0 <= i < k ==> sel.distances[i] == Inf && sel.slots[i].None?
  {
    Selection(seq(k, _ => Inf), seq(k, _ => None))
  }

  /** Lines 62-68 for one path node `v` at distance `d`: when `d` is strictly below the
      current maximum, the first slot holding that maximum takes `d` and `v`; otherwise
      nothing changes. */
  function ScanOne(sel: Selection, d: real, v: nat): (r: Selection)
    requires |sel.distances| == |sel.slots| > 0
    ensures |r.distances| == |sel.distances| && |r.slots| == |sel.slots|
    ensures !Less(Fin(d), MaxOf(sel.distances)) <==> r == sel
    ensures Less(Fin(d), MaxOf(sel.distances)) ==>
      var index := IndexOf(sel.distances, MaxOf(sel.distances));
      && r.distances[index] == Fin(d) && r.slots[index] == Some(v)
      && (forall i :: 0 <= i < |sel.slots| && i != index ==>
            r.distances[i] == sel.distances[i] && r.slots[i] == sel.slots[i])
      && (forall i :: 0 <= i < index ==> Less(sel.distances[i], MaxOf(sel.distances)))
  {
    var m := MaxOf(sel.distances);
    if Less(Fin(d), m) then
      var index := IndexOf(sel.distances, m);
      assert sel.distances[index] != Fin(d);
      Selection(sel.distances[index := Fin(d)], sel.slots[index := Some(v)])
    else sel
  }

  /** Lines 60-68: the lists after scanning the nodes of `scanned` in order, starting from `init`. */
  function Scan(nodes: seq<Node>, scanned: seq<nat>, sample: Node, root: real -> real, init: Selection): (sel: Selection)
    requires IsSquareRoot(root)
    requires forall m :: 0 <= m < |scanned| ==> scanned[m] < |nodes|
    requires |init.distances| == |init.slots| && (0 < |scanned| ==> 0 < |init.slots|)
    ensures |sel.distances| == |init.distances| && |sel.slots| == |init.slots|
    decreases |scanned|
  {
    if |scanned| == 0 then init
    else
      var last := |scanned| - 1;
      var before := Scan(nodes, scanned[..last], sample, root, init);
      ScanOne(before, Dist(sample, nodes[scanned[last]], root), scanned[last])
  }

  /** Lines 55-68: keep the `k` interior nodes nearest to `sample`. A node enters only
      when strictly closer than the current maximum, replacing the first maximal slot.
      With `k <= 0` the lists are empty, so `max` raises as soon as one node is scanned. */
  method SelectNeighbours(nodes: seq<Node>, interior: seq<nat>, sample: Node, k: int, root: real -> real)
    returns (r: Outcome<Selection>)
    requires IsSquareRoot(root)
    requires forall m :: 0 <= m < |interior| ==> interior[m] < |nodes|
    ensures r.Raised? <==> k <= 0 && 0 < |interior|
    ensures r.Raised? ==> r.error == ValueError
    ensures r.Ok? ==> r.value == Scan(nodes, interior, sample, root, Unfilled(if k < 0 then 0 else k))
    ensures r.Ok? ==> NearestSelection(nodes, interior, sample, if k < 0 then 0 else k, root, r.value)
  {
    if k <= 0 {
      if 0 < |interior| {
        return Raised(ValueError);
      }
      ScanSelectsNearest(nodes, interior, sample, 0, root);
      return Ok(Selection([], []));
    }
    var init := Unfilled(k);
    var distances: seq<Ext> := init.distances;
    var slots: seq<Option<nat>> := init.slots;
    for j := 0 to |interior|
      invariant Selection(distances, slots) == Scan(nodes, interior[..j], sample, root, init)
    {
      assert interior[..j + 1][..j] == interior[..j];
      var distance := Dist(sample, nodes[interior[j]], root);
      var maxDistance := MaxOf(distances);
      if Less(Fin(distance), maxDistance) {
        var index := IndexOf(distances, maxDistance);
        distances := distances[index := Fin(distance)];
        slots := slots[index := Some(interior[j])];
      }
    }
    assert interior[..|interior|] == interior;
    ScanSelectsNearest(nodes, interior, sample, k, root);
    return Ok(Selection(distances, slots));
  }

  /** The scan keeps the `k` nearest nodes: it meets `NearestSelection` for every
      prefix of the interior. */
  lemma {:induction false} ScanSelectsNearest(nodes: seq<Node>, scanned: seq<nat>, sample: Node, k: nat, root: real -> real)
    requires IsSquareRoot(root)
    requires forall m :: 0 <= m < |scanned| ==> scanned[m] < |nodes|
    requires 0 < k || |scanned| == 0
    ensures NearestSelection(nodes, scanned, sample, k, root, Scan(nodes, scanned, sample, root, Unfilled(k)))
    decreases |scanned|
  {
    var init := Unfilled(k);
    if |scanned| == 0 {
      CountFilledEmpty(init.slots);
    } else {
      var j := |scanned| - 1;
      var prefix := scanned[..j];
      ScanSelectsNearest(nodes, prefix, sample, k, root);
      var before := Scan(nodes, prefix, sample, root, init);
      var after := ScanOne(before, Dist(sample, nodes[scanned[j]], root), scanned[j]);
      assert Scan(nodes, scanned, sample, root, init) == after;
      DistinctPrefix(scanned, j);
      ScanKeepsNearest(nodes, scanned, sample, k, root, before);
    }
  }

  /** A prefix of a list without repetitions has none either. */
  lemma {:induction false} DistinctPrefix(s: seq<nat>, j: nat)
    requires j <= |s|
    ensures Distinct(s) ==> Distinct(s[..j])
  {
    if Distinct(s) {
      forall a, b | 0 <= a < b < j
        ensures s[..j][a] != s[..j][b]
      {
        assert s[..j][a] == s[a] && s[..j][b] == s[b];
      }
    }
  }

  /** Scanning one more node keeps `NearestSelection`. */
  lemma {:induction false} ScanKeepsNearest(nodes: seq<Node>, scanned: seq<nat>, sample: Node, k: nat, root: real -> real,
                                          before: Selection)
    requires IsSquareRoot(root)
    requires forall m :: 0 <= m < |scanned| ==> scanned[m] < |nodes|
    requires 0 < k && 0 < |scanned|
    requires NearestSelection(nodes, scanned[..|scanned| - 1], sample, k, root, before)
    requires Distinct(scanned) ==> SlotsDistinct(before.slots)
    ensures NearestSelection(nodes, scanned, sample, k, root,
                             ScanOne(before, Dist(sample, nodes[scanned[|scanned| - 1]], root), scanned[|scanned| - 1]))
  {
    var j := |scanned| - 1;
    var v := scanned[j];
    var d := Dist(sample, nodes[v], root);
    assert scanned[..j + 1] == scanned;
    if Less(Fin(d), MaxOf(before.distances)) {
      ScanStep(nodes, scanned, j, sample, root, before.distances, before.slots,
               IndexOf(before.distances, MaxOf(before.distances)));
    } else {
      ScanSkip(nodes, scanned, j, sample, root, before.distances, before.slots);
    }
    ScanCount(before.distances, before.slots, d, j, v);
  }

  /** While a slot is empty the maximum is `math.inf`, and its first position is an empty slot. */
  lemma {:induction false} EmptySlotMakesMaxInfinite(distances: seq<Ext>, slots: seq<Option<nat>>)
    requires |distances| == |slots| > 0
    requires forall i :: 0 <= i < |slots| ==> (slots[i].None? <==> distances[i] == Inf)
    requires CountFilled(slots) < |slots|
    ensures MaxOf(distances) == Inf
    ensures slots[IndexOf(distances, Inf)].None?
  {
    var i :| 0 <= i < |slots| && slots[i].None?;
    assert AtMost(distances[i], MaxOf(distances));
  }

  /** The filled count follows `min(k, scanned)`: while a slot is empty every node
      enters, into an empty slot; once all are filled, entering keeps the count. */
  lemma {:induction false} ScanCount(distances: seq<Ext>, slots: seq<Option<nat>>, d: real, j: nat, v: nat)
    requires |distances| == |slots| > 0
    requires forall i :: 0 <= i < |slots| ==> (slots[i].None? <==> distances[i] == Inf)
    requires CountFilled(slots) == Min(|slots|, j)
    ensures var m := MaxOf(distances);
      if Less(Fin(d), m) then
        CountFilled(slots[IndexOf(distances, m) := Some(v)]) == Min(|slots|, j + 1)
      else
        CountFilled(slots) == Min(|slots|, j + 1)
  {
    var m := MaxOf(distances);
    if CountFilled(slots) < |slots| {
      EmptySlotMakesMaxInfinite(distances, slots);
      CountFilledUpdate(slots, IndexOf(distances, m), v);
    } else if Less(Fin(d), m) {
      CountFilledUpdate(slots, IndexOf(distances, m), v);
    }
  }

  /** The scan invariants survive replacing the first maximal slot by `interior[j]`. */
  lemma {:induction false} ScanStep(nodes: seq<Node>, interior: seq<nat>, j: nat, sample: Node, root: real -> real,
                 distances: seq<Ext>, slots: seq<Option<nat>>, index: nat)
    requires IsSquareRoot(root)
    requires forall m :: 0 <= m < |interior| ==> interior[m] < |nodes|
    requires j < |interior| && |distances| == |slots| > 0
    requires SlotsMatch(nodes, sample, root, distances, slots, interior[..j])
    requires UnselectedNoCloser(nodes, sample, root, distances, slots, interior[..j])
    requires Distinct(interior) ==> SlotsDistinct(slots)
    requires Less(Fin(Dist(sample, nodes[interior[j]], root)), MaxOf(distances))
    requires index == IndexOf(distances, MaxOf(distances))
    ensures var distances', slots' := distances[index := Fin(Dist(sample, nodes[interior[j]], root))],
                                      slots[index := Some(interior[j])];
      && SlotsMatch(nodes, sample, root, distances', slots', interior[..j + 1])
      && UnselectedNoCloser(nodes, sample, root, distances', slots', interior[..j + 1])
      && (Distinct(interior) ==> SlotsDistinct(slots'))
  {
    var v := interior[j];
    assert interior[..j + 1] == interior[..j] + [v];
    ReplaceKeepsMatch(nodes, sample, root, distances, slots, interior[..j], v, index);
    ReplaceKeepsNoCloser(nodes, sample, root, distances, slots, interior[..j], v, index);
    if Distinct(interior) {
      assert v !in interior[..j];
      ReplaceKeepsDistinct(slots, interior[..j], v, index);
    }
  }

  lemma {:induction false} ReplaceKeepsMatch(nodes: seq<Node>, sample: Node, root: real -> real,
                          distances: seq<Ext>, slots: seq<Option<nat>>, scanned: seq<nat>, v: nat, index: nat)
    requires IsSquareRoot(root) && v < |nodes| && index < |slots|
    requires SlotsMatch(nodes, sample, root, distances, slots, scanned)
    ensures SlotsMatch(nodes, sample, root, distances[index := Fin(Dist(sample, nodes[v], root))],
                       slots[index := Some(v)], scanned + [v])
  {
  }

  lemma {:induction false} ReplaceKeepsNoCloser(nodes: seq<Node>, sample: Node, root: real -> real,
                             distances: seq<Ext>, slots: seq<Option<nat>>, scanned: seq<nat>, v: nat, index: nat)
    requires IsSquareRoot(root) && v < |nodes| && |distances| == |slots| > 0
    requires forall m :: 0 <= m < |scanned| ==> scanned[m] < |nodes|
    requires SlotsMatch(nodes, sample, root, distances, slots, scanned)
    requires UnselectedNoCloser(nodes, sample, root, distances, slots, scanned)
    requires Less(Fin(Dist(sample, nodes[v], root)), MaxOf(distances))
    requires index == IndexOf(distances, MaxOf(distances))
    ensures UnselectedNoCloser(nodes, sample, root, distances[index := Fin(Dist(sample, nodes[v], root))],
                               slots[index := Some(v)], scanned + [v])
  {
    var m := MaxOf(distances);
    var distances', slots', scanned' := distances[index := Fin(Dist(sample, nodes[v], root))],
                                        slots[index := Some(v)], scanned + [v];
    // every new distance is at most the old maximum
    forall i | 0 <= i < |distances'|
      ensures AtMost(distances'[i], m)
    {
      if i != index {
        assert AtMost(distances[i], m);
      }
    }
    assert scanned'[|scanned|] == v && slots'[index] == Some(v);
    forall w, i | 0 <= w < |scanned'| && Some(scanned'[w]) !in slots' && 0 <= i < |distances'|
      ensures AtMost(distances'[i], Fin(Dist(sample, nodes[scanned'[w]], root)))
    {
      var e := scanned'[w];
      // `v` itself now holds the replaced slot, so `e` was scanned before
      assert w < |scanned| && scanned[w] == e;
      if Some(e) in slots {
        // `e` was evicted: it held the replaced slot, whose distance was the maximum
        var h :| 0 <= h < |slots| && slots[h] == Some(e);
        assert slots'[h] == if h == index then Some(v) else Some(e);
        assert slots[index] == Some(e);
        assert distances[index] == m;
        assert m == Fin(Dist(sample, nodes[e], root));
      } else {
        assert AtMost(distances[i], Fin(Dist(sample, nodes[e], root))) || i == index;
      }
    }
  }

  lemma {:induction false} ReplaceKeepsDistinct(slots: seq<Option<nat>>, scanned: seq<nat>, v: nat, index: nat)
    requires index < |slots| && v !in scanned
    requires forall i :: 0 <= i < |slots| && slots[i].Some? ==> slots[i].value in scanned
    requires SlotsDistinct(slots)
    ensures SlotsDistinct(slots[index := Some(v)])
  {
  }

  /** The scan invariants survive skipping `interior[j]` when it is not strictly closer than the maximum. */
  lemma {:induction false} ScanSkip(nodes: seq<Node>, interior: seq<nat>, j: nat, sample: Node, root: real -> real,
                 distances: seq<Ext>, slots: seq<Option<nat>>)
    requires IsSquareRoot(root)
    requires forall m :: 0 <= m < |interior| ==> interior[m] < |nodes|
    requires j < |interior| && |distances| == |slots| > 0
    requires SlotsMatch(nodes, sample, root, distances, slots, interior[..j])
    requires UnselectedNoCloser(nodes, sample, root, distances, slots, interior[..j])
    requires !Less(Fin(Dist(sample, nodes[interior[j]], root)), MaxOf(distances))
    ensures SlotsMatch(nodes, sample, root, distances, slots, interior[..j + 1])
    ensures UnselectedNoCloser(nodes, sample, root, distances, slots, interior[..j + 1])
  {
    var scanned, scanned' := interior[..j], interior[..j + 1];
    assert forall m' :: 0 <= m' < j ==> scanned'[m'] == scanned[m'];
    forall m', i | 0 <= m' < |scanned'| && Some(scanned'[m']) !in slots && 0 <= i < |distances|
      ensures AtMost(distances[i], Fin(Dist(sample, nodes[scanned'[m']], root)))
    {
      if m' == j {
        assert AtMost(distances[i], MaxOf(distances));
      }
    }
  }

  /** After the scan, every interior node without a slot is at least as far from the
      sample as every selected neighbour. */
  lemma {:induction false} SelectedAreNearest(nodes: seq<Node>, interior: seq<nat>, sample: Node, k: nat,
                           root: real -> real, sel: Selection)
    requires IsSquareRoot(root)
    requires forall m :: 0 <= m < |interior| ==> interior[m] < |nodes|
    requires NearestSelection(nodes, interior, sample, k, root, sel)
    ensures forall m, i :: 0 <= m < |interior| && Some(interior[m]) !in sel.slots &&
                           0 <= i < |sel.slots| && sel.slots[i].Some? ==>
      Dist(sample, nodes[sel.slots[i].value], root) <= Dist(sample, nodes[interior[m]], root)
  {
    forall m, i | 0 <= m < |interior| && Some(interior[m]) !in sel.slots &&
                  0 <= i < |sel.slots| && sel.slots[i].Some?
      ensures Dist(sample, nodes[sel.slots[i].value], root) <= Dist(sample, nodes[interior[m]], root)
    {
      assert AtMost(sel.distances[i], Fin(Dist(sample, nodes[interior[m]], root)));
    }
  }

  /** Every slot is filled exactly when there are at least `k` interior nodes. */
  lemma {:induction false} AllSlotsFilledIff(nodes: seq<Node>, interior: seq<nat>, sample: Node, k: nat,
                          root: real -> real, sel: Selection)
    requires IsSquareRoot(root)
    requires forall m :: 0 <= m < |interior| ==> interior[m] < |nodes|
    requires NearestSelection(nodes, interior, sample, k, root, sel)
    ensures (forall i :: 0 <= i < |sel.slots| ==> sel.slots[i].Some?) <==> k <= |interior|
  {
  }

  /** A neighbour the evaluation can read: a node with both a parent and a child
      (otherwise `neighbour.child.cost` or `_node.parent.cost` raises). */
  predicate Evaluable(nodes: seq<Node>, slot: Option<nat>)
  {
    slot.Some? && slot.value < |nodes| && nodes[slot.value].parent.Some? && nodes[slot.value].child.Some?
  }

  /** Lines 88-89: the improvement `original - new` when the new child cost is strictly
      smaller, `math.inf` otherwise. */
  function CostDifference(originalChildCost: real, newChildCost: real): (diff: Ext)
    ensures diff.Fin? <==> newChildCost < originalChildCost
    ensures diff.Fin? ==> 0.0 < diff.v && newChildCost + diff.v == originalChildCost
  {
    if newChildCost < originalChildCost then Fin(originalChildCost - newChildCost) else Inf
  }

  /** The per-neighbour copies of the sample and `cost_differences`. */
  datatype Evaluation = Evaluation(copies: seq<Node>, costDifferences: seq<Ext>)

  /** What lines 80-89 compute for the neighbour `n`: a copy of the sample that takes
      over `n`'s parent and child, costs the parent's cost plus the edge to it, and the
      cost difference for `n`'s child when reached through that copy. */
  ghost predicate EvaluatedAt(nodes: seq<Node>, n: nat, sample: Node, root: real -> real, copy: Node, diff: Ext)
    requires IsSquareRoot(root) && ParentsOrdered(nodes) && Evaluable(nodes, Some(n))
  {
    var parent, child := nodes[nodes[n].parent.value], nodes[nodes[n].child.value];
    && copy.x == sample.x && copy.y == sample.y
    && copy.parent == nodes[n].parent && copy.child == nodes[n].child
    && copy.cost == parent.cost + Dist(sample, parent, root)
    && diff == CostDifference(child.cost, copy.cost + Dist(sample, child, root))
  }

  ghost predicate Evaluated(nodes: seq<Node>, slots: seq<Option<nat>>, sample: Node, root: real -> real, ev: Evaluation)
    requires IsSquareRoot(root) && ParentsOrdered(nodes)
    requires forall i :: 0 <= i < |slots| ==> Evaluable(nodes, slots[i])
  {
    && |ev.copies| == |slots| && |ev.costDifferences| == |slots|
    && forall i :: 0 <= i < |slots| ==>
         Evaluable(nodes, slots[i]) &&
         EvaluatedAt(nodes, slots[i].value, sample, root, ev.copies[i], ev.costDifferences[i])
  }

  /** Lines 75-89: evaluate every neighbour on its own copy of the sample. The
      neighbour's position in `nodes` is its loop position (the slots are distinct). */
  method EvaluateNeighbours(nodes: seq<Node>, slots: seq<Option<nat>>, sample: Node, root: real -> real)
    returns (r: Outcome<Evaluation>)
    requires IsSquareRoot(root) && ParentsOrdered(nodes)
    ensures r.Raised? <==> exists i :: 0 <= i < |slots| && !Evaluable(nodes, slots[i])
    ensures r.Raised? ==> r.error == AttributeError
    ensures r.Ok? ==> Evaluated(nodes, slots, sample, root, r.value)
  {
    var copies := seq(|slots|, _ => sample);
    var costDifferences := seq(|slots|, _ => Inf);
    for i := 0 to |slots|
      invariant |copies| == |slots| && |costDifferences| == |slots|
      invariant forall j :: 0 <= j < i ==>
        Evaluable(nodes, slots[j]) &&
        EvaluatedAt(nodes, slots[j].value, sample, root, copies[j], costDifferences[j])
      invariant forall j :: i <= j < |slots| ==> copies[j] == sample && costDifferences[j] == Inf
    {
      var neighbour := slots[i];
      if neighbour.None? || neighbour.value >= |nodes| || nodes[neighbour.value].child.None? {
        return Raised(AttributeError);
      }
      var originalChildCost := nodes[nodes[neighbour.value].child.value].cost;
      var copy := copies[i].(parent := nodes[neighbour.value].parent, child := nodes[neighbour.value].child);
      if copy.parent.None? {
        return Raised(AttributeError);
      }
      var parent := nodes[copy.parent.value];
      DistOnlyReadsPositions(copy, sample, parent, parent, root);
      copy := copy.(cost := parent.cost + Dist(copy, parent, root));
      var child := nodes[copy.child.value];
      DistOnlyReadsPositions(copy, sample, child, child, root);
      var newChildCost := copy.cost + Dist(copy, child, root);
      copies := copies[i := copy];
      if newChildCost < originalChildCost {
        costDifferences := costDifferences[i := Fin(originalChildCost - newChildCost)];
      }
    }
    return Ok(Evaluation(copies, costDifferences));
  }

  /** In a consistent arena the child's cost runs through the neighbour, so a finite
      cost difference means exactly that the detour parent -> sample -> child is
      strictly shorter than parent -> neighbour -> child, and it is the saving. */
  lemma {:induction false} CostDifferenceIsDetourSaving(nodes: seq<Node>, n: nat, sample: Node, root: real -> real)
    requires Arena(nodes, root) && Evaluable(nodes, Some(n))
    ensures var node := nodes[n];
      var parent, child := nodes[node.parent.value], nodes[node.child.value];
      var viaSample := Dist(sample, parent, root) + Dist(sample, child, root);
      var viaNode := Dist(node, parent, root) + Dist(child, node, root);
      CostDifference(child.cost, parent.cost + Dist(sample, parent, root) + Dist(sample, child, root))
        == if viaSample < viaNode then Fin(viaNode - viaSample) else Inf
  {
    var node := nodes[n];
    var c := node.child.value;
    assert nodes[c].parent == Some(n);
    assert nodes[c].cost == node.cost + Dist(nodes[c], node, root);
    assert node.cost == nodes[node.parent.value].cost + Dist(node, nodes[node.parent.value], root);
  }

  /** The interior of a path of distinct nodes, each inner one linked both ways, is
      distinct and every entry is evaluable. */
  lemma {:induction false} InteriorOfLinkedPath(nodes: seq<Node>, path: seq<nat>)
    requires Distinct(path)
    requires forall k :: 0 < k < |path| - 1 ==>
      path[k] < |nodes| && nodes[path[k]].parent.Some? && nodes[path[k]].child.Some?
    ensures forall m :: 0 <= m < |Interior(path)| ==> Evaluable(nodes, Some(Interior(path)[m]))
    ensures Distinct(Interior(path))
  {
    var interior := Interior(path);
    if 2 < |path| {
      assert forall m :: 0 <= m < |interior| ==> interior[m] == path[m + 1];
    }
  }

  /** The record of one rewiring iteration: the chosen path node, the jittered sample,
      the k-nearest lists, the evaluation and the chosen index. */
  datatype Rewiring = Rewiring(anchor: nat, sample: Node, selection: Selection, evaluation: Evaluation, chosen: nat)

  /** What a rewiring iteration that raises nothing computes from the path interior,
      the drawn values and `k`. */
  ghost predicate Rewired(nodes: seq<Node>, interior: seq<nat>, choice: nat, randomX: real, randomY: real,
                          stepSize: real, k: int, root: real -> real, rw: Rewiring)
    requires IsSquareRoot(root) && ParentsOrdered(nodes)
    requires Abs(randomX) <= Abs(stepSize) && Abs(randomY) <= Abs(stepSize)
  {
    && (forall m :: 0 <= m < |interior| ==> interior[m] < |nodes| && Evaluable(nodes, Some(interior[m])))
    && Distinct(interior)
    && 0 < k <= |interior|
    && choice < |interior| && rw.anchor == interior[choice]
    && rw.sample == Jitter(nodes[rw.anchor], randomX, randomY, stepSize)
    && rw.selection == Scan(nodes, interior, rw.sample, root, Unfilled(k))
    && NearestSelection(nodes, interior, rw.sample, k, root, rw.selection)
    && (forall i :: 0 <= i < k ==> Evaluable(nodes, rw.selection.slots[i]))
    && Evaluated(nodes, rw.selection.slots, rw.sample, root, rw.evaluation)
    && rw.chosen == FirstMinIndex(rw.evaluation.costDifferences)
  }

  /** Lines 46-93 on the interior of the extracted path: pick the anchor, jitter the
      sample, select the `k` nearest interior nodes, evaluate them and choose the first
      smallest cost difference. */
  method RewireInterior(nodes: seq<Node>, interior: seq<nat>, choice: nat, randomX: real, randomY: real,
                        stepSize: real, k: int, root: real -> real)
    returns (r: Outcome<Rewiring>)
    requires IsSquareRoot(root) && ParentsOrdered(nodes)
    requires forall m :: 0 <= m < |interior| ==> Evaluable(nodes, Some(interior[m]))
    requires Distinct(interior)
    requires 0 < |interior| ==> choice < |interior|
    requires Abs(randomX) <= Abs(stepSize) && Abs(randomY) <= Abs(stepSize)
    ensures r.Raised? && r.error == IndexError <==> |interior| == 0
    ensures r.Raised? && r.error == ValueError <==> 0 < |interior| && k <= 0
    ensures r.Raised? && r.error == AttributeError <==> 0 < |interior| < k
    ensures r.Ok? <==> 0 < k <= |interior|
    ensures r.Ok? ==> Rewired(nodes, interior, choice, randomX, randomY, stepSize, k, root, r.value)
  {
    if |interior| == 0 {
      return Raised(IndexError);
    }
    var anchor := interior[choice];
    var sample := Jitter(nodes[anchor], randomX, randomY, stepSize);
    var selected := SelectNeighbours(nodes, interior, sample, k, root);
    if selected.Raised? {
      return Raised(selected.error);
    }
    var selection := selected.value;
    AllSlotsFilledIff(nodes, interior, sample, k, root, selection);
    var evaluated := EvaluateNeighbours(nodes, selection.slots, sample, root);
    if evaluated.Raised? {
      return Raised(evaluated.error);
    }
    var evaluation := evaluated.value;
    var chosen := FirstMinIndex(evaluation.costDifferences);
    return Ok(Rewiring(anchor, sample, selection, evaluation, chosen));
  }

  /** The RRT* planner (class `RRTStar`): an RRT planner plus the neighbour count `k`. */
  class RrtStar {
    const planner: Rrt
    const neighbours: int

    /** `RRTStar.__init__`. */
    constructor (root: real -> real, startX: real, startY: real, goalX: real, goalY: real,
                 stepSize: real := 20.0, neighbours: int := 5)
      requires IsSquareRoot(root)
      ensures fresh(planner) && planner.Valid()
      ensures planner.nodes == [NewNode(startX, startY), NewNode(goalX, goalY)]
      ensures planner.tree == [Start] && planner.pathToGoal == [Goal] && !planner.success
      ensures planner.stepSize == stepSize && planner.root == root
      ensures this.neighbours == neighbours
    {
      planner := new Rrt(root, startX, startY, goalX, goalY, stepSize);
      this.neighbours := neighbours;
    }

    /** One iteration of the `rewire_path` loop, up to the choice of index (lines 42-93).
        `choice` is the index `random.choice` picks and `randomX`, `randomY` the two
        `random.uniform` draws. Nothing is modified. */
    method RewirePath(choice: nat, randomX: real, randomY: real) returns (r: Outcome<Rewiring>)
      requires planner.Valid()
      requires 0 < |Interior(planner.pathToGoal)| ==> choice < |Interior(planner.pathToGoal)|
      requires Abs(randomX) <= Abs(planner.stepSize) && Abs(randomY) <= Abs(planner.stepSize)
      ensures var interior := Interior(planner.pathToGoal);
        && (r.Raised? && r.error == IndexError <==> |interior| == 0)
        && (r.Raised? && r.error == ValueError <==> 0 < |interior| && neighbours <= 0)
        && (r.Raised? && r.error == AttributeError <==> 0 < |interior| < neighbours)
        && (r.Ok? <==> 0 < neighbours <= |interior|)
      ensures r.Ok? ==>
        && planner.success
        && Rewired(planner.nodes, Interior(planner.pathToGoal), choice, randomX, randomY,
                   planner.stepSize, neighbours, planner.root, r.value)
    {
      PathFacts();
      r := RewireInterior(planner.nodes, Interior(planner.pathToGoal), choice, randomX, randomY,
                          planner.stepSize, neighbours, planner.root);
    }

    /** The interior of the extracted path is a list of distinct arena indices; each
        has a parent and a child; before the goal is reached it is empty. */
    lemma {:induction false} PathFacts()
      requires planner.Valid()
      ensures var interior := Interior(planner.pathToGoal);
        && (forall m :: 0 <= m < |interior| ==> Evaluable(planner.nodes, Some(interior[m])))
        && Distinct(interior)
        && (!planner.success ==> interior == [])
    {
      if planner.success {
        planner.PathToGoalShape();
        planner.PathInteriorLinked();
        InteriorOfLinkedPath(planner.nodes, planner.pathToGoal);
      } else {
        assert planner.nodes[Goal].parent.None?;
        assert planner.pathToGoal == [Goal];
      }
    }
  }
}
