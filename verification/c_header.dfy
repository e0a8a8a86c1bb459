/**
 * The aggregation step of the hardware header generator (c_header.py,
 * `run`): which physical base the kernel gets, which interrupt is kept
 * for each label, how device regions are de-duplicated, how device
 * address macros are collected, and the order everything is emitted in.
 * The device tree, the per-device rules and the placement of regions in
 * the device window come from code that is not part of this model and
 * are inputs here; Python dicts are insertion-ordered lists of entries.
 */
module CHeader {
  import opened Results
  import opened Sorting

  type Label = seq<char>

  /** A KernelInterrupt: the macro label (name), the rule's priority and the interrupt number. */
  datatype KernelInterrupt = KernelInterrupt(name: Label, prio: int, irq: int)

  /** A device memory region with the labels it carries. */
  datatype Region = Region(base: nat, size: nat, labels: seq<Label>)

  /** A physical memory region. */
  datatype MemRegion = MemRegion(base: nat, size: nat)

  /** A kernel device: the interrupts its rule yields (if the rule has any) and its regions. */
  datatype Device = Device(hasInterruptRules: bool, interrupts: seq<KernelInterrupt>, regions: seq<Region>)

  datatype HeaderError =
    | MissingHeaderOut
    | NoPhysicalMemory
    | KernelRegionTooSmall
    | DuplicateMacro(name: Label, existing: nat, offset: nat)

  // ---------------------------------------------------------------------
  // Interrupts: one entry per label, the highest priority, first on ties
  // ---------------------------------------------------------------------

  /** The interrupts in the order the device loop visits them: those of every device whose rule has interrupts. */
  function IrqStream(devs: seq<Device>): (s: seq<KernelInterrupt>)
    ensures forall x :: x in s <==> exists d :: d in devs && d.hasInterruptRules && x in d.interrupts
  {
    if devs == [] then []
    else
      var last := devs[|devs| - 1];
      IrqStream(devs[..|devs| - 1]) + (if last.hasInterruptRules then last.interrupts else [])
  }

  function Labels(d: seq<KernelInterrupt>): (ls: seq<Label>)
    ensures |ls| == |d| && forall i :: 0 <= i < |d| ==> ls[i] == d[i].name
  {
    seq(|d|, (i: int) requires 0 <= i < |d| => d[i].name)
  }

  predicate DistinctLabels(d: seq<KernelInterrupt>)
  {
    forall i, j :: 0 <= i < j < |d| ==> d[i].name != d[j].name
  }

  /** Dict lookup by label. */
  function FindLabel(d: seq<KernelInterrupt>, l: Label): (r: Option<nat>)
    ensures r.Some? ==> r.value < |d| && d[r.value].name == l
    ensures r.None? <==> l !in Labels(d)
  {
    if d == [] then None
    else if d[|d| - 1].name == l then Some(|d| - 1)
    else
      var r := FindLabel(d[..|d| - 1], l);
      assert Labels(d) == Labels(d[..|d| - 1]) + [d[|d| - 1].name];
      r
  }

  /** One step of the loop: add a new label, or replace the entry if the priority is strictly higher. */
  function KeepIrq(d: seq<KernelInterrupt>, irq: KernelInterrupt): seq<KernelInterrupt>
  {
    match FindLabel(d, irq.name)
    case None => d + [irq]
    case Some(k) => if irq.prio > d[k].prio then d[k := irq] else d
  }

  /**
   * kernel_irq_dict after the loop: one entry per label seen, and that entry
   * is the label's winner.
   */
  function MergeIrqs(s: seq<KernelInterrupt>): (d: seq<KernelInterrupt>)
    ensures MergedCorrectly(s, d)
  {
    if s == [] then []
    else
      var p := s[..|s| - 1];
      var x := s[|s| - 1];
      assert s == p + [x];
      var m := MergeIrqs(p);
      match FindLabel(m, x.name)
      case None =>
        KeepNewLabel(p, m, x);
        KeepIrq(m, x)
      case Some(k) =>
        KeepKnownLabel(p, m, x, k);
        KeepIrq(m, x)
  }

  /** Element k is the one the merge must keep for label l: the highest priority, the first among equals. */
  predicate IsWinner(s: seq<KernelInterrupt>, l: Label, k: int)
  {
    0 <= k < |s| && s[k].name == l
    && (forall j :: 0 <= j < |s| && s[j].name == l ==> s[j].prio <= s[k].prio)
    && (forall j :: 0 <= j < k && s[j].name == l ==> s[j].prio < s[k].prio)
  }

  /** There is at most one winner per label. */
  lemma WinnerUnique(s: seq<KernelInterrupt>, l: Label, k1: int, k2: int)
    requires IsWinner(s, l, k1) && IsWinner(s, l, k2)
    ensures k1 == k2
  {}

  lemma WinnerOtherLabel(s: seq<KernelInterrupt>, x: KernelInterrupt, l: Label, k: int)
    requires IsWinner(s, l, k) && x.name != l
    ensures IsWinner(s + [x], l, k)
  {
    var t := s + [x];
    forall j | 0 <= j < |t| && t[j].name == l
      ensures t[j].prio <= t[k].prio
    {
      assert j < |s|;
    }
  }

  lemma WinnerStays(s: seq<KernelInterrupt>, x: KernelInterrupt, k: int)
    requires IsWinner(s, x.name, k) && x.prio <= s[k].prio
    ensures IsWinner(s + [x], x.name, k)
  {
    var t := s + [x];
    forall j | 0 <= j < |t| && t[j].name == x.name
      ensures t[j].prio <= t[k].prio
    {
      if j < |s| {
        assert t[j] == s[j];
      }
    }
  }

  lemma WinnerReplaced(s: seq<KernelInterrupt>, x: KernelInterrupt, k: int)
    requires IsWinner(s, x.name, k) && x.prio > s[k].prio
    ensures IsWinner(s + [x], x.name, |s|)
  {
    var t := s + [x];
    forall j | 0 <= j < |s| && t[j].name == x.name
      ensures t[j].prio < x.prio
    {
      assert t[j] == s[j];
    }
  }

  lemma WinnerFirstSeen(s: seq<KernelInterrupt>, x: KernelInterrupt)
    requires forall j :: 0 <= j < |s| ==> s[j].name != x.name
    ensures IsWinner(s + [x], x.name, |s|)
  {
    var t := s + [x];
    forall j | 0 <= j < |s|
      ensures t[j] == s[j]
    {}
  }

  /** The facts the merge keeps about the interrupts seen so far. */
  predicate MergedCorrectly(s: seq<KernelInterrupt>, d: seq<KernelInterrupt>)
  {
    && DistinctLabels(d)
    && (forall k :: 0 <= k < |s| ==> s[k].name in Labels(d))
    && EntriesAreWinners(s, d)
  }

  /** Every kept entry is the winner of its label. */
  predicate EntriesAreWinners(s: seq<KernelInterrupt>, d: seq<KernelInterrupt>)
  {
    forall i :: 0 <= i < |d| ==> HasWinner(s, d[i])
  }

  /** x is the winner of its label in s. */
  predicate HasWinner(s: seq<KernelInterrupt>, x: KernelInterrupt)
  {
    exists k :: 0 <= k < |s| && IsWinner(s, x.name, k) && x == s[k]
  }

  /** A label not seen before is appended as its own winner. */
  lemma KeepNewLabel(p: seq<KernelInterrupt>, d: seq<KernelInterrupt>, x: KernelInterrupt)
    requires MergedCorrectly(p, d) && x.name !in Labels(d)
    ensures MergedCorrectly(p + [x], d + [x])
  {
    var s, d' := p + [x], d + [x];
    forall i, j | 0 <= i < j < |d'|
      ensures d'[i].name != d'[j].name
    {
      if j == |d| {
        assert d[i].name in Labels(d);
      }
    }
    forall i | 0 <= i < |d'|
      ensures HasWinner(s, d'[i])
    {
      if i < |d| {
        var k :| 0 <= k < |p| && IsWinner(p, d[i].name, k) && d[i] == p[k];
        assert x.name != d[i].name by { assert d[i].name in Labels(d); }
        WinnerOtherLabel(p, x, d[i].name, k);
        assert s[k] == p[k];
      } else {
        forall j | 0 <= j < |p|
          ensures p[j].name != x.name
        {
          assert p[j].name in Labels(d);
        }
        WinnerFirstSeen(p, x);
        assert s[|p|] == x;
      }
    }
    forall k | 0 <= k < |s|
      ensures s[k].name in Labels(d')
    {
      if k < |p| {
        assert s[k] == p[k];
        var i :| 0 <= i < |d| && Labels(d)[i] == p[k].name;
        assert Labels(d')[i] == p[k].name;
      } else {
        assert Labels(d')[|d|] == x.name;
      }
    }
  }

  /** A label seen before keeps one entry: the new interrupt if its priority is strictly higher, else the old one. */
  lemma KeepKnownLabel(p: seq<KernelInterrupt>, d: seq<KernelInterrupt>, x: KernelInterrupt, m: nat)
    requires MergedCorrectly(p, d) && m < |d| && d[m].name == x.name
    ensures MergedCorrectly(p + [x], if x.prio > d[m].prio then d[m := x] else d)
  {
    var s := p + [x];
    var d' := if x.prio > d[m].prio then d[m := x] else d;
    var w :| 0 <= w < |p| && IsWinner(p, d[m].name, w) && d[m] == p[w];
    assert Labels(d') == Labels(d);
    forall i | 0 <= i < |d'|
      ensures HasWinner(s, d'[i])
    {
      if i == m {
        if x.prio > d[m].prio {
          WinnerReplaced(p, x, w);
          assert d'[i] == x == s[|p|];
        } else {
          WinnerStays(p, x, w);
          assert d'[i] == p[w] == s[w];
        }
      } else {
        var k :| 0 <= k < |p| && IsWinner(p, d[i].name, k) && d[i] == p[k];
        assert d'[i] == d[i];
        WinnerOtherLabel(p, x, d[i].name, k);
        assert s[k] == p[k];
      }
    }
    forall k | 0 <= k < |s|
      ensures s[k].name in Labels(d')
    {
      if k < |p| {
        assert s[k] == p[k];
      } else {
        assert Labels(d')[m] == x.name;
      }
    }
  }

  // ---------------------------------------------------------------------
  // Device regions: equal regions merge their labels, first-seen order
  // ---------------------------------------------------------------------

  /** What region equality compares: the physical range. */
  type Range = (nat, nat)

  function RangeOf(r: Region): Range
  {
    (r.base, r.size)
  }

  function Ranges(rs: seq<Region>): (g: seq<Range>)
    ensures |g| == |rs| && forall i :: 0 <= i < |rs| ==> g[i] == RangeOf(rs[i])
  {
    seq(|rs|, (i: int) requires 0 <= i < |rs| => RangeOf(rs[i]))
  }

  /** The regions in the order the device loop visits them: those of every device. */
  function RegionStream(devs: seq<Device>): (s: seq<Region>)
    ensures forall r :: r in s <==> exists d :: d in devs && r in d.regions
  {
    if devs == [] then [] else RegionStream(devs[..|devs| - 1]) + devs[|devs| - 1].regions
  }

  /** next((r for r in kernel_regions if r == reg), None): the first equal region. */
  function FindRange(acc: seq<Region>, reg: Region): (r: Option<nat>)
    ensures r.Some? ==> r.value < |acc| && RangeOf(acc[r.value]) == RangeOf(reg)
    ensures r.None? <==> RangeOf(reg) !in Ranges(acc)
  {
    if acc == [] then None
    else if RangeOf(acc[0]) == RangeOf(reg) then
      assert Ranges(acc)[0] == RangeOf(reg);
      Some(0)
    else
      match FindRange(acc[1..], reg)
      case None =>
        assert forall i :: 1 <= i < |acc| ==> Ranges(acc)[i] == Ranges(acc[1..])[i - 1];
        None
      case Some(k) => Some(k + 1)
  }

  predicate UniqueLabels(ls: seq<Label>)
  {
    forall i, j :: 0 <= i < j < |ls| ==> ls[i] != ls[j]
  }

  /**
   * A region's labels are the keys of a dict (the header prints
   * `group.labels.keys()`), so take_labels is a dict update: each new label
   * not yet present is added after the existing ones, and a label already
   * present keeps its place.
   */
  function TakeLabels(acc: seq<Label>, ls: seq<Label>): (r: seq<Label>)
    ensures forall l :: l in r <==> l in acc || l in ls
    ensures |acc| <= |r| && r[..|acc|] == acc
    ensures UniqueLabels(acc) ==> UniqueLabels(r)
    decreases |ls|
  {
    if ls == [] then acc
    else
      var acc' := if ls[0] in acc then acc else acc + [ls[0]];
      var r := TakeLabels(acc', ls[1..]);
      assert r[..|acc|] == r[..|acc'|][..|acc|];
      r
  }

  /** The keys of a dict filled from ls: every label once, in the order it first appears. */
  function Keys(ls: seq<Label>): seq<Label>
  {
    TakeLabels([], ls)
  }

  /** Updating with two label runs one after the other is updating with both at once. */
  lemma {:induction false} TakeLabelsAppend(acc: seq<Label>, l1: seq<Label>, l2: seq<Label>)
    ensures TakeLabels(TakeLabels(acc, l1), l2) == TakeLabels(acc, l1 + l2)
    decreases |l1|
  {
    if l1 == [] {
      assert l1 + l2 == l2;
    } else {
      var acc' := if l1[0] in acc then acc else acc + [l1[0]];
      assert (l1 + l2)[0] == l1[0];
      assert (l1 + l2)[1..] == l1[1..] + l2;
      TakeLabelsAppend(acc', l1[1..], l2);
    }
  }

  /** One step of the loop: an equal region takes the new labels, otherwise the region is appended. */
  function AddRegion(acc: seq<Region>, reg: Region): seq<Region>
  {
    match FindRange(acc, reg)
    case Some(k) => acc[k := acc[k].(labels := TakeLabels(acc[k].labels, reg.labels))]
    case None => acc + [reg.(labels := Keys(reg.labels))]
  }

  /**
   * kernel_regions after the loop: each range once, in first-seen order, with
   * the labels of its equal regions, each label once, in first-seen order.
   */
  function DedupRegions(s: seq<Region>): (out: seq<Region>)
    ensures DedupedCorrectly(s, out)
  {
    if s == [] then []
    else
      var p := s[..|s| - 1];
      var x := s[|s| - 1];
      assert s == p + [x];
      var acc := DedupRegions(p);
      match FindRange(acc, x)
      case None =>
        AddNewRange(p, acc, x);
        AddRegion(acc, x)
      case Some(m) =>
        AddKnownRange(p, acc, x, m);
        AddRegion(acc, x)
  }

  /** The labels of every input region with range g, in input order. */
  function LabelsOf(s: seq<Region>, g: Range): seq<Label>
  {
    if s == [] then []
    else LabelsOf(s[..|s| - 1], g) + (if RangeOf(s[|s| - 1]) == g then s[|s| - 1].labels else [])
  }

  predicate NoDuplicateRanges(out: seq<Region>)
  {
    forall i, j :: 0 <= i < j < |out| ==> RangeOf(out[i]) != RangeOf(out[j])
  }

  /** Kept regions appear in the order their ranges first appear in the input. */
  predicate FirstSeenOrder(s: seq<Region>, out: seq<Region>)
  {
    forall i, j, k :: 0 <= i < j < |out| && 0 <= k < |s| && RangeOf(s[k]) == RangeOf(out[j]) ==>
      RangeOf(out[i]) in Ranges(s[..k])
  }

  /** What the de-duplication promises about its input s and its output out. */
  predicate DedupedCorrectly(s: seq<Region>, out: seq<Region>)
  {
    RangesDeduped(s, out) && LabelsAreKeys(s, out)
  }

  /** The range part: each range once, every range seen and no other, in first-seen order. */
  predicate RangesDeduped(s: seq<Region>, out: seq<Region>)
  {
    && NoDuplicateRanges(out)
    && (forall k :: 0 <= k < |s| ==> RangeOf(s[k]) in Ranges(out))
    && (forall i :: 0 <= i < |out| ==> RangeOf(out[i]) in Ranges(s))
    && FirstSeenOrder(s, out)
  }

  /** Each kept region carries the labels of all input regions of its range, each once, in first-seen order. */
  predicate LabelsAreKeys(s: seq<Region>, out: seq<Region>)
  {
    forall i :: 0 <= i < |out| ==> out[i].labels == Keys(LabelsOf(s, RangeOf(out[i])))
  }

  lemma LabelsOfSnoc(p: seq<Region>, x: Region, g: Range)
    ensures LabelsOf(p + [x], g) == LabelsOf(p, g) + (if RangeOf(x) == g then x.labels else [])
  {
    assert (p + [x])[..|p|] == p;
  }

  lemma {:induction false} LabelsOfUnseen(s: seq<Region>, g: Range)
    requires g !in Ranges(s)
    ensures LabelsOf(s, g) == []
  {
    if s != [] {
      var p := s[..|s| - 1];
      assert Ranges(p) == Ranges(s)[..|s| - 1];
      assert RangeOf(s[|s| - 1]) == Ranges(s)[|s| - 1];
      LabelsOfUnseen(p, g);
    }
  }

  /** A label is among those of range g exactly when some input region of range g carries it. */
  lemma {:induction false} InLabelsOf(s: seq<Region>, g: Range, l: Label)
    ensures l in LabelsOf(s, g) <==> exists k :: 0 <= k < |s| && RangeOf(s[k]) == g && l in s[k].labels
  {
    if s != [] {
      var p := s[..|s| - 1];
      InLabelsOf(p, g, l);
      assert forall k :: 0 <= k < |p| ==> s[k] == p[k];
      if l in LabelsOf(s, g) && l !in LabelsOf(p, g) {
        assert RangeOf(s[|s| - 1]) == g && l in s[|s| - 1].labels;
      }
    }
  }

  /**
   * The labels each kept region prints: every label of an equal input region,
   * and no other, each exactly once.
   */
  lemma DedupedLabels(s: seq<Region>, i: nat, l: Label)
    requires i < |DedupRegions(s)|
    ensures UniqueLabels(DedupRegions(s)[i].labels)
    ensures l in DedupRegions(s)[i].labels <==>
      exists k :: 0 <= k < |s| && RangeOf(s[k]) == RangeOf(DedupRegions(s)[i]) && l in s[k].labels
  {
    InLabelsOf(s, RangeOf(DedupRegions(s)[i]), l);
  }

  /** Two equal regions with the same label: the label is printed once. */
  lemma RepeatedLabelKeptOnce(base: nat, size: nat, l: Label)
    ensures DedupRegions([Region(base, size, [l]), Region(base, size, [l])]) == [Region(base, size, [l])]
  {
    var r := Region(base, size, [l]);
    assert [l][1..] == [];
    assert TakeLabels([l], [l]) == [l];
    assert l !in [];
    assert [] + [l] == [l];
    assert TakeLabels([], [l]) == TakeLabels([l], []);
    assert Keys([l]) == [l];
    assert AddRegion([], r) == [r];
    assert [r][..0] == [];
    assert DedupRegions([r]) == [r];
    assert [r, r][..1] == [r];
    assert AddRegion([r], r) == [r];
  }

  /** A range not seen before is appended with the keys of its own labels. */
  lemma AddNewRange(p: seq<Region>, out: seq<Region>, x: Region)
    requires DedupedCorrectly(p, out) && RangeOf(x) !in Ranges(out)
    ensures DedupedCorrectly(p + [x], out + [x.(labels := Keys(x.labels))])
  {
    var y := x.(labels := Keys(x.labels));
    NewRangeUnseen(p, out, x);
    AddNewDistinct(out, y);
    AddNewCovers(p, out, x, y);
    AddNewOrdered(p, out, x, y);
    AddNewLabels(p, out, x, y);
  }

  lemma NewRangeUnseen(p: seq<Region>, out: seq<Region>, x: Region)
    requires DedupedCorrectly(p, out) && RangeOf(x) !in Ranges(out)
    ensures RangeOf(x) !in Ranges(p)
  {
    forall k | 0 <= k < |p|
      ensures Ranges(p)[k] != RangeOf(x)
    {
      assert RangeOf(p[k]) in Ranges(out);
    }
  }

  lemma AddNewDistinct(out: seq<Region>, x: Region)
    requires NoDuplicateRanges(out) && RangeOf(x) !in Ranges(out)
    ensures NoDuplicateRanges(out + [x])
  {
    var o := out + [x];
    forall i, j | 0 <= i < j < |o|
      ensures RangeOf(o[i]) != RangeOf(o[j])
    {
      if j == |out| {
        assert Ranges(out)[i] == RangeOf(out[i]);
      }
    }
  }

  lemma AddNewCovers(p: seq<Region>, out: seq<Region>, x: Region, y: Region)
    requires DedupedCorrectly(p, out) && RangeOf(y) == RangeOf(x)
    ensures forall k :: 0 <= k < |p + [x]| ==> RangeOf((p + [x])[k]) in Ranges(out + [y])
    ensures forall i :: 0 <= i < |out + [y]| ==> RangeOf((out + [y])[i]) in Ranges(p + [x])
  {
    var s, o := p + [x], out + [y];
    forall k | 0 <= k < |s|
      ensures RangeOf(s[k]) in Ranges(o)
    {
      if k < |p| {
        assert s[k] == p[k];
        var i :| 0 <= i < |out| && Ranges(out)[i] == RangeOf(p[k]);
        assert Ranges(o)[i] == RangeOf(p[k]);
      } else {
        assert Ranges(o)[|out|] == RangeOf(x);
      }
    }
    forall i | 0 <= i < |o|
      ensures RangeOf(o[i]) in Ranges(s)
    {
      if i < |out| {
        var k :| 0 <= k < |p| && Ranges(p)[k] == RangeOf(out[i]);
        assert Ranges(s)[k] == RangeOf(out[i]);
      } else {
        assert Ranges(s)[|p|] == RangeOf(x);
      }
    }
  }

  lemma AddNewOrdered(p: seq<Region>, out: seq<Region>, x: Region, y: Region)
    requires DedupedCorrectly(p, out) && RangeOf(x) !in Ranges(p) && RangeOf(y) == RangeOf(x)
    ensures FirstSeenOrder(p + [x], out + [y])
  {
    var s, o := p + [x], out + [y];
    forall i, j, k | 0 <= i < j < |o| && 0 <= k < |s| && RangeOf(s[k]) == RangeOf(o[j])
      ensures RangeOf(o[i]) in Ranges(s[..k])
    {
      if k < |p| {
        assert s[k] == p[k];
        assert Ranges(p)[k] == RangeOf(p[k]);
        assert s[..k] == p[..k];
      } else {
        assert s[..k] == p;
      }
    }
  }

  lemma AddNewLabels(p: seq<Region>, out: seq<Region>, x: Region, y: Region)
    requires LabelsAreKeys(p, out) && RangeOf(x) !in Ranges(out) && RangeOf(x) !in Ranges(p)
    requires y == x.(labels := Keys(x.labels))
    ensures LabelsAreKeys(p + [x], out + [y])
  {
    var s, o := p + [x], out + [y];
    forall i | 0 <= i < |o|
      ensures o[i].labels == Keys(LabelsOf(s, RangeOf(o[i])))
    {
      LabelsOfSnoc(p, x, RangeOf(o[i]));
      if i == |out| {
        LabelsOfUnseen(p, RangeOf(x));
        assert [] + x.labels == x.labels;
        assert LabelsOf(s, RangeOf(x)) == x.labels;
        assert o[i] == y && RangeOf(y) == RangeOf(x);
      } else {
        assert Ranges(out)[i] == RangeOf(out[i]);
        assert o[i] == out[i];
        assert RangeOf(out[i]) != RangeOf(x);
        assert LabelsOf(s, RangeOf(o[i])) == LabelsOf(p, RangeOf(o[i])) + [];
        assert LabelsOf(p, RangeOf(o[i])) + [] == LabelsOf(p, RangeOf(o[i]));
        assert out[i].labels == Keys(LabelsOf(p, RangeOf(out[i])));
      }
    }
  }

  lemma AddKnownLabels(p: seq<Region>, out: seq<Region>, x: Region, m: nat)
    requires LabelsAreKeys(p, out) && NoDuplicateRanges(out) && m < |out| && RangeOf(out[m]) == RangeOf(x)
    ensures LabelsAreKeys(p + [x], out[m := out[m].(labels := TakeLabels(out[m].labels, x.labels))])
  {
    var s := p + [x];
    var o := out[m := out[m].(labels := TakeLabels(out[m].labels, x.labels))];
    forall i | 0 <= i < |o|
      ensures o[i].labels == Keys(LabelsOf(s, RangeOf(o[i])))
    {
      LabelsOfSnoc(p, x, RangeOf(o[i]));
      if i == m {
        assert RangeOf(o[i]) == RangeOf(x);
        assert out[m].labels == Keys(LabelsOf(p, RangeOf(x)));
        TakeLabelsAppend([], LabelsOf(p, RangeOf(x)), x.labels);
        assert LabelsOf(s, RangeOf(x)) == LabelsOf(p, RangeOf(x)) + x.labels;
      } else {
        assert o[i] == out[i];
        assert RangeOf(out[i]) != RangeOf(x);
        assert LabelsOf(s, RangeOf(o[i])) == LabelsOf(p, RangeOf(o[i])) + [];
        assert LabelsOf(p, RangeOf(o[i])) + [] == LabelsOf(p, RangeOf(o[i]));
        assert out[i].labels == Keys(LabelsOf(p, RangeOf(out[i])));
      }
    }
  }

  /** A range seen before takes the new region's labels it lacks, and keeps its place. */
  lemma AddKnownRange(p: seq<Region>, out: seq<Region>, x: Region, m: nat)
    requires DedupedCorrectly(p, out) && m < |out| && RangeOf(out[m]) == RangeOf(x)
    ensures DedupedCorrectly(p + [x], out[m := out[m].(labels := TakeLabels(out[m].labels, x.labels))])
  {
    var o := out[m := out[m].(labels := TakeLabels(out[m].labels, x.labels))];
    assert Ranges(o) == Ranges(out);
    KnownRangeKeepsRanges(p, out, x, m, o);
    AddKnownLabels(p, out, x, m);
  }

  /** Changing only labels, in place, keeps every range fact when the new region's range is already there. */
  lemma KnownRangeKeepsRanges(p: seq<Region>, out: seq<Region>, x: Region, m: nat, o: seq<Region>)
    requires RangesDeduped(p, out) && m < |out| && RangeOf(out[m]) == RangeOf(x)
    requires |o| == |out| && Ranges(o) == Ranges(out)
    ensures RangesDeduped(p + [x], o)
  {
    var s := p + [x];
    forall i | 0 <= i < |o|
      ensures RangeOf(o[i]) == RangeOf(out[i])
    {
      assert Ranges(o)[i] == Ranges(out)[i];
    }
    forall k | 0 <= k < |s|
      ensures RangeOf(s[k]) in Ranges(o)
    {
      if k < |p| {
        assert s[k] == p[k];
      } else {
        assert Ranges(o)[m] == RangeOf(x);
      }
    }
    forall i | 0 <= i < |o|
      ensures RangeOf(o[i]) in Ranges(s)
    {
      var k :| 0 <= k < |p| && Ranges(p)[k] == RangeOf(out[i]);
      assert Ranges(s)[k] == RangeOf(out[i]);
    }
    forall i, j, k | 0 <= i < j < |o| && 0 <= k < |s| && RangeOf(s[k]) == RangeOf(o[j])
      ensures RangeOf(o[i]) in Ranges(s[..k])
    {
      if k < |p| {
        assert s[k] == p[k];
        assert s[..k] == p[..k];
      } else {
        assert s[..k] == p;
        assert j == m;
        var k' :| 0 <= k' < |p| && Ranges(p)[k'] == RangeOf(out[m]);
        assert RangeOf(out[i]) in Ranges(p[..k']);
        assert Ranges(p[..k']) == Ranges(p)[..k'];
      }
    }
  }

  // ---------------------------------------------------------------------
  // Device address macros: one offset per label, a repeated label is an error
  // ---------------------------------------------------------------------

  /** What set_kernel_offset and get_labelled_addresses yield for one region: the next offset and its (offset, label) pairs. */
  datatype Placement = Placement(next: nat, addresses: seq<(nat, Label)>)

  /** The labelled addresses of all regions, each placed at the offset the previous one left. */
  function PlaceAll(groups: seq<Region>, offset: nat, place: (Region, nat) -> Placement): seq<(nat, Label)>
    decreases |groups|
  {
    if groups == [] then []
    else
      var pl := place(groups[0], offset);
      pl.addresses + PlaceAll(groups[1..], pl.next, place)
  }

  /** kernel_offset after the loop has placed every region. */
  function NextOffset(groups: seq<Region>, offset: nat, place: (Region, nat) -> Placement): nat
    decreases |groups|
  {
    if groups == [] then offset else NextOffset(groups[1..], place(groups[0], offset).next, place)
  }

  /**
   * The offset is threaded through the loop: placing the regions in two runs,
   * the second starting at the offset the first leaves, gives the same
   * addresses and the same final offset as placing them in one run.
   */
  lemma {:induction false} PlaceAllAppend(g1: seq<Region>, g2: seq<Region>, offset: nat, place: (Region, nat) -> Placement)
    ensures PlaceAll(g1 + g2, offset, place) == PlaceAll(g1, offset, place) + PlaceAll(g2, NextOffset(g1, offset, place), place)
    ensures NextOffset(g1 + g2, offset, place) == NextOffset(g2, NextOffset(g1, offset, place), place)
    decreases |g1|
  {
    if g1 == [] {
      assert g1 + g2 == g2;
    } else {
      var pl := place(g1[0], offset);
      assert (g1 + g2)[0] == g1[0] && (g1 + g2)[1..] == g1[1..] + g2;
      PlaceAllAppend(g1[1..], g2, pl.next, place);
    }
  }

  predicate DistinctNames(items: seq<(nat, Label)>)
  {
    forall i, j :: 0 <= i < j < |items| ==> items[i].1 != items[j].1
  }

  /** Dict lookup by macro label. */
  function FindMacro(acc: seq<(Label, nat)>, name: Label): (r: Option<nat>)
    ensures r.Some? ==> r.value < |acc| && acc[r.value].0 == name
    ensures r.None? ==> forall i :: 0 <= i < |acc| ==> acc[i].0 != name
  {
    if acc == [] then None
    else if acc[|acc| - 1].0 == name then Some(|acc| - 1)
    else FindMacro(acc[..|acc| - 1], name)
  }

  /**
   * kernel_dev_addr_macros, built in order. It succeeds exactly when no label
   * repeats, and then keeps every pair; a failure names the first repeated
   * label, with the offset of its earlier occurrence and its own, even when
   * the two offsets are equal.
   */
  function CollectMacros(items: seq<(nat, Label)>): (r: Result<seq<(Label, nat)>, HeaderError>)
    ensures r.Ok? <==> DistinctNames(items)
    ensures r.Ok? ==> IsSwapped(items, r.value)
    ensures r.Err? ==> ReportsRepeat(items, r.error)
  {
    if items == [] then Ok([])
    else
      var p := items[..|items| - 1];
      var x := items[|items| - 1];
      assert items == p + [x];
      var prev := CollectMacros(p);
      if prev.Err? then
        RepeatPersists(p, x, prev.error);
        Err(prev.error)
      else
        var acc := prev.value;
        match FindMacro(acc, x.1)
        case Some(k) =>
          CollectRepeat(p, x, acc, k);
          Err(DuplicateMacro(x.1, acc[k].1, x.0))
        case None =>
          CollectFresh(p, x, acc);
          Ok(acc + [(x.1, x.0)])
  }

  /** The macro table is each (offset, label) pair turned round, in order. */
  predicate IsSwapped(items: seq<(nat, Label)>, acc: seq<(Label, nat)>)
  {
    |acc| == |items| && forall i :: 0 <= i < |items| ==> acc[i] == (items[i].1, items[i].0)
  }

  /**
   * e reports the first repeat of items: position j is the first whose label
   * already occurs before it (the prefix up to j has distinct labels), and e
   * carries that label, the offset of its one earlier occurrence i and j's offset.
   */
  predicate ReportsRepeat(items: seq<(nat, Label)>, e: HeaderError)
  {
    e.DuplicateMacro? &&
    exists i, j :: 0 <= i < j < |items| && DistinctNames(items[..j]) &&
      items[i] == (e.existing, e.name) && items[j] == (e.offset, e.name)
  }

  /** Two positions of a prefix with distinct labels and the same label are the same position. */
  lemma SameLabelInPrefix(items: seq<(nat, Label)>, n: nat, a: nat, b: nat)
    requires n <= |items| && DistinctNames(items[..n]) && a < b < n
    ensures items[a].1 != items[b].1
  {
    assert items[..n][a] == items[a] && items[..n][b] == items[b];
  }

  /** At most one error reports the first repeat: the position, the label and both offsets are fixed by items. */
  lemma ReportedRepeatIsUnique(items: seq<(nat, Label)>, e1: HeaderError, e2: HeaderError)
    requires ReportsRepeat(items, e1) && ReportsRepeat(items, e2)
    ensures e1 == e2
  {
    var i1, j1 :| 0 <= i1 < j1 < |items| && DistinctNames(items[..j1]) &&
      items[i1] == (e1.existing, e1.name) && items[j1] == (e1.offset, e1.name);
    var i2, j2 :| 0 <= i2 < j2 < |items| && DistinctNames(items[..j2]) &&
      items[i2] == (e2.existing, e2.name) && items[j2] == (e2.offset, e2.name);
    if j1 < j2 {
      SameLabelInPrefix(items, j2, i1, j1);
    } else if j2 < j1 {
      SameLabelInPrefix(items, j1, i2, j2);
    } else if i1 < i2 {
      SameLabelInPrefix(items, j1, i1, i2);
    } else if i2 < i1 {
      SameLabelInPrefix(items, j1, i2, i1);
    }
  }

  lemma CollectFresh(p: seq<(nat, Label)>, x: (nat, Label), acc: seq<(Label, nat)>)
    requires DistinctNames(p) && IsSwapped(p, acc) && forall i :: 0 <= i < |acc| ==> acc[i].0 != x.1
    ensures DistinctNames(p + [x]) && IsSwapped(p + [x], acc + [(x.1, x.0)])
  {
    var items := p + [x];
    forall i, j | 0 <= i < j < |items|
      ensures items[i].1 != items[j].1
    {
      if j == |p| {
        assert acc[i].0 == items[i].1;
      } else {
        assert items[i] == p[i] && items[j] == p[j];
      }
    }
  }

  lemma CollectRepeat(p: seq<(nat, Label)>, x: (nat, Label), acc: seq<(Label, nat)>, k: nat)
    requires DistinctNames(p) && IsSwapped(p, acc) && k < |acc| && acc[k].0 == x.1
    ensures !DistinctNames(p + [x])
    ensures ReportsRepeat(p + [x], DuplicateMacro(x.1, acc[k].1, x.0))
  {
    var items := p + [x];
    assert items[k] == (acc[k].1, x.1);
    assert items[|p|] == (x.0, x.1);
    assert items[..|p|] == p;
  }

  lemma RepeatPersists(p: seq<(nat, Label)>, x: (nat, Label), e: HeaderError)
    requires !DistinctNames(p) && ReportsRepeat(p, e)
    ensures !DistinctNames(p + [x]) && ReportsRepeat(p + [x], e)
  {
    var items := p + [x];
    var i, j :| 0 <= i < j < |p| && p[i].1 == p[j].1;
    assert items[i] == p[i] && items[j] == p[j];
    var i', j' :| 0 <= i' < j' < |p| && DistinctNames(p[..j']) && p[i'] == (e.existing, e.name) && p[j'] == (e.offset, e.name);
    assert items[i'] == p[i'] && items[j'] == p[j'];
    assert items[..j'] == p[..j'];
  }

  // ---------------------------------------------------------------------
  // run
  // ---------------------------------------------------------------------

  /** sorted(kernel_irq_dict.values(), key=label). */
  function IrqOrder(): (KernelInterrupt, KernelInterrupt) -> bool
  {
    (a: KernelInterrupt, b: KernelInterrupt) => LexLe(a.name, b.name)
  }

  /** sorted(kernel_dev_addr_macros.items(), key=offset). */
  function MacroOrder(): ((Label, nat), (Label, nat)) -> bool
  {
    (a: (Label, nat), b: (Label, nat)) => a.1 <= b.1
  }

  lemma OrdersAreTotal()
    ensures TotalPreorder(IrqOrder())
    ensures TotalPreorder(MacroOrder())
  {
    forall a: KernelInterrupt, b: KernelInterrupt
      ensures IrqOrder()(a, b) || IrqOrder()(b, a)
    {
      LexLeTotal(a.name, b.name);
    }
    forall a: KernelInterrupt, b: KernelInterrupt, c: KernelInterrupt | IrqOrder()(a, b) && IrqOrder()(b, c)
      ensures IrqOrder()(a, c)
    {
      LexLeTransitive(a.name, b.name, c.name);
    }
  }

  /** The command-line arguments run looks at: whether --header-out was given. */
  datatype Args = Args(headerOut: bool)

  /** What run hands to the template. */
  datatype Header = Header(kernelIrqs: seq<KernelInterrupt>, devAddrMacros: seq<(Label, nat)>,
                           kernelRegions: seq<Region>, kernelPhyBase: nat,
                           physicalMemory: seq<MemRegion>, reservedRegions: seq<MemRegion>)

  /** The kernel's physical base: the first region's base, aligned up when an alignment is configured. */
  function KernelPhyBase(physicalMemory: seq<MemRegion>, align: nat, alignBase: (MemRegion, nat) -> Option<nat>)
    : (r: Result<nat, HeaderError>)
    ensures physicalMemory == [] <==> r == Err(NoPhysicalMemory)
    ensures physicalMemory != [] && align == 0 ==> r == Ok(physicalMemory[0].base)
    ensures physicalMemory != [] && align != 0 ==>
      r == (match alignBase(physicalMemory[0], align) case Some(b) => Ok(b) case None => Err(KernelRegionTooSmall))
  {
    if |physicalMemory| == 0 then Err(NoPhysicalMemory)
    else
      var reg := physicalMemory[0];
      if align == 0 then Ok(reg.base)
      else match alignBase(reg, align)
        case Some(b) => Ok(b)
        case None => Err(KernelRegionTooSmall)
  }

  /**
   * By convention the kernel goes into the first physical-memory region: the
   * regions after it never change the base, its error or the alignment check.
   */
  lemma OnlyFirstRegionDecides(pm: seq<MemRegion>, rest: seq<MemRegion>, align: nat,
                               alignBase: (MemRegion, nat) -> Option<nat>)
    requires pm != []
    ensures KernelPhyBase(pm + rest, align, alignBase) == KernelPhyBase(pm[..1], align, alignBase)
  {
    assert (pm + rest)[0] == pm[0] == pm[..1][0];
  }

  /** run: checks the output argument, picks the kernel base, aggregates the devices and orders the results. */
  function Run(args: Args, physicalMemory: seq<MemRegion>, reservedRegions: seq<MemRegion>, align: nat,
               alignBase: (MemRegion, nat) -> Option<nat>, devices: seq<Device>,
               place: (Region, nat) -> Placement): (r: Result<Header, HeaderError>)
    ensures !args.headerOut ==> r == Err(MissingHeaderOut)
    ensures r.Ok? ==> Ok(r.value.kernelPhyBase) == KernelPhyBase(physicalMemory, align, alignBase)
    ensures r.Ok? ==> r.value.physicalMemory == physicalMemory && r.value.reservedRegions == reservedRegions
    ensures r.Ok? ==> DedupedCorrectly(RegionStream(devices), r.value.kernelRegions)
    ensures args.headerOut && KernelPhyBase(physicalMemory, align, alignBase).Ok? ==>
      (r.Ok? <==> DistinctNames(PlaceAll(DedupRegions(RegionStream(devices)), 0, place)))
  {
    if !args.headerOut then Err(MissingHeaderOut)
    else
      var base :- KernelPhyBase(physicalMemory, align, alignBase);
      var irqs := MergeIrqs(IrqStream(devices));
      var regions := DedupRegions(RegionStream(devices));
      var macros :- CollectMacros(PlaceAll(regions, 0, place));
      Ok(Header(SortBy(irqs, IrqOrder()), SortBy(macros, MacroOrder()), regions, base, physicalMemory, reservedRegions))
  }

  /**
   * The interrupts run emits are sorted by label with no label twice, every
   * label of the device interrupts appears, and each is its label's winner.
   */
  lemma RunEmitsWinnersByLabel(args: Args, physicalMemory: seq<MemRegion>, reservedRegions: seq<MemRegion>, align: nat,
                               alignBase: (MemRegion, nat) -> Option<nat>, devices: seq<Device>,
                               place: (Region, nat) -> Placement)
    requires Run(args, physicalMemory, reservedRegions, align, alignBase, devices, place).Ok?
    ensures var h := Run(args, physicalMemory, reservedRegions, align, alignBase, devices, place).value;
      var s := IrqStream(devices);
      && Sorted(h.kernelIrqs, IrqOrder())
      && DistinctLabels(h.kernelIrqs)
      && (forall k :: 0 <= k < |s| ==> s[k].name in Labels(h.kernelIrqs))
      && EntriesAreWinners(s, h.kernelIrqs)
  {
    var h := Run(args, physicalMemory, reservedRegions, align, alignBase, devices, place).value;
    var s := IrqStream(devices);
    var d := MergeIrqs(s);
    OrdersAreTotal();
    SortBySorted(d, IrqOrder());
    assert h.kernelIrqs == SortBy(d, IrqOrder());
    PermutationKeepsMerge(s, d, h.kernelIrqs);
  }

  /** Reordering the merged entries keeps every merge fact. */
  lemma PermutationKeepsMerge(s: seq<KernelInterrupt>, d: seq<KernelInterrupt>, o: seq<KernelInterrupt>)
    requires MergedCorrectly(s, d) && multiset(o) == multiset(d)
    ensures MergedCorrectly(s, o)
  {
    PermutationKeepsDistinct(d, o);
    PermutationKeepsLabels(s, d, o);
    PermutationKeepsWinners(s, d, o);
  }

  lemma SameElements(d: seq<KernelInterrupt>, o: seq<KernelInterrupt>)
    requires multiset(o) == multiset(d)
    ensures forall x :: x in o <==> x in d
  {
    forall x
      ensures x in o <==> x in d
    {
      assert x in o <==> x in multiset(o);
      assert x in d <==> x in multiset(d);
    }
  }

  lemma PermutationKeepsDistinct(d: seq<KernelInterrupt>, o: seq<KernelInterrupt>)
    requires DistinctLabels(d) && multiset(o) == multiset(d)
    ensures DistinctLabels(o)
  {
    SameElements(d, o);
    forall i, j | 0 <= i < j < |o|
      ensures o[i].name != o[j].name
    {
      assert o[i] in d && o[j] in d;
      var a :| 0 <= a < |d| && d[a] == o[i];
      var b :| 0 <= b < |d| && d[b] == o[j];
      if a == b {
        MultisetCountTwice(o, i, j);
        MultisetCountOnce(d, a);
      }
    }
  }

  lemma PermutationKeepsLabels(s: seq<KernelInterrupt>, d: seq<KernelInterrupt>, o: seq<KernelInterrupt>)
    requires (forall k :: 0 <= k < |s| ==> s[k].name in Labels(d)) && multiset(o) == multiset(d)
    ensures forall k :: 0 <= k < |s| ==> s[k].name in Labels(o)
  {
    SameElements(d, o);
    forall k | 0 <= k < |s|
      ensures s[k].name in Labels(o)
    {
      var a :| 0 <= a < |d| && Labels(d)[a] == s[k].name;
      assert d[a] in o;
      var b :| 0 <= b < |o| && o[b] == d[a];
      assert Labels(o)[b] == s[k].name;
    }
  }

  lemma PermutationKeepsWinners(s: seq<KernelInterrupt>, d: seq<KernelInterrupt>, o: seq<KernelInterrupt>)
    requires EntriesAreWinners(s, d) && multiset(o) == multiset(d)
    ensures EntriesAreWinners(s, o)
  {
    SameElements(d, o);
    forall i | 0 <= i < |o|
      ensures HasWinner(s, o[i])
    {
      assert o[i] in d;
      var a :| 0 <= a < |d| && d[a] == o[i];
      assert HasWinner(s, d[a]);
    }
  }

  /** In a sequence with distinct labels every element occurs once. */
  lemma {:induction false} MultisetCountOnce(d: seq<KernelInterrupt>, a: int)
    requires DistinctLabels(d) && 0 <= a < |d|
    ensures multiset(d)[d[a]] == 1
  {
    var x := d[a];
    assert d == d[..a] + [x] + d[a + 1..];
    assert x !in d[..a] && x !in d[a + 1..] by {
      forall k | 0 <= k < |d| && k != a
        ensures d[k] != x
      {
        if k < a {
          assert d[k].name != d[a].name;
        } else {
          assert d[a].name != d[k].name;
        }
      }
    }
  }

  /** An element at two positions occurs twice in the multiset, so a sequence with distinct labels cannot hold it twice. */
  lemma MultisetCountTwice(o: seq<KernelInterrupt>, i: int, j: int)
    requires 0 <= i < j < |o| && o[i] == o[j]
    ensures multiset(o)[o[i]] >= 2
  {
    var x := o[i];
    assert o == o[..i] + [x] + o[i + 1..j] + [x] + o[j + 1..];
  }

  /** The device address macros run emits are sorted by offset and are exactly the placed labels, turned round. */
  lemma RunEmitsMacrosByOffset(args: Args, physicalMemory: seq<MemRegion>, reservedRegions: seq<MemRegion>, align: nat,
                               alignBase: (MemRegion, nat) -> Option<nat>, devices: seq<Device>,
                               place: (Region, nat) -> Placement)
    requires Run(args, physicalMemory, reservedRegions, align, alignBase, devices, place).Ok?
    ensures var h := Run(args, physicalMemory, reservedRegions, align, alignBase, devices, place).value;
      var items := PlaceAll(DedupRegions(RegionStream(devices)), 0, place);
      && Sorted(h.devAddrMacros, MacroOrder())
      && |h.devAddrMacros| == |items|
      && (forall i :: 0 <= i < |items| ==> (items[i].1, items[i].0) in h.devAddrMacros)
  {
    var items := PlaceAll(DedupRegions(RegionStream(devices)), 0, place);
    OrdersAreTotal();
    var macros := CollectMacros(items).value;
    SortBySorted(macros, MacroOrder());
    var o := SortBy(macros, MacroOrder());
    forall i | 0 <= i < |items|
      ensures (items[i].1, items[i].0) in o
    {
      assert macros[i] in multiset(macros);
    }
  }
}
