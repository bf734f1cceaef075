/** Which atoms of a frame and which frames of a trajectory are read
    (src/selection.rs). Each selection answers, for an index, `Some(true)`
    (read it), `Some(false)` (skip it) or `None` (the index is beyond the
    selection, and so is every later one). A frame `Range` can also be
    applied directly to a sequence of items. */
module Selection {
  import opened Bits
  import opened Errors

  const U64_LIMIT: nat := 0x1_0000_0000_0000_0000

  type U64 = x: int | 0 <= x < U64_LIMIT

  /** `NonZeroU64` */
  type Step = x: int | 0 < x < U64_LIMIT witness 1

  datatype AtomSelection =
    | All
    | IndexList(indices: seq<U32>)
    | Mask(mask: seq<bool>)
    | Until(until: U32)

  /** `AtomSelection::is_included`. The index is cast to a `u32` first,
      which keeps its low 32 bits. */
  function AtomIncluded(sel: AtomSelection, idx: U64): (r: Option<bool>)
    ensures sel.All? ==> r == Some(true)
    ensures r == Some(false) ==> sel.IndexList? || sel.Mask?
    ensures sel.IndexList? && r.Some? ==> (r.value <==> idx % U32_LIMIT in sel.indices)
    ensures sel.Mask? && r.Some? ==> idx % U32_LIMIT < |sel.mask| && r.value == sel.mask[idx % U32_LIMIT]
    ensures sel.IndexList? ==>
      (r.None? <==> |sel.indices| == 0 || sel.indices[|sel.indices| - 1] <= idx % U32_LIMIT)
    ensures sel.Mask? ==> (r.Some? <==> idx % U32_LIMIT < |sel.mask|)
    ensures sel.Until? ==> (r.Some? <==> idx % U32_LIMIT <= sel.until) && r != Some(false)
  {
    var i := idx % U32_LIMIT;
    match sel
    case All => Some(true)
    case IndexList(indices) =>
      if |indices| == 0 || indices[|indices| - 1] <= i then None
      else Some(i in indices)
    case Mask(mask) => if i < |mask| then Some(mask[i]) else None
    case Until(until) => if i <= until then Some(true) else None
  }

  /** A frame range: `start`, an optional `end` and a non-zero `step`. */
  datatype Range = Range(start: U64, end: Option<U64>, step: Step)

  /** `Range::default()` */
  function RangeDefault(): (r: Range)
    ensures r.start == 0 && r.end == None && r.step == 1
  {
    Range.Range(0, None, 1)
  }

  /** `Range::new`: the given `end`, and the given `start` and `step` where
      present, the default ones otherwise. */
  function RangeNew(start: Option<U64>, end: Option<U64>, step: Option<Step>): (r: Range)
    ensures r.end == end
    ensures r.start == (if start.Some? then start.value else RangeDefault().start)
    ensures r.step == (if step.Some? then step.value else RangeDefault().step)
    ensures start == None && end == None && step == None ==> r == RangeDefault()
  {
    var sel := RangeDefault().(end := end);
    var sel := if start.Some? then sel.(start := start.value) else sel;
    if step.Some? then sel.(step := step.value) else sel
  }

  /** `Iterator::step_by(k)`: the first item, then every `k`-th one. */
  function StepBy<T>(s: seq<T>, k: Step): (t: seq<T>)
    ensures |t| <= |s|
    ensures s != [] ==> t != [] && t[0] == s[0]
    decreases |s|
  {
    if s == [] then [] else [s[0]] + StepBy(s[Min(k, |s|)..], k)
  }

  function Min(a: int, b: int): int
  {
    if a <= b then a else b
  }

  /** The number of items `Range::apply` keeps: all the indices from
      `start` below `end` (or the length), one in every `step`. */
  function RangeCount(r: Range, len: nat): nat
  {
    var stop := if r.end.Some? then Min(r.end.value, len) else len;
    if stop <= r.start then 0 else (stop - r.start + r.step - 1) / r.step
  }

  /** `Range::apply` on a sequence: `take(end)`, `skip(start)`,
      `step_by(step)`, where a missing `end` is the length. */
  function Apply<T>(r: Range, s: seq<T>): (t: seq<T>)
    ensures |t| <= |s|
    ensures r.start >= |s| ==> t == []
  {
    var end := if r.end.Some? then r.end.value else |s|;
    var taken := s[..Min(end, |s|)];
    var skipped := if r.start >= |taken| then [] else taken[r.start..];
    StepBy(skipped, r.step)
  }

  lemma StepSplit(n: nat, k: Step)
    requires k < n
    ensures (n - k + k - 1) / k + 1 == (n + k - 1) / k
  {
    var q, m := (n - 1) / k, (n - 1) % k;
    DivModUnique(n - 1, k, q, m);
    DivModUnique(n + k - 1, k, q + 1, m);
  }

  lemma StepLater<T>(s: seq<T>, rest: seq<T>, k: Step, j: nat, x: T)
    requires k < |s| && rest == s[k..] && 1 <= j
    requires (j - 1) * k < |rest| && x == rest[(j - 1) * k]
    ensures j * k < |s| && x == s[j * k]
  {
    assert (j - 1) * k + k == j * k;
  }

  /** `step_by(k)` yields items `0, k, 2k, ...` of the sequence, and none
      other: `ceil(|s| / k)` of them. */
  lemma {:induction false} StepBySpec<T>(s: seq<T>, k: Step)
    ensures |StepBy(s, k)| == (|s| + k - 1) / k
    ensures forall j :: 0 <= j < |StepBy(s, k)| ==> j * k < |s| && StepBy(s, k)[j] == s[j * k]
    decreases |s|
  {
    if s != [] {
      var rest := s[Min(k, |s|)..];
      StepBySpec(rest, k);
      if k < |s| {
        StepSplit(|s|, k);
        forall j | 1 <= j < |StepBy(s, k)|
          ensures j * k < |s| && StepBy(s, k)[j] == s[j * k]
        {
          StepLater(s, rest, k, j, StepBy(rest, k)[j - 1]);
        }
      } else {
        DivModUnique(|s| + k - 1, k, 1, |s| - 1);
      }
    }
  }

  /** Over a sequence, `Range::apply` keeps exactly `RangeCount` items, in
      order: item `k` of the result is item `start + k * step` of the
      sequence, and all those indices lie below `end` and the length. */
  lemma ApplySpec<T>(r: Range, s: seq<T>)
    ensures |Apply(r, s)| == RangeCount(r, |s|)
    ensures forall k :: 0 <= k < |Apply(r, s)| ==>
      && r.start + k * r.step < |s|
      && (r.end.Some? ==> r.start + k * r.step < r.end.value)
      && Apply(r, s)[k] == s[r.start + k * r.step]
  {
    var end := if r.end.Some? then r.end.value else |s|;
    var taken := s[..Min(end, |s|)];
    var skipped := if r.start >= |taken| then [] else taken[r.start..];
    StepBySpec(skipped, r.step);
  }

  /** The default range keeps every item. */
  lemma ApplyDefault<T>(s: seq<T>)
    ensures Apply(RangeDefault(), s) == s
  {
    ApplySpec(RangeDefault(), s);
    assert forall k :: 0 <= k < |s| ==> k * 1 == k;
  }

  /** The frame counts the repository's selection tests expect from a
      trajectory of 1001 frames. */
  lemma TestFrameCounts<T>(frames: seq<T>)
    requires |frames| == 1001
    ensures |Apply(RangeNew(None, None, None), frames)| == 1001
    ensures |Apply(RangeNew(None, None, Some(2)), frames)| == 501
    ensures |Apply(RangeNew(None, None, Some(2000)), frames)| == 1
    ensures |Apply(RangeNew(Some(981), None, None), frames)| == 20
    ensures |Apply(RangeNew(Some(981), None, Some(3)), frames)| == 7
    ensures |Apply(RangeNew(Some(500), Some(750), None), frames)| == 250
    ensures |Apply(RangeNew(Some(500), Some(750), Some(5)), frames)| == 50
  {
    ApplySpec(RangeNew(None, None, None), frames);
    ApplySpec(RangeNew(None, None, Some(2)), frames);
    ApplySpec(RangeNew(None, None, Some(2000)), frames);
    ApplySpec(RangeNew(Some(981), None, None), frames);
    ApplySpec(RangeNew(Some(981), None, Some(3)), frames);
    ApplySpec(RangeNew(Some(500), Some(750), None), frames);
    ApplySpec(RangeNew(Some(500), Some(750), Some(5)), frames);
  }

  /** `Range::is_included`. The sum `idx + start` is a `u64`; an overflow
      there is outside the model. */
  function RangeIncluded(r: Range, idx: U64): (inc: Option<bool>)
    requires idx + r.start < U64_LIMIT
    ensures inc == None <==> r.end.Some? && r.end.value < idx
    ensures idx <= r.start ==> inc != Some(true)
    ensures inc == Some(true) ==> (idx + r.start) % r.step == 0
    ensures inc.Some? ==> (inc.value <==> r.start < idx && (idx + r.start) % r.step == 0)
  {
    if r.end.Some? && r.end.value < idx then None
    else Some(r.start < idx && (idx + r.start) % r.step == 0)
  }

  /** `is_included` and `apply` disagree at both ends of a range: `apply`
      keeps item `start` and stops below `end`, while `is_included` answers
      `Some(false)` at `start` and still answers (not `None`) at `end`. */
  lemma IncludedDiffersFromApply<T>(r: Range, s: seq<T>)
    requires r.start + r.start < U64_LIMIT
    ensures (r.end.Some? ==> r.start <= r.end.value) ==> RangeIncluded(r, r.start) == Some(false)
    ensures r.start < RangeStop(r, |s|) ==> |Apply(r, s)| > 0 && Apply(r, s)[0] == s[r.start]
    ensures r.end.Some? && r.end.value + r.start < U64_LIMIT ==>
      RangeIncluded(r, r.end.value).Some? && (r.end.value - r.start) !in ApplyOffsets(r, |s|)
  {
    ApplySpec(r, s);
    if r.start < RangeStop(r, |s|) {
      assert (RangeStop(r, |s|) - r.start + r.step - 1) / r.step >= 1;
    }
    if r.end.Some? && r.end.value + r.start < U64_LIMIT {
      OffsetsBelow(r, |s|);
    }
  }

  /** The end of what `apply` keeps: `end` or the length, whichever is less. */
  function RangeStop(r: Range, len: nat): nat
  {
    if r.end.Some? then Min(r.end.value, len) else len
  }

  /** The distances from `start` of the items `apply` keeps. */
  function ApplyOffsets(r: Range, len: nat): set<int>
  {
    set k | 0 <= k < RangeCount(r, len) :: k * r.step
  }

  lemma OffsetsBelow(r: Range, len: nat)
    ensures forall d :: d in ApplyOffsets(r, len) ==> r.start + d < RangeStop(r, len)
  {
    forall d | d in ApplyOffsets(r, len)
      ensures r.start + d < RangeStop(r, len)
    {
      var k :| 0 <= k < RangeCount(r, len) && d == k * r.step;
      var stop := RangeStop(r, len);
      var n := stop - r.start;
      assert n > 0;
      var q := (n + r.step - 1) / r.step;
      assert k + 1 <= q;
      assert q * r.step <= n + r.step - 1;
      assert (k + 1) * r.step <= q * r.step by {
        MulMono(r.step, k + 1, q);
      }
      assert k * r.step + r.step == (k + 1) * r.step;
    }
  }

  datatype FrameSelection =
    | All
    | Range(range: Range)
    | FrameList(indices: seq<U64>)

  /** `FrameSelection::is_included`. */
  function FrameIncluded(sel: FrameSelection, idx: U64): (inc: Option<bool>)
    requires sel.Range? ==> idx + sel.range.start < U64_LIMIT
    ensures sel.All? ==> inc == Some(true)
    ensures inc == Some(false) ==> !sel.All?
    ensures sel.FrameList? && inc.Some? ==> (inc.value <==> idx in sel.indices)
    ensures sel.FrameList? ==>
      (inc.None? <==> |sel.indices| == 0 || sel.indices[|sel.indices| - 1] <= idx)
    ensures sel.Range? ==> inc == RangeIncluded(sel.range, idx)
  {
    match sel
    case All => Some(true)
    case Range(range) => RangeIncluded(range, idx)
    case FrameList(indices) =>
      if |indices| == 0 || indices[|indices| - 1] <= idx then None
      else Some(idx in indices)
  }

  /** Once an atom index is beyond the selection, so is every later one
      (among the indices a `u32` can hold). */
  lemma AtomNoneStays(sel: AtomSelection, i: U64, j: U64)
    requires i <= j < U32_LIMIT && AtomIncluded(sel, i) == None
    ensures AtomIncluded(sel, j) == None
  {
  }

  /** Once a frame index is beyond the selection, so is every later one. */
  lemma FrameNoneStays(sel: FrameSelection, i: U64, j: U64)
    requires sel.Range? ==> j + sel.range.start < U64_LIMIT
    requires i <= j && FrameIncluded(sel, i) == None
    ensures FrameIncluded(sel, j) == None
  {
  }

  /** The atom indices below `n` that `sel` includes, in order. */
  function AtomsChosen(sel: AtomSelection, n: nat): (c: seq<nat>)
    requires n <= U32_LIMIT
    ensures forall k :: 0 <= k < |c| ==> c[k] < n
  {
    if n == 0 then []
    else AtomsChosen(sel, n - 1) + (if AtomIncluded(sel, n - 1) == Some(true) then [n - 1] else [])
  }

  /** `Until(u)` includes exactly the atoms `0..=u`: `u + 1` atoms, one more
      than its doc comment's "a value of 8 will mean that a total of 8 atoms
      are read". */
  lemma {:induction false} UntilChosen(u: U32, n: nat)
    requires n <= U32_LIMIT
    ensures |AtomsChosen(Until(u), n)| == Min(n, u + 1)
    ensures forall k :: 0 <= k < |AtomsChosen(Until(u), n)| ==> AtomsChosen(Until(u), n)[k] == k
  {
    if n > 0 {
      UntilChosen(u, n - 1);
    }
  }

  /** A mask includes exactly its `true` positions. */
  lemma {:induction false} MaskChosen(mask: seq<bool>, n: nat)
    requires n <= |mask| && |mask| <= U32_LIMIT
    ensures forall i :: 0 <= i < n ==> (i in AtomsChosen(Mask(mask), n) <==> mask[i])
  {
    if n > 0 {
      MaskChosen(mask, n - 1);
    }
  }

  /** A frame list never includes its own last index: there it answers
      `None`, and so at every later index. */
  lemma FrameListDropsLast(indices: seq<U64>)
    requires |indices| > 0
    ensures FrameIncluded(FrameSelection.FrameList(indices), indices[|indices| - 1]) == None
  {
  }

  /** The same holds for an atom index list. */
  lemma IndexListDropsLast(indices: seq<U32>)
    requires |indices| > 0
    ensures AtomIncluded(IndexList(indices), indices[|indices| - 1]) == None
  {
  }
}
