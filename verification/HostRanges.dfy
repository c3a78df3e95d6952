/** Host numbers and the ranges they coalesce into (`spur_core::hostlist`). */
module HostRanges {
  import opened Text
  import opened Padding

  /** A host number and the width it was written at. */
  datatype Num = Num(value: nat, width: nat) {
    function Text(): string {
      Pad(value, width)
    }
  }

  /** The numbers `lo..=hi` at one width. */
  datatype Range = Range(lo: nat, hi: nat, width: nat)

  /** `n` at `wn` and `m` at `wm` may share a range of the returned width. */
  function WidthEquiv(n: nat, wn: nat, m: nat, wm: nat): Option<nat> {
    if wn == wm then Some(wn)
    else
      var nDiffers := ZeroPadded(n, wn) != ZeroPadded(n, wm);
      var mDiffers := ZeroPadded(m, wm) != ZeroPadded(m, wn);
      if nDiffers && mDiffers then None else if nDiffers then Some(wn) else Some(wm)
  }

  // ----- what numbers and ranges print as

  function NumTexts(nums: seq<Num>): (texts: seq<string>)
    ensures |texts| == |nums|
    ensures forall k :: 0 <= k < |nums| ==> texts[k] == nums[k].Text()
  {
    seq(|nums|, k requires 0 <= k < |nums| => nums[k].Text())
  }

  /** Empty when `lo > hi`. */
  function Span(lo: nat, hi: nat, width: nat): seq<string>
    decreases hi + 1 - lo
  {
    if lo > hi then [] else [Pad(lo, width)] + Span(lo + 1, hi, width)
  }

  function RangeTexts(r: Range): seq<string> {
    Span(r.lo, r.hi, r.width)
  }

  function Flatten(ranges: seq<Range>): seq<string> {
    if ranges == [] then [] else Flatten(ranges[..|ranges| - 1]) + RangeTexts(ranges[|ranges| - 1])
  }

  predicate Distinct(texts: seq<string>) {
    forall i, j :: 0 <= i < j < |texts| ==> texts[i] != texts[j]
  }

  lemma {:induction false} SpanSnoc(lo: nat, hi: nat, width: nat)
    requires lo <= hi + 1
    ensures Span(lo, hi + 1, width) == Span(lo, hi, width) + [Pad(hi + 1, width)]
    decreases hi + 1 - lo
  {
    if lo <= hi {
      SpanSnoc(lo + 1, hi, width);
    } else {
      assert Span(lo + 1, hi + 1, width) == [];
    }
  }

  lemma {:induction false} SpanLength(lo: nat, hi: nat, width: nat)
    requires lo <= hi + 1
    ensures |Span(lo, hi, width)| == hi + 1 - lo
    decreases hi + 1 - lo
  {
    if lo <= hi {
      SpanLength(lo + 1, hi, width);
    }
  }

  lemma {:induction false} SpanAtWidth(lo: nat, hi: nat, v: nat, w: nat)
    requires forall i :: lo <= i <= hi ==> ZeroPadded(i, v) == ZeroPadded(i, w)
    ensures Span(lo, hi, v) == Span(lo, hi, w)
    decreases hi + 1 - lo
  {
    if lo <= hi {
      SpanAtWidth(lo + 1, hi, v, w);
    }
  }

  /** Two widths that pad a number alike pad every larger number alike. */
  lemma PaddedAlike(lo: nat, i: nat, v: nat, w: nat)
    requires lo <= i && ZeroPadded(lo, v) == ZeroPadded(lo, w)
    ensures ZeroPadded(i, v) == ZeroPadded(i, w)
  {
    DigitsGrow(lo, i);
  }

  /** A number that continues a range, when the widths agree, prints as one more of it. */
  lemma ExtendRange(r: Range, num: Num)
    requires r.lo <= r.hi && num.value == r.hi + 1
    requires WidthEquiv(r.lo, r.width, num.value, num.width).Some?
    ensures var width := WidthEquiv(r.lo, r.width, num.value, num.width).value;
            RangeTexts(Range(r.lo, num.value, width)) == RangeTexts(r) + [num.Text()]
  {
    var width := WidthEquiv(r.lo, r.width, num.value, num.width).value;
    SpanSnoc(r.lo, r.hi, width);
    if ZeroPadded(r.lo, r.width) == ZeroPadded(r.lo, num.width) {
      forall i | r.lo <= i <= num.value ensures ZeroPadded(i, r.width) == ZeroPadded(i, num.width) {
        PaddedAlike(r.lo, i, r.width, num.width);
      }
      SpanAtWidth(r.lo, r.hi, r.width, num.width);
    }
  }

  lemma {:induction false} SpanLast(lo: nat, hi: nat, width: nat)
    requires lo <= hi
    ensures Span(lo, hi, width) != [] && Span(lo, hi, width)[|Span(lo, hi, width)| - 1] == Pad(hi, width)
    decreases hi - lo
  {
    if lo < hi {
      SpanLast(lo + 1, hi, width);
    }
  }

  predicate WellFormed(ranges: seq<Range>) {
    forall i :: 0 <= i < |ranges| ==> ranges[i].lo <= ranges[i].hi
  }

  lemma FlattenSnoc(ranges: seq<Range>, r: Range)
    ensures Flatten(ranges + [r]) == Flatten(ranges) + RangeTexts(r)
  {
    assert (ranges + [r])[..|ranges|] == ranges;
  }

  lemma SpanOne(n: nat, width: nat)
    ensures Span(n, n, width) == [Pad(n, width)]
  {
    assert Span(n + 1, n, width) == [];
  }

  /** A range of one number. */
  function Alone(num: Num): Range {
    Range(num.value, num.value, num.width)
  }

  /** One step of `coalesce_ranges` on the ranges so far. */
  function Coalesce(ranges: seq<Range>, num: Num): seq<Range> {
    if ranges == [] then [Alone(num)]
    else
      var last, init := ranges[|ranges| - 1], ranges[..|ranges| - 1];
      var combined := WidthEquiv(last.lo, last.width, num.value, num.width);
      if num.value == last.hi && num.width == last.width then ranges
      else if last.hi + 1 == num.value && combined.Some? then init + [Range(last.lo, num.value, combined.value)]
      else ranges + [Alone(num)]
  }

  lemma FlattenLast(ranges: seq<Range>)
    requires ranges != [] && WellFormed(ranges)
    ensures var last := ranges[|ranges| - 1];
            Flatten(ranges) != [] && Flatten(ranges)[|Flatten(ranges)| - 1] == Pad(last.hi, last.width)
  {
    var last := ranges[|ranges| - 1];
    SpanLast(last.lo, last.hi, last.width);
  }

  lemma CoalesceAlone(ranges: seq<Range>, num: Num)
    ensures Flatten(ranges + [Alone(num)]) == Flatten(ranges) + [num.Text()]
  {
    SpanOne(num.value, num.width);
    FlattenSnoc(ranges, Alone(num));
  }

  lemma CoalesceLast(init: seq<Range>, last: Range, num: Num)
    requires last.lo <= last.hi && num.value == last.hi + 1
    requires WidthEquiv(last.lo, last.width, num.value, num.width).Some?
    ensures var width := WidthEquiv(last.lo, last.width, num.value, num.width).value;
            Flatten(init + [Range(last.lo, num.value, width)]) == Flatten(init + [last]) + [num.Text()]
  {
    var width := WidthEquiv(last.lo, last.width, num.value, num.width).value;
    var longer := Range(last.lo, num.value, width);
    ExtendRange(last, num);
    FlattenSnoc(init, last);
    FlattenSnoc(init, longer);
    assert Flatten(init) + (RangeTexts(last) + [num.Text()]) == Flatten(init) + RangeTexts(last) + [num.Text()];
  }

  lemma CoalesceIsWellFormed(ranges: seq<Range>, num: Num)
    requires WellFormed(ranges)
    ensures WellFormed(Coalesce(ranges, num)) && Coalesce(ranges, num) != []
  {}

  lemma CoalesceStep(ranges: seq<Range>, num: Num)
    requires WellFormed(ranges)
    requires ranges != [] && Flatten(ranges) != [] ==> Flatten(ranges)[|Flatten(ranges)| - 1] != num.Text()
    ensures Flatten(Coalesce(ranges, num)) == Flatten(ranges) + [num.Text()]
  {
    CoalesceAlone(ranges, num);
    if ranges == [] {
      assert [Alone(num)] == ranges + [Alone(num)];
    } else {
      FlattenLast(ranges);
      var last, init := ranges[|ranges| - 1], ranges[..|ranges| - 1];
      assert init + [last] == ranges;
      if last.hi + 1 == num.value && WidthEquiv(last.lo, last.width, num.value, num.width).Some? {
        CoalesceLast(init, last, num);
      }
    }
  }

  /** `coalesce_ranges`: numbers that print differently coalesce into ranges that print
      exactly those numbers, in the same order, and no two neighbouring ranges could be one. */
  method CoalesceRanges(nums: seq<Num>) returns (ranges: seq<Range>)
    ensures WellFormed(ranges) && Tight(ranges) && (nums != [] ==> ranges != [])
    ensures Distinct(NumTexts(nums)) ==> Flatten(ranges) == NumTexts(nums)
    ensures ranges == Coalesced(nums)
  {
    ranges := [];
    for i := 0 to |nums|
      invariant ranges == Coalesced(nums[..i])
    {
      assert nums[..i + 1][..i] == nums[..i];
      var num := nums[i];
      if ranges != [] {
        var last := ranges[|ranges| - 1];
        if num.value == last.hi && num.width == last.width {
          continue;
        }
        if last.hi + 1 == num.value {
          var combined := WidthEquiv(last.lo, last.width, num.value, num.width);
          if combined.Some? {
            ranges := ranges[..|ranges| - 1] + [Range(last.lo, num.value, combined.value)];
            continue;
          }
        }
      }
      ranges := ranges + [Alone(num)];
    }
    assert nums[..|nums|] == nums;
    CoalescedIsTight(nums);
    if Distinct(NumTexts(nums)) {
      CoalescedIsExact(nums);
    }
  }

  // ----- ranges that could be one are one

  lemma {:induction false} SpanAt(lo: nat, hi: nat, width: nat, k: nat)
    requires lo + k <= hi
    ensures k < |Span(lo, hi, width)| && Span(lo, hi, width)[k] == Pad(lo + k, width)
    decreases k
  {
    if k > 0 {
      SpanAt(lo + 1, hi, width, k - 1);
    }
  }

  /** Some width prints `n` as at `wn` and `m` as at `wm`. */
  ghost predicate Share(n: nat, wn: nat, m: nat, wm: nat) {
    exists w: nat :: ZeroPadded(n, w) == ZeroPadded(n, wn) && ZeroPadded(m, w) == ZeroPadded(m, wm)
  }

  /** A width is found exactly when there is one. */
  lemma WidthEquivIsExact(n: nat, wn: nat, m: nat, wm: nat)
    requires n <= m
    ensures WidthEquiv(n, wn, m, wm).Some? <==> Share(n, wn, m, wm)
    ensures WidthEquiv(n, wn, m, wm).Some? ==>
              var w := WidthEquiv(n, wn, m, wm).value;
              ZeroPadded(n, w) == ZeroPadded(n, wn) && ZeroPadded(m, w) == ZeroPadded(m, wm)
  {
    DigitsGrow(n, m);
  }

  /** The second range begins where the first ends, and one width prints both. */
  ghost predicate Joins(a: Range, b: Range) {
    b.lo == a.hi + 1 && Share(a.lo, a.width, b.lo, b.width)
  }

  ghost predicate Tight(ranges: seq<Range>) {
    forall i :: 0 <= i < |ranges| - 1 ==> !Joins(ranges[i], ranges[i + 1])
  }

  lemma PadsAlike(m: nat, v: nat, n: nat, w: nat)
    requires Pad(m, v) == Pad(n, w)
    ensures m == n && ZeroPadded(m, v) == ZeroPadded(n, w)
  {
    NumeralOfPad(m, v);
    NumeralOfPad(n, w);
    ZerosAreDigits(ZeroPadded(m, v));
    ZerosAreDigits(ZeroPadded(n, w));
  }

  /** Ranges that print together as one join. */
  lemma OneRangeJoins(a: Range, b: Range, r: Range)
    requires a.lo <= a.hi && b.lo <= b.hi && RangeTexts(r) == RangeTexts(a) + RangeTexts(b)
    ensures Joins(a, b)
  {
    var n := a.hi + 1 - a.lo;
    SpanLength(a.lo, a.hi, a.width);
    SpanLength(b.lo, b.hi, b.width);
    if r.lo <= r.hi {
      SpanLength(r.lo, r.hi, r.width);
    }
    SpanAt(r.lo, r.hi, r.width, 0);
    SpanAt(r.lo, r.hi, r.width, n);
    SpanAt(a.lo, a.hi, a.width, 0);
    SpanAt(b.lo, b.hi, b.width, 0);
    PadsAlike(r.lo, r.width, a.lo, a.width);
    PadsAlike(r.lo + n, r.width, b.lo, b.width);
  }

  lemma CoalesceIsTight(ranges: seq<Range>, num: Num)
    requires WellFormed(ranges) && Tight(ranges)
    ensures Tight(Coalesce(ranges, num))
  {
    if ranges != [] {
      var last := ranges[|ranges| - 1];
      if last.lo <= num.value {
        WidthEquivIsExact(last.lo, last.width, num.value, num.width);
      }
    }
  }

  /** No two neighbouring ranges could have been printed as one. */
  lemma {:induction false} CoalescedIsTight(nums: seq<Num>)
    ensures WellFormed(Coalesced(nums)) && Tight(Coalesced(nums))
  {
    if nums != [] {
      CoalescedIsTight(nums[..|nums| - 1]);
      CoalesceIsTight(Coalesced(nums[..|nums| - 1]), nums[|nums| - 1]);
    }
  }

  lemma NeighboursStayApart(nums: seq<Num>, i: nat, r: Range)
    requires i + 1 < |Coalesced(nums)|
    ensures RangeTexts(r) != RangeTexts(Coalesced(nums)[i]) + RangeTexts(Coalesced(nums)[i + 1])
  {
    CoalescedIsTight(nums);
    if RangeTexts(r) == RangeTexts(Coalesced(nums)[i]) + RangeTexts(Coalesced(nums)[i + 1]) {
      OneRangeJoins(Coalesced(nums)[i], Coalesced(nums)[i + 1], r);
    }
  }

  function Coalesced(nums: seq<Num>): seq<Range> {
    if nums == [] then [] else Coalesce(Coalesced(nums[..|nums| - 1]), nums[|nums| - 1])
  }

  lemma NumTextsSnoc(nums: seq<Num>)
    requires nums != []
    ensures var n := |nums| - 1; NumTexts(nums) == NumTexts(nums[..n]) + [nums[n].Text()]
  {}

  lemma DistinctInit(texts: seq<string>, text: string)
    requires Distinct(texts + [text])
    ensures Distinct(texts) && (texts != [] ==> texts[|texts| - 1] != text)
  {
    var all := texts + [text];
    forall i, j | 0 <= i < j < |texts| ensures texts[i] != texts[j] {
      assert all[i] != all[j];
    }
    assert texts != [] ==> all[|texts| - 1] != all[|texts|];
  }

  lemma {:induction false} CoalescedIsExact(nums: seq<Num>)
    requires Distinct(NumTexts(nums))
    ensures WellFormed(Coalesced(nums)) && (nums != [] ==> Coalesced(nums) != [])
    ensures Flatten(Coalesced(nums)) == NumTexts(nums)
  {
    if nums != [] {
      var n := |nums| - 1;
      NumTextsSnoc(nums);
      DistinctInit(NumTexts(nums[..n]), nums[n].Text());
      CoalescedIsExact(nums[..n]);
      CoalesceIsWellFormed(Coalesced(nums[..n]), nums[n]);
      CoalesceStep(Coalesced(nums[..n]), nums[n]);
    }
  }
}
