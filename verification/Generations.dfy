/**
 Placement of table generations in logical pages.  A mapping segment is sixteen pages wide;
 a generation may be retired segment by segment only if no segment holds two generations.
 */
module Generations {
  import opened Prelude

  const SEGMENT_BUCKET_PAGES: nat := 16
  const CONTROL_CAPACITIES: seq<nat> := [32, 128, 2048, 131072, 4194304]

  function GenerationPages(capacity: nat, bucketSize: nat): (pages: nat)
    requires bucketSize > 0
    ensures pages >= 1
  {
    capacity / bucketSize + 1
  }

  function Align(page: nat): nat {
    ((page + SEGMENT_BUCKET_PAGES - 1) / SEGMENT_BUCKET_PAGES) * SEGMENT_BUCKET_PAGES
  }

  function SegmentOf(page: nat): nat {
    page / SEGMENT_BUCKET_PAGES
  }

  /** Alignment moves up to the nearest segment boundary, skipping fewer pages than a segment. */
  lemma AlignIsNearest(page: nat, boundary: nat)
    ensures Align(page) % 16 == 0
    ensures page <= Align(page) < page + 16
    ensures boundary % 16 == 0 && page <= boundary ==> Align(page) <= boundary
  {
  }

  /** A generation has the fewest buckets that leave room for one more slot than its capacity. */
  lemma PagesAreFewest(capacity: nat, bucketSize: nat)
    requires bucketSize > 0
    ensures (GenerationPages(capacity, bucketSize) - 1) * bucketSize <= capacity
            < GenerationPages(capacity, bucketSize) * bucketSize
  {
    var k := capacity / bucketSize;
    assert capacity == k * bucketSize + capacity % bucketSize;
    assert (k + 1) * bucketSize == k * bucketSize + bucketSize;
  }

  /** One generation: its first page and its page count. */
  datatype Generation = Generation(base: nat, pages: nat) {
    function FirstSegment(): nat {
      SegmentOf(base)
    }

    function LastSegment(): nat
      requires pages > 0
    {
      SegmentOf(base + pages - 1)
    }

    function End(): nat {
      base + pages
    }
  }

  /** The `n`-th generation after `n` capacity doublings, each new base aligned up. */
  ghost function Aligned(capacity: nat, bucketSize: nat, n: nat): (g: Generation)
    requires bucketSize > 0
    ensures g.pages >= 1
  {
    if n == 0 then Generation(0, GenerationPages(capacity, bucketSize)) else
      var previous := Aligned(capacity, bucketSize, n - 1);
      Generation(Align(previous.End()), GenerationPages(Capacity(capacity, n), bucketSize))
  }

  function Capacity(capacity: nat, n: nat): nat {
    if n == 0 then capacity else 2 * Capacity(capacity, n - 1)
  }

  lemma {:induction false} AlignedShape(capacity: nat, bucketSize: nat, n: nat)
    requires bucketSize > 0
    ensures var g := Aligned(capacity, bucketSize, n);
            g.base % SEGMENT_BUCKET_PAGES == 0 && g.pages == GenerationPages(Capacity(capacity, n), bucketSize)
  {
    hide GenerationPages, Align;
    if n > 0 {
      AlignIsNearest(Aligned(capacity, bucketSize, n - 1).End(), 0);
    }
  }

  /** Later generations lie in strictly later segments, whatever the initial capacity. */
  lemma {:induction false} AlignedApart(capacity: nat, bucketSize: nat, i: nat, j: nat)
    requires bucketSize > 0 && i < j
    ensures Aligned(capacity, bucketSize, i).End() <= Aligned(capacity, bucketSize, j).base
    ensures Aligned(capacity, bucketSize, i).LastSegment() < Aligned(capacity, bucketSize, j).FirstSegment()
    decreases j
  {
    hide GenerationPages, Align, SegmentOf;
    var previous := Aligned(capacity, bucketSize, j - 1);
    AlignedShape(capacity, bucketSize, j - 1);
    AlignedShape(capacity, bucketSize, i);
    AlignIsNearest(previous.End(), 0);
    if i < j - 1 {
      AlignedApart(capacity, bucketSize, i, j - 1);
    }
    BoundarySeparates(Aligned(capacity, bucketSize, i).End(), Aligned(capacity, bucketSize, j).base);
  }

  lemma BoundarySeparates(end: nat, boundary: nat)
    requires 0 < end <= boundary && boundary % SEGMENT_BUCKET_PAGES == 0
    ensures SegmentOf(end - 1) < SegmentOf(boundary)
  {
  }

  /**
   The chain, step by step: it starts at page zero, each generation doubles the capacity of
   the one before and starts at the next multiple of sixteen.
   */
  lemma ChainExactly(capacity: nat, bucketSize: nat, n: nat)
    requires bucketSize > 0
    ensures Aligned(capacity, bucketSize, 0) == Generation(0, capacity / bucketSize + 1)
    ensures Capacity(capacity, 0) == capacity && Capacity(capacity, n + 1) == 2 * Capacity(capacity, n)
    ensures var g, h := Aligned(capacity, bucketSize, n), Aligned(capacity, bucketSize, n + 1);
            && h.pages == Capacity(capacity, n + 1) / bucketSize + 1
            && h.base % 16 == 0 && g.base + g.pages <= h.base < g.base + g.pages + 16
  {
    hide Align;
    AlignIsNearest(Aligned(capacity, bucketSize, n).End(), 0);
  }

  /** No segment holds pages of two generations, for any number of doublings. */
  lemma SegmentsHaveOneOwner(capacity: nat, bucketSize: nat, i: nat, j: nat, p: nat, q: nat)
    requires bucketSize > 0 && i != j
    requires var g := Aligned(capacity, bucketSize, i); g.base <= p < g.base + g.pages
    requires var h := Aligned(capacity, bucketSize, j); h.base <= q < h.base + h.pages
    ensures p / 16 != q / 16
  {
    hide Aligned;
    OccupiedBetween(capacity, bucketSize, i, p);
    OccupiedBetween(capacity, bucketSize, j, q);
    if i < j {
      AlignedApart(capacity, bucketSize, i, j);
    } else {
      AlignedApart(capacity, bucketSize, j, i);
    }
  }

  lemma OccupiedBetween(capacity: nat, bucketSize: nat, n: nat, page: nat)
    requires bucketSize > 0
    requires var g := Aligned(capacity, bucketSize, n); g.base <= page < g.End()
    ensures var g := Aligned(capacity, bucketSize, n); g.FirstSegment() <= SegmentOf(page) <= g.LastSegment()
  {
    hide Aligned;
    var g := Aligned(capacity, bucketSize, n);
    SegmentMonotone(g.base, page);
    SegmentMonotone(page, g.End() - 1);
  }

  lemma SegmentMonotone(a: nat, b: nat)
    requires a <= b
    ensures SegmentOf(a) <= SegmentOf(b)
  {
  }

  ghost function PagesUsed(capacity: nat, bucketSize: nat, n: nat): nat
    requires bucketSize > 0
  {
    if n == 0 then 0 else
      PagesUsed(capacity, bucketSize, n - 1) + GenerationPages(Capacity(capacity, n - 1), bucketSize)
  }

  /** The address space consumed exceeds the pages used by at most fifteen per doubling. */
  lemma {:induction false} PaddingBounded(capacity: nat, bucketSize: nat, n: nat)
    requires bucketSize > 0
    ensures PagesUsed(capacity, bucketSize, n + 1) <= Aligned(capacity, bucketSize, n).End()
            <= PagesUsed(capacity, bucketSize, n + 1) + 15 * n
  {
    hide GenerationPages, Align;
    AlignedShape(capacity, bucketSize, n);
    if n > 0 {
      PaddingBounded(capacity, bucketSize, n - 1);
      AlignIsNearest(Aligned(capacity, bucketSize, n - 1).End(), 0);
    }
  }

  /** Back-to-back placement after an aligned base shares a segment unless the pages fill it. */
  lemma BackToBackShares(base: nat, pages: nat)
    requires base % 16 == 0 && pages > 0
    ensures (base + pages) / 16 == (base + pages - 1) / 16 <==> pages % 16 != 0
  {
    var k := base / SEGMENT_BUCKET_PAGES;
    assert base == 16 * k;
  }

  /** With four slots a bucket, a capacity that is a multiple of 64 always shares. */
  lemma RoundCapacitiesShare(base: nat, capacity: nat)
    requires base % 16 == 0 && capacity % 64 == 0
    ensures (base + GenerationPages(capacity, 4)) / 16 == (base + GenerationPages(capacity, 4) - 1) / 16
  {
    var k := capacity / 64;
    assert capacity == 64 * k;
    assert GenerationPages(capacity, 4) == 16 * k + 1;
    BackToBackShares(base, GenerationPages(capacity, 4));
  }

  datatype BoundaryRow = BoundaryRow(
    oldCapacity: nat, oldGenerationPages: nat, oldLastSegment: nat, unalignedNewBasePage: nat,
    unalignedNewFirstSegment: nat, unalignedShares: bool, alignedNewBasePage: nat,
    alignedNewFirstSegment: nat, alignedShares: bool, paddingPages: nat)

  datatype ControlError = UnalignedAvoided | AlignedShared | PaddingEscaped | NoRows

  datatype ControlResult = Rows(rows: seq<BoundaryRow>, maxPaddingPages: nat) | Raised(error: ControlError)

  function RowFor(capacity: nat): BoundaryRow {
    var pages := GenerationPages(capacity, 4);
    var aligned := Align(pages);
    var last := SegmentOf(pages - 1);
    BoundaryRow(capacity, pages, last, pages, SegmentOf(pages), SegmentOf(pages) == last,
                aligned, SegmentOf(aligned), SegmentOf(aligned) == last, aligned - pages)
  }

  /** The three checks of the control, in order. */
  function Objection(row: BoundaryRow): Option<ControlError> {
    if !row.unalignedShares then Some(UnalignedAvoided)
    else if row.alignedShares then Some(AlignedShared)
    else if row.paddingPages >= SEGMENT_BUCKET_PAGES then Some(PaddingEscaped)
    else None
  }

  /** The capacities for which the unaligned control fails to demonstrate sharing. */
  predicate FillsSegments(capacity: nat) {
    (capacity / 4) % SEGMENT_BUCKET_PAGES == 15
  }

  /**
   The control raises exactly when some capacity fills its last segment, or when there is no
   capacity to take a maximum over; the aligned placement and its padding bound are never at
   fault.
   */
  method CheckCapacities(capacities: seq<nat>) returns (r: ControlResult)
    ensures r.Raised? <==> capacities == [] || exists i :: 0 <= i < |capacities| && FillsSegments(capacities[i])
    ensures r.Raised? ==> r.error == if capacities == [] then NoRows else UnalignedAvoided
    ensures r.Rows? ==> |r.rows| == |capacities|
    ensures r.Rows? ==> forall i :: 0 <= i < |capacities| ==>
              var row := r.rows[i];
              var pages := capacities[i] / 4 + 1;
              && row.oldCapacity == capacities[i] && row.unalignedShares && !row.alignedShares
              && row.oldGenerationPages == row.unalignedNewBasePage == pages
              && row.oldLastSegment == (pages - 1) / 16 && row.unalignedNewFirstSegment == pages / 16
              && row.alignedNewBasePage % 16 == 0 && pages <= row.alignedNewBasePage < pages + 16
              && row.alignedNewFirstSegment == row.alignedNewBasePage / 16
              && row.paddingPages == row.alignedNewBasePage - pages
              && row.alignedNewFirstSegment == row.oldLastSegment + 1
              && row.paddingPages == 15 - (capacities[i] / 4) % 16
              && row.paddingPages <= r.maxPaddingPages
    ensures r.Rows? ==> exists i :: 0 <= i < |capacities| && r.rows[i].paddingPages == r.maxPaddingPages
  {
    var rows := [];
    var i, most := 0, 0;
    while i < |capacities|
      invariant i <= |capacities| && |rows| == i
      invariant forall k :: 0 <= k < i ==> !FillsSegments(capacities[k]) && rows[k] == RowFor(capacities[k])
      invariant forall k :: 0 <= k < i ==> rows[k].paddingPages <= most
      invariant i > 0 ==> exists k :: 0 <= k < i && rows[k].paddingPages == most
    {
      var row := RowFor(capacities[i]);
      RowFacts(capacities[i]);
      var objection := Objection(row);
      if objection.Some? {
        return Raised(objection.value);
      }
      rows := rows + [row];
      if i == 0 || row.paddingPages > most {
        most := row.paddingPages;
        assert rows[i].paddingPages == most;
      }
      i := i + 1;
    }
    forall k | 0 <= k < |capacities| {
      RowFacts(capacities[k]);
    }
    r := if rows == [] then Raised(NoRows) else Rows(rows, most);
  }

  lemma RowFacts(capacity: nat)
    ensures var row := RowFor(capacity);
            && Objection(row) == (if FillsSegments(capacity) then Some(UnalignedAvoided) else None)
            && (row.unalignedShares <==> !FillsSegments(capacity))
            && !row.alignedShares && row.alignedNewFirstSegment == row.oldLastSegment + 1
            && row.paddingPages < 16
            && (var pages := capacity / 4 + 1;
                && row.oldCapacity == capacity && row.oldGenerationPages == row.unalignedNewBasePage == pages
                && row.oldLastSegment == (pages - 1) / 16 && row.unalignedNewFirstSegment == pages / 16
                && row.alignedNewBasePage % 16 == 0 && pages <= row.alignedNewBasePage < pages + 16
                && row.alignedNewFirstSegment == row.alignedNewBasePage / 16
                && row.paddingPages == row.alignedNewBasePage - pages)
            && (row.unalignedShares ==> row.paddingPages == 15 - (capacity / 4) % 16)
  {
    var k := capacity / 4;
    assert k == 16 * (k / 16) + k % 16;
  }

  /** The control on its configured capacities: no objection, and one row wastes all it may. */
  method RunBoundaryControl() returns (r: ControlResult)
    ensures r.Rows? && |r.rows| == |CONTROL_CAPACITIES| == 5 && r.maxPaddingPages == 15
    ensures forall i :: 0 <= i < |CONTROL_CAPACITIES| ==>
              && r.rows[i].oldCapacity == [32, 128, 2048, 131072, 4194304][i]
              && r.rows[i].unalignedShares && !r.rows[i].alignedShares
  {
    r := CheckCapacities(CONTROL_CAPACITIES);
    assert r.rows[1].paddingPages == 15;
  }
}
