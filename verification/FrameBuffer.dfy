/** A camera's rolling frame buffer: frames are byte ranges in append-only, reference-counted segment
    files that rotate. The files are a map from segment number to bytes, and a write appends all of its
    bytes or none. */
module FrameBuffer {
  import opened Common
  import opened FrameWindow

  type Disk = map<nat, seq<Byte>>

  /** Where a kept frame's bytes lie. */
  datatype Descriptor = Descriptor(imageId: string, time: int, segment: nat, offset: nat, size: nat)

  datatype Segment = Segment(refs: int, size: nat)

  // ---------------------------------------------------------------- segment file names

  function ZeroPad(s: string, width: nat): string
    decreases width - |s|
  {
    if |s| >= width then s else ZeroPad("0" + s, width)
  }

  /** The name of a segment file: `segment-%06d.bin`. */
  function SegmentName(id: nat): string {
    "segment-" + ZeroPad(Decimal(id), 6) + ".bin"
  }

  lemma {:induction false} DecimalRoundTrip(n: nat)
    ensures DecimalValue(Decimal(n)) == n
  {
    var s := Decimal(n);
    if n >= 10 {
      DecimalRoundTrip(n / 10);
      assert s[..|s| - 1] == Decimal(n / 10);
    } else {
      assert s[..0] == "";
    }
  }

  lemma {:induction false} LeadingZero(s: string)
    ensures DecimalValue("0" + s) == DecimalValue(s)
  {
    var z := "0" + s;
    if s == "" {
      assert z[..0] == "";
    } else {
      LeadingZero(s[..|s| - 1]);
      assert z[..|z| - 1] == "0" + s[..|s| - 1];
    }
  }

  lemma {:induction false} PaddingKeepsValue(s: string, width: nat)
    ensures DecimalValue(ZeroPad(s, width)) == DecimalValue(s)
    decreases width - |s|
  {
    if |s| < width {
      LeadingZero(s);
      PaddingKeepsValue("0" + s, width);
    }
  }

  /** Distinct segment numbers have distinct file names, also beyond six digits, so a number stands for its path. */
  lemma SegmentNamesDiffer(a: nat, b: nat)
    requires SegmentName(a) == SegmentName(b)
    ensures a == b
  {
    var pa, pb := ZeroPad(Decimal(a), 6), ZeroPad(Decimal(b), 6);
    assert SegmentName(a)[8..|SegmentName(a)| - 4] == pa && SegmentName(b)[8..|SegmentName(b)| - 4] == pb;
    PaddingKeepsValue(Decimal(a), 6);
    PaddingKeepsValue(Decimal(b), 6);
    DecimalRoundTrip(a);
    DecimalRoundTrip(b);
  }

  /** A segment's file name is its number in decimal, padded with zeros to six digits, between a fixed prefix and suffix. */
  lemma {:induction false} SegmentNameReads(id: nat)
    ensures var n := SegmentName(id);
      && |n| >= 18 && n[..8] == "segment-" && n[|n| - 4..] == ".bin" && DecimalValue(n[8..|n| - 4]) == id
      && (|n| > 18 ==> |n| == 12 + |Decimal(id)|)
  {
    var p := ZeroPad(Decimal(id), 6);
    PaddingKeepsValue(Decimal(id), 6);
    DecimalRoundTrip(id);
    PaddedLength(Decimal(id), 6);
    hide ZeroPad, Decimal, DecimalValue;
    assert SegmentName(id)[8..|SegmentName(id)| - 4] == p;
  }

  lemma {:induction false} PaddedLength(s: string, width: nat)
    ensures |ZeroPad(s, width)| == if |s| < width then width else |s|
    decreases width - |s|
  {
    if |s| < width {
      PaddedLength("0" + s, width);
    }
  }

  // ---------------------------------------------------------------- reading

  predicate Readable(disk: Disk, d: Descriptor) {
    d.segment in disk && d.offset + d.size <= |disk[d.segment]|
  }

  function ReadAt(disk: Disk, d: Descriptor): Entry
    requires Readable(disk, d)
  {
    Entry(d.imageId, d.time, disk[d.segment][d.offset..d.offset + d.size])
  }

  predicate AllReadable(disk: Disk, ds: seq<Descriptor>) {
    forall i :: 0 <= i < |ds| ==> Readable(disk, ds[i])
  }

  /** The frames that a list of descriptors stands for. */
  function Entries(disk: Disk, ds: seq<Descriptor>): (es: seq<Entry>)
    requires AllReadable(disk, ds)
    ensures |es| == |ds|
    ensures forall i :: 0 <= i < |ds| ==> es[i] == ReadAt(disk, ds[i])
  {
    if ds == [] then [] else [ReadAt(disk, ds[0])] + Entries(disk, ds[1..])
  }

  /** Descriptors that read the same stand for the same frames. */
  lemma SameEntries(disk: Disk, ds: seq<Descriptor>, disk': Disk, ds': seq<Descriptor>)
    requires AllReadable(disk, ds) && AllReadable(disk', ds') && |ds| == |ds'|
    requires forall i :: 0 <= i < |ds| ==> ReadAt(disk, ds[i]) == ReadAt(disk', ds'[i])
    ensures Entries(disk, ds) == Entries(disk', ds')
  {
    hide AllReadable, ReadAt;
  }

  // ---------------------------------------------------------------- the disk only ever appends

  /** From one disk to a later one: a segment number below the old counter that is still there was there
      before and has only grown. */
  ghost predicate AppendOnly(disk: Disk, next: nat, disk': Disk, next': nat) {
    && next <= next'
    && forall p :: p in disk' && p < next ==> p in disk && disk[p] <= disk'[p]
  }

  lemma AppendOnlyTransitive(d0: Disk, n0: nat, d1: Disk, n1: nat, d2: Disk, n2: nat)
    requires AppendOnly(d0, n0, d1, n1) && AppendOnly(d1, n1, d2, n2)
    ensures AppendOnly(d0, n0, d2, n2)
  {
    forall p | p in d2 && p < n0
      ensures p in d0 && d0[p] <= d2[p]
    {
      assert p in d1 && d1[p] <= d2[p];
    }
  }

  /** A descriptor read at any later time gives its original bytes, or its file is gone. */
  lemma LateReadIsOriginal(d0: Disk, n0: nat, d1: Disk, n1: nat, d: Descriptor)
    requires AppendOnly(d0, n0, d1, n1) && Readable(d0, d) && d.segment < n0
    ensures d.segment in d1 ==> Readable(d1, d) && ReadAt(d1, d) == ReadAt(d0, d)
  {
    if d.segment in d1 {
      assert d0[d.segment] <= d1[d.segment];
      assert d1[d.segment][..|d0[d.segment]|] == d0[d.segment];
      assert d1[d.segment][d.offset..d.offset + d.size] == d0[d.segment][d.offset..d.offset + d.size];
    }
  }

  /** The same over any number of later states. */
  lemma {:induction false} LateReadOverRun(disks: seq<Disk>, nexts: seq<nat>, i: nat, j: nat, d: Descriptor)
    requires |disks| == |nexts| && i <= j < |disks|
    requires forall k :: 0 <= k < |disks| - 1 ==> AppendOnly(disks[k], nexts[k], disks[k + 1], nexts[k + 1])
    requires Readable(disks[i], d) && d.segment < nexts[i]
    ensures AppendOnly(disks[i], nexts[i], disks[j], nexts[j])
    ensures d.segment in disks[j] ==> Readable(disks[j], d) && ReadAt(disks[j], d) == ReadAt(disks[i], d)
    decreases j - i
  {
    if i < j {
      LateReadOverRun(disks, nexts, i, j - 1, d);
      assert AppendOnly(disks[j - 1], nexts[j - 1], disks[j - 1 + 1], nexts[j - 1 + 1]);
      AppendOnlyTransitive(disks[i], nexts[i], disks[j - 1], nexts[j - 1], disks[j], nexts[j]);
    }
    LateReadIsOriginal(disks[i], nexts[i], disks[j], nexts[j], d);
  }

  // ---------------------------------------------------------------- reference counts and live bytes

  function Refs(ds: seq<Descriptor>, p: nat): nat {
    if ds == [] then 0 else (if ds[0].segment == p then 1 else 0) + Refs(ds[1..], p)
  }

  function LiveIn(ds: seq<Descriptor>, p: nat): nat {
    if ds == [] then 0 else (if ds[0].segment == p then ds[0].size else 0) + LiveIn(ds[1..], p)
  }

  function Live(ds: seq<Descriptor>): nat {
    if ds == [] then 0 else ds[0].size + Live(ds[1..])
  }

  lemma {:induction false} CountsAppend(ds: seq<Descriptor>, d: Descriptor, p: nat)
    ensures Refs(ds + [d], p) == Refs(ds, p) + if d.segment == p then 1 else 0
    ensures LiveIn(ds + [d], p) == LiveIn(ds, p) + if d.segment == p then d.size else 0
    ensures Live(ds + [d]) == Live(ds) + d.size
  {
    if ds == [] {
      assert ds + [d] == [d] && [d][1..] == [];
    } else {
      CountsAppend(ds[1..], d, p);
      assert (ds + [d])[1..] == ds[1..] + [d];
    }
  }

  lemma {:induction false} NoRefs(ds: seq<Descriptor>, p: nat)
    ensures Refs(ds, p) == 0 <==> forall i :: 0 <= i < |ds| ==> ds[i].segment != p
    ensures Refs(ds, p) == 0 ==> LiveIn(ds, p) == 0
  {
    if ds != [] {
      NoRefs(ds[1..], p);
      assert forall i :: 0 < i < |ds| ==> ds[i] == ds[1..][i - 1];
    }
  }

  function DiskBytes(disk: Disk, n: nat): nat {
    if n == 0 then 0 else DiskBytes(disk, n - 1) + if n - 1 in disk then |disk[n - 1]| else 0
  }

  function LiveBelow(ds: seq<Descriptor>, n: nat): nat {
    if n == 0 then 0 else LiveBelow(ds, n - 1) + LiveIn(ds, n - 1)
  }

  lemma {:induction false} LiveBelowHead(ds: seq<Descriptor>, n: nat)
    requires ds != []
    ensures LiveBelow(ds, n) == LiveBelow(ds[1..], n) + if ds[0].segment < n then ds[0].size else 0
  {
    if n > 0 {
      LiveBelowHead(ds, n - 1);
    }
  }

  lemma {:induction false} LiveBelowAll(ds: seq<Descriptor>, n: nat)
    requires forall i :: 0 <= i < |ds| ==> ds[i].segment < n
    ensures LiveBelow(ds, n) == Live(ds)
  {
    if ds == [] {
      LiveBelowNothing(n);
    } else {
      LiveBelowHead(ds, n);
      LiveBelowAll(ds[1..], n);
    }
  }

  lemma {:induction false} LiveBelowNothing(n: nat)
    ensures LiveBelow([], n) == 0
  {
    if n > 0 {
      LiveBelowNothing(n - 1);
    }
  }

  // ---------------------------------------------------------------- the buffer's state

  datatype View = View(
    disk: Disk,
    frames: seq<Descriptor>,
    segments: map<nat, Segment>,
    active: Option<nat>,
    next: nat,
    total: int,
    capacity: nat)

  /** The one segment that may hold bytes of pruned frames. */
  function Oldest(v: View): Option<nat> {
    if v.frames == [] then v.active else Some(v.frames[0].segment)
  }

  ghost predicate SegmentOk(v: View, p: nat)
    requires p in v.segments && p in v.disk
  {
    && p < v.next
    && v.segments[p].size == |v.disk[p]| <= v.capacity
    && v.segments[p].refs == Refs(v.frames, p)
    && (v.active != Some(p) ==> v.segments[p].refs >= 1)
    && (Oldest(v) != Some(p) ==> |v.disk[p]| == LiveIn(v.frames, p))
    && v.active.Some? && p <= v.active.value
  }

  /** Frames lie in order of segment and, within one segment, one after the other. */
  ghost predicate InOrder(ds: seq<Descriptor>) {
    forall i, j :: 0 <= i < j < |ds| ==>
      ds[i].segment < ds[j].segment || (ds[i].segment == ds[j].segment && ds[i].offset + ds[i].size <= ds[j].offset)
  }

  ghost predicate Ok(v: View) {
    && v.disk.Keys == v.segments.Keys
    && (forall p :: p in v.segments ==> SegmentOk(v, p))
    && (v.active.Some? ==> v.active.value in v.segments)
    && AllReadable(v.disk, v.frames)
    && InOrder(v.frames)
    && v.total == Live(v.frames)
  }

  function DropFirst(v: View): View
    requires v.frames != [] && v.frames[0].segment in v.segments
  {
    var first := v.frames[0];
    var segment := v.segments[first.segment];
    var left := segment.(refs := segment.refs - 1);
    var rest := v.(frames := v.frames[1..], total := v.total - first.size);
    if left.refs <= 0 && v.active != Some(first.segment)
    then rest.(segments := v.segments - {first.segment}, disk := v.disk - {first.segment})
    else rest.(segments := v.segments[first.segment := left])
  }

  lemma DropFirstSegments(v: View, p: nat)
    requires Ok(v) && v.frames != [] && p in DropFirst(v).segments
    ensures p in v.segments && p in DropFirst(v).disk && SegmentOk(DropFirst(v), p)
  {
    var w := DropFirst(v);
    var p0 := v.frames[0].segment;
    assert SegmentOk(v, p0) && SegmentOk(v, p);
    NoRefs(w.frames, p);
    // a segment that stops being the oldest holds no kept frame any more
    assert forall i :: 0 <= i < |w.frames| ==> w.frames[i] == v.frames[i + 1];
    if w.frames != [] {
      assert SegmentOk(v, v.frames[1].segment);
    }
  }

  lemma DropFirstReads(v: View, i: nat)
    requires Ok(v) && 1 <= i < |v.frames|
    ensures Readable(DropFirst(v).disk, v.frames[i])
    ensures ReadAt(DropFirst(v).disk, v.frames[i]) == ReadAt(v.disk, v.frames[i])
  {
    var w := DropFirst(v);
    var p0 := v.frames[0].segment;
    assert Readable(v.disk, v.frames[0]) && Readable(v.disk, v.frames[i]) && SegmentOk(v, p0);
    NoRefs(v.frames[1..], p0);
    hide SegmentOk, InOrder;
    assert v.frames[1..][i - 1] == v.frames[i];
  }

  lemma DropFirstFrames(v: View)
    requires Ok(v) && v.frames != []
    ensures var w := DropFirst(v);
      && w.frames == v.frames[1..] && AllReadable(w.disk, w.frames) && InOrder(w.frames) && w.total == Live(w.frames)
      && forall i :: 0 <= i < |w.frames| ==> ReadAt(w.disk, w.frames[i]) == ReadAt(v.disk, v.frames[1..][i])
  {
    var w := DropFirst(v);
    assert w.frames == v.frames[1..];
    forall i | 0 <= i < |w.frames|
      ensures w.frames[i] == v.frames[i + 1] && Readable(w.disk, w.frames[i])
      ensures ReadAt(w.disk, w.frames[i]) == ReadAt(v.disk, v.frames[1..][i])
    {
      DropFirstReads(v, i + 1);
    }
    hide SegmentOk, Readable, ReadAt;
  }

  lemma DropFirstOk(v: View)
    requires Ok(v) && v.frames != []
    ensures Ok(DropFirst(v))
    ensures Entries(DropFirst(v).disk, DropFirst(v).frames) == Entries(v.disk, v.frames)[1..]
    ensures AppendOnly(v.disk, v.next, DropFirst(v).disk, v.next)
  {
    var w := DropFirst(v);
    assert AppendOnly(v.disk, v.next, w.disk, v.next);
    assert w.disk.Keys == w.segments.Keys && w.active == v.active;
    assert w.active.Some? ==> w.active.value in w.segments;
    hide SegmentOk, InOrder, ReadAt, Readable, AppendOnly, DropFirst;
    forall p | p in w.segments
      ensures p in w.disk && SegmentOk(w, p)
    {
      DropFirstSegments(v, p);
    }
    DropFirstFrames(v);
    assert AllReadable(v.disk, v.frames[1..]);
    SameEntries(w.disk, w.frames, v.disk, v.frames[1..]);
    assert Entries(v.disk, v.frames) == [ReadAt(v.disk, v.frames[0])] + Entries(v.disk, v.frames[1..]);
  }

  /** The segment that the next frame of `size` bytes goes to. */
  function Rotate(v: View, size: nat, segmentMax: int): View
    requires v.active.Some? ==> v.active.value in v.segments
  {
    if v.active.Some? && v.segments[v.active.value].size + size <= segmentMax then v
    else
      var dropActive := v.active.Some? && v.segments[v.active.value].refs <= 0;
      var gone := if dropActive then {v.active.value} else {};
      v.(segments := (v.segments - gone)[v.next := Segment(0, 0)], disk := (v.disk - gone)[v.next := []],
         active := Some(v.next), next := v.next + 1)
  }

  lemma RotateSegments(v: View, size: nat, segmentMax: int, p: nat)
    requires Ok(v) && p in Rotate(v, size, segmentMax).segments
    ensures p in Rotate(v, size, segmentMax).disk && SegmentOk(Rotate(v, size, segmentMax), p)
  {
    var w := Rotate(v, size, segmentMax);
    NoRefs(v.frames, p);
    if p == v.next && w != v {
      assert forall i :: 0 <= i < |v.frames| ==> v.frames[i].segment in v.segments && SegmentOk(v, v.frames[i].segment);
    } else {
      assert SegmentOk(v, p);
      if v.frames != [] {
        assert SegmentOk(v, v.frames[0].segment);
      }
    }
  }

  lemma RotateReads(v: View, size: nat, segmentMax: int, i: nat)
    requires Ok(v) && i < |v.frames|
    ensures var w := Rotate(v, size, segmentMax);
      Readable(w.disk, v.frames[i]) && ReadAt(w.disk, v.frames[i]) == ReadAt(v.disk, v.frames[i])
  {
    var p := v.frames[i].segment;
    assert Readable(v.disk, v.frames[i]) && SegmentOk(v, p);
    NoRefs(v.frames, p);
    hide InOrder;
  }

  lemma RotateAppends(v: View, size: nat, segmentMax: int)
    requires Ok(v)
    ensures var w := Rotate(v, size, segmentMax);
      && w.active.Some? && w.active.value in w.segments && w.segments.Keys == w.disk.Keys
      && AppendOnly(v.disk, v.next, w.disk, w.next)
      && (w.segments[w.active.value].size + size <= segmentMax || w.disk[w.active.value] == [])
  {
    hide SegmentOk, InOrder;
  }

  lemma RotateOk(v: View, size: nat, segmentMax: int)
    requires Ok(v)
    ensures var w := Rotate(v, size, segmentMax);
      && Ok(w) && w.active.Some? && w.frames == v.frames
      && Entries(w.disk, w.frames) == Entries(v.disk, v.frames)
      && AppendOnly(v.disk, v.next, w.disk, w.next)
      && (w.segments[w.active.value].size + size <= segmentMax || w.disk[w.active.value] == [])
  {
    var w := Rotate(v, size, segmentMax);
    assert w.frames == v.frames && w.total == v.total;
    RotateAppends(v, size, segmentMax);
    hide SegmentOk, Readable, ReadAt, InOrder, Rotate, AppendOnly;
    forall p | p in w.segments
      ensures p in w.disk && SegmentOk(w, p)
    {
      RotateSegments(v, size, segmentMax, p);
    }
    forall i | 0 <= i < |v.frames|
      ensures Readable(w.disk, v.frames[i]) && ReadAt(w.disk, v.frames[i]) == ReadAt(v.disk, v.frames[i])
    {
      RotateReads(v, size, segmentMax, i);
    }
    SameEntries(w.disk, w.frames, v.disk, v.frames);
  }

  /** Appends a frame to the active segment. */
  function Append(v: View, e: Entry): View
    requires v.active.Some? && v.active.value in v.segments && v.active.value in v.disk
  {
    var a := v.active.value;
    var segment := v.segments[a];
    v.(disk := v.disk[a := v.disk[a] + e.jpeg],
       segments := v.segments[a := Segment(segment.refs + 1, segment.size + |e.jpeg|)],
       frames := v.frames + [Descriptor(e.imageId, e.time, a, segment.size, |e.jpeg|)],
       total := v.total + |e.jpeg|)
  }

  lemma AppendSegments(v: View, e: Entry, p: nat)
    requires Ok(v) && v.active.Some? && |v.disk[v.active.value]| + |e.jpeg| <= v.capacity
    requires p in v.segments
    ensures SegmentOk(Append(v, e), p)
  {
    var w := Append(v, e);
    assert SegmentOk(v, p) && SegmentOk(v, v.active.value);
    CountsAppend(v.frames, w.frames[|v.frames|], p);
    if v.frames != [] {
      assert w.frames[0] == v.frames[0];
    }
  }

  /** A kept frame still reads the same, and lies before the new one. */
  lemma AppendKeeps(v: View, e: Entry, i: nat)
    requires Ok(v) && v.active.Some? && i < |v.frames|
    ensures var w, a := Append(v, e), v.active.value;
      && Readable(w.disk, v.frames[i]) && ReadAt(w.disk, v.frames[i]) == ReadAt(v.disk, v.frames[i])
      && (v.frames[i].segment < a || (v.frames[i].segment == a && v.frames[i].offset + v.frames[i].size <= v.segments[a].size))
  {
    var w, d := Append(v, e), v.frames[i];
    assert Readable(v.disk, d) && SegmentOk(v, d.segment) && SegmentOk(v, v.active.value);
    hide InOrder, SegmentOk;
    SliceOfPrefix(v.disk[d.segment], w.disk[d.segment], d.offset, d.offset + d.size);
  }

  lemma AppendReadsBack(v: View, e: Entry)
    requires Ok(v) && v.active.Some?
    ensures var w := Append(v, e);
      Readable(w.disk, w.frames[|v.frames|]) && ReadAt(w.disk, w.frames[|v.frames|]) == e
  {
    var w, a := Append(v, e), v.active.value;
    assert SegmentOk(v, a);
    var d := w.frames[|v.frames|];
    assert w.disk[a] == v.disk[a] + e.jpeg && d.offset == |v.disk[a]|;
    assert w.disk[a][d.offset..d.offset + d.size] == e.jpeg;
  }

  lemma AppendReads(v: View, e: Entry)
    requires Ok(v) && v.active.Some?
    ensures var w := Append(v, e);
      && AllReadable(w.disk, w.frames) && InOrder(w.frames)
      && ReadAt(w.disk, w.frames[|v.frames|]) == e
      && forall i :: 0 <= i < |v.frames| ==> ReadAt(w.disk, v.frames[i]) == ReadAt(v.disk, v.frames[i])
  {
    var w := Append(v, e);
    AppendReadsBack(v, e);
    forall i | 0 <= i < |v.frames|
      ensures w.frames[i] == v.frames[i]
      ensures Readable(w.disk, v.frames[i]) && ReadAt(w.disk, v.frames[i]) == ReadAt(v.disk, v.frames[i])
      ensures var a := v.active.value;
        v.frames[i].segment < a || (v.frames[i].segment == a && v.frames[i].offset + v.frames[i].size <= v.segments[a].size)
    {
      AppendKeeps(v, e, i);
    }
    hide Readable, ReadAt, SegmentOk;
  }

  lemma SliceOfPrefix(s: seq<Byte>, t: seq<Byte>, lo: nat, hi: nat)
    requires s <= t && lo <= hi <= |s|
    ensures t[lo..hi] == s[lo..hi]
  {
    assert t[..|s|] == s;
    assert t[..|s|][lo..hi] == t[lo..hi];
  }

  lemma {:induction false} EntriesAppend(disk: Disk, ds: seq<Descriptor>, disk': Disk, d: Descriptor, e: Entry)
    requires AllReadable(disk, ds) && AllReadable(disk', ds + [d]) && Readable(disk', d) && ReadAt(disk', d) == e
    requires forall i :: 0 <= i < |ds| ==> ReadAt(disk', (ds + [d])[i]) == ReadAt(disk, ds[i])
    ensures Entries(disk', ds + [d]) == Entries(disk, ds) + [e]
  {
    hide AllReadable, ReadAt;
    assert (ds + [d])[|ds|] == d;
  }

  lemma AppendOk(v: View, e: Entry)
    requires Ok(v) && v.active.Some? && |v.disk[v.active.value]| + |e.jpeg| <= v.capacity
    ensures var w := Append(v, e);
      && Ok(w) && Entries(w.disk, w.frames) == Entries(v.disk, v.frames) + [e]
      && AppendOnly(v.disk, v.next, w.disk, v.next)
  {
    var w := Append(v, e);
    var d := w.frames[|v.frames|];
    AppendReads(v, e);
    CountsAppend(v.frames, d, 0);
    assert AppendOnly(v.disk, v.next, w.disk, v.next);
    assert w.frames == v.frames + [d] && w.disk.Keys == w.segments.Keys && w.active == v.active;
    assert w.total == Live(w.frames);
    hide SegmentOk, InOrder, AllReadable, ReadAt, Live, AppendOnly, Append;
    forall p | p in w.segments
      ensures SegmentOk(w, p)
    {
      AppendSegments(v, e, p);
    }
    EntriesAppend(v.disk, v.frames, w.disk, d, e);
  }

  lemma GrowCapacity(v: View, capacity: nat)
    requires Ok(v) && v.capacity <= capacity
    ensures Ok(v.(capacity := capacity))
  {
    var w := v.(capacity := capacity);
    forall p | p in w.segments
      ensures SegmentOk(w, p)
    {
      assert SegmentOk(v, p);
    }
  }

  lemma {:induction false} LiveIsBytes(disk: Disk, ds: seq<Descriptor>)
    requires AllReadable(disk, ds)
    ensures Live(ds) == Bytes(Entries(disk, ds))
  {
    if ds != [] {
      LiveIsBytes(disk, ds[1..]);
      assert Entries(disk, ds)[1..] == Entries(disk, ds[1..]);
    }
  }

  lemma {:induction false} DiskBoundedBelow(v: View, n: nat)
    requires Ok(v) && n <= v.next
    ensures DiskBytes(v.disk, n) <= LiveBelow(v.frames, n) + if Oldest(v).Some? && Oldest(v).value < n then v.capacity else 0
  {
    if n > 0 {
      DiskBoundedBelow(v, n - 1);
      if n - 1 in v.disk {
        assert SegmentOk(v, n - 1);
      }
    }
  }

  /** What the invariant says to an outsider: the byte count is that of the kept frames, every segment counts
      its kept frames, only the active segment may be without one, and the files hold at most the live bytes
      and one segment's worth of pruned ones. */
  lemma Accounting(v: View)
    requires Ok(v)
    ensures v.total == Bytes(Entries(v.disk, v.frames))
    ensures forall p :: p in v.segments ==> v.segments[p].refs == Refs(v.frames, p)
    ensures forall p :: p in v.segments && v.active != Some(p) ==> v.segments[p].refs >= 1
    ensures forall p :: p in v.disk ==> p < v.next
    ensures DiskBytes(v.disk, v.next) <= v.total + v.capacity
  {
    LiveIsBytes(v.disk, v.frames);
    DiskBoundedBelow(v, v.next);
    assert forall p :: p in v.segments ==> SegmentOk(v, p);
    forall i | 0 <= i < |v.frames|
      ensures v.frames[i].segment < v.next
    {
      assert SegmentOk(v, v.frames[i].segment);
    }
    LiveBelowAll(v.frames, v.next);
  }
}
