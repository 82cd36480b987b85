/** The camera buffer's operations, proved against the plain sequence of frames that it stands for. */
module CameraBuffer {
  import opened Common
  import opened FrameWindow
  import opened FrameBuffer

  predicate InRange(time: int, start: int, end: int) {
    start <= time <= end
  }

  function Select(ds: seq<Descriptor>, start: int, end: int): seq<Descriptor> {
    if ds == [] then [] else Chosen(ds[0], start, end) + Select(ds[1..], start, end)
  }

  function Chosen(d: Descriptor, start: int, end: int): seq<Descriptor> {
    if InRange(d.time, start, end) then [d] else []
  }

  function SelectEntries(es: seq<Entry>, start: int, end: int): seq<Entry> {
    if es == [] then []
    else (if InRange(es[0].time, start, end) then [es[0]] else []) + SelectEntries(es[1..], start, end)
  }

  /** Selecting descriptors by time and then reading them is selecting the frames by time. */
  lemma {:induction false} SelectThenRead(disk: Disk, ds: seq<Descriptor>, start: int, end: int)
    requires AllReadable(disk, ds)
    ensures AllReadable(disk, Select(ds, start, end))
    ensures Entries(disk, Select(ds, start, end)) == SelectEntries(Entries(disk, ds), start, end)
  {
    if ds != [] {
      SelectThenRead(disk, ds[1..], start, end);
      var rest := Select(ds[1..], start, end);
      assert Entries(disk, ds)[1..] == Entries(disk, ds[1..]);
      if InRange(ds[0].time, start, end) {
        assert Select(ds, start, end) == [ds[0]] + rest;
        assert ([ds[0]] + rest)[1..] == rest;
      } else {
        assert Select(ds, start, end) == rest;
      }
    }
  }

  lemma {:induction false} SelectAppend(ds: seq<Descriptor>, d: Descriptor, start: int, end: int)
    ensures Select(ds + [d], start, end) == Select(ds, start, end) + Chosen(d, start, end)
  {
    var all, chosen := ds + [d], Chosen(d, start, end);
    SelectFirst(all, start, end);
    if ds == [] {
      assert all[1..] == [] && all[0] == d;
      Associative(chosen, [], []);
      hide Chosen;
    } else {
      SelectFirst(ds, start, end);
      SelectAppend(ds[1..], d, start, end);
      assert all[1..] == ds[1..] + [d] && all[0] == ds[0];
      Associative(Chosen(ds[0], start, end), Select(ds[1..], start, end), chosen);
      hide Chosen, Select;
    }
  }

  lemma {:induction false} SelectFirst(ds: seq<Descriptor>, start: int, end: int)
    requires ds != []
    ensures Select(ds, start, end) == Chosen(ds[0], start, end) + Select(ds[1..], start, end)
  {
  }

  ghost predicate Increasing(places: seq<nat>) {
    forall j, k :: 0 <= j < k < |places| ==> places[j] < places[k]
  }

  /** `items` are the descriptors in the time range among the first `n`, and `places` their positions in order. */
  ghost predicate Placed(ds: seq<Descriptor>, items: seq<Descriptor>, places: seq<nat>, n: nat, start: int, end: int)
    requires n <= |ds|
  {
    && Increasing(places) && |items| == |places|
    && (forall i :: i in places <==> 0 <= i < n && start <= ds[i].time <= end)
    && (forall k :: 0 <= k < |items| ==> places[k] < n && items[k] == ds[places[k]])
  }

  lemma PlacedNext(ds: seq<Descriptor>, items: seq<Descriptor>, places: seq<nat>, n: nat, start: int, end: int)
    requires n < |ds| && Placed(ds, items, places, n, start, end)
    ensures if start <= ds[n].time <= end then Placed(ds, items + [ds[n]], places + [n], n + 1, start, end)
            else Placed(ds, items, places, n + 1, start, end)
  {
  }

  lemma PlacedAll(ds: seq<Descriptor>, items: seq<Descriptor>, places: seq<nat>, start: int, end: int)
    requires Placed(ds, items, places, |ds|, start, end)
    ensures forall d :: d in items <==> d in ds && start <= d.time <= end
  {
    forall d | d in ds && start <= d.time <= end
      ensures d in items
    {
      var i: nat :| i < |ds| && ds[i] == d;
      assert i in places;
      var k :| 0 <= k < |places| && places[k] == i;
      assert items[k] == d;
    }
    forall d | d in items
      ensures d in ds && start <= d.time <= end
    {
      var k :| 0 <= k < |items| && items[k] == d;
      assert places[k] in places;
    }
  }

  /** The scan of the kept frames. */
  method Scan(frames: seq<Descriptor>, start: int, end: int) returns (items: seq<Descriptor>, ghost places: seq<nat>)
    ensures items == Select(frames, start, end)
    ensures Placed(frames, items, places, |frames|, start, end)
  {
    items, places := [], [];
    for i := 0 to |frames|
      invariant items == Select(frames[..i], start, end)
      invariant Placed(frames, items, places, i, start, end)
    {
      assert frames[..i + 1] == frames[..i] + [frames[i]];
      SelectAppend(frames[..i], frames[i], start, end);
      PlacedNext(frames, items, places, i, start, end);
      hide Select, Placed;
      if !(frames[i].time < start || frames[i].time > end) {
        items, places := items + [frames[i]], places + [i];
      }
    }
    assert frames[..|frames|] == frames;
  }

  function Distance(a: int, b: int): (d: nat)
    ensures d == a - b || d == b - a
  {
    if a < b then b - a else a - b
  }

  /** `k` is closest to the target: the last one if it is among the closest, else the first of them. */
  ghost predicate Nearest(times: seq<int>, target: int, k: nat) {
    var last := |times| - 1;
    && k <= last
    && (forall i :: 0 <= i <= last ==> Distance(times[k], target) <= Distance(times[i], target))
    && (k != last ==> Distance(times[k], target) < Distance(times[last], target))
    && (k != last ==> forall i :: 0 <= i < k ==> Distance(times[k], target) < Distance(times[i], target))
  }

  ghost function Times(es: seq<Entry>): (ts: seq<int>)
    ensures |ts| == |es|
  {
    seq(|es|, i requires 0 <= i < |es| => es[i].time)
  }

  method FindNearest(frames: seq<Descriptor>, target: int, ghost times: seq<int>) returns (best: nat)
    requires frames != [] && |times| == |frames| && forall i :: 0 <= i < |frames| ==> times[i] == frames[i].time
    ensures Nearest(times, target, best)
  {
    var last := |frames| - 1;
    best := last;
    for i := 0 to |frames|
      invariant best <= last && (best == last || best < i)
      invariant forall j :: 0 <= j < i ==> Distance(times[best], target) <= Distance(times[j], target)
      invariant best != last ==> Distance(times[best], target) < Distance(times[last], target)
      invariant best != last ==> forall j :: 0 <= j < best ==> Distance(times[best], target) < Distance(times[j], target)
    {
      if Distance(frames[i].time, target) < Distance(frames[best].time, target) {
        best := i;
      }
    }
  }

  class CameraBuffer {
    const limits: Limits
    const segmentMax: int

    var disk: Disk
    var frames: seq<Descriptor>
    var segments: map<nat, Segment>
    var active: Option<nat>
    var nextSegmentId: nat
    var totalBytes: int
    var lastImageId: string
    /** The largest frame ever written. */
    ghost var largest: nat

    ghost function State(): View
      reads this
    {
      View(disk, frames, segments, active, nextSegmentId, totalBytes, Capacity())
    }

    ghost function Capacity(): nat
      reads this`largest
    {
      if segmentMax < largest then largest else segmentMax
    }

    ghost predicate Valid()
      reads this
    {
      Ok(State())
    }

    ghost function Contents(): seq<Entry>
      requires Valid()
      reads this
    {
      Entries(disk, frames)
    }

    constructor (limits: Limits, segmentMax: int)
      ensures Valid() && Contents() == [] && lastImageId == "" && largest == 0
      ensures this.limits == limits && this.segmentMax == segmentMax
    {
      this.limits, this.segmentMax := limits, segmentMax;
      disk, frames, segments, active := map[], [], map[], None;
      nextSegmentId, totalBytes, lastImageId, largest := 0, 0, "", 0;
    }

    /** Makes room in the active segment, or rotates to a new one; a rotated segment without frames goes away. */
    method EnsureActiveSegment(frameSize: nat)
      requires Valid()
      modifies this`disk, this`segments, this`active, this`nextSegmentId
      ensures Valid() && Contents() == old(Contents())
      ensures AppendOnly(old(disk), old(nextSegmentId), disk, nextSegmentId)
      ensures active.Some? && active.value in disk && (|disk[active.value]| + frameSize <= segmentMax || disk[active.value] == [])
      ensures old(active.Some? && active.value in disk && |disk[active.value]| + frameSize <= segmentMax) ==>
                active == old(active) && disk == old(disk) && nextSegmentId == old(nextSegmentId)
      ensures !old(active.Some? && active.value in disk && |disk[active.value]| + frameSize <= segmentMax) ==>
                active == Some(old(nextSegmentId)) && nextSegmentId == old(nextSegmentId) + 1 && disk[active.value] == []
    {
      ghost var v := State();
      assert active.Some? ==> SegmentOk(v, active.value);
      RotateOk(v, frameSize, segmentMax);
      Rotate(frameSize);
      assert SegmentOk(State(), active.value);
      hide SegmentOk, InOrder, AllReadable;
    }

    method Rotate(frameSize: nat)
      requires active.Some? ==> active.value in segments
      modifies this`disk, this`segments, this`active, this`nextSegmentId
      ensures State() == FrameBuffer.Rotate(old(State()), frameSize, segmentMax)
    {
      if active.Some? && segments[active.value].size + frameSize <= segmentMax {
        return;
      }
      assert disk - {} == disk && segments - {} == segments;
      if active.Some? && segments[active.value].refs <= 0 {
        disk := disk - {active.value};
        segments := segments - {active.value};
      }
      disk := disk[nextSegmentId := []];
      segments := segments[nextSegmentId := Segment(0, 0)];
      active := Some(nextSegmentId);
      nextSegmentId := nextSegmentId + 1;
    }

    /** Removes the oldest frame, and its segment when no frame is left in it. */
    method DropOldest()
      requires frames != [] && frames[0].segment in segments
      modifies this`disk, this`frames, this`segments, this`totalBytes
      ensures State() == DropFirst(old(State()))
    {
      var first := frames[0];
      var segment := segments[first.segment];
      var left := segment.(refs := segment.refs - 1);
      assert segments[first.segment := left] - {first.segment} == segments - {first.segment};
      segments := segments[first.segment := left];
      if left.refs <= 0 && active != Some(first.segment) {
        disk := disk - {first.segment};
        segments := segments - {first.segment};
      }
      totalBytes := totalBytes - first.size;
      frames := frames[1..];
    }

    /** Writes a frame at the end of the active segment and remembers where. */
    method WriteFrame(imageId: string, time: int, jpeg: seq<Byte>)
      requires active.Some? && active.value in segments && active.value in disk
      modifies this`disk, this`frames, this`segments, this`totalBytes
      ensures State() == Append(old(State()), Entry(imageId, time, jpeg))
    {
      var segment := segments[active.value];
      disk := disk[active.value := disk[active.value] + jpeg];
      segments := segments[active.value := Segment(segment.refs + 1, segment.size + |jpeg|)];
      frames := frames + [Descriptor(imageId, time, active.value, segment.size, |jpeg|)];
      totalBytes := totalBytes + |jpeg|;
    }

    /** Drops frames from the front until age, count and size fit; deletes segments that lose their last frame. */
    method Prune(now: int)
      requires Valid()
      modifies this`disk, this`frames, this`segments, this`totalBytes
      ensures Valid() && Contents() == Kept(old(Contents()), now, limits)
      ensures AppendOnly(old(disk), nextSegmentId, disk, nextSegmentId)
    {
      var cutoff := now - limits.duration;
      while |frames| > 0
        invariant Valid()
        invariant Kept(Contents(), now, limits) == Kept(old(Contents()), now, limits)
        invariant AppendOnly(old(disk), nextSegmentId, disk, nextSegmentId)
        decreases |frames|
      {
        hide SegmentOk, InOrder, AppendOnly;
        ghost var v := State();
        LiveIsBytes(disk, frames);
        var first := frames[0];
        if first.time >= cutoff && |frames| <= limits.maxFrames && totalBytes <= limits.maxBytes {
          break;
        }
        DropFirstOk(v);
        assert Readable(disk, first);
        DropOldest();
        AppendOnlyTransitive(old(disk), nextSegmentId, v.disk, nextSegmentId, disk, nextSegmentId);
      }
    }

    /** Appends an accepted frame for which there is room and prunes. */
    method AppendAndPrune(imageId: string, time: int, jpeg: seq<Byte>)
      requires Valid() && active.Some? && (|disk[active.value]| + |jpeg| <= segmentMax || disk[active.value] == [])
      modifies this
      ensures Valid() && Contents() == Kept(old(Contents()) + [Entry(imageId, time, jpeg)], time, limits)
      ensures AppendOnly(old(disk), old(nextSegmentId), disk, nextSegmentId)
      ensures lastImageId == imageId && largest == if |jpeg| > old(largest) then |jpeg| else old(largest)
    {
      hide SegmentOk, InOrder, AppendOnly, AllReadable;
      GrowCapacity(State(), if Capacity() < |jpeg| then |jpeg| else Capacity());
      largest := if largest < |jpeg| then |jpeg| else largest;
      AppendOk(State(), Entry(imageId, time, jpeg));
      WriteFrame(imageId, time, jpeg);
      lastImageId := imageId;
      label appended:
      Prune(time);
      AppendOnlyTransitive(old(disk), old(nextSegmentId), old@appended(disk), nextSegmentId, disk, nextSegmentId);
    }

    /** Adds a frame: an accepted and written one is appended and the buffer is pruned to its limits; any other
        leaves the frames as they were. `writeOk` is whether the file system takes the bytes. */
    method AddFrame(imageId: string, time: int, jpeg: seq<Byte>, writeOk: bool) returns (added: bool)
      requires Valid()
      modifies this
      ensures Valid()
      ensures AppendOnly(old(disk), old(nextSegmentId), disk, nextSegmentId)
      ensures added <==> imageId != "" && jpeg != [] && imageId != old(lastImageId) && writeOk
      ensures added ==> Contents() == Kept(old(Contents()) + [Entry(imageId, time, jpeg)], time, limits) && lastImageId == imageId
      ensures !added ==> Contents() == old(Contents()) && lastImageId == old(lastImageId)
      ensures largest == if added && |jpeg| > old(largest) then |jpeg| else old(largest)
      ensures totalBytes == Bytes(Contents()) && DiskBytes(disk, nextSegmentId) <= totalBytes + Capacity()
    {
      Accounting(State());
      if imageId == "" || |jpeg| == 0 {
        return false;
      }
      if imageId == lastImageId {
        return false;
      }
      hide Ok, AppendOnly, AllReadable;
      EnsureActiveSegment(|jpeg|);
      Accounting(State());
      if !writeOk {
        return false;
      }
      label rotated:
      AppendAndPrune(imageId, time, jpeg);
      Accounting(State());
      AppendOnlyTransitive(old(disk), old(nextSegmentId), old@rotated(disk), old@rotated(nextSegmentId), disk, nextSegmentId);
      return true;
    }

    /** A whole sequence of adds, any of whose writes may be refused. */
    method AddFrames(offers: seq<Offer>)
      requires Valid()
      modifies this
      ensures Valid() && Contents() == Rolled(old(Contents()), old(lastImageId), offers, limits)
      ensures AppendOnly(old(disk), old(nextSegmentId), disk, nextSegmentId)
    {
      hide Ok, Kept;
      for i := 0 to |offers|
        invariant Valid()
        invariant Rolled(Contents(), lastImageId, offers[i..], limits) == Rolled(old(Contents()), old(lastImageId), offers, limits)
        invariant AppendOnly(old(disk), old(nextSegmentId), disk, nextSegmentId)
      {
        label before:
        var _ := AddFrame(offers[i].entry.imageId, offers[i].entry.time, offers[i].entry.jpeg, offers[i].writeOk);
        assert offers[i..][1..] == offers[i + 1..] && Entry(offers[i].entry.imageId, offers[i].entry.time, offers[i].entry.jpeg) == offers[i].entry;
        AppendOnlyTransitive(old(disk), old(nextSegmentId), old@before(disk), old@before(nextSegmentId), disk, nextSegmentId);
      }
    }

    /** The kept descriptors whose time lies in the closed range, oldest first; `places` are their positions. */
    method SnapshotRange(start: int, end: int) returns (items: seq<Descriptor>, ghost places: seq<nat>)
      requires Valid()
      ensures items == Select(frames, start, end)
      ensures AllReadable(disk, items) && Entries(disk, items) == SelectEntries(Contents(), start, end)
      ensures forall d :: d in items <==> d in frames && start <= d.time <= end
      ensures Increasing(places) && forall i :: i in places <==> 0 <= i < |frames| && start <= frames[i].time <= end
      ensures |items| == |places| && forall k :: 0 <= k < |items| ==> places[k] < |frames| && items[k] == frames[places[k]]
      ensures forall k :: 0 <= k < |items| ==> places[k] < |frames| && Entries(disk, items)[k] == Contents()[places[k]]
    {
      items, places := Scan(frames, start, end);
      SelectThenRead(disk, frames, start, end);
      PlacedAll(frames, items, places, start, end);
      hide Select, SelectEntries, Ok, Readable;
    }

    /** Reads a frame's bytes without the lock: `later` is the disk at that moment. */
    method ReadFrame(d: Descriptor, later: Disk) returns (entry: Option<Entry>)
      ensures entry == if Readable(later, d) then Some(ReadAt(later, d)) else None
      ensures entry.Some? <==> d.segment in later && d.offset + d.size <= |later[d.segment]|
      ensures entry.Some? ==> entry.value == Entry(d.imageId, d.time, later[d.segment][d.offset..d.offset + d.size])
    {
      if d.segment !in later || d.offset + d.size > |later[d.segment]| {
        return None;
      }
      return Some(Entry(d.imageId, d.time, later[d.segment][d.offset..d.offset + d.size]));
    }

    /** Reads a list of descriptors taken earlier; one that can no longer be read fails the whole list. */
    method LoadFrames(ds: seq<Descriptor>, later: Disk) returns (items: Option<seq<Entry>>)
      ensures items.Some? <==> AllReadable(later, ds)
      ensures items.Some? ==> items.value == Entries(later, ds)
    {
      var read := [];
      for i := 0 to |ds|
        invariant forall k :: 0 <= k < i ==> Readable(later, ds[k])
        invariant |read| == i && forall k :: 0 <= k < i ==> Readable(later, ds[k]) && read[k] == ReadAt(later, ds[k])
      {
        var entry := ReadFrame(ds[i], later);
        if entry.None? {
          return None;
        }
        read := read + [entry.value];
      }
      assert AllReadable(later, ds);
      assert read == Entries(later, ds);
      return Some(read);
    }

    /** Chooses a nearest kept frame under the lock and reads it afterwards, when the disk may have moved on to `later`:
        the frame's own entry, or a failure exactly when its segment is gone. */
    method NearestFrame(target: int, later: Disk, ghost laterNext: nat) returns (found: bool, entry: Option<Entry>)
      requires Valid() && AppendOnly(disk, nextSegmentId, later, laterNext)
      ensures found <==> Contents() != []
      ensures found ==> exists k: nat ::
        Nearest(Times(Contents()), target, k) && entry == if frames[k].segment in later then Some(Contents()[k]) else None
      ensures !found ==> entry == None
    {
      if |frames| == 0 {
        return false, None;
      }
      var best := FindNearest(frames, target, Times(Contents()));
      assert Readable(disk, frames[best]) && SegmentOk(State(), frames[best].segment);
      LateReadIsOriginal(disk, nextSegmentId, later, laterNext, frames[best]);
      hide Ok, SegmentOk, AppendOnly, Nearest;
      entry := ReadFrame(frames[best], later);
      found := true;
      assert entry == if frames[best].segment in later then Some(Contents()[best]) else None;
    }
  }

  /** Kept descriptors that are read later give the same frames, unless one of their segments is gone. */
  lemma LateLoad(v: View, ds: seq<Descriptor>, later: Disk, laterNext: nat)
    requires Ok(v) && AppendOnly(v.disk, v.next, later, laterNext) && forall i :: 0 <= i < |ds| ==> ds[i] in v.frames
    ensures AllReadable(v.disk, ds)
    ensures AllReadable(later, ds) <==> forall i :: 0 <= i < |ds| ==> ds[i].segment in later
    ensures AllReadable(later, ds) ==> Entries(later, ds) == Entries(v.disk, ds)
  {
    forall i | 0 <= i < |ds|
      ensures Readable(v.disk, ds[i])
      ensures ds[i].segment in later ==> Readable(later, ds[i]) && ReadAt(later, ds[i]) == ReadAt(v.disk, ds[i])
    {
      var k :| 0 <= k < |v.frames| && v.frames[k] == ds[i];
      assert Readable(v.disk, v.frames[k]) && SegmentOk(v, ds[i].segment);
      LateReadIsOriginal(v.disk, v.next, later, laterNext, ds[i]);
    }
    if AllReadable(later, ds) {
      SameEntries(later, ds, v.disk, ds);
    }
    hide Ok, AppendOnly, ReadAt;
  }
}
