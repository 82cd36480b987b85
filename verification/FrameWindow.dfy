/** What a camera buffer keeps, said on plain sequences of frames. */
module FrameWindow {
  import opened Common

  datatype Entry = Entry(imageId: string, time: int, jpeg: seq<Byte>)

  datatype Limits = Limits(duration: int, maxFrames: int, maxBytes: int)

  function Bytes(es: seq<Entry>): nat {
    if es == [] then 0 else |es[0].jpeg| + Bytes(es[1..])
  }

  /** The pruning test looks at the age of the oldest frame only. */
  predicate Settled(es: seq<Entry>, now: int, lim: Limits)
    requires es != []
  {
    es[0].time >= now - lim.duration && |es| <= lim.maxFrames && Bytes(es) <= lim.maxBytes
  }

  function Kept(es: seq<Entry>, now: int, lim: Limits): seq<Entry> {
    if es == [] || Settled(es, now, lim) then es else Kept(es[1..], now, lim)
  }

  /** All three limits, with the age limit on every frame. */
  ghost predicate Within(es: seq<Entry>, now: int, lim: Limits) {
    && (forall i :: 0 <= i < |es| ==> es[i].time >= now - lim.duration)
    && |es| <= lim.maxFrames && Bytes(es) <= lim.maxBytes
  }

  ghost predicate Chronological(es: seq<Entry>) {
    forall i, j :: 0 <= i < j < |es| ==> es[i].time <= es[j].time
  }

  /** `r` is a suffix of `es` that meets the limits, and no longer suffix does. */
  ghost predicate LongestWithin(es: seq<Entry>, r: seq<Entry>, now: int, lim: Limits) {
    && |r| <= |es| && r == es[|es| - |r|..]
    && (r == [] || Within(r, now, lim))
    && forall k :: 0 <= k < |es| - |r| ==> !Within(es[k..], now, lim)
  }

  lemma {:induction false} KeptIsLongest(es: seq<Entry>, now: int, lim: Limits)
    requires Chronological(es)
    ensures LongestWithin(es, Kept(es, now, lim), now, lim)
  {
    if es != [] {
      if Settled(es, now, lim) {
        assert es[0..] == es;
      } else {
        KeptIsLongest(es[1..], now, lim);
        var r := Kept(es[1..], now, lim);
        assert !Within(es, now, lim);
        forall k | 0 <= k < |es| - |r|
          ensures !Within(es[k..], now, lim)
        {
          if k == 0 {
            assert es[0..] == es;
          } else {
            assert es[k..] == es[1..][k - 1..];
          }
        }
      }
    }
  }

  lemma {:induction false} BytesAppend(es: seq<Entry>, e: Entry)
    ensures Bytes(es + [e]) == Bytes(es) + |e.jpeg|
  {
    if es == [] {
      assert es + [e] == [e] && [e][1..] == [];
    } else {
      BytesAppend(es[1..], e);
      assert (es + [e])[1..] == es[1..] + [e];
    }
  }

  /** Pruning early never loses what a later prune would keep. */
  lemma {:induction false} KeptTwice(es: seq<Entry>, e: Entry, now: int, later: int, lim: Limits)
    requires now <= later
    ensures Kept(Kept(es, now, lim) + [e], later, lim) == Kept(es + [e], later, lim)
  {
    if es != [] && !Settled(es, now, lim) {
      KeptTwice(es[1..], e, now, later, lim);
      BytesAppend(es, e);
      assert (es + [e])[1..] == es[1..] + [e];
    }
  }

  // ---------------------------------------------------------------- a whole run

  /** Frames without an id or without bytes, and repetitions of the last id, are ignored. */
  predicate Accepts(last: string, e: Entry) {
    e.imageId != "" && e.jpeg != [] && e.imageId != last
  }

  /** A frame offered to the buffer, and whether the file system takes its bytes. */
  datatype Offer = Offer(entry: Entry, writeOk: bool)

  predicate Taken(last: string, offer: Offer) {
    Accepts(last, offer.entry) && offer.writeOk
  }

  /** The frames that are taken, in order; a refused one does not count as the last. */
  function Accepted(last: string, offers: seq<Offer>): seq<Entry>
    decreases |offers|
  {
    if offers == [] then []
    else if Taken(last, offers[0]) then [offers[0].entry] + Accepted(offers[0].entry.imageId, offers[1..])
    else Accepted(last, offers[1..])
  }

  function LastId(last: string, es: seq<Entry>): string {
    if es == [] then last else es[|es| - 1].imageId
  }

  /** One more offer is accepted exactly when it is written, has an id and bytes, and its id is not that of the frame
      accepted last. */
  lemma {:induction false} AcceptedNext(last: string, offers: seq<Offer>, o: Offer)
    ensures Accepted(last, offers + [o]) == Accepted(last, offers) +
      if o.writeOk && o.entry.imageId != "" && |o.entry.jpeg| > 0 && o.entry.imageId != LastId(last, Accepted(last, offers)) then [o.entry] else []
    decreases |offers|
  {
    var more := offers + [o];
    if offers == [] {
      assert more == [o] && more[1..] == [];
    } else {
      assert more[0] == offers[0] && more[1..] == offers[1..] + [o];
      if Taken(last, offers[0]) {
        var id := offers[0].entry.imageId;
        AcceptedNext(id, offers[1..], o);
        assert LastId(last, Accepted(last, offers)) == LastId(id, Accepted(id, offers[1..]));
      } else {
        AcceptedNext(last, offers[1..], o);
      }
    }
  }

  /** The frames kept after offering frames one by one to a buffer that keeps `kept`. */
  function Rolled(kept: seq<Entry>, last: string, offers: seq<Offer>, lim: Limits): seq<Entry>
    decreases |offers|
  {
    if offers == [] then kept
    else if Taken(last, offers[0]) then
      var e := offers[0].entry;
      Rolled(Kept(kept + [e], e.time, lim), e.imageId, offers[1..], lim)
    else Rolled(kept, last, offers[1..], lim)
  }

  lemma NextIsLater(past: seq<Entry>, e: Entry, rest: seq<Entry>)
    requires past != [] && Chronological((past + [e]) + rest)
    ensures past[|past| - 1].time <= e.time
  {
    var all := (past + [e]) + rest;
    assert all[|past| - 1].time <= all[|past|].time;
  }

  lemma {:induction false} RolledFrom(past: seq<Entry>, now: int, last: string, offers: seq<Offer>, lim: Limits)
    requires Chronological(past + Accepted(last, offers))
    requires past != [] ==> past[|past| - 1].time == now
    ensures var all := past + Accepted(last, offers);
            Rolled(Kept(past, now, lim), last, offers, lim)
              == if all == [] then [] else Kept(all, all[|all| - 1].time, lim)
    decreases |offers|
  {
    hide Chronological;
    if offers == [] {
      assert past + Accepted(last, offers) == past;
    } else if Taken(last, offers[0]) {
      var e := offers[0].entry;
      assert past + Accepted(last, offers) == (past + [e]) + Accepted(e.imageId, offers[1..]);
      RolledFrom(past + [e], e.time, e.imageId, offers[1..], lim);
      if past != [] {
        NextIsLater(past, e, Accepted(e.imageId, offers[1..]));
        KeptTwice(past, e, now, e.time, lim);
      }
    } else {
      RolledFrom(past, now, last, offers[1..], lim);
    }
  }

  /** After any run whose accepted frames come in order of time, with any writes refused, the buffer holds the longest suffix of
      all accepted frames that meets the limits at the time of the last one. */
  lemma RolledIsLongest(offers: seq<Offer>, lim: Limits)
    requires Chronological(Accepted("", offers))
    ensures var all := Accepted("", offers);
            if all == [] then Rolled([], "", offers, lim) == []
            else LongestWithin(all, Rolled([], "", offers, lim), all[|all| - 1].time, lim)
  {
    var all := Accepted("", offers);
    assert [] + all == all;
    RolledFrom([], 0, "", offers, lim);
    if all != [] {
      KeptIsLongest(all, all[|all| - 1].time, lim);
    }
  }
}
