/** What the upload thread takes out of a cache: one histogram message for each prong that counts
    anything. */
module SerializerModel {
  import opened CInt
  import opened Buckets
  import opened HistogramModel
  import opened UploadProtocol
  import opened ProngCacheModel

  datatype ClearcutHistogram = ClearcutHistogram(
    instrumentId: InstrumentationKey,
    annotation: seq<byte>,
    counts: seq<nat>)

  /** Fill. */
  function Filled(p: Prong): ClearcutHistogram
    reads p, p.histogram
  {
    ClearcutHistogram(p.instrumentationKey, p.annotation, p.histogram.buckets)
  }

  /** The messages of these prongs, in their order. */
  function Event(prongs: seq<Prong>): seq<ClearcutHistogram>
    reads set i | 0 <= i < |prongs| :: prongs[i], set i | 0 <= i < |prongs| :: prongs[i].histogram
    decreases |prongs|
  {
    if prongs == [] then []
    else
      var p := prongs[|prongs| - 1];
      Event(prongs[..|prongs| - 1]) + if p.Count() > 0 then [Filled(p)] else []
  }

  method WriteHistograms(prongs: seq<Prong>) returns (event: seq<ClearcutHistogram>)
    ensures event == Event(prongs)
  {
    event := [];
    for i := 0 to |prongs|
      invariant event == Event(prongs[..i])
    {
      assert prongs[..i + 1][..i] == prongs[..i];
      if prongs[i].Count() > 0 {
        event := event + [Filled(prongs[i])];
      }
    }
    assert prongs[..|prongs|] == prongs;
  }

  /** How many of the first `k` prongs count anything. */
  function CountedBefore(prongs: seq<Prong>, k: nat): nat
    requires k <= |prongs|
    reads set i | 0 <= i < |prongs| :: prongs[i], set i | 0 <= i < |prongs| :: prongs[i].histogram
    decreases k
  {
    if k == 0 then 0 else CountedBefore(prongs, k - 1) + if prongs[k - 1].Count() > 0 then 1 else 0
  }

  /** There are no other messages, and every prong that counts anything has its own: with its key,
      its annotation and all of its buckets. */
  lemma {:induction false} EveryProngHasItsMessage(prongs: seq<Prong>, i: nat)
    requires i < |prongs|
    ensures |Event(prongs)| == CountedBefore(prongs, |prongs|)
    ensures prongs[i].Count() > 0 ==>
              var k, p := CountedBefore(prongs, i), prongs[i];
              && k < |Event(prongs)|
              && Event(prongs)[k].instrumentId == p.instrumentationKey
              && Event(prongs)[k].annotation == p.annotation
              && Event(prongs)[k].counts == p.histogram.buckets
  {
    var front := prongs[..|prongs| - 1];
    CountedInFront(prongs, |front|);
    if i < |front| {
      EveryProngHasItsMessage(front, i);
      CountedInFront(prongs, i);
    } else if front != [] {
      EveryProngHasItsMessage(front, 0);
    }
    EventOfLast(prongs);
  }

  lemma {:induction false} CountedInFront(prongs: seq<Prong>, k: nat)
    requires k < |prongs|
    ensures CountedBefore(prongs[..|prongs| - 1], k) == CountedBefore(prongs, k)
  {
    if k > 0 { CountedInFront(prongs, k - 1); }
  }

  /** All the counts of all messages. */
  function TotalCounts(event: seq<ClearcutHistogram>): nat {
    if event == [] then 0 else TotalCounts(event[..|event| - 1]) + Total(event[|event| - 1].counts)
  }

  /** All the samples a serializer reads out of these cells. */
  function ReadoutSize(cells: seq<Cell>): nat {
    if cells == [] then 0 else ReadoutSize(cells[..|cells| - 1]) + |cells[|cells| - 1].Readout()|
  }

  /** The counts that are uploaded add up to the samples that the protocol considers uploaded. */
  lemma {:induction false} EventCountsEverySample(prongs: seq<Prong>, cells: seq<Cell>)
    requires |prongs| == |cells|
    requires forall i :: 0 <= i < |prongs| ==> prongs[i].Valid() && cells[i] == prongs[i].Cell()
    ensures TotalCounts(Event(prongs)) == ReadoutSize(cells)
  {
    if prongs != [] {
      hide Prong.Valid, Prong.Cell, Event, TotalCounts, ReadoutSize;
      var last := |prongs| - 1;
      EventCountsEverySample(prongs[..last], cells[..last]);
      LastProngCounts(prongs, cells);
    }
  }

  lemma LastProngCounts(prongs: seq<Prong>, cells: seq<Cell>)
    requires |prongs| == |cells| > 0
    requires prongs[|prongs| - 1].Valid() && cells[|prongs| - 1] == prongs[|prongs| - 1].Cell()
    requires TotalCounts(Event(prongs[..|prongs| - 1])) == ReadoutSize(cells[..|prongs| - 1])
    ensures TotalCounts(Event(prongs)) == ReadoutSize(cells)
  {
    var last := |prongs| - 1;
    var p := prongs[last];
    p.BucketsHoldReadout();
    EventOfLast(prongs);
    ReadoutOfLast(cells);
    hide Prong.Valid, Prong.Cell, Cell.Readout, Total, Event, TotalCounts, ReadoutSize;
    CountsOfOneMore(Event(prongs[..last]), Filled(p));
  }

  lemma EventOfLast(prongs: seq<Prong>)
    requires prongs != []
    ensures var p, front := prongs[|prongs| - 1], Event(prongs[..|prongs| - 1]);
            Event(prongs) == if p.Count() > 0 then front + [Filled(p)] else front
  {
    assert Event(prongs[..|prongs| - 1]) + [] == Event(prongs[..|prongs| - 1]);
  }

  lemma ReadoutOfLast(cells: seq<Cell>)
    requires cells != []
    ensures ReadoutSize(cells) == ReadoutSize(cells[..|cells| - 1]) + |cells[|cells| - 1].Readout()|
  {
  }

  lemma CountsOfOneMore(event: seq<ClearcutHistogram>, h: ClearcutHistogram)
    ensures TotalCounts(event + [h]) == TotalCounts(event) + Total(h.counts)
  {
    assert (event + [h])[..|event|] == event;
  }
}
