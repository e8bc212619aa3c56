/**
 * Random mode of `extract_frames` (annolid/data/videos.py:239-253): a
 * reservoir of `num_frames` slots kept in a list that is changed in place.
 * The random draw `random.randrange(ki + 1)` is a parameter.
 */
module Reservoir {

  import opened Wrappers
  import opened Records

  /**
   * One successfully read frame offered to the reservoir `slots` after `ki`
   * earlier ones, with capacity `k` and draw `j`: appended with tag `ki` while
   * the list is short, otherwise written over slot `j` with tag `j` when
   * `j < k`, otherwise dropped.
   */
  function Step<P>(slots: seq<Record<P>>, ki: nat, k: int, f: Frame<P>, j: nat): (r: seq<Record<P>>)
    ensures |slots| < k ==> |r| == |slots| + 1 && r[..|slots|] == slots && r[|slots|] == Record(ki, f.number, f.pixels)
    ensures |slots| >= k ==> |r| == |slots|
    ensures |slots| >= k ==> forall i :: 0 <= i < |slots| && i != j ==> r[i] == slots[i]
    ensures |slots| >= k && j < k ==> r[j] == Record(j, f.number, f.pixels)
  {
    if |slots| < k then slots + [Record(ki, f.number, f.pixels)]
    else if j < k then slots[j := Record(j, f.number, f.pixels)]
    else slots
  }

  /** The reservoir after offering every frame of `stream`, the i-th with draw `draws[i]`. */
  function Sample<P>(stream: seq<Frame<P>>, draws: seq<nat>, k: int): (r: seq<Record<P>>)
    requires |draws| == |stream|
    ensures |r| <= |stream|
    ensures k <= 0 ==> r == []
    decreases |stream|
  {
    if stream == [] then []
    else
      var n := |stream| - 1;
      Step(Sample(stream[..n], draws[..n], k), n, k, stream[n], draws[n])
  }

  /** The reservoir holds min(k, frames offered) records, and slot i always carries tag i. */
  lemma {:induction false} SampleShape<P>(stream: seq<Frame<P>>, draws: seq<nat>, k: int)
    requires |draws| == |stream|
    ensures |Sample(stream, draws, k)| == Min(Max(k, 0), |stream|)
    ensures forall i :: 0 <= i < |Sample(stream, draws, k)| ==> Sample(stream, draws, k)[i].key == i
    decreases |stream|
  {
    if stream != [] {
      var n := |stream| - 1;
      SampleShape(stream[..n], draws[..n], k);
    }
  }

  /** Every record in the reservoir is a frame of the stream, pixels included. */
  lemma {:induction false} SampleFromStream<P>(stream: seq<Frame<P>>, draws: seq<nat>, k: int)
    requires |draws| == |stream|
    ensures forall r :: r in Sample(stream, draws, k) ==> Frame(r.number, r.pixels) in stream
    decreases |stream|
  {
    if stream != [] {
      var n := |stream| - 1;
      SampleFromStream(stream[..n], draws[..n], k);
      forall r | r in Sample(stream, draws, k)
        ensures Frame(r.number, r.pixels) in stream
      {
        if r in Sample(stream[..n], draws[..n], k) {
          assert Frame(r.number, r.pixels) in stream[..n];
        } else {
          assert r.number == stream[n].number && r.pixels == stream[n].pixels;
        }
      }
    }
  }

  /** While no more than k frames have arrived, the reservoir is exactly those frames, in arrival order. */
  lemma {:induction false} SampleFillsInArrivalOrder<P>(stream: seq<Frame<P>>, draws: seq<nat>, k: int)
    requires |draws| == |stream| && |stream| <= k
    ensures |Sample(stream, draws, k)| == |stream|
    ensures forall i :: 0 <= i < |stream| ==>
              Sample(stream, draws, k)[i] == Record(i, stream[i].number, stream[i].pixels)
    decreases |stream|
  {
    if stream != [] {
      var n := |stream| - 1;
      SampleFillsInArrivalOrder(stream[..n], draws[..n], k);
    }
  }

  /** With increasing frame numbers no frame sits in two slots, so no two output files share a name. */
  lemma {:induction false} SampleDistinct<P>(stream: seq<Frame<P>>, draws: seq<nat>, k: int)
    requires |draws| == |stream| && Increasing(stream)
    ensures DistinctNumbers(Sample(stream, draws, k))
    decreases |stream|
  {
    if stream != [] {
      var n := |stream| - 1;
      var before := Sample(stream[..n], draws[..n], k);
      SampleDistinct(stream[..n], draws[..n], k);
      SampleFromStream(stream[..n], draws[..n], k);
      forall r | r in before
        ensures r.number < stream[n].number
      {
        var f := Frame(r.number, r.pixels);
        assert f in stream[..n];
        var i :| 0 <= i < n && stream[i] == f;
      }
    }
  }

  /** The `keeped_frames` list of random mode, with the counter `ki` beside it. */
  class Sampler<P> {
    const capacity: int
    var slots: seq<Record<P>>
    var ki: nat
    ghost var stream: seq<Frame<P>>
    ghost var draws: seq<nat>

    ghost predicate Valid()
      reads this
    {
      |stream| == ki && |draws| == ki && slots == Sample(stream, draws, capacity)
    }

    constructor (capacity: int)
      ensures Valid() && this.capacity == capacity
      ensures ki == 0 && stream == [] && draws == [] && slots == []
    {
      this.capacity := capacity;
      slots, ki := [], 0;
      stream, draws := [], [];
    }

    /** Offers one successfully read frame; `j` is the draw from [0, ki]. */
    method Offer(number: nat, pixels: P, j: nat)
      requires Valid() && j <= ki
      modifies this
      ensures Valid() && ki == old(ki) + 1
      ensures stream == old(stream) + [Frame(number, pixels)] && draws == old(draws) + [j]
      ensures slots == Step(old(slots), old(ki), capacity, Frame(number, pixels), j)
    {
      if |slots| < capacity {
        slots := slots + [Record(ki, number, pixels)];
      } else if j < capacity {
        slots := slots[j := Record(j, number, pixels)];
      }
      stream := stream + [Frame(number, pixels)];
      draws := draws + [j];
      ki := ki + 1;
      assert stream[..|stream| - 1] == old(stream);
      assert draws[..|draws| - 1] == old(draws);
    }
  }
}
