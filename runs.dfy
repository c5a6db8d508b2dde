/**
 * The specification of transparency elision: a scanline of palette indices
 * splits into maximal runs of opaque pixels (those whose index is not the
 * transparency key). Only these runs are sent to the display.
 */
module Runs {

  /** The scanline columns [start, start + len). */
  datatype Run = Run(start: nat, len: nat) {
    function End(): nat { start + len }
  }

  /** Length of the longest stretch of opaque pixels of p that starts at column i. */
  function OpaqueLen(p: seq<bv8>, key: bv8, i: nat): (n: nat)
    requires i <= |p|
    ensures i + n <= |p|
    ensures forall j :: i <= j < i + n ==> p[j] != key
    ensures i + n == |p| || p[i + n] == key
    decreases |p| - i
  {
    if i < |p| && p[i] != key then 1 + OpaqueLen(p, key, i + 1) else 0
  }

  /** The opaque runs of p that lie in columns i and beyond, left to right. */
  function RunsFrom(p: seq<bv8>, key: bv8, i: nat): (rs: seq<Run>)
    requires i <= |p|
    ensures forall k :: 0 <= k < |rs| ==> i <= rs[k].start && rs[k].End() <= |p|
    decreases |p| - i
  {
    if i == |p| then []
    else if p[i] == key then RunsFrom(p, key, i + 1)
    else
      var n := OpaqueLen(p, key, i);
      [Run(i, n)] + RunsFrom(p, key, i + n)
  }

  /** The maximal opaque runs of a whole scanline. */
  function OpaqueRuns(p: seq<bv8>, key: bv8): (rs: seq<Run>)
  {
    RunsFrom(p, key, 0)
  }

  /**
   * r is a maximal opaque run of p when scanning starts at column i: it is
   * non-empty, holds no transparent pixel, and cannot be extended on either
   * side (a transparent pixel, column i, or the end of the scanline bounds it).
   */
  ghost predicate MaximalFrom(p: seq<bv8>, key: bv8, i: nat, r: Run)
  {
    && r.len > 0
    && i <= r.start
    && r.End() <= |p|
    && (forall j :: r.start <= j < r.End() ==> p[j] != key)
    && (r.start == i || p[r.start - 1] == key)
    && (r.End() == |p| || p[r.End()] == key)
  }

  /** Every run RunsFrom returns is non-empty, opaque and maximal. */
  lemma {:induction false} RunsFromMaximal(p: seq<bv8>, key: bv8, i: nat)
    requires i <= |p|
    ensures forall k :: 0 <= k < |RunsFrom(p, key, i)| ==> MaximalFrom(p, key, i, RunsFrom(p, key, i)[k])
    decreases |p| - i
  {
    if i == |p| {
    } else if p[i] == key {
      RunsFromMaximal(p, key, i + 1);
    } else {
      var n := OpaqueLen(p, key, i);
      var rest := RunsFrom(p, key, i + n);
      RunsFromMaximal(p, key, i + n);
      forall k | 0 <= k < |rest|
        ensures MaximalFrom(p, key, i, rest[k])
      {
        assert MaximalFrom(p, key, i + n, rest[k]);
        assert p[rest[k].start] != key;
      }
    }
  }

  /** Runs come out left to right, and between two runs there is at least one transparent pixel. */
  lemma {:induction false} RunsFromOrdered(p: seq<bv8>, key: bv8, i: nat)
    requires i <= |p|
    ensures forall k1, k2 :: 0 <= k1 < k2 < |RunsFrom(p, key, i)| ==>
              RunsFrom(p, key, i)[k1].End() < RunsFrom(p, key, i)[k2].start
    decreases |p| - i
  {
    if i == |p| {
    } else if p[i] == key {
      RunsFromOrdered(p, key, i + 1);
    } else {
      var n := OpaqueLen(p, key, i);
      var rs := RunsFrom(p, key, i);
      var rest := RunsFrom(p, key, i + n);
      RunsFromOrdered(p, key, i + n);
      RunsFromMaximal(p, key, i + n);
      forall k1, k2 | 0 <= k1 < k2 < |rs|
        ensures rs[k1].End() < rs[k2].start
      {
        if k1 == 0 {
          var r := rest[k2 - 1];
          assert MaximalFrom(p, key, i + n, r);
          assert p[r.start] != key;
        } else {
          assert rs[k1] == rest[k1 - 1] && rs[k2] == rest[k2 - 1];
        }
      }
    }
  }

  /** Every opaque pixel at column i or beyond lies inside one of the runs. */
  lemma {:induction false} RunsFromCover(p: seq<bv8>, key: bv8, i: nat)
    requires i <= |p|
    ensures forall j :: i <= j < |p| && p[j] != key ==>
              exists k :: 0 <= k < |RunsFrom(p, key, i)| &&
                RunsFrom(p, key, i)[k].start <= j < RunsFrom(p, key, i)[k].End()
    decreases |p| - i
  {
    if i == |p| {
    } else if p[i] == key {
      RunsFromCover(p, key, i + 1);
      assert RunsFrom(p, key, i) == RunsFrom(p, key, i + 1);
      assert forall j :: i <= j < |p| && p[j] != key ==> i + 1 <= j;
    } else {
      var n := OpaqueLen(p, key, i);
      var rs := RunsFrom(p, key, i);
      var rest := RunsFrom(p, key, i + n);
      RunsFromCover(p, key, i + n);
      forall j | i <= j < |p| && p[j] != key
        ensures exists k :: 0 <= k < |rs| && rs[k].start <= j < rs[k].End()
      {
        if j < i + n {
          assert rs[0].start <= j < rs[0].End();
        } else {
          var k :| 0 <= k < |rest| && rest[k].start <= j < rest[k].End();
          assert rs[k + 1] == rest[k];
        }
      }
    }
  }

  /** Skipping transparent pixels does not change the runs still to come. */
  lemma {:induction false} RunsSkipTransparent(p: seq<bv8>, key: bv8, i: nat, e: nat)
    requires i <= e <= |p|
    requires forall j :: i <= j < e ==> p[j] == key
    ensures RunsFrom(p, key, i) == RunsFrom(p, key, e)
    decreases e - i
  {
    if i < e {
      RunsSkipTransparent(p, key, i + 1, e);
    }
  }

  /** A stretch of opaque pixels that ends at a transparent pixel or at the end is the next run. */
  lemma RunsAfterOpaque(p: seq<bv8>, key: bv8, i: nat, e: nat)
    requires i < e <= |p|
    requires forall j :: i <= j < e ==> p[j] != key
    requires e == |p| || p[e] == key
    ensures RunsFrom(p, key, i) == [Run(i, e - i)] + RunsFrom(p, key, e)
  {
  }

  /** A scanline has no runs exactly when every pixel is transparent. */
  lemma NoRunsIffAllTransparent(p: seq<bv8>, key: bv8)
    ensures OpaqueRuns(p, key) == [] <==> forall j :: 0 <= j < |p| ==> p[j] == key
  {
    RunsFromCover(p, key, 0);
    if forall j :: 0 <= j < |p| ==> p[j] == key {
      RunsSkipTransparent(p, key, 0, |p|);
    }
  }
}
