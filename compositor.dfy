/**
 * The scanline compositor (the GIFDraw callback): one decoded GIF scanline
 * of palette indices becomes a sequence of bracketed display writes. Without
 * transparency the whole line is one write; with transparency only the
 * maximal opaque runs are written, each at its own column.
 */
module Compositor {
  import opened DisplayBus
  import opened Runs

  /** Capacity of the staging buffer usTemp. */
  const TEMP_CAPACITY: nat := 320

  /**
   * The decoder's GIFDRAW record for one scanline: frame offsets iX and iY,
   * the row y within the frame, the width, the palette-index bytes, the
   * 256-entry RGB565 palette and the optional transparency key.
   */
  datatype Scanline = Scanline(
    iX: int,
    iY: int,
    y: int,
    width: int,
    pixels: seq<bv8>,
    palette: seq<bv16>,
    hasTransparency: bool,
    transparent: bv8)

  /**
   * What the callback relies on without checking: one index byte per column
   * and a palette entry for every byte value.
   */
  predicate WellFormed(sl: Scanline)
  {
    |sl.palette| == 256 && sl.width == |sl.pixels|
  }

  /**
   * The colours staged at once fit usTemp: without transparency that is the
   * whole line; with transparency it is one opaque stretch at a time, since
   * each gathering pass starts again at the beginning of usTemp.
   */
  predicate FitsStaging(sl: Scanline)
  {
    if sl.hasTransparency then
      forall j :: 0 <= j <= |sl.pixels| ==> OpaqueLen(sl.pixels, sl.transparent, j) <= TEMP_CAPACITY
    else
      sl.width <= TEMP_CAPACITY
  }

  /** Palette indices translated to RGB565 colours. */
  function Resolve(palette: seq<bv16>, ps: seq<bv8>): (cs: seq<bv16>)
    requires |palette| == 256
    ensures |cs| == |ps|
    ensures forall i :: 0 <= i < |ps| ==> cs[i] == palette[ps[i] as int]
  {
    seq(|ps|, i requires 0 <= i < |ps| => palette[ps[i] as int])
  }

  /** The absolute display row of the scanline. */
  function Row(sl: Scanline): (row: int)
  {
    sl.iY + sl.y
  }

  /** The write for one opaque run: a one-pixel-high window at the run's absolute column. */
  function RunWrite(sl: Scanline, r: Run): (wr: Write)
    requires WellFormed(sl) && r.End() <= |sl.pixels|
  {
    Write(sl.iX + r.start, Row(sl), r.len, 1, Resolve(sl.palette, sl.pixels[r.start..r.End()]))
  }

  function RunWrites(sl: Scanline, rs: seq<Run>): (ws: seq<Write>)
    requires WellFormed(sl)
    requires forall k :: 0 <= k < |rs| ==> rs[k].End() <= |sl.pixels|
    ensures |ws| == |rs|
    ensures forall k :: 0 <= k < |rs| ==> ws[k] == RunWrite(sl, rs[k])
  {
    if rs == [] then [] else [RunWrite(sl, rs[0])] + RunWrites(sl, rs[1..])
  }

  /** The writes the callback must issue for a scanline. */
  function ScanlineWrites(sl: Scanline): (ws: seq<Write>)
    requires WellFormed(sl)
  {
    if sl.hasTransparency then
      RunWrites(sl, OpaqueRuns(sl.pixels, sl.transparent))
    else
      [Write(sl.iX, Row(sl), sl.width, 1, Resolve(sl.palette, sl.pixels))]
  }

  /** Column col (absolute) lies inside the window of wr. */
  predicate Covers(wr: Write, col: int)
  {
    wr.x <= col < wr.x + wr.w
  }

  /**
   * The inner loop that gathers opaque pixels: starting at byte s0 it
   * translates pixels into usTemp until it meets the transparency key or the
   * end of the line, backing up over the key so that the next loop sees it.
   * The sentinel c starts as key - 1 in uint8_t arithmetic, so it differs from
   * the key even when the key is 0.
   */
  method GatherOpaque(sl: Scanline, usTemp: array<bv16>, s0: nat) returns (s: nat, iCount: nat)
    requires WellFormed(sl) && usTemp.Length == TEMP_CAPACITY
    requires s0 <= |sl.pixels| && OpaqueLen(sl.pixels, sl.transparent, s0) <= TEMP_CAPACITY
    modifies usTemp
    ensures s0 <= s <= |sl.pixels| && iCount == s - s0
    ensures forall j :: s0 <= j < s ==> sl.pixels[j] != sl.transparent
    ensures s == |sl.pixels| || sl.pixels[s] == sl.transparent
    ensures iCount == OpaqueLen(sl.pixels, sl.transparent, s0)
    ensures usTemp[..iCount] == Resolve(sl.palette, sl.pixels[s0..s])
    ensures usTemp[iCount..] == old(usTemp[iCount..])
  {
    var p, pEnd, ucTransparent := sl.pixels, |sl.pixels|, sl.transparent;
    s := s0;
    iCount := 0;
    var c: bv8 := ucTransparent - 1;
    var d := 0;
    while c != ucTransparent && s < pEnd
      invariant s0 <= s <= pEnd
      invariant d == iCount == s - s0
      invariant forall j :: s0 <= j < s ==> p[j] != ucTransparent
      invariant s - s0 <= OpaqueLen(p, ucTransparent, s0)
      invariant forall j :: 0 <= j < d ==> usTemp[j] == sl.palette[p[s0 + j] as int]
      invariant forall j :: d <= j < usTemp.Length ==> usTemp[j] == old(usTemp[j])
      invariant c == ucTransparent ==> s < pEnd && p[s] == ucTransparent
      decreases pEnd - s, if c == ucTransparent then 0 else 1
    {
      c := p[s];
      s := s + 1;
      if c == ucTransparent {
        s := s - 1;  // step back so that the skipping loop sees the key
      } else {
        usTemp[d] := sl.palette[c as int];
        d := d + 1;
        iCount := iCount + 1;
      }
    }
    assert usTemp[..iCount] == Resolve(sl.palette, p[s0..s]);
  }

  /**
   * The inner loop that skips a run of transparent pixels from byte s0,
   * advancing the column x by one per pixel skipped.
   */
  method SkipTransparent(sl: Scanline, s0: nat, x0: int) returns (s: nat, x: int)
    requires s0 <= |sl.pixels|
    ensures s0 <= s <= |sl.pixels| && x == x0 + (s - s0)
    ensures forall j :: s0 <= j < s ==> sl.pixels[j] == sl.transparent
    ensures s == |sl.pixels| || sl.pixels[s] != sl.transparent
  {
    var p, pEnd, ucTransparent := sl.pixels, |sl.pixels|, sl.transparent;
    s, x := s0, x0;
    var c := ucTransparent;
    while c == ucTransparent && s < pEnd
      invariant s0 <= s <= pEnd
      invariant x == x0 + (s - s0)
      invariant forall j :: s0 <= j < s ==> p[j] == ucTransparent
      invariant c != ucTransparent ==> s < pEnd && p[s] != ucTransparent
      decreases pEnd - s, if c == ucTransparent then 1 else 0
    {
      c := p[s];
      s := s + 1;
      if c == ucTransparent {
        x := x + 1;
      } else {
        s := s - 1;
      }
    }
  }

  /** One bracketed write of the iCount colours gathered in usTemp, at column x of the line. */
  method FlushRun(tft: Panel, sl: Scanline, usTemp: array<bv16>, x: nat, iCount: nat)
    requires WellFormed(sl) && x + iCount <= |sl.pixels| && iCount <= usTemp.Length
    requires usTemp[..iCount] == Resolve(sl.palette, sl.pixels[x..x + iCount])
    modifies tft
    ensures tft.trace == old(tft.trace) + Bracket(RunWrite(sl, Run(x, iCount)))
  {
    tft.StartWrite();
    tft.SetAddrWindow(sl.iX + x, sl.iY + sl.y, iCount, 1);
    tft.WritePixels(usTemp, iCount);
    tft.EndWrite();
  }

  /**
   * The callback itself. The transparency branch keeps the source's shape:
   * an outer loop over the line that alternates the gathering loop, one
   * bracketed write for a non-empty gathered run, and the skipping loop. The
   * pointer s is an index into the pixel bytes.
   */
  method Draw(tft: Panel, sl: Scanline)
    requires WellFormed(sl) && FitsStaging(sl)
    modifies tft
    ensures tft.trace == old(tft.trace) + Emit(ScanlineWrites(sl))
  {
    var usTemp := new bv16[TEMP_CAPACITY];
    if sl.hasTransparency {
      DrawTransparent(tft, sl, usTemp);
    } else {
      DrawOpaque(tft, sl, usTemp);
    }
  }

  /** The events still owed for the runs that start at byte s or later. */
  ghost function Pending(sl: Scanline, s: nat): seq<Event>
    requires WellFormed(sl) && s <= |sl.pixels|
  {
    Emit(RunWrites(sl, RunsFrom(sl.pixels, sl.transparent, s)))
  }

  /** The runs still owed from an opaque stretch [start, e) begin with that stretch. */
  lemma PendingAfterOpaque(sl: Scanline, start: nat, e: nat)
    requires WellFormed(sl) && start < e <= |sl.pixels|
    requires forall j :: start <= j < e ==> sl.pixels[j] != sl.transparent
    requires e == |sl.pixels| || sl.pixels[e] == sl.transparent
    ensures Pending(sl, start) == Bracket(RunWrite(sl, Run(start, e - start))) + Pending(sl, e)
  {
    var p, key := sl.pixels, sl.transparent;
    RunsAfterOpaque(p, key, start, e);
    var rs := RunsFrom(p, key, start);
    assert rs[1..] == RunsFrom(p, key, e);
    var ws := RunWrites(sl, rs);
    assert ws[1..] == RunWrites(sl, RunsFrom(p, key, e));
  }

  /**
   * Flushing the opaque stretch [start, e) as one write pays off the first
   * write still owed: what remains owed afterwards is the runs from e on.
   */
  lemma FlushPaysFirstRun(sl: Scanline, start: nat, e: nat, before: seq<Event>, after: seq<Event>)
    requires WellFormed(sl) && start < e <= |sl.pixels|
    requires forall j :: start <= j < e ==> sl.pixels[j] != sl.transparent
    requires e == |sl.pixels| || sl.pixels[e] == sl.transparent
    requires after == before + Bracket(RunWrite(sl, Run(start, e - start)))
    ensures before + Pending(sl, start) == after + Pending(sl, e)
  {
    PendingAfterOpaque(sl, start, e);
  }

  /** Skipping transparent pixels leaves the owed writes as they were. */
  lemma PendingAfterTransparent(sl: Scanline, start: nat, e: nat)
    requires WellFormed(sl) && start <= e <= |sl.pixels|
    requires forall j :: start <= j < e ==> sl.pixels[j] == sl.transparent
    ensures Pending(sl, start) == Pending(sl, e)
  {
    RunsSkipTransparent(sl.pixels, sl.transparent, start, e);
  }

  /** The transparency branch: one write per maximal opaque run. */
  method DrawTransparent(tft: Panel, sl: Scanline, usTemp: array<bv16>)
    requires WellFormed(sl) && sl.hasTransparency && usTemp.Length == TEMP_CAPACITY
    requires forall j :: 0 <= j <= |sl.pixels| ==> OpaqueLen(sl.pixels, sl.transparent, j) <= TEMP_CAPACITY
    modifies tft, usTemp
    ensures tft.trace == old(tft.trace) + Emit(ScanlineWrites(sl))
  {
    var s := 0;
    var x := 0;
    var iCount := 0;
    ghost var owed := tft.trace + Pending(sl, 0);
    while x < sl.width
      invariant 0 <= s <= |sl.pixels|
      invariant x == s
      invariant iCount == 0
      invariant owed == tft.trace + Pending(sl, s)
      decreases sl.width - x
    {
      ghost var start := s;
      s, iCount := GatherOpaque(sl, usTemp, s);
      if iCount != 0 {
        ghost var before := tft.trace;
        FlushRun(tft, sl, usTemp, x, iCount);
        FlushPaysFirstRun(sl, start, s, before, tft.trace);
        x := x + iCount;
        iCount := 0;
      }
      // then skip the transparent stretch that follows
      ghost var mid := s;
      s, x := SkipTransparent(sl, s, x);
      PendingAfterTransparent(sl, mid, s);
      assert start < s;
    }
    // every byte of the line has been consumed
    assert x == sl.width;
    assert Pending(sl, s) == [];
    assert tft.trace == owed;
  }


  /** The branch without transparency: the whole line in one write. */
  method DrawOpaque(tft: Panel, sl: Scanline, usTemp: array<bv16>)
    requires WellFormed(sl) && !sl.hasTransparency && sl.width <= TEMP_CAPACITY && usTemp.Length == TEMP_CAPACITY
    modifies tft, usTemp
    ensures tft.trace == old(tft.trace) + Emit(ScanlineWrites(sl))
  {
    var p := sl.pixels;
    var x := 0;
    // resolve every index through the palette
    while x < sl.width
      invariant 0 <= x <= sl.width
      invariant usTemp[..x] == Resolve(sl.palette, p[..x])
      invariant tft.trace == old(tft.trace)
    {
      usTemp[x] := sl.palette[p[x] as int];
      x := x + 1;
    }
    assert p[..sl.width] == p;
    ghost var wr := Write(sl.iX, sl.iY + sl.y, sl.width, 1, Resolve(sl.palette, p));
    assert Emit([wr]) == Bracket(wr);
    tft.StartWrite();
    tft.SetAddrWindow(sl.iX, sl.iY + sl.y, sl.width, 1);
    tft.WritePixels(usTemp, sl.width);
    tft.EndWrite();
  }

  // Properties of the writes a scanline produces.

  /** Without transparency the callback issues exactly one write: the whole line, every pixel through the palette. */
  lemma OpaqueLineIsOneWrite(sl: Scanline, ws: seq<Write>)
    requires WellFormed(sl) && !sl.hasTransparency && ws == ScanlineWrites(sl)
    ensures |ws| == 1
    ensures ws[0].x == sl.iX && ws[0].y == sl.iY + sl.y && ws[0].w == sl.width && ws[0].h == 1
    ensures |ws[0].colors| == sl.width
    ensures forall i :: 0 <= i < sl.width ==> ws[0].colors[i] == sl.palette[sl.pixels[i] as int]
  {
  }

  /**
   * With transparency every write is one maximal opaque run: a non-empty,
   * one-pixel-high window on row iY + y whose columns hold no transparent
   * pixel and are bounded by a transparent pixel or an end of the line on
   * each side; the writes go left to right with a gap between any two.
   */
  lemma TransparentWritesAreMaximalRuns(sl: Scanline, ws: seq<Write>)
    requires WellFormed(sl) && sl.hasTransparency && ws == ScanlineWrites(sl)
    ensures forall k :: 0 <= k < |ws| ==>
              && ws[k].y == sl.iY + sl.y
              && ws[k].h == 1
              && 0 < ws[k].w == |ws[k].colors|
              && sl.iX <= ws[k].x
              && ws[k].x + ws[k].w <= sl.iX + sl.width
              && (forall i :: ws[k].x - sl.iX <= i < ws[k].x - sl.iX + ws[k].w ==> sl.pixels[i] != sl.transparent)
              && (ws[k].x == sl.iX || sl.pixels[ws[k].x - sl.iX - 1] == sl.transparent)
              && (ws[k].x + ws[k].w == sl.iX + sl.width || sl.pixels[ws[k].x - sl.iX + ws[k].w] == sl.transparent)
    ensures forall k1, k2 :: 0 <= k1 < k2 < |ws| ==> ws[k1].x + ws[k1].w < ws[k2].x
  {
    var rs := OpaqueRuns(sl.pixels, sl.transparent);
    RunsFromMaximal(sl.pixels, sl.transparent, 0);
    RunsFromOrdered(sl.pixels, sl.transparent, 0);
    forall k | 0 <= k < |ws|
      ensures ws[k].x - sl.iX == rs[k].start && ws[k].w == rs[k].len == |ws[k].colors|
    {
      assert ws[k] == RunWrite(sl, rs[k]);
    }
  }

  /**
   * With transparency the columns written are exactly the opaque ones: an
   * opaque column i is inside some write's window at absolute column iX + i,
   * and a transparent column is inside none.
   */
  lemma WrittenColumnsAreOpaqueColumns(sl: Scanline, ws: seq<Write>)
    requires WellFormed(sl) && sl.hasTransparency && ws == ScanlineWrites(sl)
    ensures forall i :: 0 <= i < sl.width ==>
              (sl.pixels[i] != sl.transparent <==> exists k :: 0 <= k < |ws| && Covers(ws[k], sl.iX + i))
  {
    var p, key := sl.pixels, sl.transparent;
    var rs := OpaqueRuns(p, key);
    RunsFromCover(p, key, 0);
    RunsFromMaximal(p, key, 0);
    forall i | 0 <= i < sl.width
      ensures sl.pixels[i] != sl.transparent <==> exists k :: 0 <= k < |ws| && Covers(ws[k], sl.iX + i)
    {
      if p[i] != key {
        var k :| 0 <= k < |rs| && rs[k].start <= i < rs[k].End();
        assert ws[k] == RunWrite(sl, rs[k]);
        assert Covers(ws[k], sl.iX + i);
      } else {
        forall k | 0 <= k < |ws|
          ensures !Covers(ws[k], sl.iX + i)
        {
          assert ws[k] == RunWrite(sl, rs[k]);
          assert MaximalFrom(p, key, 0, rs[k]);
        }
      }
    }
  }

  /** Every written pixel carries the palette colour of the column it lands on. */
  lemma WrittenColoursFollowPalette(sl: Scanline, ws: seq<Write>)
    requires WellFormed(sl) && sl.hasTransparency && ws == ScanlineWrites(sl)
    ensures forall k, i :: 0 <= k < |ws| && 0 <= i < sl.width && Covers(ws[k], sl.iX + i) ==>
              ws[k].colors[sl.iX + i - ws[k].x] == sl.palette[sl.pixels[i] as int]
  {
    var p, key := sl.pixels, sl.transparent;
    var rs := OpaqueRuns(p, key);
    forall k, i | 0 <= k < |ws| && 0 <= i < sl.width && Covers(ws[k], sl.iX + i)
      ensures ws[k].colors[sl.iX + i - ws[k].x] == sl.palette[p[i] as int]
    {
      var r := rs[k];
      assert ws[k] == RunWrite(sl, r);
      assert p[r.start..r.End()][i - r.start] == p[i];
    }
  }

  /** No display column is written twice while drawing one scanline. */
  lemma ColumnsWrittenOnce(sl: Scanline, ws: seq<Write>)
    requires WellFormed(sl) && sl.hasTransparency && ws == ScanlineWrites(sl)
    ensures forall k1, k2, col :: 0 <= k1 < |ws| && 0 <= k2 < |ws| && Covers(ws[k1], col) && Covers(ws[k2], col) ==>
              k1 == k2
  {
    var rs := OpaqueRuns(sl.pixels, sl.transparent);
    RunsFromOrdered(sl.pixels, sl.transparent, 0);
    forall k1, k2, col | 0 <= k1 < |ws| && 0 <= k2 < |ws| && Covers(ws[k1], col) && Covers(ws[k2], col)
      ensures k1 == k2
    {
      assert ws[k1] == RunWrite(sl, rs[k1]);
      assert ws[k2] == RunWrite(sl, rs[k2]);
    }
  }

  /** With transparency, a line produces no write at all exactly when every pixel is transparent. */
  lemma NoWritesIffAllTransparent(sl: Scanline)
    requires WellFormed(sl) && sl.hasTransparency
    ensures ScanlineWrites(sl) == [] <==> forall i :: 0 <= i < sl.width ==> sl.pixels[i] == sl.transparent
  {
    NoRunsIffAllTransparent(sl.pixels, sl.transparent);
  }

  /**
   * A non-empty line with no transparent pixel is drawn the same way by both
   * branches: the transparency branch then issues the one full-line write of
   * the fast path.
   */
  lemma OpaqueLineSameInBothBranches(sl: Scanline)
    requires WellFormed(sl) && sl.width > 0
    requires forall i :: 0 <= i < sl.width ==> sl.pixels[i] != sl.transparent
    ensures ScanlineWrites(sl.(hasTransparency := true)) == ScanlineWrites(sl.(hasTransparency := false))
  {
    var p := sl.pixels;
    RunsAfterOpaque(p, sl.transparent, 0, |p|);
    assert p[0..|p|] == p;
  }

  /**
   * A worked scanline: indices A A key B B B key key C with frame offset
   * (10, 5) on row 3 give three writes on row 8, of 2 pixels at column 10,
   * 3 pixels at column 13 and 1 pixel at column 18.
   */
  lemma RunSplittingExample(sl: Scanline)
    requires |sl.palette| == 256 && sl.hasTransparency && sl.transparent == 0
    requires sl.iX == 10 && sl.iY == 5 && sl.y == 3 && sl.width == 9
    requires sl.pixels == [1, 1, 0, 2, 2, 2, 0, 0, 3]
    ensures ScanlineWrites(sl) == [
              Write(10, 8, 2, 1, [sl.palette[1], sl.palette[1]]),
              Write(13, 8, 3, 1, [sl.palette[2], sl.palette[2], sl.palette[2]]),
              Write(18, 8, 1, 1, [sl.palette[3]])]
  {
    var p, pal := sl.pixels, sl.palette;
    ExampleRuns(p);
    var rs := OpaqueRuns(p, 0);
    var ws := ScanlineWrites(sl);
    assert ws[0] == RunWrite(sl, rs[0]) && p[0..2] == [1, 1];
    assert Resolve(pal, [1, 1]) == [pal[1], pal[1]];
    assert ws[1] == RunWrite(sl, rs[1]) && p[3..6] == [2, 2, 2];
    assert Resolve(pal, [2, 2, 2]) == [pal[2], pal[2], pal[2]];
    assert ws[2] == RunWrite(sl, rs[2]) && p[8..9] == [3];
    assert Resolve(pal, [3]) == [pal[3]];
  }

  /** The runs of the worked scanline. */
  lemma ExampleRuns(p: seq<bv8>)
    requires p == [1, 1, 0, 2, 2, 2, 0, 0, 3]
    ensures OpaqueRuns(p, 0) == [Run(0, 2), Run(3, 3), Run(8, 1)]
  {
    RunsAfterOpaque(p, 0, 8, 9);
    RunsSkipTransparent(p, 0, 6, 8);
    RunsAfterOpaque(p, 0, 3, 6);
    RunsSkipTransparent(p, 0, 2, 3);
    RunsAfterOpaque(p, 0, 0, 2);
  }
}
