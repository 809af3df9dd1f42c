/**
  The grid editor's image writer: `Grid::append_pixels` (the run-length
  encoder) and the byte buffer `save_to_file` builds from the header and the
  runs.
 */
module GridEncoder {
  import opened Palette
  import opened Pixels
  import opened Grids
  import opened TifRuns

  /** The colours of one row of pixels. */
  function RowColors(row: seq<Pixel>): (cs: seq<Color>)
    ensures |cs| == |row|
    ensures forall j :: 0 <= j < |row| ==> cs[j] == row[j].color
  {
    seq(|row|, j requires 0 <= j < |row| => row[j].color)
  }

  /** The colours of a pixel matrix, row by row. */
  function ColorRows(rows: seq<seq<Pixel>>): (m: seq<seq<Color>>)
    ensures |m| == |rows|
    ensures forall i :: 0 <= i < |rows| ==> m[i] == RowColors(rows[i])
  {
    seq(|rows|, i requires 0 <= i < |rows| => RowColors(rows[i]))
  }

  /** The row-major scan of a pixel matrix's colours. */
  function Scan(rows: seq<seq<Pixel>>): seq<Color>
    decreases |rows|
  {
    if |rows| == 0 then [] else Scan(rows[..|rows| - 1]) + RowColors(rows[|rows| - 1])
  }

  /** Every row has `w` cells. */
  predicate Rectangular(rows: seq<seq<Pixel>>, w: nat) {
    forall i :: 0 <= i < |rows| ==> |rows[i]| == w
  }

  /** A rectangular scan has `|rows| * w` cells. */
  lemma {:induction false} ScanLength(rows: seq<seq<Pixel>>, w: nat)
    requires Rectangular(rows, w)
    ensures |Scan(rows)| == |rows| * w
    decreases |rows|
  {
    if |rows| > 0 {
      ScanLength(rows[..|rows| - 1], w);
    }
  }

  /** Cutting a rectangular scan into rows of `w` cells gives the matrix back. */
  lemma {:induction false} ScanRows(rows: seq<seq<Pixel>>, w: nat)
    requires Rectangular(rows, w)
    ensures |Scan(rows)| == |rows| * w
    ensures Rows(Scan(rows), w, |rows|) == ColorRows(rows)
    decreases |rows|
  {
    ScanLength(rows, w);
    if |rows| > 0 {
      var init := rows[..|rows| - 1];
      var s := Scan(rows);
      ScanLength(init, w);
      ScanRows(init, w);
      assert |init| * w == |s| - w;
      assert s[..|s| - w] == Scan(init);
      assert s[|s| - w..] == RowColors(rows[|rows| - 1]);
      assert ColorRows(rows) == ColorRows(init) + [RowColors(rows[|rows| - 1])];
    }
  }

  /** Scanning one more row appends that row's colours. */
  lemma ScanSnoc(rows: seq<seq<Pixel>>, i: nat)
    requires i < |rows|
    ensures Scan(rows[..i + 1]) == Scan(rows[..i]) + RowColors(rows[i])
  {
    assert rows[..i + 1][..i] == rows[..i];
  }

  /** One more copy of a colour at the end of a run. */
  lemma RepeatSnoc(c: Color, n: nat)
    ensures Repeat(c, n + 1) == Repeat(c, n) + [c]
  {
  }

  /** Pairs already emitted relate to the run still pending: a pending run,
      or a flushed full run, of the same token as the last pair only ever
      follows a count of 255; before anything is flushed the run is black. */
  predicate PendingFits(e: seq<byte>, current: Color, pixels: nat) {
    && (pixels == 0 ==>
         (|e| == 0 && current == Black) ||
         (|e| >= 2 && e[|e| - 2] == TifToken(current) && e[|e| - 1] == 255))
    && (pixels > 0 && |e| >= 2 && e[|e| - 2] == TifToken(current) ==> e[|e| - 1] == 255)
  }

  /** The encoder's loop invariant: the pairs emitted so far, followed by the
      pending run of `pixels` cells of `current`, expand to the colours
      scanned so far; the pairs are well formed and maximal. */
  predicate EncoderInv(e: seq<byte>, current: Color, pixels: nat, scanned: seq<Color>) {
    && pixels < 255
    && WellFormed(e) && Maximal(e)
    && PendingFits(e, current, pixels)
    && Expand(e) + Repeat(current, pixels) == scanned
  }

  /** Appending a pair whose token differs from the last one, or follows a
      full run, keeps the stream maximal. */
  lemma MaximalSnoc(e: seq<byte>, t: byte, n: byte)
    requires |e| % 2 == 0 && Maximal(e)
    requires |e| >= 2 && e[|e| - 2] == t ==> e[|e| - 1] == 255
    ensures Maximal(e + [t, n])
  {
    var s := e + [t, n];
    forall k | 0 <= k && k + 3 < |s| && k % 2 == 0 && s[k] == s[k + 2]
      ensures s[k + 1] == 255
    {
      if k + 3 == |s| - 1 {
        assert k == |e| - 2;
      } else {
        assert s[k] == e[k] && s[k + 1] == e[k + 1] && s[k + 2] == e[k + 2];
      }
    }
  }

  /** Appending a pair of a colour token and a positive count keeps the
      stream well formed. */
  lemma WellFormedSnoc(e: seq<byte>, c: Color, n: byte)
    requires WellFormed(e) && n >= 1
    ensures WellFormed(e + [TifToken(c), n])
  {
    TokenRoundTrip(c);
    var s := e + [TifToken(c), n];
    assert forall k :: 0 <= k < |e| ==> s[k] == e[k];
  }

  /** Flushing the pending run keeps the stream well formed and maximal. */
  lemma Flush(e: seq<byte>, current: Color, pixels: byte)
    requires WellFormed(e) && Maximal(e) && PendingFits(e, current, pixels)
    requires pixels > 0
    ensures WellFormed(e + [TifToken(current), pixels])
    ensures Maximal(e + [TifToken(current), pixels])
    ensures Expand(e + [TifToken(current), pixels]) == Expand(e) + Repeat(current, pixels)
  {
    ExpandSnoc(e, current, pixels);
    WellFormedSnoc(e, current, pixels);
    MaximalSnoc(e, TifToken(current), pixels);
  }

  /** A cell of the pending run's colour that does not fill the run. */
  lemma ExtendRun(e: seq<byte>, current: Color, pixels: nat, scanned: seq<Color>)
    requires EncoderInv(e, current, pixels, scanned)
    requires pixels + 1 < 255
    ensures EncoderInv(e, current, pixels + 1, scanned + [current])
  {
    RepeatSnoc(current, pixels);
  }

  /** A cell of the pending run's colour that brings it to 255: the run is
      flushed and the count restarts at zero. */
  lemma FillRun(e: seq<byte>, current: Color, pixels: nat, scanned: seq<Color>)
    requires EncoderInv(e, current, pixels, scanned)
    requires pixels + 1 == 255
    ensures EncoderInv(e + [TifToken(current), 255], current, 0, scanned + [current])
  {
    RepeatSnoc(current, pixels);
    Flush(e, current, 255);
  }

  /** After the pending run's pair, a run of a different colour fits: the
      last pair's token is not the new colour's. */
  lemma PendingAfterFlush(e: seq<byte>, current: Color, pixels: byte, c: Color)
    requires c != current
    ensures PendingFits(e + [TifToken(current), pixels], c, 1)
  {
    var e' := e + [TifToken(current), pixels];
    if TifToken(current) == TifToken(c) {
      TokenInjective(current, c);
    }
    assert e'[|e'| - 2] == TifToken(current);
  }

  /** Flushing the pending run and starting a run of one cell of `c` stands
      for the scanned cells followed by that one cell. */
  lemma ExpandAfterFlush(e: seq<byte>, current: Color, pixels: byte, scanned: seq<Color>, c: Color)
    requires Tokens(e) && Expand(e) + Repeat(current, pixels) == scanned
    ensures Expand(e + [TifToken(current), pixels]) + Repeat(c, 1) == scanned + [c]
  {
    ExpandSnoc(e, current, pixels);
    assert Repeat(c, 1) == [c];
  }

  /** A cell of another colour while a run is pending: the run's pair is
      appended and a run of one cell of the new colour starts. */
  lemma EndRun(e: seq<byte>, current: Color, pixels: nat, scanned: seq<Color>, c: Color)
    requires EncoderInv(e, current, pixels, scanned)
    requires c != current && pixels > 0
    ensures EncoderInv(e + [TifToken(current), pixels], c, 1, scanned + [c])
  {
    Flush(e, current, pixels);
    PendingAfterFlush(e, current, pixels, c);
    ExpandAfterFlush(e, current, pixels, scanned, c);
  }

  /** A cell of another colour right after a full run was flushed (or at the
      very start): nothing is appended and a run of one cell starts. */
  lemma RestartRun(e: seq<byte>, current: Color, scanned: seq<Color>, c: Color)
    requires EncoderInv(e, current, 0, scanned)
    requires c != current
    ensures EncoderInv(e, c, 1, scanned + [c])
  {
    if |e| >= 2 && e[|e| - 2] == TifToken(c) {
      TokenInjective(current, c);
    }
    assert Expand(e) + Repeat(c, 1) == scanned + [c];
  }

  /** The body of `Grid::append_pixels`'s inner loop for one cell of colour
      `c`: it extends the pending run, fills it (a pair with count 255 is
      appended and the count restarts at zero), or ends it (its pair is
      appended and a run of `c` starts). */
  method PushCell(emitted: seq<byte>, current: Color, pixels: byte, c: Color, ghost scanned: seq<Color>)
    returns (emitted': seq<byte>, current': Color, pixels': byte)
    requires EncoderInv(emitted, current, pixels, scanned)
    ensures EncoderInv(emitted', current', pixels', scanned + [c])
  {
    emitted', current', pixels' := emitted, current, pixels;
    if c == current' {
      if pixels' + 1 >= 255 {
        FillRun(emitted', current', pixels', scanned);
      } else {
        ExtendRun(emitted', current', pixels', scanned);
      }
      pixels' := pixels' + 1;
      if pixels' >= 255 {
        emitted' := emitted' + [TifToken(current'), pixels'];
        pixels' := 0;
      }
    } else {
      if pixels' > 0 {
        EndRun(emitted', current', pixels', scanned, c);
      } else {
        RestartRun(emitted', current', scanned, c);
      }
      if pixels' > 0 {
        emitted' := emitted' + [TifToken(current'), pixels'];
      }
      current' := c;
      pixels' := 1;
    }
  }

  /** The inner loop of `Grid::append_pixels` over the cells of row `i`. */
  method AppendRow(g: Grid, i: int, emitted: seq<byte>, current: Color, pixels: byte)
    returns (emitted': seq<byte>, current': Color, pixels': byte)
    requires Shaped(g) && 0 <= i < g.height
    requires EncoderInv(emitted, current, pixels, Scan(g.pixels[..i]))
    ensures EncoderInv(emitted', current', pixels', Scan(g.pixels[..i + 1]))
  {
    emitted', current', pixels' := emitted, current, pixels;
    var j := 0;
    while j < g.width
      invariant 0 <= j <= g.width
      invariant EncoderInv(emitted', current', pixels',
                           Scan(g.pixels[..i]) + RowColors(g.pixels[i])[..j])
    {
      var pix := GetPixelAt(g, (i, j));
      assert RowColors(g.pixels[i])[..j + 1] == RowColors(g.pixels[i])[..j] + [pix.color];
      emitted', current', pixels' :=
        PushCell(emitted', current', pixels', pix.color,
                 Scan(g.pixels[..i]) + RowColors(g.pixels[i])[..j]);
      j := j + 1;
    }
    assert RowColors(g.pixels[i])[..j] == RowColors(g.pixels[i]);
    ScanSnoc(g.pixels, i);
  }

  /** The flush after the last row: a pending run still gets its pair, so
      the finished stream expands to exactly the cells scanned. */
  method FlushPending(emitted: seq<byte>, current: Color, pixels: byte, ghost scanned: seq<Color>)
    returns (e: seq<byte>)
    requires EncoderInv(emitted, current, pixels, scanned)
    ensures |e| >= |emitted| && e[..|emitted|] == emitted
    ensures WellFormed(e) && Maximal(e)
    ensures Expand(e) == scanned
    ensures SumCounts(e) == |scanned|
  {
    e := emitted;
    if pixels > 0 {
      Flush(emitted, current, pixels);
      e := emitted + [TifToken(current), pixels];
    }
    ExpandLength(e);
  }

  /** The two loops of `Grid::append_pixels`, from a black run of zero cells
      and no pairs, over every row: the pairs emitted and the pending run
      stand for the whole grid in row-major order. */
  method EncodeRows(g: Grid) returns (emitted: seq<byte>, current: Color, pixels: byte)
    requires Shaped(g)
    ensures EncoderInv(emitted, current, pixels, Scan(g.pixels))
  {
    current := Black;
    pixels := 0;
    emitted := [];
    var i := 0;
    while i < g.height
      invariant 0 <= i <= g.height
      invariant EncoderInv(emitted, current, pixels, Scan(g.pixels[..i]))
    {
      emitted, current, pixels := AppendRow(g, i, emitted, current, pixels);
      i := i + 1;
    }
    assert g.pixels[..i] == g.pixels;
  }

  /** `Grid::append_pixels`: scan the grid row-major, counting runs of one
      colour, and append a `(token, count)` pair whenever a run ends or its
      count reaches 255; the pending run is flushed after the last row. */
  method AppendPixels(g: Grid, buffer: seq<byte>) returns (out: seq<byte>)
    requires Shaped(g)
    ensures |out| >= |buffer| && out[..|buffer|] == buffer
    ensures (|out| - |buffer|) % 2 == 0
    ensures WellFormed(out[|buffer|..])
    ensures Maximal(out[|buffer|..])
    ensures Expand(out[|buffer|..]) == Scan(g.pixels)
    ensures SumCounts(out[|buffer|..]) == g.height * g.width
  {
    var emitted, current, pixels := EncodeRows(g);
    var runs := FlushPending(emitted, current, pixels, Scan(g.pixels));
    ScanLength(g.pixels, g.width);
    assert SumCounts(runs) == g.height * g.width;
    out := buffer + runs;
    assert out[|buffer|..] == runs;
  }

  /** `runs` is the encoding of grid `g`: well-formed, maximal pairs whose
      counts cover every cell, and which, expanded and cut into rows of the
      grid's width, give back the grid's colours. */
  predicate EncodesGrid(runs: seq<byte>, g: Grid) {
    && 0 <= g.height && 0 <= g.width
    && WellFormed(runs) && Maximal(runs)
    && SumCounts(runs) == g.height * g.width
    && |Expand(runs)| == g.height * g.width
    && Rows(Expand(runs), g.width, g.height) == ColorRows(g.pixels)
  }

  /** The bytes `save_to_file` writes: the header, then the encoding of the
      grid. */
  method SaveBuffer(g: Grid) returns (file: seq<byte>)
    requires Shaped(g)
    ensures |file| >= 6 && file[..6] == GetHeader(g)
    ensures g.width < 256 ==> file[5] == g.width
    ensures EncodesGrid(file[6..], g)
  {
    var header := GetHeader(g);
    file := AppendPixels(g, header);
    ScanRows(g.pixels, g.width);
  }
}
