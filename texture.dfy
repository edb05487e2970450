/** Indexed textures: an image's pixels replaced by indices into a palette
    of its distinct colours, numbered in the order they are first seen, and
    cut into rows of the image's width. */
module Texture {
  import opened Numeric

  datatype Color = Color(r: u8, g: u8, b: u8)

  /** `grid` is the source's `map` field (a reserved word here): one row of
      palette indices per image row. */
  datatype Texture = Texture(width: int, height: int, grid: seq<seq<int>>, colors: seq<Color>)

  /** The pixels of a tightly packed RGB byte stream, in stream order. */
  function Decode(bytes: seq<u8>): (ps: seq<Color>)
    requires |bytes| % 3 == 0
    ensures |ps| == |bytes| / 3
    ensures forall k :: 0 <= k < |ps| ==> ps[k] == Color(bytes[3 * k], bytes[3 * k + 1], bytes[3 * k + 2])
  {
    seq(|bytes| / 3, k requires 0 <= k < |bytes| / 3 => Color(bytes[3 * k], bytes[3 * k + 1], bytes[3 * k + 2]))
  }

  ghost predicate Distinct<T>(s: seq<T>) {
    forall i, j :: 0 <= i < j < |s| ==> s[i] != s[j]
  }

  // ---------------------------------------------------------------------
  // The palette and the per-pixel indices
  // ---------------------------------------------------------------------

  /** The colours of `ps` in first-seen order, each taken once. */
  function Palette(ps: seq<Color>): seq<Color> {
    if ps == [] then []
    else
      var pal := Palette(ps[..|ps| - 1]);
      var c := ps[|ps| - 1];
      if c in pal then pal else pal + [c]
  }

  /** The palette has exactly one entry per colour of the image and no
      colour twice. */
  lemma {:induction false} PaletteContents(ps: seq<Color>)
    ensures forall c :: c in Palette(ps) <==> c in ps
    ensures Distinct(Palette(ps))
    ensures |Palette(ps)| <= |ps|
    decreases |ps|
  {
    if ps != [] {
      var init := ps[..|ps| - 1];
      PaletteContents(init);
      assert ps == init + [ps[|ps| - 1]];
    }
  }

  /** Position of `c` in `s`, its first occurrence. */
  function IndexOf(s: seq<Color>, c: Color): (i: int)
    requires c in s
    ensures 0 <= i < |s| && s[i] == c && c !in s[..i]
  {
    if s[0] == c then 0 else 1 + IndexOf(s[1..], c)
  }

  /** The palette index of each pixel, as the scan assigns it: the position
      of its colour in the palette of the pixels seen so far. */
  function Indices(ps: seq<Color>): (ids: seq<int>)
    ensures |ids| == |ps|
  {
    if ps == [] then []
    else
      assert ps[|ps| - 1] in Palette(ps);
      Indices(ps[..|ps| - 1]) + [IndexOf(Palette(ps), ps[|ps| - 1])]
  }

  /** The palette of a prefix of the pixels is a prefix of the palette. */
  lemma {:induction false} PalettePrefix(ps: seq<Color>, n: nat)
    requires n <= |ps|
    ensures Palette(ps[..n]) <= Palette(ps)
    decreases |ps| - n
  {
    if n < |ps| {
      PalettePrefix(ps, n + 1);
      assert ps[..n + 1][..n] == ps[..n];
    } else {
      assert ps[..n] == ps;
    }
  }

  /** In a sequence without duplicates, an element's position is the one
      `IndexOf` finds, in the sequence and in any extension of it. */
  lemma IndexOfDistinct(s: seq<Color>, t: seq<Color>, i: int)
    requires s <= t && Distinct(t) && 0 <= i < |s|
    ensures IndexOf(s, s[i]) == i && IndexOf(t, s[i]) == i
  {
    var j := IndexOf(s, s[i]);
    var j' := IndexOf(t, s[i]);
    assert t[i] == s[i] && t[j] == s[j];
  }

  /** Every pixel's index is the position of its colour in the final
      palette. */
  lemma {:induction false} IndicesAt(ps: seq<Color>, k: int)
    requires 0 <= k < |ps|
    ensures ps[k] in Palette(ps)
    ensures Indices(ps)[k] == IndexOf(Palette(ps), ps[k])
    decreases |ps|
  {
    var n := |ps| - 1;
    if k < n {
      var init := ps[..n];
      IndicesAt(init, k);
      PalettePrefix(ps, n);
      PaletteContents(ps);
      IndexOfDistinct(Palette(init), Palette(ps), IndexOf(Palette(init), init[k]));
      assert Indices(ps)[k] == Indices(init)[k];
    }
  }

  /** Every index is a valid palette offset and names the pixel's own
      colour: reading the palette at a pixel's index gives the pixel back. */
  lemma IndexRoundTrip(ps: seq<Color>, k: int)
    requires 0 <= k < |ps|
    ensures 0 <= Indices(ps)[k] < |Palette(ps)|
    ensures Palette(ps)[Indices(ps)[k]] == ps[k]
  {
    IndicesAt(ps, k);
  }

  /** Two pixels share an index exactly when they have the same colour. */
  lemma SameIndexIffSameColor(ps: seq<Color>, j: int, k: int)
    requires 0 <= j < |ps| && 0 <= k < |ps|
    ensures Indices(ps)[j] == Indices(ps)[k] <==> ps[j] == ps[k]
  {
    IndicesAt(ps, j);
    IndicesAt(ps, k);
  }

  /** The indices follow first-seen order: a colour not seen before pixel
      `k` gets as its index the number of distinct colours seen so far (the
      scan's counter), so the first pixel gets index 0. */
  lemma NewColorGetsNextIndex(ps: seq<Color>, k: int)
    requires 0 <= k < |ps| && ps[k] !in ps[..k]
    ensures Indices(ps)[k] == |Palette(ps[..k])|
  {
    var pre, pre' := ps[..k], ps[..k + 1];
    assert pre'[..k] == pre;
    assert pre'[k] == ps[k];
    PaletteContents(pre);
    PaletteContents(ps);
    PalettePrefix(ps, k + 1);
    assert Palette(pre') == Palette(pre) + [ps[k]];
    IndexOfDistinct(Palette(pre'), Palette(ps), |Palette(pre)|);
    IndicesAt(ps, k);
  }

  // ---------------------------------------------------------------------
  // Rows
  // ---------------------------------------------------------------------

  /** `ids` cut the way the scan cuts them, as the scan's own state: the
      finished rows and the row in progress. A new row is started before
      every entry whose number is a non-zero multiple of `width`. */
  function Cut(ids: seq<int>, width: nat): (seq<seq<int>>, seq<int>)
    requires width > 0 || |ids| <= 1
  {
    if ids == [] then ([], [])
    else
      var n := |ids| - 1;
      var (grid, row) := Cut(ids[..n], width);
      if n != 0 && n % width == 0 then (grid + [row], [ids[n]])
      else (grid, row + [ids[n]])
  }

  /** The rows of the texture: the finished rows followed by the row in
      progress, which is always kept, so no pixels give `[[]]`. */
  function Rows(ids: seq<int>, width: nat): (rows: seq<seq<int>>)
    requires width > 0 || |ids| <= 1
    ensures |rows| >= 1
  {
    Cut(ids, width).0 + [Cut(ids, width).1]
  }

  /** Appending an entry either starts a new row holding it or extends the
      last row by it. */
  lemma RowsSnoc(ids: seq<int>, x: int, width: nat)
    requires width > 0 || ids == []
    ensures var rows := Rows(ids, width);
            Rows(ids + [x], width)
            == if |ids| != 0 && |ids| % width == 0 then rows + [[x]]
               else rows[..|rows| - 1] + [rows[|rows| - 1] + [x]]
  {
    assert (ids + [x])[..|ids|] == ids;
    var (grid, row) := Cut(ids, width);
    assert (grid + [row])[..|grid|] == grid;
  }

  function Flatten(rows: seq<seq<int>>): seq<int> {
    if rows == [] then [] else Flatten(rows[..|rows| - 1]) + rows[|rows| - 1]
  }

  /** Reading the rows one after the other gives back the index sequence. */
  lemma {:induction false} FlattenRows(ids: seq<int>, width: nat)
    requires width > 0 || |ids| <= 1
    ensures Flatten(Rows(ids, width)) == ids
    decreases |ids|
  {
    if ids != [] {
      var n := |ids| - 1;
      var rows := Rows(ids[..n], width);
      FlattenRows(ids[..n], width);
      assert ids[..n] + [ids[n]] == ids;
      RowsSnoc(ids[..n], ids[n], width);
      if n != 0 && n % width == 0 {
        assert (rows + [[ids[n]]])[..|rows|] == rows;
      } else {
        var m := |rows| - 1;
        assert (rows[..m] + [rows[m] + [ids[n]]])[..m] == rows[..m];
        assert rows[..m + 1] == rows;
        assert Flatten(rows) == Flatten(rows[..m]) + rows[m];
      }
      assert ids[..n] + [ids[n]] == ids;
    }
  }

  /** Every row but the last has `width` entries, the last has between one
      and `width` (none only when there are no pixels), and there is one row
      per started block of `width` pixels. */
  lemma {:induction false} RowsShape(ids: seq<int>, width: nat)
    requires width > 0
    ensures |Rows(ids, width)| == if ids == [] then 1 else (|ids| - 1) / width + 1
    ensures forall r :: 0 <= r < |Rows(ids, width)| - 1 ==> |Rows(ids, width)[r]| == width
    ensures |Rows(ids, width)[|Rows(ids, width)| - 1]| == if ids == [] then 0 else (|ids| - 1) % width + 1
    decreases |ids|
  {
    if ids != [] {
      var n := |ids| - 1;
      var rows, rows' := Rows(ids[..n], width), Rows(ids, width);
      RowsShape(ids[..n], width);
      assert ids[..n] + [ids[n]] == ids;
      RowsSnoc(ids[..n], ids[n], width);
      var m := |rows| - 1;
      if n == 0 {
        assert ids[..n] == [];
        assert rows == [[]] && m == 0;
        assert rows' == rows[..0] + [rows[0] + [ids[0]]];
        assert |rows'| == 1 && |rows'[0]| == 1;
        DivModUnique(0, width, 0, 0);
      } else if n % width == 0 {
        PredDivMod(n, width);
        assert rows' == rows + [[ids[n]]];
        assert |rows[m]| == width;
      } else {
        PredDivMod(n, width);
        assert rows' == rows[..m] + [rows[m] + [ids[n]]];
        forall r | 0 <= r < |rows'| - 1
          ensures |rows'[r]| == width
        {
          assert rows'[r] == rows[r];
        }
      }
    }
  }

  /** Pixel `k` sits in row `k / width`, column `k % width`. */
  lemma {:induction false} RowsAt(ids: seq<int>, width: nat, k: int)
    requires width > 0 && 0 <= k < |ids|
    ensures k / width < |Rows(ids, width)| && k % width < |Rows(ids, width)[k / width]|
    ensures Rows(ids, width)[k / width][k % width] == ids[k]
    decreases |ids|
  {
    var n := |ids| - 1;
    RowsShape(ids, width);
    RowsShape(ids[..n], width);
    assert ids[..n] + [ids[n]] == ids;
    RowsSnoc(ids[..n], ids[n], width);
    if n > 0 {
      PredDivMod(n, width);
    }
    if k < n {
      RowsAt(ids[..n], width, k);
    }
  }

  /** A `width * height` image that has pixels gives exactly `height` rows. */
  lemma RowCount(ids: seq<int>, width: nat, height: nat)
    requires |ids| == width * height && |ids| > 0
    ensures |Rows(ids, width)| == height
  {
    assert width > 0 && height > 0;
    RowsShape(ids, width);
    assert width * (height - 1) == width * height - width;
    DivModUnique(|ids| - 1, width, height - 1, width - 1);
  }

  /** One row step of the scan: when the next entry starts a row, the
      row in progress is finished and a new one begun; otherwise the row in
      progress grows. */
  lemma CutStep(ids: seq<int>, x: int, width: nat)
    requires width > 0 || ids == []
    ensures |ids| != 0 && |ids| % width == 0 ==>
              Cut(ids + [x], width).0 == Cut(ids, width).0 + [Cut(ids, width).1] && Cut(ids + [x], width).1 == [x]
    ensures !(|ids| != 0 && |ids| % width == 0) ==>
              Cut(ids + [x], width).0 == Cut(ids, width).0 && Cut(ids + [x], width).1 == Cut(ids, width).1 + [x]
  {
    assert (ids + [x])[..|ids|] == ids;
  }

  // ---------------------------------------------------------------------
  // The colour table
  // ---------------------------------------------------------------------

  /** The scan's colour table after the colours `seen` were entered in this
      order, each under the count of colours entered before it. */
  function TableOf(seen: seq<Color>): map<Color, int> {
    if seen == [] then map[]
    else TableOf(seen[..|seen| - 1])[seen[|seen| - 1] := |seen| - 1]
  }

  /** The table's keys are the colours entered. */
  lemma {:induction false} TableKeys(seen: seq<Color>)
    ensures forall c :: c in TableOf(seen) <==> c in seen
    decreases |seen|
  {
    if seen != [] {
      var init := seen[..|seen| - 1];
      TableKeys(init);
      assert seen == init + [seen[|seen| - 1]];
    }
  }

  /** Distinct colours are entered under their positions. */
  lemma {:induction false} TableValues(seen: seq<Color>)
    requires Distinct(seen)
    ensures forall j :: 0 <= j < |seen| ==> seen[j] in TableOf(seen) && TableOf(seen)[seen[j]] == j
    decreases |seen|
  {
    if seen != [] {
      var n := |seen| - 1;
      var init := seen[..n];
      assert Distinct(init);
      TableValues(init);
      forall j | 0 <= j < |seen|
        ensures seen[j] in TableOf(seen) && TableOf(seen)[seen[j]] == j
      {
        if j < n {
          assert seen[j] == init[j] && seen[j] != seen[n];
        }
      }
    }
  }

  /** Distinct colours give one table entry each. */
  lemma {:induction false} TableSize(seen: seq<Color>)
    requires Distinct(seen)
    ensures |TableOf(seen)| == |seen|
    decreases |seen|
  {
    if seen != [] {
      var n := |seen| - 1;
      var init := seen[..n];
      assert Distinct(init);
      TableSize(init);
      TableKeys(init);
      assert seen[n] !in init by {
        forall j | 0 <= j < n ensures init[j] != seen[n] {
          assert init[j] == seen[j];
        }
      }
    }
  }

  /** A table built from distinct colours holds exactly those colours and
      maps each to its position. */
  lemma TableContents(seen: seq<Color>)
    requires Distinct(seen)
    ensures forall c :: c in TableOf(seen) <==> c in seen
    ensures forall j :: 0 <= j < |seen| ==> TableOf(seen)[seen[j]] == j
    ensures |TableOf(seen)| == |seen|
  {
    TableKeys(seen);
    TableValues(seen);
    TableSize(seen);
  }

  /** Such a table is a bijection onto `[0, |seen|)`: the bounds and the
      injectivity the palette fill relies on. */
  lemma TableBijective(seen: seq<Color>)
    requires Distinct(seen)
    ensures forall c :: c in TableOf(seen) ==> 0 <= TableOf(seen)[c] < |TableOf(seen)|
    ensures forall c, d :: c in TableOf(seen) && d in TableOf(seen) && c != d ==> TableOf(seen)[c] != TableOf(seen)[d]
  {
    TableContents(seen);
    forall c | c in TableOf(seen)
      ensures 0 <= TableOf(seen)[c] < |seen| && seen[TableOf(seen)[c]] == c
    {
      var j := IndexOf(seen, c);
    }
  }

  /** Pixel `n` extends the index sequence by its position in the palette
      of the pixels up to and including it. */
  lemma IndicesStep(ps: seq<Color>, n: int)
    requires 0 <= n < |ps|
    ensures Indices(ps[..n + 1]) == Indices(ps[..n]) + [IndexOf(Palette(ps[..n + 1]), ps[n])]
  {
    assert ps[..n + 1][..n] == ps[..n];
  }

  /** A pixel of a colour not seen before is entered at the end of the
      palette and of the table, under the next index. */
  lemma NewColorStep(ps: seq<Color>, n: int, seen: seq<Color>)
    requires 0 <= n < |ps| && seen == Palette(ps[..n]) && ps[n] !in seen
    ensures Palette(ps[..n + 1]) == seen + [ps[n]]
    ensures TableOf(seen + [ps[n]]) == TableOf(seen)[ps[n] := |seen|]
    ensures IndexOf(Palette(ps[..n + 1]), ps[n]) == |seen|
  {
    assert ps[..n + 1][..n] == ps[..n];
    assert (seen + [ps[n]])[..|seen|] == seen;
    var i := IndexOf(seen + [ps[n]], ps[n]);
  }

  /** A pixel of a colour already seen leaves the palette as it is and
      finds its colour's index in the table. */
  lemma OldColorStep(ps: seq<Color>, n: int, seen: seq<Color>)
    requires 0 <= n < |ps| && seen == Palette(ps[..n]) && ps[n] in seen
    ensures Palette(ps[..n + 1]) == seen
    ensures ps[n] in TableOf(seen) && TableOf(seen)[ps[n]] == IndexOf(seen, ps[n])
  {
    assert ps[..n + 1][..n] == ps[..n];
    PaletteContents(ps[..n]);
    TableContents(seen);
  }

  /** The table knows exactly the colours of the palette so far. */
  lemma TableKnows(ps: seq<Color>, n: int, seen: seq<Color>)
    requires 0 <= n < |ps| && seen == Palette(ps[..n])
    ensures (ps[n] in TableOf(seen)) == (ps[n] in seen)
  {
    PaletteContents(ps[..n]);
    TableContents(seen);
  }

  /** One step of the scan at pixel `n`, given the palette `seen` and the
      table `colors` of the pixels before it: a colour the table lacks is
      new and is entered at the end of both under the next index; a colour
      it has keeps the palette and reads its index from the table. Either
      way the pixel's index is appended to the index sequence. */
  lemma ScanStep(ps: seq<Color>, n: int, seen: seq<Color>, colors: map<Color, int>)
    requires 0 <= n < |ps| && seen == Palette(ps[..n]) && colors == TableOf(seen)
    ensures Indices(ps[..n + 1]) == Indices(ps[..n]) + [IndexOf(Palette(ps[..n + 1]), ps[n])]
    ensures ps[n] !in colors ==>
              && Palette(ps[..n + 1]) == seen + [ps[n]]
              && TableOf(seen + [ps[n]]) == colors[ps[n] := |seen|]
              && IndexOf(Palette(ps[..n + 1]), ps[n]) == |seen|
    ensures ps[n] in colors ==>
              && Palette(ps[..n + 1]) == seen
              && colors[ps[n]] == IndexOf(Palette(ps[..n + 1]), ps[n])
  {
    IndicesStep(ps, n);
    TableKnows(ps, n, seen);
    if ps[n] !in seen {
      NewColorStep(ps, n, seen);
    } else {
      OldColorStep(ps, n, seen);
    }
  }

  /** A palette slot array that puts every colour of a table built from
      `seen` at the colour's index is `seen` itself. */
  lemma PaletteFromTable(seen: seq<Color>, palette: seq<Color>)
    requires Distinct(seen) && |palette| == |TableOf(seen)|
    requires forall c :: c in TableOf(seen) ==> 0 <= TableOf(seen)[c] < |palette| && palette[TableOf(seen)[c]] == c
    ensures palette == seen
  {
    TableContents(seen);
    forall j | 0 <= j < |seen|
      ensures palette[j] == seen[j]
    {
      assert seen[j] in TableOf(seen) && TableOf(seen)[seen[j]] == j;
    }
  }

  // ---------------------------------------------------------------------
  // Texture::load
  // ---------------------------------------------------------------------

  /** The scan's test for the start of a row, on byte offsets, agrees
      with the test on pixel numbers. */
  lemma StrideStart(i: int, n: nat, width: nat)
    requires i == 3 * n && (width > 0 || n == 0)
    ensures width > 0 ==> ((i != 0 && i % (width * 3) == 0) <==> (n != 0 && n % width == 0))
  {
    if width > 0 {
      ScaledModZero(n, width);
    }
  }

  /** The scan's local state: the finished rows, the row in progress, the
      colour table and the next free index. */
  datatype ScanState = ScanState(grid: seq<seq<int>>, row: seq<int>, colors: map<Color, int>, counter: int)

  /** The scan's state after its first `n` steps over `bytes`, one step
      per pixel as the loop of `Texture::load` takes them. */
  function ScanUpTo(bytes: seq<u8>, n: nat, width: nat): ScanState
    requires 3 * n <= |bytes| && (width > 0 || n <= 1)
  {
    if n == 0 then ScanState([], [], map[], 0)
    else
      var st := ScanUpTo(bytes, n - 1, width);
      var i := 3 * (n - 1);
      var starts := i != 0 && i % (width * 3) == 0;
      var grid := if starts then st.grid + [st.row] else st.grid;
      var row := if starts then [] else st.row;
      var color := Color(bytes[i], bytes[i + 1], bytes[i + 2]);
      if color !in st.colors then ScanState(grid, row + [st.counter], st.colors[color := st.counter], st.counter + 1)
      else ScanState(grid, row + [st.colors[color]], st.colors, st.counter)
  }

  /** `ps` are the pixels of `bytes`, three bytes each, as `Decode` reads
      them. */
  predicate PixelsOf(bytes: seq<u8>, ps: seq<Color>) {
    |bytes| == 3 * |ps| && forall k :: 0 <= k < |ps| ==> ps[k] == Color(bytes[3 * k], bytes[3 * k + 1], bytes[3 * k + 2])
  }

  /** After `n` steps the table is that of the palette of the first `n`
      pixels, and the counter is the palette's size. */
  lemma {:induction false} ScanTable(bytes: seq<u8>, ps: seq<Color>, n: nat, width: nat)
    requires PixelsOf(bytes, ps) && n <= |ps| && (width > 0 || n <= 1)
    ensures ScanUpTo(bytes, n, width).colors == TableOf(Palette(ps[..n]))
    ensures ScanUpTo(bytes, n, width).counter == |Palette(ps[..n])|
  {
    if n > 0 {
      ScanTable(bytes, ps, n - 1, width);
      var st := ScanUpTo(bytes, n - 1, width);
      var seen := Palette(ps[..n - 1]);
      TableKnows(ps, n - 1, seen);
      assert Color(bytes[3 * (n - 1)], bytes[3 * (n - 1) + 1], bytes[3 * (n - 1) + 2]) == ps[n - 1];
      if ps[n - 1] !in seen {
        NewColorStep(ps, n - 1, seen);
        assert ScanUpTo(bytes, n, width).colors == st.colors[ps[n - 1] := st.counter];
      } else {
        OldColorStep(ps, n - 1, seen);
        assert ScanUpTo(bytes, n, width).colors == st.colors;
      }
    }
  }

  /** Step `n` of the scan appends pixel `n`'s index, its colour's
      position in the palette so far, to a new row when pixel `n` starts one
      and to the row in progress otherwise. */
  lemma ScanEntry(bytes: seq<u8>, ps: seq<Color>, n: nat, width: nat)
    requires PixelsOf(bytes, ps) && n < |ps| && (width > 0 || n == 0)
    ensures Indices(ps[..n + 1]) == Indices(ps[..n]) + [IndexOf(Palette(ps[..n + 1]), ps[n])]
    ensures n != 0 && n % width == 0 ==>
              && ScanUpTo(bytes, n + 1, width).grid == ScanUpTo(bytes, n, width).grid + [ScanUpTo(bytes, n, width).row]
              && ScanUpTo(bytes, n + 1, width).row == [IndexOf(Palette(ps[..n + 1]), ps[n])]
    ensures !(n != 0 && n % width == 0) ==>
              && ScanUpTo(bytes, n + 1, width).grid == ScanUpTo(bytes, n, width).grid
              && ScanUpTo(bytes, n + 1, width).row == ScanUpTo(bytes, n, width).row + [IndexOf(Palette(ps[..n + 1]), ps[n])]
  {
    ScanTable(bytes, ps, n, width);
    var st := ScanUpTo(bytes, n, width);
    var seen := Palette(ps[..n]);
    ScanStep(ps, n, seen, TableOf(seen));
    assert (if ps[n] !in st.colors then st.counter else st.colors[ps[n]]) == IndexOf(Palette(ps[..n + 1]), ps[n]);
    StrideStart(3 * n, n, width);
  }

  /** After `n` steps the finished rows and the row in progress are the
      indices of the first `n` pixels, cut at every row start. */
  lemma {:induction false} ScanRows(bytes: seq<u8>, ps: seq<Color>, n: nat, width: nat)
    requires PixelsOf(bytes, ps) && n <= |ps| && (width > 0 || n <= 1)
    ensures ScanUpTo(bytes, n, width).grid == Cut(Indices(ps[..n]), width).0
    ensures ScanUpTo(bytes, n, width).row == Cut(Indices(ps[..n]), width).1
  {
    if n > 0 {
      ScanRows(bytes, ps, n - 1, width);
      ScanEntry(bytes, ps, n - 1, width);
      CutStep(Indices(ps[..n - 1]), IndexOf(Palette(ps[..n]), ps[n - 1]), width);
    }
  }

  /** The scan of `Texture::load` over a tightly packed RGB byte stream:
      each pixel's colour is looked up in the colour table, a new colour is
      entered under the next index, and the pixel's index is appended to the
      row in progress, which is closed whenever the byte offset reaches a
      non-zero multiple of the row stride `width * 3`. The source divides by
      the stride from the second pixel on, so a zero width admits one
      pixel. */
  method Scan(bytes: seq<u8>, width: nat) returns (grid: seq<seq<int>>, colors: map<Color, int>)
    requires |bytes| % 3 == 0 && (width > 0 || |bytes| <= 3)
    ensures grid == Rows(Indices(Decode(bytes)), width)
    ensures colors == TableOf(Palette(Decode(bytes)))
  {
    var counter := 0;
    colors := map[];
    grid := [];
    var row: seq<int> := [];
    ghost var n := 0;
    var i := 0;
    while i < |bytes|
      invariant 3 * n <= |bytes| && i == 3 * n
      invariant ScanUpTo(bytes, n, width) == ScanState(grid, row, colors, counter)
    {
      if i != 0 && i % (width * 3) == 0 {
        grid := grid + [row];
        row := [];
      }
      var color := Color(bytes[i], bytes[i + 1], bytes[i + 2]);
      if color !in colors {
        row := row + [counter];
        colors := colors[color := counter];
        counter := counter + 1;
      } else {
        row := row + [colors[color]];
      }
      i := i + 3;
      n := n + 1;
    }
    ghost var ps := Decode(bytes);
    ScanTable(bytes, ps, n, width);
    ScanRows(bytes, ps, n, width);
    assert ps[..n] == ps;
    grid := grid + [row];
  }
  /** Writes each colour of `colors` into the slot its index names, in no
      particular order of the keys (the source walks a hash map). Every slot
      ends up holding a colour whose index it is, or black if no colour has
      that index; when no two colours share an index, each colour lands in
      its own slot. */
  method FillPalette(colors: map<Color, int>) returns (palette: seq<Color>)
    requires forall c :: c in colors ==> 0 <= colors[c] < |colors|
    ensures |palette| == |colors|
    ensures forall i :: 0 <= i < |palette| ==>
              (palette[i] in colors && colors[palette[i]] == i)
              || (palette[i] == Color(0, 0, 0) && forall c :: c in colors ==> colors[c] != i)
    ensures (forall c, d :: c in colors && d in colors && c != d ==> colors[c] != colors[d]) ==>
              forall c :: c in colors ==> palette[colors[c]] == c
  {
    var slots := new Color[|colors|](_ => Color(0, 0, 0));
    var todo := colors.Keys;
    while todo != {}
      invariant todo <= colors.Keys
      invariant forall i :: 0 <= i < slots.Length ==>
                  (slots[i] in colors.Keys - todo && colors[slots[i]] == i)
                  || (slots[i] == Color(0, 0, 0) && forall c :: c in colors.Keys - todo ==> colors[c] != i)
      decreases todo
    {
      var c :| c in todo;
      slots[colors[c]] := c;
      todo := todo - {c};
    }
    palette := slots[..];
  }

  /** `Texture::load` after decoding: the image arrives as a tightly packed
      RGB byte stream of `width * height` pixels. */
  method Load(bytes: seq<u8>, width: nat, height: nat) returns (t: Texture)
    requires |bytes| == width * height * 3
    ensures t.width == width && t.height == height
    ensures t.colors == Palette(Decode(bytes))
    ensures t.grid == Rows(Indices(Decode(bytes)), width)
    ensures forall k :: 0 <= k < width * height ==>
              k / width < |t.grid| && k % width < |t.grid[k / width]|
              && 0 <= t.grid[k / width][k % width] < |t.colors|
              && t.colors[t.grid[k / width][k % width]] == Decode(bytes)[k]
    ensures width * height > 0 ==> |t.grid| == height
    ensures width * height == 0 ==> t.grid == [[]] && t.colors == []
    ensures CellsBelow(t.grid, |t.colors|)
  {
    assert |bytes| == 3 * (width * height);
    var grid, colors := Scan(bytes, width);
    ghost var seen := Palette(Decode(bytes));
    PaletteContents(Decode(bytes));
    TableContents(seen);
    TableBijective(seen);
    var palette := FillPalette(colors);
    PaletteFromTable(seen, palette);
    t := Texture(width, height, grid, palette);
    LoadRoundTrip(Decode(bytes), width, height);
    if width > 0 {
      GridInPalette(Decode(bytes), width);
    }
  }

  /** Pixel `k` read back through its row, its column and the palette. */
  lemma PixelRoundTrip(ps: seq<Color>, width: nat, k: int)
    requires width > 0 && 0 <= k < |ps|
    ensures k / width < |Rows(Indices(ps), width)| && k % width < |Rows(Indices(ps), width)[k / width]|
    ensures 0 <= Rows(Indices(ps), width)[k / width][k % width] < |Palette(ps)|
    ensures Palette(ps)[Rows(Indices(ps), width)[k / width][k % width]] == ps[k]
  {
    RowsAt(Indices(ps), width, k);
    IndexRoundTrip(ps, k);
  }

  /** Every cell of `grid` is an offset into a palette of `n` colours. */
  predicate CellsBelow(grid: seq<seq<int>>, n: int) {
    forall r, c :: 0 <= r < |grid| && 0 <= c < |grid[r]| ==> 0 <= grid[r][c] < n
  }

  /** Cell `c` of row `r` of the rows is entry `width * r + c`. */
  lemma RowsCell(ids: seq<int>, width: nat, r: int, c: int)
    requires width > 0
    requires 0 <= r < |Rows(ids, width)| && 0 <= c < |Rows(ids, width)[r]|
    ensures 0 <= width * r + c < |ids| && Rows(ids, width)[r][c] == ids[width * r + c]
  {
    RowsShape(ids, width);
    assert ids != [];
    CellInRange(|ids|, width, r, c);
    RowsAt(ids, width, width * r + c);
  }

  /** Cell `c` of row `r` is the index of pixel `width * r + c`, so it is a
      valid offset into the palette. */
  lemma GridCell(ps: seq<Color>, width: nat, r: int, c: int)
    requires width > 0
    requires 0 <= r < |Rows(Indices(ps), width)| && 0 <= c < |Rows(Indices(ps), width)[r]|
    ensures 0 <= Rows(Indices(ps), width)[r][c] < |Palette(ps)|
  {
    var ids := Indices(ps);
    var k := width * r + c;
    RowsCell(ids, width, r, c);
    assert Rows(ids, width)[r][c] == ids[k];
    IndexRoundTrip(ps, k);
  }

  /** Every cell of the rows is a valid offset into the palette. */
  lemma GridInPalette(ps: seq<Color>, width: nat)
    requires width > 0
    ensures CellsBelow(Rows(Indices(ps), width), |Palette(ps)|)
  {
    forall r, c | 0 <= r < |Rows(Indices(ps), width)| && 0 <= c < |Rows(Indices(ps), width)[r]|
      ensures 0 <= Rows(Indices(ps), width)[r][c] < |Palette(ps)|
    {
      GridCell(ps, width, r, c);
    }
  }

  /** The whole texture reads back as the image, row by row, and has one
      row per image row (or the single empty row of an empty image). */
  lemma LoadRoundTrip(ps: seq<Color>, width: nat, height: nat)
    requires |ps| == width * height
    ensures forall k :: 0 <= k < width * height ==>
              k / width < |Rows(Indices(ps), width)| && k % width < |Rows(Indices(ps), width)[k / width]|
              && 0 <= Rows(Indices(ps), width)[k / width][k % width] < |Palette(ps)|
              && Palette(ps)[Rows(Indices(ps), width)[k / width][k % width]] == ps[k]
    ensures width * height > 0 ==> |Rows(Indices(ps), width)| == height
    ensures width * height == 0 ==> Rows(Indices(ps), width) == [[]] && Palette(ps) == []
  {
    if width * height > 0 {
      assert width > 0;
      forall k | 0 <= k < |ps| {
        PixelRoundTrip(ps, width, k);
      }
      RowCount(Indices(ps), width, height);
    } else {
      assert ps == [];
    }
  }
}
