/** The tiling of the known rectangle into bounded requests. */
module SyncTiles {
  import opened CellRects

  /** The requests of one row of tiles, from column x to xEnd. */
  function TileRow(x: int, xEnd: int, y: int, height: int, limit: int): seq<Rect>
    requires 0 < limit
    decreases xEnd - x
  {
    if xEnd <= x then
      []
    else
      var width := Min(xEnd - x, limit);
      [Rect(x, y, width, height)] + TileRow(x + width, xEnd, y, height, limit)
  }

  /** All requests for the rows from y on, one row of tiles after the other. */
  function TileRows(known: Rect, y: int, limit: int): seq<Rect>
    requires 0 < limit
    decreases known.YEnd() - y
  {
    if known.YEnd() <= y then
      []
    else
      var height := Min(known.YEnd() - y, limit);
      TileRow(known.x, known.XEnd(), y, height, limit) + TileRows(known, y + height, limit)
  }

  function Tiles(known: Rect, limit: int): seq<Rect>
    requires 0 < limit
  {
    TileRows(known, known.y, limit)
  }

  ghost predicate SomeTileHas(tiles: seq<Rect>, cx: int, cy: int) {
    exists i :: 0 <= i < |tiles| && tiles[i].HasCell(cx, cy)
  }

  /** The tiles are non-empty, bounded, pairwise disjoint, and have exactly the cells of the area. */
  ghost predicate Partitions(tiles: seq<Rect>, area: Rect, limit: int) {
    && (forall i :: 0 <= i < |tiles| ==> !tiles[i].IsEmpty() && tiles[i].width <= limit && tiles[i].height <= limit)
    && (forall i, j, cx, cy :: 0 <= i < j < |tiles| && tiles[i].HasCell(cx, cy) ==> !tiles[j].HasCell(cx, cy))
    && (forall i, cx, cy :: 0 <= i < |tiles| && tiles[i].HasCell(cx, cy) ==> area.HasCell(cx, cy))
    && (forall cx, cy :: area.HasCell(cx, cy) ==> SomeTileHas(tiles, cx, cy))
  }

  /** Partitions of two disjoint areas that make up a third join to a partition of it. */
  lemma PartitionsJoin(a: seq<Rect>, b: seq<Rect>, areaA: Rect, areaB: Rect, area: Rect, limit: int)
    requires Partitions(a, areaA, limit) && Partitions(b, areaB, limit)
    requires forall cx, cy :: area.HasCell(cx, cy) <==> areaA.HasCell(cx, cy) || areaB.HasCell(cx, cy)
    requires forall cx, cy :: areaA.HasCell(cx, cy) ==> !areaB.HasCell(cx, cy)
    ensures Partitions(a + b, area, limit)
  {
    var t := a + b;
    forall cx, cy | area.HasCell(cx, cy)
      ensures SomeTileHas(t, cx, cy)
    {
      if areaA.HasCell(cx, cy) {
        assert SomeTileHas(a, cx, cy);
        var i :| 0 <= i < |a| && a[i].HasCell(cx, cy);
        assert t[i].HasCell(cx, cy);
      } else {
        assert SomeTileHas(b, cx, cy);
        var i :| 0 <= i < |b| && b[i].HasCell(cx, cy);
        assert t[|a| + i].HasCell(cx, cy);
      }
    }
    forall i, j, cx, cy | 0 <= i < j < |t| && t[i].HasCell(cx, cy)
      ensures !t[j].HasCell(cx, cy)
    {
      if i < |a| && |a| <= j {
        assert areaA.HasCell(cx, cy);
        assert t[j] == b[j - |a|];
      } else if |a| <= i {
        assert t[i] == b[i - |a|] && t[j] == b[j - |a|];
      }
    }
  }

  lemma SinglePartitions(r: Rect, limit: int)
    requires !r.IsEmpty() && r.width <= limit && r.height <= limit
    ensures Partitions([r], r, limit)
  {
    forall cx, cy | r.HasCell(cx, cy)
      ensures SomeTileHas([r], cx, cy)
    {
      assert [r][0].HasCell(cx, cy);
    }
  }

  lemma {:induction false} TileRowPartitions(x: int, xEnd: int, y: int, height: int, limit: int)
    requires 0 < limit && 0 < height <= limit
    ensures Partitions(TileRow(x, xEnd, y, height, limit), Rect(x, y, xEnd - x, height), limit)
    decreases xEnd - x
  {
    if x < xEnd {
      hide Partitions;
      var width := Min(xEnd - x, limit);
      var first, rest := Rect(x, y, width, height), Rect(x + width, y, xEnd - x - width, height);
      TileRowPartitions(x + width, xEnd, y, height, limit);
      SinglePartitions(first, limit);
      PartitionsJoin([first], TileRow(x + width, xEnd, y, height, limit), first, rest, Rect(x, y, xEnd - x, height), limit);
    }
  }

  lemma {:induction false} TileRowsPartition(known: Rect, y: int, limit: int)
    requires 0 < limit
    ensures Partitions(TileRows(known, y, limit), Rect(known.x, y, known.width, known.YEnd() - y), limit)
    decreases known.YEnd() - y
  {
    if y < known.YEnd() {
      hide Partitions, TileRow, SomeTileHas;
      var height := Min(known.YEnd() - y, limit);
      TileRowPartitions(known.x, known.XEnd(), y, height, limit);
      TileRowsPartition(known, y + height, limit);
      PartitionsJoin(TileRow(known.x, known.XEnd(), y, height, limit), TileRows(known, y + height, limit),
                     Rect(known.x, y, known.width, height),
                     Rect(known.x, y + height, known.width, known.YEnd() - y - height),
                     Rect(known.x, y, known.width, known.YEnd() - y), limit);
    }
  }

  /** The requests of a whole sync cover the known rectangle exactly once. */
  lemma TilesPartition(known: Rect, limit: int)
    requires 0 < limit
    ensures Partitions(Tiles(known, limit), known, limit)
    ensures forall i :: 0 <= i < |Tiles(known, limit)| ==> known.Contains(Tiles(known, limit)[i])
    ensures Tiles(known, limit) == [] <==> known.IsEmpty()
  {
    TileRowsPartition(known, known.y, limit);
    var tiles := Tiles(known, limit);
    forall i | 0 <= i < |tiles|
      ensures known.Contains(tiles[i])
    {
      ContainsIsCellInclusion(known, tiles[i]);
    }
    if !known.IsEmpty() {
      assert known.HasCell(known.x, known.y);
      assert SomeTileHas(tiles, known.x, known.y);
    }
    assert |tiles| > 0 ==> known.Contains(tiles[0]);
  }

  /** The tiles' hull is the known rectangle. */
  lemma TilesHull(known: Rect, limit: int)
    requires 0 < limit && !known.IsEmpty()
    ensures Hull(Tiles(known, limit)) == known
  {
    var tiles := Tiles(known, limit);
    TilesPartition(known, limit);
    assert AllNonEmpty(tiles);
    HullIsLeast(tiles, known);
    HullIsLeast(tiles, Hull(tiles));
    forall cx, cy | known.HasCell(cx, cy)
      ensures Hull(tiles).HasCell(cx, cy)
    {
      assert SomeTileHas(tiles, cx, cy);
      var i :| 0 <= i < |tiles| && tiles[i].HasCell(cx, cy);
      assert tiles[i] in tiles;
      ContainsIsCellInclusion(Hull(tiles), tiles[i]);
    }
    ContainsIsCellInclusion(Hull(tiles), known);
    ContainsAntisymmetric(Hull(tiles), known);
  }
}
