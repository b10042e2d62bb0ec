/**
 The extent scanner: walks a sparse file's data regions by alternating "next
 data at or after" and "next hole at or after" seek queries, and reports each
 data region as an (offset, length) extent.
 */
module Extents {
  import opened Format
  import opened Algebra

  /** One byte of a sparse file: part of a hole (reads as zero) or stored data. */
  datatype Cell = Hole | Data(byte: char)

  /** The input file: its bytes and whether its descriptor can seek. */
  datatype Source = Source(cells: seq<Cell>, seekable: bool)

  /** Answer to a seek query: a file offset, or ENXIO (no such offset). */
  datatype Seek = At(pos: nat) | Enxio

  /** A data extent: its first offset and its length in bytes. */
  datatype Extent = Extent(start: nat, len: nat)

  /**
   `lseek(fd, x, SEEK_DATA)`: the least offset at or after `x` that holds
   data; ENXIO when there is none, in particular when `x` is at or past the
   end of the file.
   */
  function SeekData(cells: seq<Cell>, x: nat): (r: Seek)
    ensures r.At? ==> x <= r.pos < |cells| && cells[r.pos].Data?
    ensures r.At? ==> forall j | x <= j < r.pos :: cells[j].Hole?
    ensures r.Enxio? <==> forall j | x <= j < |cells| :: cells[j].Hole?
    decreases |cells| - x
  {
    if x >= |cells| then Enxio
    else if cells[x].Data? then At(x)
    else SeekData(cells, x + 1)
  }

  /**
   `lseek(fd, x, SEEK_HOLE)`: the least offset at or after `x` that starts a
   hole, counting the end of the file as one; ENXIO when `x` is at or past the
   end of the file.
   */
  function SeekHole(cells: seq<Cell>, x: nat): (r: Seek)
    ensures r.Enxio? <==> x >= |cells|
    ensures r.At? ==> x <= r.pos <= |cells| && (r.pos < |cells| ==> cells[r.pos].Hole?)
    ensures r.At? ==> forall j | x <= j < r.pos :: cells[j].Data?
  {
    if x >= |cells| then Enxio else At(HoleAfter(cells, x))
  }

  /** The first hole offset at or after `x`, or the end of the file. */
  function HoleAfter(cells: seq<Cell>, x: nat): (h: nat)
    requires x <= |cells|
    ensures x <= h <= |cells| && (h < |cells| ==> cells[h].Hole?)
    ensures forall j | x <= j < h :: cells[j].Data?
    decreases |cells| - x
  {
    if x == |cells| || cells[x].Hole? then x else HoleAfter(cells, x + 1)
  }

  /**
   The extents the scanner reports from offset `x` on: seek to the next data,
   seek to the hole after it, report the pair and continue from the hole.
   */
  function ExtentsFrom(cells: seq<Cell>, x: nat): (es: seq<Extent>)
    decreases |cells| - x
  {
    match SeekData(cells, x)
    case Enxio => []
    case At(s) =>
      match SeekHole(cells, s)
      case Enxio => []
      case At(e) => [Extent(s, e - s)] + ExtentsFrom(cells, e)
  }

  /** Every extent of the file, in the order the scanner reports them. */
  function FileExtents(cells: seq<Cell>): seq<Extent> {
    ExtentsFrom(cells, 0)
  }

  // ------------------------------------------------- what the scan computes

  /** `e` is a maximal run of data: all data, with a hole or a file edge on either side. */
  predicate MaximalRun(cells: seq<Cell>, e: Extent) {
    && e.len >= 1
    && e.start + e.len <= |cells|
    && (forall j | e.start <= j < e.start + e.len :: cells[j].Data?)
    && (e.start == 0 || cells[e.start - 1].Hole?)
    && (e.start + e.len == |cells| || cells[e.start + e.len].Hole?)
  }

  /** Extents in strictly ascending order with at least one hole byte between neighbours. */
  predicate Separated(es: seq<Extent>) {
    forall k | 0 <= k < |es| - 1 :: es[k].start + es[k].len < es[k + 1].start
  }

  /** Offset `x` is at the start of the file, past its end, or on a hole. */
  predicate Boundary(cells: seq<Cell>, x: nat) {
    x == 0 || x >= |cells| || cells[x].Hole?
  }

  /** Two maximal runs that share a byte are the same run. */
  lemma MaximalRunsDisjoint(cells: seq<Cell>, a: Extent, b: Extent, i: nat)
    requires MaximalRun(cells, a) && MaximalRun(cells, b)
    requires a.start <= i < a.start + a.len && b.start <= i < b.start + b.len
    ensures a == b
  {
  }

  /** The first extent reported from a boundary is a maximal run. */
  lemma HeadIsMaximal(cells: seq<Cell>, x: nat)
    requires Boundary(cells, x)
    requires SeekData(cells, x).At?
    ensures var s := SeekData(cells, x).pos;
      SeekHole(cells, s).At? && MaximalRun(cells, Extent(s, SeekHole(cells, s).pos - s))
  {
  }

  /** From a boundary offset on, every reported extent is a maximal data run. */
  lemma {:induction false} ExtentsFromMaximal(cells: seq<Cell>, x: nat)
    requires Boundary(cells, x)
    ensures forall k | 0 <= k < |ExtentsFrom(cells, x)| :: MaximalRun(cells, ExtentsFrom(cells, x)[k])
    decreases |cells| - x
  {
    if SeekData(cells, x).At? {
      HeadIsMaximal(cells, x);
      var e := SeekHole(cells, SeekData(cells, x).pos).pos;
      ExtentsFromMaximal(cells, e);
    }
  }

  /** Reported extents come in ascending order, separated by holes. */
  lemma {:induction false} ExtentsFromSeparated(cells: seq<Cell>, x: nat)
    ensures Separated(ExtentsFrom(cells, x))
    decreases |cells| - x
  {
    if SeekData(cells, x).At? {
      var e := SeekHole(cells, SeekData(cells, x).pos).pos;
      ExtentsFromSeparated(cells, e);
      var tail := ExtentsFrom(cells, e);
      if |tail| > 0 {
        assert SeekData(cells, e).At?;
        assert tail[0].start == SeekData(cells, e).pos;
      }
    }
  }

  /** From a boundary offset on, every maximal data run at or after it is reported. */
  lemma {:induction false} ExtentsFromComplete(cells: seq<Cell>, x: nat)
    requires Boundary(cells, x)
    ensures forall e | MaximalRun(cells, e) && x <= e.start :: e in ExtentsFrom(cells, x)
    decreases |cells| - x
  {
    var es := ExtentsFrom(cells, x);
    if SeekData(cells, x).At? {
      var s := SeekData(cells, x).pos;
      var e := SeekHole(cells, s).pos;
      var head := Extent(s, e - s);
      HeadIsMaximal(cells, x);
      ExtentsFromComplete(cells, e);
      forall r | MaximalRun(cells, r) && x <= r.start
        ensures r in es
      {
        assert cells[r.start].Data?;
        if r.start < e {
          MaximalRunsDisjoint(cells, head, r, r.start);
        }
      }
    } else {
      assert forall r | MaximalRun(cells, r) && x <= r.start :: cells[r.start].Data?;
    }
  }

  /**
   The scan of a whole file reports exactly its maximal data runs, each once,
   in strictly ascending order of offset.
   */
  lemma FileExtentsAreMaximalRuns(cells: seq<Cell>)
    ensures forall k | 0 <= k < |FileExtents(cells)| :: MaximalRun(cells, FileExtents(cells)[k])
    ensures Separated(FileExtents(cells))
    ensures forall e :: MaximalRun(cells, e) <==> e in FileExtents(cells)
  {
    ExtentsFromMaximal(cells, 0);
    ExtentsFromSeparated(cells, 0);
    ExtentsFromComplete(cells, 0);
  }

  /** A file without holes is one extent covering all of it, or none when it is empty. */
  lemma AllDataIsOneExtent(cells: seq<Cell>)
    requires forall j | 0 <= j < |cells| :: cells[j].Data?
    ensures |cells| > 0 ==> FileExtents(cells) == [Extent(0, |cells|)]
    ensures |cells| == 0 ==> FileExtents(cells) == []
  {
    if |cells| > 0 {
      assert SeekData(cells, 0) == At(0);
      assert SeekHole(cells, 0) == At(|cells|);
      assert ExtentsFrom(cells, |cells|) == [];
    }
  }

  /** A file that is all hole has no extents. */
  lemma AllHoleHasNoExtents(cells: seq<Cell>)
    requires forall j | 0 <= j < |cells| :: cells[j].Hole?
    ensures FileExtents(cells) == []
  {
  }

  // ------------------------------------------------------------ map listing

  /** One `"%ld %ld\n"` line per extent, in order. */
  function Listing(es: seq<Extent>): seq<char>
    decreases |es|
  {
    if |es| == 0 then [] else Header(es[0].start, es[0].len) + Listing(es[1..])
  }

  /** The extents from `x` on: the next one, then those from its end. */
  lemma ExtentsStep(cells: seq<Cell>, x: nat)
    requires SeekData(cells, x).At?
    ensures var s := SeekData(cells, x).pos;
      var e := SeekHole(cells, s).pos;
      ExtentsFrom(cells, x) == [Extent(s, e - s)] + ExtentsFrom(cells, e)
  {
  }

  /** One turn of the map loop: the line of the next extent moves from the listing still to print to the output. */
  lemma ListingFrom(cells: seq<Cell>, x: nat, s: nat, e: nat, out: seq<char>)
    requires SeekData(cells, x) == At(s) && SeekHole(cells, s) == At(e)
    requires out + Listing(ExtentsFrom(cells, x)) == Listing(FileExtents(cells))
    ensures (out + Header(s, e - s)) + Listing(ExtentsFrom(cells, e)) == Listing(FileExtents(cells))
  {
    ListingStep(cells, x, s, e);
    Reassociate(out, Header(s, e - s), Listing(ExtentsFrom(cells, e)));
  }

  /** The listing from `x` on: the line of the next extent, then the listing from its end. */
  lemma ListingStep(cells: seq<Cell>, x: nat, s: nat, e: nat)
    requires SeekData(cells, x) == At(s) && SeekHole(cells, s) == At(e)
    ensures Listing(ExtentsFrom(cells, x)) == Header(s, e - s) + Listing(ExtentsFrom(cells, e))
  {
    var es := ExtentsFrom(cells, x);
    ExtentsStep(cells, x);
    assert es[1..] == ExtentsFrom(cells, e);
  }

  /**
   The map mode: prints every extent of the input as an offset and a length.
   An input that cannot seek is refused with code 1 and nothing printed. The
   loop ends when a seek reports ENXIO, which always leaves `start` or `end`
   at -1, so the print after the loop never runs.
   */
  method DoMap(src: Source) returns (code: int, out: seq<char>)
    ensures code == 0 || code == 1
    ensures code == 1 <==> !src.seekable
    ensures code == 0 ==> out == Listing(FileExtents(src.cells))
    ensures code == 1 ==> out == []
  {
    if !src.seekable {
      return 1, [];
    }
    var cells := src.cells;
    var start: int := 0;
    var end: int := 0;
    out := [];
    while true
      invariant 0 <= start <= |cells|
      invariant out + Listing(ExtentsFrom(cells, start)) == Listing(FileExtents(cells))
      decreases |cells| - start
    {
      var d := SeekData(cells, start);
      if d.Enxio? {
        assert ExtentsFrom(cells, start) == [];
        start := -1;
        break;
      }
      var s := d.pos;
      var h := SeekHole(cells, s);
      if h.Enxio? {
        start, end := s, -1;
        break;
      }
      end := h.pos;
      ListingFrom(cells, start, s, end, out);
      out := out + Header(s, end - s);
      start := end;
    }
    if start != -1 && end != -1 {
      // the print after the loop: no break leaves both offsets set
      assert false;
    }
    code := 0;
  }
}
