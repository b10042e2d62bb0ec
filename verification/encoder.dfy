/**
 The encoder: walks the data extents of a sparse input and writes, for each,
 a `"%ld %ld\n"` header followed by the extent's bytes copied straight from
 the input. Holes are written as nothing at all.
 */
module Encoder {
  import opened Tokens
  import opened Format
  import opened Extents
  import opened Output
  import opened Record
  import opened Decoder
  import opened Algebra

  /** The most bytes one `copy_file_range` call moves on Linux (MAX_RW_COUNT with 4 KiB pages). */
  const MaxRwCount: nat := 0x7fff_f000

  /** What reading one byte of the input yields: a hole reads as zero. */
  function ByteOf(c: Cell): char {
    if c.Data? then c.byte else 0 as char
  }

  /** The bytes of the input that remain from offset `start` to the end of the file. */
  function Available(cells: seq<Cell>, start: nat): nat {
    if start < |cells| then |cells| - start else 0
  }

  /**
   The bytes one successful `copy_file_range` call moves from offset `start`
   when asked for `len`: as many as were asked, but never past the end of the
   input and never more than MaxRwCount.
   */
  function CopyBytes(cells: seq<Cell>, start: nat, len: nat): (b: seq<char>)
    ensures |b| <= len && |b| <= MaxRwCount && (|b| == 0 || start + |b| <= |cells|)
    ensures |b| == len || |b| == MaxRwCount || start + |b| >= |cells|
    ensures forall j | 0 <= j < |b| :: b[j] == ByteOf(cells[start + j])
  {
    var n := Min(len, Min(MaxRwCount, Available(cells, start)));
    seq(n, j requires 0 <= j < n => ByteOf(cells[start + j]))
  }

  /**
   The encoder's output as the copy sees it: whether it is a regular file, and
   the input offsets whose copy fails for another reason (no space left, an
   I/O error, a file-size limit, an output opened for appending).
   */
  datatype Sink = Sink(regular: bool, failing: set<nat>)

  /**
   Whether the copy of the extent starting at `start` fails: always when the
   output is not a regular file (a pipe, a terminal), otherwise at the
   failing offsets.
   */
  predicate CopyFails(sink: Sink, start: nat) {
    !sink.regular || start in sink.failing
  }

  /** Outcome of `do_sparse_copy_data`: the bytes moved, or failure. */
  datatype Copy = Copied(bytes: seq<char>) | CopyFailed

  /**
   Copies an extent from the input to the output. A short count is accepted as
   it is, since the caller only checks for failure.
   */
  function CopyData(cells: seq<Cell>, sink: Sink, start: nat, len: nat): (r: Copy)
    ensures r.CopyFailed? <==> CopyFails(sink, start)
    ensures r.Copied? ==> r.bytes == CopyBytes(cells, start, len)
  {
    if CopyFails(sink, start) then CopyFailed else Copied(CopyBytes(cells, start, len))
  }

  /** Outcome of `do_sparse_data`: its return code and the text it wrote to the output. */
  datatype Emitted = Emitted(code: int, text: seq<char>)

  /**
   One record: the header, then the extent's bytes. A failed copy leaves the
   header already written and returns -1.
   */
  function DoSparseData(cells: seq<Cell>, sink: Sink, start: nat, len: nat): (r: Emitted)
    ensures r.code == 0 || r.code == -1
    ensures r.code == -1 <==> CopyFails(sink, start)
    ensures r.code == -1 ==> r.text == Header(start, len)
    ensures r.code == 0 ==> r.text == Header(start, len) + CopyBytes(cells, start, len)
  {
    var h := Header(start, len);
    match CopyData(cells, sink, start, len)
    case CopyFailed => Emitted(-1, h)
    case Copied(b) => Emitted(0, h + b)
  }

  /** The text the encoder writes for the extents `es` when every copy succeeds. */
  function Encoding(cells: seq<Cell>, es: seq<Extent>): seq<char>
    decreases |es|
  {
    if |es| == 0 then []
    else Header(es[0].start, es[0].len) + CopyBytes(cells, es[0].start, es[0].len) + Encoding(cells, es[1..])
  }

  /** The text for `es` and one more extent is the text for `es`, then that extent's record. */
  lemma {:induction false} EncodingAppend(cells: seq<Cell>, es: seq<Extent>, x: Extent)
    ensures Encoding(cells, es + [x]) == Encoding(cells, es) + (Header(x.start, x.len) + CopyBytes(cells, x.start, x.len))
    decreases |es|
  {
    var r := Header(x.start, x.len) + CopyBytes(cells, x.start, x.len);
    if |es| == 0 {
      assert es + [x] == [x];
      assert [x][1..] == [];
    } else {
      assert (es + [x])[0] == es[0];
      assert (es + [x])[1..] == es[1..] + [x];
      EncodingAppend(cells, es[1..], x);
      var h := Header(es[0].start, es[0].len) + CopyBytes(cells, es[0].start, es[0].len);
      Reassociate(h, Encoding(cells, es[1..]), r);
    }
  }

  /** Index of the first extent of `es` whose copy fails, or `|es|` when none does. */
  function FirstFailure(sink: Sink, es: seq<Extent>): (k: nat)
    ensures k <= |es|
    ensures forall j | 0 <= j < k :: !CopyFails(sink, es[j].start)
    ensures k < |es| ==> CopyFails(sink, es[k].start)
    decreases |es|
  {
    if |es| == 0 then 0
    else if CopyFails(sink, es[0].start) then 0
    else 1 + FirstFailure(sink, es[1..])
  }

  /**
   An output that is not a regular file (a pipe) refuses every copy, so a run
   over a file holding data stops at its first extent: nothing precedes that
   extent's header in the text written.
   */
  lemma PipeOutputStopsAtOnce(cells: seq<Cell>, sink: Sink)
    requires !sink.regular && |FileExtents(cells)| > 0
    ensures var es := FileExtents(cells);
      FirstFailure(sink, es) == 0 && Encoding(cells, es[..FirstFailure(sink, es)]) == []
  {
  }

  /** The text for the extents from `x` on: the next record, then the text for the extents after it. */
  lemma EncodingStep(cells: seq<Cell>, x: nat, s: nat, e: nat)
    requires SeekData(cells, x) == At(s) && SeekHole(cells, s) == At(e)
    ensures Encoding(cells, ExtentsFrom(cells, x))
      == Header(s, e - s) + CopyBytes(cells, s, e - s) + Encoding(cells, ExtentsFrom(cells, e))
  {
    var es := ExtentsFrom(cells, x);
    ExtentsStep(cells, x);
    assert es[1..] == ExtentsFrom(cells, e);
  }

  /**
   The encode mode. An input that cannot seek is refused with code 1. The first
   copy that fails ends the run with code 2, after the records before it and
   its own header were written. The loop ends on ENXIO, which leaves `start` or
   `end` at -1, so the record after the loop (code 3) is never written.
   */
  method DoSparse(src: Source, sink: Sink) returns (code: int, out: seq<char>)
    ensures code == 0 || code == 1 || code == 2
    ensures code == 1 <==> !src.seekable
    ensures code == 1 ==> out == []
    ensures var es := FileExtents(src.cells);
      code == 2 <==> src.seekable && FirstFailure(sink, es) < |es|
    ensures var es := FileExtents(src.cells);
      var k := FirstFailure(sink, es);
      code == 2 ==> k < |es| && out == Encoding(src.cells, es[..k]) + Header(es[k].start, es[k].len)
    ensures code == 0 ==> out == Encoding(src.cells, FileExtents(src.cells))
  {
    if !src.seekable {
      return 1, [];
    }
    var cells := src.cells;
    var start: int := 0;
    var end: int := 0;
    out := [];
    ghost var done: seq<Extent> := [];
    while true
      invariant 0 <= start <= |cells|
      invariant done + ExtentsFrom(cells, start) == FileExtents(cells)
      invariant out == Encoding(cells, done)
      invariant FirstFailure(sink, done) == |done|
      decreases |cells| - start
    {
      var d := SeekData(cells, start);
      if d.Enxio? {
        assert done == FileExtents(cells);
        start := -1;
        break;
      }
      var s := d.pos;
      var h := SeekHole(cells, s);
      if h.Enxio? {
        start, end := s, -1;
        break;
      }
      end := h.pos;
      var r := DoSparseData(cells, sink, s, end - s);
      if r.code != 0 {
        StopAt(cells, sink, start, s, end, done);
        return 2, out + r.text;
      }
      CopiedOne(cells, start, s, end, done);
      CleanAppend(sink, done, Extent(s, end - s));
      out := out + r.text;
      done := done + [Extent(s, end - s)];
      start := end;
    }
    if start != -1 && end != -1 {
      // the record after the loop: no break leaves both offsets set
      assert false;
    }
    code := 0;
  }

  /** One turn of the encoder loop whose copy succeeds: its extent moves from the extents still to visit to those done. */
  lemma CopiedOne(cells: seq<Cell>, x: nat, s: nat, e: nat, done: seq<Extent>)
    requires SeekData(cells, x) == At(s) && SeekHole(cells, s) == At(e)
    requires done + ExtentsFrom(cells, x) == FileExtents(cells)
    ensures (done + [Extent(s, e - s)]) + ExtentsFrom(cells, e) == FileExtents(cells)
    ensures Encoding(cells, done + [Extent(s, e - s)]) == Encoding(cells, done) + (Header(s, e - s) + CopyBytes(cells, s, e - s))
  {
    ExtentsStep(cells, x);
    EncodingAppend(cells, done, Extent(s, e - s));
    Reassociate(done, [Extent(s, e - s)], ExtentsFrom(cells, e));
  }

  /** A turn of the encoder loop whose copy fails is at the first failing extent of the file. */
  lemma StopAt(cells: seq<Cell>, sink: Sink, x: nat, s: nat, e: nat, done: seq<Extent>)
    requires SeekData(cells, x) == At(s) && SeekHole(cells, s) == At(e)
    requires done + ExtentsFrom(cells, x) == FileExtents(cells)
    requires FirstFailure(sink, done) == |done|
    requires CopyFails(sink, s)
    ensures var es := FileExtents(cells);
      var k := FirstFailure(sink, es);
      k == |done| < |es| && es[..k] == done && es[k] == Extent(s, e - s)
  {
    ExtentsStep(cells, x);
    FailureAt(sink, done, Extent(s, e - s), ExtentsFrom(cells, e), FileExtents(cells));
  }

  /** Extents that all copy cleanly stay so with one more that copies cleanly. */
  lemma CleanAppend(sink: Sink, done: seq<Extent>, x: Extent)
    requires FirstFailure(sink, done) == |done| && !CopyFails(sink, x.start)
    ensures FirstFailure(sink, done + [x]) == |done| + 1
  {
    var es := done + [x];
    forall j | 0 <= j < |es|
      ensures !CopyFails(sink, es[j].start)
    {
      if j < |done| {
        assert es[j] == done[j];
      }
    }
  }

  /** A failing copy after `done` copied cleanly makes the run stop at the first extent after `done`. */
  lemma FailureAt(sink: Sink, done: seq<Extent>, x: Extent, rest: seq<Extent>, es: seq<Extent>)
    requires done + ([x] + rest) == es
    requires forall j | 0 <= j < |done| :: !CopyFails(sink, done[j].start)
    requires CopyFails(sink, x.start)
    ensures FirstFailure(sink, es) == |done| && es[..|done|] == done && es[|done|] == x
  {
    assert es[|done|] == x;
    assert es[..|done|] == done;
  }

  // ------------------------------------------------------------ round trip

  /** Every extent of `es` is short enough for one copy to move it whole. */
  predicate FitsOneCopy(es: seq<Extent>) {
    forall k | 0 <= k < |es| :: es[k].len <= MaxRwCount
  }

  /** When the extents from `x` each fit one copy, so does the next one and every one after it. */
  lemma FitsOneCopyStep(cells: seq<Cell>, x: nat, s: nat, e: nat)
    requires SeekData(cells, x) == At(s) && SeekHole(cells, s) == At(e)
    requires FitsOneCopy(ExtentsFrom(cells, x))
    ensures e - s <= MaxRwCount && FitsOneCopy(ExtentsFrom(cells, e))
  {
    ExtentsStep(cells, x);
    var es := ExtentsFrom(cells, x);
    assert es[0] == Extent(s, e - s);
    forall k | 0 <= k < |ExtentsFrom(cells, e)|
      ensures ExtentsFrom(cells, e)[k].len <= MaxRwCount
    {
      assert ExtentsFrom(cells, e)[k] == es[k + 1];
    }
  }

  /** The stored bytes of the input from offset `x` on, by offset. */
  function DataFrom(cells: seq<Cell>, x: nat): (m: map<nat, char>)
    ensures forall i: nat :: i in m <==> x <= i < |cells| && cells[i].Data?
    ensures forall i: nat | i in m :: m[i] == cells[i].byte
  {
    map i: nat | x <= i < |cells| && cells[i].Data? :: cells[i].byte
  }

  /** A header decodes to the record's offset and size and leaves the parser writing its payload at the offset. */
  lemma HeaderStep(start: nat, len: nat, rest: seq<char>, f: File)
    requires f.seekable
    ensures Step(Initial, Header(start, len) + rest, f)
      == MeatPhase(Machine(start, len, Meat), rest, f.(cursor := start), |Header(start, len)|)
  {
    var w := Header(start, len) + rest;
    HeaderTokens(start, len, rest);
    PhasesOfHeader(start, len, w, f, |Decimal(start)|, 1 + |Decimal(len)|, rest);
  }

  /** The parser's walk through a header, given where the token parsers end each token. */
  lemma PhasesOfHeader(start: nat, len: nat, w: seq<char>, f: File, a: nat, b: nat, rest: seq<char>)
    requires f.seekable && |w| > 0
    requires ParseUint(w, 0) == Done(a, start)
    requires ParseUint(w[a..], 0) == Done(b, len)
    requires ParseNewline(w[a..][b..]) == Done(1, 0)
    requires w[a..][b..][1..] == rest
    ensures Step(Initial, w, f) == MeatPhase(Machine(start, len, Meat), rest, f.(cursor := start), a + b + 1)
  {
    var w1 := w[a..];
    var w2 := w1[b..];
    OffsetPhase(w, f, a, start);
    SizePhase(start, 0, w1, f, a, b, len);
    NewlinePhase(start, len, w2, f, a + b, 1);
    assert Step(Initial, w, f) == Phases(Machine(start, len, Newline), w2, f, a + b);
  }

  /** How the token parsers split a header: the offset, the size with the space before it, the terminator. */
  lemma HeaderTokens(start: nat, len: nat, rest: seq<char>)
    ensures var w := Header(start, len) + rest;
      var a, b := |Decimal(start)|, 1 + |Decimal(len)|;
      && |Header(start, len)| == a + b + 1
      && ParseUint(w, 0) == Done(a, start)
      && ParseUint(w[a..], 0) == Done(b, len)
      && ParseNewline(w[a..][b..]) == Done(1, 0)
      && w[a..][b..][1..] == rest
  {
    var ds, dl := Decimal(start), Decimal(len);
    var w := Header(start, len) + rest;
    var w2 := ['\n'] + rest;
    var w1 := [' '] + dl + w2;
    Regroup(ds, [' '], dl, ['\n'], rest);
    assert w[|ds|..] == w1;
    assert w1[1 + |dl|..] == w2;
    assert w2[1..] == rest;
    OffsetDone(ds, w1, start);
    SizeDone(dl, w2, len);
    NewlineDone(rest);
  }

  /** A call from the start state whose offset completes continues in SIZE after the offset's digits. */
  lemma OffsetPhase(w: seq<char>, f: File, n: nat, v: nat)
    requires |w| > 0 && ParseUint(w, 0) == Done(n, v)
    ensures Step(Initial, w, f) == Phases(Machine(v, 0, Size), w[n..], f, n)
  {
    assert Step(Initial, w, f) == Phases(Machine(0, 0, Offset), w, f, 0);
  }

  /** A size that completes in the window continues in NEWLINE after its digits. */
  lemma SizePhase(offset: nat, acc: nat, w: seq<char>, f: File, extra: nat, n: nat, v: nat)
    requires ParseUint(w, acc) == Done(n, v)
    ensures Phases(Machine(offset, acc, Size), w, f, extra) == Phases(Machine(offset, v, Newline), w[n..], f, extra + n)
  {
    match ParseUint(w, acc)
    case Done(n', v') =>
      assert n' == n && v' == v;
  }

  /** A terminator that completes in the window seeks to the offset and starts the payload after it. */
  lemma NewlinePhase(offset: nat, size: nat, w: seq<char>, f: File, extra: nat, n: nat)
    requires ParseNewline(w) == Done(n, 0) && f.seekable
    ensures Phases(Machine(offset, size, Newline), w, f, extra)
      == MeatPhase(Machine(offset, size, Meat), w[n..], f.(cursor := offset), extra + n)
  {
    assert DoHole(f, offset) == Moved(f.(cursor := offset));
  }

  /** The offset of a header: its digits, ended by the space. */
  lemma OffsetDone(ds: seq<char>, w1: seq<char>, n: nat)
    requires ds == Decimal(n) && |w1| > 0 && w1[0] == ' '
    ensures ParseUint(ds + w1, 0) == Done(|ds|, n)
  {
    var w := ds + w1;
    assert w[..0] == [] && w[0..|ds|] == ds;
    assert DoneShape(w, 0, 0, |ds|);
    DecimalRoundTrip(n);
  }

  /** The size of a header: the space before it skipped, its digits ended by the newline. */
  lemma SizeDone(dl: seq<char>, w2: seq<char>, n: nat)
    requires dl == Decimal(n) && |w2| > 0 && w2[0] == '\n'
    ensures ParseUint([' '] + dl + w2, 0) == Done(1 + |dl|, n)
  {
    var w := [' '] + dl + w2;
    assert w[..1] == [' '] && w[1..1 + |dl|] == dl;
    assert DoneShape(w, 0, 1, 1 + |dl|);
    DecimalRoundTrip(n);
  }

  /** The terminator of a header. */
  lemma NewlineDone(rest: seq<char>)
    ensures ParseNewline(['\n'] + rest) == Done(1, 0)
  {
    var w := ['\n'] + rest;
    assert AllSpaces(w[..0]) && w[0] == '\n';
  }

  /**
   A whole record, header and payload, is one parser call that returns 0: the
   payload lands at the record's offset and the parser is back at the start.
   */
  lemma RecordStep(start: nat, payload: seq<char>, rest: seq<char>, f: File)
    requires f.seekable && |payload| >= 1 && start + |payload| <= f.limit
    ensures var h := Header(start, |payload|);
      Step(Initial, h + payload + rest, f)
        == Stepped(0, |h| + |payload|, Initial, File(f.bytes + Span(start, payload), start + |payload|, true, f.limit))
  {
    var h := Header(start, |payload|);
    var w := payload + rest;
    assert h + payload + rest == h + w;
    HeaderStep(start, |payload|, w, f);
    assert w[..|payload|] == payload;
  }

  /** The bytes a record carries for a maximal data run are that run's stored bytes. */
  lemma RunBytes(cells: seq<Cell>, s: nat, e: nat)
    requires s < e <= |cells| && e - s <= MaxRwCount
    requires forall j | s <= j < e :: cells[j].Data?
    ensures |CopyBytes(cells, s, e - s)| == e - s
    ensures forall j | s <= j < e :: CopyBytes(cells, s, e - s)[j - s] == cells[j].byte
  {
  }

  /** The copy of a data run no longer than one copy moves has the run's length. */
  lemma CopyRunLength(cells: seq<Cell>, s: nat, e: nat)
    requires s <= e <= |cells| && e - s <= MaxRwCount
    ensures |CopyBytes(cells, s, e - s)| == e - s
  {
  }

  /** The stored bytes from `x` on: the holes up to `s`, the run `s..e`, then the stored bytes from `e` on. */
  lemma DataSplit(cells: seq<Cell>, x: nat, s: nat, e: nat, payload: seq<char>)
    requires x <= s < e <= |cells| && |payload| == e - s
    requires forall j | x <= j < s :: cells[j].Hole?
    requires forall j | s <= j < e :: cells[j].Data?
    requires forall j | 0 <= j < e - s :: payload[j] == cells[s + j].byte
    ensures DataFrom(cells, x) == Span(s, payload) + DataFrom(cells, e)
  {
    var a, b := DataFrom(cells, x), Span(s, payload) + DataFrom(cells, e);
    forall i: nat
      ensures i in a <==> i in b
    {
    }
    forall i: nat | i in a
      ensures a[i] == b[i]
    {
      if i < e {
        assert payload[i - s] == cells[s + (i - s)].byte;
      }
    }
  }

  /** Decoding a whole record continues with the text after it, from the start state, on the written file. */
  lemma DrainRecord(start: nat, payload: seq<char>, rest: seq<char>, f: File)
    requires f.seekable && |payload| >= 1 && start + |payload| <= f.limit
    ensures Drain(Initial, Header(start, |payload|) + payload + rest, f)
      == Drain(Initial, rest, File(f.bytes + Span(start, payload), start + |payload|, true, f.limit))
  {
    var h := Header(start, |payload|);
    var w := h + payload + rest;
    RecordStep(start, payload, rest, f);
    assert w[|h| + |payload|..] == rest;
  }

  /**
   The first record from `x` on, decoded: it leaves the parser at the start,
   before the records after it, with the run's bytes written.
   */
  lemma RecordOfRun(cells: seq<Cell>, x: nat, s: nat, e: nat, f: File) returns (f': File)
    requires SeekData(cells, x) == At(s) && SeekHole(cells, s) == At(e) && e - s <= MaxRwCount
    requires f.seekable && |cells| <= f.limit
    ensures Drain(Initial, Encoding(cells, ExtentsFrom(cells, x)), f) == Drain(Initial, Encoding(cells, ExtentsFrom(cells, e)), f')
    ensures f'.seekable && f'.limit == f.limit
    ensures f'.bytes + DataFrom(cells, e) == f.bytes + DataFrom(cells, x)
  {
    var payload := CopyBytes(cells, s, e - s);
    f' := File(f.bytes + Span(s, payload), e, true, f.limit);
    RecordText(cells, x, s, e, f);
    RecordBytes(cells, x, s, e, f.bytes);
  }

  /** The first record from `x` on decodes to a write of the run's copy at its offset. */
  lemma RecordText(cells: seq<Cell>, x: nat, s: nat, e: nat, f: File)
    requires SeekData(cells, x) == At(s) && SeekHole(cells, s) == At(e) && e - s <= MaxRwCount
    requires f.seekable && e <= f.limit
    ensures Drain(Initial, Encoding(cells, ExtentsFrom(cells, x)), f)
      == Drain(Initial, Encoding(cells, ExtentsFrom(cells, e)), File(f.bytes + Span(s, CopyBytes(cells, s, e - s)), e, true, f.limit))
  {
    var payload := CopyBytes(cells, s, e - s);
    var rest := Encoding(cells, ExtentsFrom(cells, e));
    EncodingStep(cells, x, s, e);
    CopyRunLength(cells, s, e);
    assert Encoding(cells, ExtentsFrom(cells, x)) == Header(s, |payload|) + payload + rest;
    DrainRecord(s, payload, rest, f);
    assert File(f.bytes + Span(s, payload), s + |payload|, true, f.limit) == File(f.bytes + Span(s, payload), e, true, f.limit);
  }

  /** The run's copy at its offset, with the stored bytes after the run, are the stored bytes from `x` on. */
  lemma RecordBytes(cells: seq<Cell>, x: nat, s: nat, e: nat, bytes: map<nat, char>)
    requires SeekData(cells, x) == At(s) && SeekHole(cells, s) == At(e) && e - s <= MaxRwCount
    ensures (bytes + Span(s, CopyBytes(cells, s, e - s))) + DataFrom(cells, e) == bytes + DataFrom(cells, x)
  {
    var payload := CopyBytes(cells, s, e - s);
    RunBytes(cells, s, e);
    DataSplit(cells, x, s, e, payload);
    MapUnion(bytes, Span(s, payload), DataFrom(cells, e));
  }

  /** Decoding the records of the extents from `x` on writes exactly the stored bytes from `x` on. */
  lemma {:induction false} DrainRecords(cells: seq<Cell>, x: nat, f: File)
    requires f.seekable && |cells| <= f.limit && FitsOneCopy(ExtentsFrom(cells, x))
    ensures var r := Drain(Initial, Encoding(cells, ExtentsFrom(cells, x)), f);
      && r.code == 0 && r.m == Initial
      && r.file.bytes == f.bytes + DataFrom(cells, x)
      && r.file.seekable && r.file.limit == f.limit
    decreases |cells| - x
  {
    if SeekData(cells, x).At? {
      var s := SeekData(cells, x).pos;
      var e := SeekHole(cells, s).pos;
      FitsOneCopyStep(cells, x, s, e);
      var f' := RecordOfRun(cells, x, s, e, f);
      DrainRecords(cells, e, f');
    } else {
      assert ExtentsFrom(cells, x) == [];
      assert DataFrom(cells, x) == map[];
      EmptyUnion(f.bytes);
    }
  }

  /**
   Encoding a file and decoding the text read in one piece into an empty,
   seekable output restores every stored byte at its offset and writes
   nothing where the input has holes. The text carries no file size, so a
   hole at the end of the input is not restored.
   */
  lemma RoundTrip(cells: seq<Cell>, limit: nat)
    requires |cells| <= limit
    requires forall e | MaximalRun(cells, e) :: e.len <= MaxRwCount
    ensures var r := Decode(true, [Encoding(cells, FileExtents(cells))], Empty(true, limit));
      && r.code == 0 && r.m == Initial
      && (forall i: nat :: i in r.file.bytes <==> i < |cells| && cells[i].Data?)
      && (forall i: nat | i in r.file.bytes :: r.file.bytes[i] == cells[i].byte)
  {
    var f := Empty(true, limit);
    var text := Encoding(cells, FileExtents(cells));
    FileExtentsAreMaximalRuns(cells);
    assert FitsOneCopy(FileExtents(cells));
    DrainRecords(cells, 0, f);
    EmptyUnion(DataFrom(cells, 0));
    if |text| > 0 {
      OneRead(text, f);
    }
  }

  /**
   An extent longer than one copy moves is written with a header that promises
   more bytes than follow it.
   */
  lemma LongExtentShortPayload(cells: seq<Cell>, e: Extent)
    requires MaximalRun(cells, e) && e.len > MaxRwCount
    ensures |CopyBytes(cells, e.start, e.len)| == MaxRwCount < e.len
  {
  }
}
