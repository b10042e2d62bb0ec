/**
 The resumable record parser of the ursparse decoder. One call takes a window
 of input and walks the phases START, OFFSET, SIZE, NEWLINE and MEAT, falling
 through to the next phase whenever the current one completes within the
 window. A finished header seeks the output to the record's offset; payload
 bytes are written at the cursor. Any failure parks the parser in ERROR.
 */
module Record {
  import opened Tokens
  import opened Output

  datatype Phase = Start | Offset | Size | Newline | Meat | Error

  /**
   The parser state kept between calls: the record's offset and its remaining
   size (each also serves as the accumulator while its number is being read)
   and the current phase.
   */
  datatype Machine = Machine(offset: nat, size: nat, phase: Phase)

  /** The zeroed state a stream starts from and every completed record returns to. */
  const Initial: Machine := Machine(0, 0, Start)

  /**
   States the parser can reach from `Initial`: the accumulators are still zero
   before their numbers start, and a segment being written has bytes left.
   */
  predicate Valid(m: Machine) {
    && (m.phase == Start ==> m.offset == 0 && m.size == 0)
    && (m.phase == Offset ==> m.size == 0)
    && (m.phase == Meat ==> m.size > 0)
  }

  /**
   What one call returns: its return code (negative on error, 0 when a record
   was completed, the byte count otherwise), the byte count it reports to the
   driver (0 on error, where the driver does not read it), the new state and
   the output file after the call's effects.
   */
  datatype Stepped = Stepped(code: int, outSz: nat, m: Machine, file: File)

  function Min(a: nat, b: nat): nat { if a < b then a else b }

  /** Facts every phase of a call guarantees, for a call that had `extra` bytes consumed before this phase. */
  predicate Sound(w: seq<char>, f: File, extra: nat, r: Stepped) {
    && (r.code < 0 ==> r.m.phase == Error && r.outSz == 0)
    && (r.m.phase == Error ==> r.code < 0)
    && (r.code >= 0 ==> 1 <= r.outSz <= extra + |w|)
    && (r.code > 0 ==> r.code == r.outSz && r.m.phase != Start)
    && (r.code == 0 ==> r.m == Initial)
    && r.code != -7
    && r.file.seekable == f.seekable && r.file.limit == f.limit
  }

  /**
   The parser's entry point. An empty window is refused without touching the
   state; in ERROR every call is refused with -5.
   */
  function Step(m: Machine, w: seq<char>, f: File): (r: Stepped)
    ensures |w| == 0 ==> r == Stepped(-2, 0, m, f)
    ensures m.phase == Error ==> r.m == m && r.file == f && r.code < 0
    ensures m.phase == Error && |w| > 0 ==> r.code == -5
    ensures |w| > 0 && r.code < 0 ==> r.m.phase == Error
    ensures r.m.phase == Error ==> r.code < 0
    ensures r.code != -7
    ensures r.code == 0 ==> r.m == Initial
    ensures r.file.seekable == f.seekable && r.file.limit == f.limit
    ensures Valid(m) ==> Valid(r.m)
    ensures m.phase != Error && |w| > 0 && r.code >= 0 ==> 1 <= r.outSz <= |w|
  {
    if |w| == 0 then Stepped(-2, 0, m, f)
    else if m.phase == Error then Stepped(-5, 0, m, f)
    else Phases(m, w, f, 0)
  }

  /** Order in which the phases fall through into each other. */
  function Rank(p: Phase): nat {
    match p
    case Start => 5
    case Offset => 4
    case Size => 3
    case Newline => 2
    case Meat => 1
    case Error => 0
  }

  /**
   Runs the current phase on the window and, when it completes, falls through
   into the next one on the rest of the window; `extra` counts the bytes the
   earlier phases of this call consumed. Windows that end inside the size or
   the terminator report only the bytes of that last phase.
   */
  function Phases(m: Machine, w: seq<char>, f: File, extra: nat): (r: Stepped)
    requires m.phase != Error
    requires m.phase == Offset || m.phase == Start ==> extra == 0
    ensures Sound(w, f, extra, r)
    ensures Valid(m) || m.phase !in {Start, Offset} ==> Valid(r.m)
    decreases Rank(m.phase)
  {
    match m.phase
    case Start =>
      Phases(m.(phase := Offset), w, f, extra)
    case Offset =>
      (match ParseUint(w, m.offset)
       case Failed(c) => Stepped(c, 0, m.(phase := Error), f)
       case More(n, v) => Stepped(n, n, m.(offset := v), f)
       case Done(n, v) => Phases(m.(offset := v, phase := Size), w[n..], f, extra + n))
    case Size =>
      (match ParseUint(w, m.size)
       case Failed(c) => Stepped(c, 0, m.(phase := Error), f)
       case More(n, v) => Stepped(n, n, m.(size := v), f)
       case Done(n, v) => Phases(m.(size := v, phase := Newline), w[n..], f, extra + n))
    case Newline =>
      (match ParseNewline(w)
       case Failed(c) => Stepped(c, 0, m.(phase := Error), f)
       case More(n, _) => Stepped(n, n, m, f)
       case Done(n, _) =>
         match DoHole(f, m.offset)
         case SeekFailed(_) => Stepped(-8, 0, m.(phase := Error), f)
         case Moved(f') => Phases(m.(phase := Meat), w[n..], f', extra + n))
    case Meat =>
      MeatPhase(m, w, f, extra)
  }

  /**
   MEAT: write as many payload bytes as the window holds, up to the bytes the
   record still owes. The record is complete when none are left, and the whole
   state is then reset. A request of zero bytes is an error.
   */
  function MeatPhase(m: Machine, w: seq<char>, f: File, extra: nat): (r: Stepped)
    requires m.phase == Meat
    ensures var k := Min(|w|, m.size);
      && (r.code >= 0 <==> 0 < k && f.cursor + k <= f.limit)
      && (r.code >= 0 ==> DoMeat(f, w[..k]) == Wrote(r.file, k) && r.outSz == extra + k)
      && (r.code == 0 <==> r.code >= 0 && k == m.size)
      && (r.code == 0 ==> r.m == Initial)
      && (r.code > 0 ==> r.m == m.(size := m.size - k) && r.m.size > 0)
      && (r.code < 0 ==> r.m == m.(phase := Error) && DoMeat(f, w[..k]) == WriteFailed(r.code, r.file))
    ensures Sound(w, f, extra, r)
    ensures Valid(r.m)
  {
    var k := Min(|w|, m.size);
    match DoMeat(f, w[..k])
    case WriteFailed(c, f') => Stepped(c, 0, m.(phase := Error), f')
    case Wrote(f', n) =>
      if m.size < n then Stepped(-7, 0, m.(phase := Error), f')
      else if m.size - n == 0 then Stepped(0, n + extra, Initial, f')
      else Stepped(n + extra, n + extra, m.(size := m.size - n), f')
  }
}
