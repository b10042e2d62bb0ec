/**
 Worked streams for the decoder: the example stream of the format, the same
 stream cut at different read boundaries, and the edge cases the parser
 treats in its own way (a header with nothing after it, a record of size
 zero, a stream that ends inside a payload, a malformed size).
 */
module Scenarios {
  import opened Tokens
  import opened Format
  import opened Output
  import opened Record
  import opened Decoder
  import opened Extents
  import opened Encoder
  import opened Algebra

  /** The example stream: four bytes at offset 0, three bytes at offset 10. */
  const Example: seq<char> := "0 4\nABCD10 3\nXYZ"

  lemma ExampleHeaders()
    ensures Header(0, 4) == "0 4\n"
    ensures Header(10, 3) == "10 3\n"
    ensures Example == Header(0, 4) + "ABCD" + (Header(10, 3) + "XYZ" + [])
  {
    assert Decimal(10) == "10";
  }

  /** Two whole records in one text: both payloads are written and the parser ends at the start. */
  lemma TwoRecords(s1: nat, p1: seq<char>, s2: nat, p2: seq<char>, f: File)
    requires f.seekable && |p1| >= 1 && |p2| >= 1
    requires s1 + |p1| <= f.limit && s2 + |p2| <= f.limit
    ensures Drain(Initial, Header(s1, |p1|) + p1 + (Header(s2, |p2|) + p2 + []), f)
      == Decoded(0, File(f.bytes + Span(s1, p1) + Span(s2, p2), s2 + |p2|, true, f.limit), Initial)
  {
    var tail := Header(s2, |p2|) + p2 + [];
    DrainRecord(s1, p1, tail, f);
    var f1 := File(f.bytes + Span(s1, p1), s1 + |p1|, true, f.limit);
    DrainRecord(s2, p2, [], f1);
  }

  /** Read in one piece, the example stream writes both records and ends cleanly. */
  lemma ExampleDecodes(limit: nat)
    requires 13 <= limit
    ensures var r := Decode(true, [Example], Empty(true, limit));
      && r.code == 0 && r.m == Initial
      && r.file.bytes == Span(0, "ABCD") + Span(10, "XYZ")
  {
    var f := Empty(true, limit);
    ExampleHeaders();
    TwoRecords(0, "ABCD", 10, "XYZ", f);
    OneRead(Example, f);
    EmptyUnion(Span(0, "ABCD"));
  }

  /** The first read of the cut stream: a header and two of its four payload bytes. */
  lemma FirstRead(f: File)
    requires f.seekable && 4 <= f.limit
    ensures Drain(Initial, "0 4\nAB", f)
      == Decoded(0, File(f.bytes + Span(0, "AB"), 2, true, f.limit), Machine(0, 2, Meat))
  {
    ExampleHeaders();
    var w := "0 4\nAB";
    assert w == Header(0, 4) + "AB";
    HeaderStep(0, 4, "AB", f);
    var s := Step(Initial, w, f);
    assert "AB"[..2] == "AB";
    assert s == Stepped(6, 6, Machine(0, 2, Meat), File(f.bytes + Span(0, "AB"), 2, true, f.limit));
    assert w[6..] == [];
  }

  /**
   The second read: the last two payload bytes complete the record, then the
   next header's offset and, after its space, the digit of its size. The call
   that reads the size reports only the two bytes of the size phase, so the
   driver hands the size's space and digit to the parser once more, where
   the space ends the size and the digit is not a terminator.
   */
  lemma SecondRead(f: File)
    requires f.cursor == 2 && f.cursor + 2 <= f.limit
    ensures Drain(Machine(0, 2, Meat), "CD10 3", f).code == 4
  {
    var f' := PayloadEnds(f);
    OffsetThenPartialSize(f');
    SizeReadAgain(f');
  }

  /** The two bytes the record still owes complete it; the rest of the read starts a new header. */
  lemma PayloadEnds(f: File) returns (f': File)
    requires f.cursor == 2 && f.cursor + 2 <= f.limit
    ensures Drain(Machine(0, 2, Meat), "CD10 3", f) == Drain(Initial, "10 3", f')
  {
    var w := "CD10 3";
    var m := Machine(0, 2, Meat);
    assert Step(m, w, f) == MeatPhase(m, w, f, 0);
    assert w[..2] == "CD";
    f' := Step(m, w, f).file;
    assert Step(m, w, f) == Stepped(0, 2, Initial, f');
    assert w[2..] == "10 3";
  }

  /** "10 " completes the offset; " 3" runs out inside the size, and only those two bytes are reported. */
  lemma OffsetThenPartialSize(f: File)
    ensures Drain(Initial, "10 3", f) == Drain(Machine(10, 3, Size), " 3", f)
  {
    var w := "10 3";
    assert SkipBlanks(w, 0) == 0;
    assert ScanDigits(w, 2, 10) == Done(2, 10);
    assert ScanDigits(w, 1, 1) == Done(2, 10);
    assert ParseUint(w, 0) == Done(2, 10);
    OffsetPhase(w, f, 2, 10);
    var w2 := w[2..];
    assert w2 == " 3";
    assert SkipBlanks(w2, 0) == 1;
    assert ScanDigits(w2, 2, 3) == More(2, 3);
    assert ScanDigits(w2, 1, 0) == More(2, 3);
    assert ParseUint(w2, 0) == More(2, 3);
    assert Step(Initial, w, f) == Stepped(2, 2, Machine(10, 3, Size), f);
  }

  /** Read again from its space, the size ends at once and the digit after it is not a terminator. */
  lemma SizeReadAgain(f: File)
    ensures Drain(Machine(10, 3, Size), " 3", f).code == 4
  {
    var w := " 3";
    var m := Machine(10, 3, Size);
    assert ScanDigits(w, 0, 3) == Done(0, 3);
    assert ParseUint(w, 3) == Done(0, 3);
    assert w[0..] == w;
    assert SkipSpaces(w, 0) == 1;
    assert ParseNewline(w) == Failed(-1);
    assert Step(m, w, f) == Stepped(-1, 0, m.(phase := Error), f);
  }

  /**
   The same bytes as the example stream, read in three pieces, fail: the
   result of a decode depends on where the reads cut the stream.
   */
  lemma ReadBoundariesMatter(limit: nat)
    requires 13 <= limit
    ensures "0 4\nAB" + "CD10 3" + "\nXYZ" == Example
    ensures Decode(true, [Example], Empty(true, limit)).code == 0
    ensures Decode(true, ["0 4\nAB", "CD10 3", "\nXYZ"], Empty(true, limit)).code == 4
  {
    CutStream();
    ExampleDecodes(limit);
    var f := Empty(true, limit);
    var blocks := ["0 4\nAB", "CD10 3", "\nXYZ"];
    FirstRead(f);
    var f1 := File(f.bytes + Span(0, "AB"), 2, true, limit);
    SecondRead(f1);
    assert blocks[1..] == ["CD10 3", "\nXYZ"];
    assert Feed(Initial, blocks, f) == Feed(Machine(0, 2, Meat), blocks[1..], f1);
  }

  /** The three reads of the cut stream hold exactly the example stream. */
  lemma CutStream()
    ensures "0 4\nAB" + "CD10 3" + "\nXYZ" == Example
  {
  }

  /**
   A read that ends inside the size reports only the size's bytes, counted from
   the start of the read, so the driver hands the read's last bytes, the size's
   digits, to the parser once more: "12 34" leaves the size at 3434.
   */
  lemma SizeDigitsReadTwice(f: File)
    ensures Step(Initial, "12 34", f) == Stepped(3, 3, Machine(12, 34, Size), f)
    ensures Drain(Initial, "12 34", f) == Decoded(0, f, Machine(12, 3434, Size))
  {
    var w := "12 34";
    assert SkipBlanks(w, 0) == 0;
    assert ScanDigits(w, 2, 12) == Done(2, 12);
    assert ScanDigits(w, 0, 0) == Done(2, 12);
    assert ParseUint(w, 0) == Done(2, 12);
    OffsetPhase(w, f, 2, 12);
    var w1 := w[2..];
    assert w1 == " 34";
    assert SkipBlanks(w1, 0) == 1;
    assert ScanDigits(w1, 3, 34) == More(3, 34);
    assert ScanDigits(w1, 1, 0) == More(3, 34);
    assert ParseUint(w1, 0) == More(3, 34);
    var w2 := w[3..];
    assert w2 == "34";
    assert ScanDigits(w2, 2, 3434) == More(2, 3434);
    assert ScanDigits(w2, 0, 34) == More(2, 3434);
    assert ParseUint(w2, 34) == More(2, 3434);
    assert Step(Machine(12, 34, Size), w2, f) == Stepped(2, 2, Machine(12, 3434, Size), f);
    assert w2[2..] == [];
  }

  /**
   The text carries no file size and the decoder only seeks and writes, so a
   hole at the end of the input is lost: a data byte followed by a hole
   decodes to that one byte and nothing after it.
   */
  lemma TrailingHoleLost(limit: nat)
    requires 2 <= limit
    ensures var cells := [Data('A'), Hole];
      var r := Decode(true, [Encoding(cells, FileExtents(cells))], Empty(true, limit));
      r.code == 0 && r.file.bytes == map[0 := 'A']
  {
    var cells := [Data('A'), Hole];
    RoundTrip(cells, limit);
    var r := Decode(true, [Encoding(cells, FileExtents(cells))], Empty(true, limit));
    assert r.file.bytes.Keys == {0} by {
      forall i: nat | i in r.file.bytes ensures i == 0 {
        assert i < |cells| && cells[i].Data?;
      }
      assert cells[0].Data?;
    }
    assert r.file.bytes[0] == 'A';
  }

  /** A header with no payload in its read asks to write zero bytes, which is an error. */
  lemma HeaderAloneFails(limit: nat)
    requires 4 <= limit
    ensures Decode(true, ["0 4\n", "ABCD"], Empty(true, limit)).code == 4
  {
    var f := Empty(true, limit);
    ExampleHeaders();
    assert "0 4\n" == Header(0, 4) + [];
    HeaderStep(0, 4, [], f);
    assert Step(Initial, "0 4\n", f).code < 0;
  }

  /** A record of size zero is an error, whatever follows it. */
  lemma EmptyRecordFails(limit: nat)
    ensures Decode(true, ["5 0\nX"], Empty(true, limit)).code == 4
  {
    var f := Empty(true, limit);
    assert Decimal(5) == "5" && Decimal(0) == "0";
    assert "5 0\nX" == Header(5, 0) + "X";
    HeaderStep(5, 0, "X", f);
    assert Step(Initial, "5 0\nX", f).code < 0;
  }

  /**
   A stream that ends inside a payload still decodes with code 0; the parser
   is left owing the missing bytes.
   */
  lemma TruncatedStreamAccepted(limit: nat)
    requires 8 <= limit
    ensures var r := Decode(true, ["7 3\nA"], Empty(true, limit));
      r.code == 0 && r.m == Machine(7, 2, Meat)
  {
    var f := Empty(true, limit);
    var w := "7 3\nA";
    assert Decimal(7) == "7" && Decimal(3) == "3";
    assert w == Header(7, 3) + "A";
    HeaderStep(7, 3, "A", f);
    assert "A"[..1] == "A";
    var s := Step(Initial, w, f);
    assert s.code == 5 && s.outSz == 5 && s.m == Machine(7, 2, Meat);
    assert w[5..] == [];
    assert Drain(Initial, w, f) == Decoded(0, s.file, s.m);
    OneRead(w, f);
  }

  /** A size that is not a number stops the decode before anything is written. */
  lemma MalformedSizeFails(limit: nat)
    ensures var r := Decode(true, ["12 x\n"], Empty(true, limit));
      r.code == 4 && r.file == Empty(true, limit)
  {
    var f := Empty(true, limit);
    var w := "12 x\n";
    assert SkipBlanks(w, 0) == 0;
    assert ScanDigits(w, 2, 12) == Done(2, 12);
    assert ScanDigits(w, 0, 0) == Done(2, 12);
    assert ParseUint(w, 0) == Done(2, 12);
    OffsetPhase(w, f, 2, 12);
    var w1 := w[2..];
    assert w1 == " x\n";
    assert SkipBlanks(w1, 0) == 1;
    assert ScanDigits(w1, 1, 0) == Failed(-1);
    assert ParseUint(w1, 0) == Failed(-1);
  }
}
