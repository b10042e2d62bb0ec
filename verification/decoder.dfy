/**
 The decode driver: reads the ursparse stream block by block and hands each
 block to the record parser, advancing through the block by the byte count
 each call reports, until end of input or the first parser error.
 */
module Decoder {
  import opened Output
  import opened Record

  /** The driver's return code, the output file, and the parser state it stopped in. */
  datatype Decoded = Decoded(code: int, file: File, m: Machine)

  /**
   The cursor loop over one block: call the parser on the rest of the block
   until it is used up (code 0) or the parser fails (code 4).
   */
  function Drain(m: Machine, w: seq<char>, f: File): (r: Decoded)
    requires Valid(m)
    ensures r.code == 0 || r.code == 4
    ensures Valid(r.m)
    ensures m.phase != Error ==> (r.code == 4 <==> r.m.phase == Error)
    ensures m.phase == Error && |w| > 0 ==> r == Decoded(4, f, m)
    ensures r.file.seekable == f.seekable && r.file.limit == f.limit
    decreases |w|
  {
    if |w| == 0 then Decoded(0, f, m)
    else
      var s := Step(m, w, f);
      if s.code < 0 then Decoded(4, s.file, s.m)
      else Drain(s.m, w[s.outSz..], s.file)
  }

  /**
   The block loop from parser state `m`: an empty read is end of input and
   ends the decode with code 0, whatever state the parser is in.
   */
  function Feed(m: Machine, blocks: seq<seq<char>>, f: File): (r: Decoded)
    requires Valid(m) && m.phase != Error
    ensures r.code == 0 || r.code == 4
    ensures r.code == 4 <==> r.m.phase == Error
    ensures Valid(r.m)
    ensures |blocks| == 0 || |blocks[0]| == 0 ==> r == Decoded(0, f, m)
    decreases |blocks|
  {
    if |blocks| == 0 || |blocks[0]| == 0 then Decoded(0, f, m)
    else
      var r := Drain(m, blocks[0], f);
      if r.code != 0 then r else Feed(r.m, blocks[1..], r.file)
  }

  /**
   Decodes a stream read as `blocks`, each the result of one read of the
   input; a read of zero bytes or the end of the sequence is end of input.
   An input that cannot seek is refused with code 1 before anything is read.
   */
  function Decode(inputSeekable: bool, blocks: seq<seq<char>>, f: File): (r: Decoded)
    ensures r.code == 0 || r.code == 1 || r.code == 4
    ensures r.code == 1 <==> !inputSeekable
    ensures r.code == 4 <==> inputSeekable && r.m.phase == Error
  {
    if !inputSeekable then Decoded(1, f, Initial) else Feed(Initial, blocks, f)
  }

  /** The cursor loop over one block, as the driver runs it: `rest` is the block from the cursor on. */
  method DrainBlock(m0: Machine, block: seq<char>, f0: File) returns (r: Decoded)
    requires Valid(m0) && m0.phase != Error
    ensures r == Drain(m0, block, f0)
  {
    var m, file := m0, f0;
    var cursor, rest := 0, block;
    while cursor < |block|
      invariant cursor + |rest| == |block|
      invariant Valid(m) && m.phase != Error
      invariant Drain(m, rest, file) == Drain(m0, block, f0)
      decreases |block| - cursor
    {
      var s := Step(m, rest, file);
      if s.code < 0 {
        return Decoded(4, s.file, s.m);
      }
      m, file := s.m, s.file;
      cursor, rest := cursor + s.outSz, rest[s.outSz..];
    }
    return Decoded(0, file, m);
  }

  /** The driver's block loop, computing what `Decode` describes. */
  method DoUrsparse(inputSeekable: bool, blocks: seq<seq<char>>, out: File) returns (code: int, file: File)
    ensures code == Decode(inputSeekable, blocks, out).code
    ensures file == Decode(inputSeekable, blocks, out).file
    ensures code == 0 || code == 1 || code == 4
  {
    if !inputSeekable {
      return 1, out;
    }
    var m := Initial;
    file := out;
    var i := 0;
    while i < |blocks|
      invariant 0 <= i <= |blocks|
      invariant Valid(m) && m.phase != Error
      invariant Feed(m, blocks[i..], file) == Feed(Initial, blocks, out)
      decreases |blocks| - i
    {
      if |blocks[i]| == 0 {
        break;
      }
      assert blocks[i..][1..] == blocks[i + 1..];
      var r := DrainBlock(m, blocks[i], file);
      if r.code != 0 {
        return r.code, r.file;
      }
      m, file := r.m, r.file;
      i := i + 1;
    }
    code := 0;
  }

  /** A decode of a single non-empty read ends where the drain of that read ends. */
  lemma OneRead(text: seq<char>, f: File)
    requires |text| > 0
    ensures Decode(true, [text], f) == Drain(Initial, text, f)
  {
    var none: seq<seq<char>> := [];
    assert [text][1..] == none;
    var r := Drain(Initial, text, f);
    if r.code == 0 {
      assert Feed(Initial, [text], f) == Feed(r.m, none, r.file);
      assert Feed(r.m, none, r.file) == Decoded(0, r.file, r.m);
    }
  }
}
