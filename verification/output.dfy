/**
 The decoder's output file, seen through the two effects the record parser
 applies to it: a seek that leaves a hole, and a write of payload bytes at the
 current position.
 */
module Output {

  /**
   A regular file written through one descriptor: the bytes written so far by
   offset, the write position, whether the descriptor can seek, and the size
   past which writes fail (a full disk or a file-size limit).
   */
  datatype File = File(bytes: map<nat, char>, cursor: nat, seekable: bool, limit: nat)

  /** A fresh, empty output file. */
  function Empty(seekable: bool, limit: nat): (f: File)
    ensures f.bytes == map[] && f.cursor == 0
  {
    File(map[], 0, seekable, limit)
  }

  /** The bytes of `data` placed at offsets `at`, `at + 1`, ... */
  function Span(at: nat, data: seq<char>): (m: map<nat, char>)
    ensures forall i: nat :: i in m <==> at <= i < at + |data|
    ensures forall i: nat | at <= i < at + |data| :: m[i] == data[i - at]
    decreases |data|
  {
    if |data| == 0 then map[]
    else Span(at, data[..|data| - 1])[at + |data| - 1 := data[|data| - 1]]
  }

  /** Outcome of a seek: the repositioned file, or the negative return code. */
  datatype Seeked = Moved(file: File) | SeekFailed(code: int)

  /**
   Positions the write cursor at `offset` without writing, so that whatever
   lies between the end of the file and `offset` stays a hole.
   */
  function DoHole(f: File, offset: nat): (r: Seeked)
    ensures r.Moved? <==> f.seekable
    ensures r.Moved? ==> r.file.cursor == offset && r.file.bytes == f.bytes
    ensures r.Moved? ==> r.file.seekable == f.seekable && r.file.limit == f.limit
    ensures r.SeekFailed? ==> r.code == -1
  {
    if f.seekable then Moved(f.(cursor := offset)) else SeekFailed(-1)
  }

  /**
   Writes `data` at the cursor and advances the cursor past it: the bytes land
   at `cursor`, `cursor + 1`, ... and every other offset keeps what it held.
   */
  function Put(f: File, data: seq<char>): (g: File)
    ensures g.cursor == f.cursor + |data| && g.seekable == f.seekable && g.limit == f.limit
  {
    f.(bytes := f.bytes + Span(f.cursor, data), cursor := f.cursor + |data|)
  }

  /** A write places each byte of `data` at its offset from the cursor and leaves every other offset as it was. */
  lemma PutPlaces(f: File, data: seq<char>)
    ensures forall j | 0 <= j < |data| :: f.cursor + j in Put(f, data).bytes && Put(f, data).bytes[f.cursor + j] == data[j]
    ensures forall i: nat | !(f.cursor <= i < f.cursor + |data|) :: (i in Put(f, data).bytes <==> i in f.bytes)
    ensures forall i: nat | i in f.bytes && !(f.cursor <= i < f.cursor + |data|) :: Put(f, data).bytes[i] == f.bytes[i]
  {
    var s := Span(f.cursor, data);
    forall j | 0 <= j < |data|
      ensures f.cursor + j in s && s[f.cursor + j] == data[j]
    {
      var i: nat := f.cursor + j;
      assert i in s && s[i] == data[i - f.cursor];
    }
  }

  /** Outcome of a payload write: the file and the count written, or the negative return code and the file as the failure left it. */
  datatype Written = Wrote(file: File, count: nat) | WriteFailed(code: int, file: File)

  /** How many bytes still fit below the file's limit from the cursor on. */
  function Room(f: File): nat {
    if f.cursor < f.limit then f.limit - f.cursor else 0
  }

  /**
   Writes `data` at the cursor, retrying short writes until all of it is
   written. An empty request is refused (-2) without writing. A write that
   reaches the file's limit fails (-4) after the bytes that still fit were
   written.
   */
  function DoMeat(f: File, data: seq<char>): (r: Written)
    ensures r.Wrote? <==> 0 < |data| && f.cursor + |data| <= f.limit
    ensures |data| == 0 ==> r == WriteFailed(-2, f)
    ensures r.WriteFailed? ==> r.code == -2 || r.code == -4
    ensures r.Wrote? ==> r.count == |data| && r.file == Put(f, data)
    ensures r.WriteFailed? && r.code == -4 ==> Room(f) < |data| && r.file == Put(f, data[..Room(f)])
  {
    if |data| == 0 then WriteFailed(-2, f)
    else if f.cursor + |data| > f.limit then WriteFailed(-4, Put(f, data[..Room(f)]))
    else Wrote(Put(f, data), |data|)
  }

  /** Whether it succeeds or fails, a payload write never stores a byte at or past the file's limit. */
  lemma DoMeatWithinLimit(f: File, data: seq<char>)
    ensures forall i: nat | i in DoMeat(f, data).file.bytes && i !in f.bytes :: i < f.limit
  {
    var r := DoMeat(f, data);
    if r.Wrote? {
      PutPlaces(f, data);
    } else if r.code == -4 {
      PutPlaces(f, data[..Room(f)]);
    }
  }
}
