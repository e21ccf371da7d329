/** A torrent's byte stream laid out over several files. */
module MultiFile {
  import opened Bytes

  /** A path on disk; only its identity matters. */
  type Path = nat

  datatype FileEntry = FileEntry(path: Path, offset: int, length: nat)

  /** The contents of every file that exists. */
  type Disk = map<Path, bytes>

  function Contents(disk: Disk, path: Path): bytes {
    if path in disk then disk[path] else []
  }

  /** What a positioned write does to a file: it overwrites, and extends the file with zeros if needed. */
  function Overwritten(c: bytes, off: nat, data: bytes): (r: bytes)
    ensures off + |data| <= |c| ==> |r| == |c|
  {
    var padded := if |c| < off + |data| then c + Zeros(off + |data| - |c|) else c;
    padded[..off] + data + padded[off + |data|..]
  }

  /** What a positioned read returns: less than asked for at the end of the file. */
  function ReadSlice(c: bytes, off: nat, n: nat): (r: bytes)
    ensures |r| <= n
  {
    if off >= |c| then [] else if off + n > |c| then c[off..] else c[off..off + n]
  }

  /** A file cut to n bytes, or extended to them with zeros. */
  function Truncated(c: bytes, n: nat): (r: bytes)
    ensures |r| == n && forall x :: 0 <= x < n ==> r[x] == if x < |c| then c[x] else 0
  {
    if |c| < n then c + Zeros(n - |c|) else c[..n]
  }

  // ---------------------------------------------------------- the loops, as functions

  function Max0(x: int): nat {
    if x < 0 then 0 else x
  }

  function Min(x: int, y: int): int {
    if x < y then x else y
  }

  datatype WriteResult = WriteResult(disk: Disk, count: nat)

  datatype ReadResult = ReadResult(data: bytes, ok: bool)

  /** The write loop from file i on; the result is the disk and the number of bytes written. */
  function WriteFrom(files: seq<FileEntry>, disk: Disk, i: nat, off: int, data: bytes): WriteResult
    requires i <= |files|
    decreases |files| - i
  {
    if i == |files| || data == [] then WriteResult(disk, 0)
    else
      var fe := files[i];
      if off >= fe.offset + fe.length then WriteFrom(files, disk, i + 1, off, data)
      else
        var fileOff := Max0(off - fe.offset);
        var n := Max0(Min(fe.length - fileOff, |data|));
        var disk' := disk[fe.path := Overwritten(Contents(disk, fe.path), fileOff, data[..n])];
        var r := WriteFrom(files, disk', i + 1, off + n, data[n..]);
        WriteResult(r.disk, n + r.count)
  }

  /** The read loop from file i on; a missing file ends it, and so does one that ends too early. */
  function ReadFrom(files: seq<FileEntry>, disk: Disk, i: nat, off: int, n: nat): ReadResult
    requires i <= |files|
    decreases |files| - i
  {
    if i == |files| || n == 0 then ReadResult([], true)
    else
      var fe := files[i];
      if off >= fe.offset + fe.length then ReadFrom(files, disk, i + 1, off, n)
      else
        var fileOff := Max0(off - fe.offset);
        var want := Max0(Min(fe.length - fileOff, n));
        if fe.path !in disk then ReadResult([], false)
        else
          var got := ReadSlice(disk[fe.path], fileOff, want);
          if got == [] && want > 0 then ReadResult([], false)
          else
            var r := ReadFrom(files, disk, i + 1, off + |got|, n - |got|);
            ReadResult(got + r.data, r.ok)
  }

  // ---------------------------------------------------------------- the flat stream

  ghost predicate Distinct(files: seq<FileEntry>) {
    forall i, j :: 0 <= i < j < |files| ==> files[i].path != files[j].path
  }

  /** The total length of the first n files. */
  function Offset(files: seq<FileEntry>, n: nat): nat
    requires n <= |files|
  {
    if n == 0 then 0 else Offset(files, n - 1) + files[n - 1].length
  }

  function Total(files: seq<FileEntry>): nat {
    Offset(files, |files|)
  }

  ghost predicate Placed(files: seq<FileEntry>, i: nat)
    requires i < |files|
  {
    files[i].offset == Offset(files, i)
  }

  /** Offsets are the running sums of the lengths. */
  ghost predicate LaidOut(files: seq<FileEntry>) {
    forall i :: 0 <= i < |files| ==> Placed(files, i)
  }

  /** Every file exists with its full length. */
  ghost predicate Preallocated(files: seq<FileEntry>, disk: Disk) {
    forall i :: 0 <= i < |files| ==> files[i].path in disk && |disk[files[i].path]| == files[i].length
  }

  ghost predicate Ready(files: seq<FileEntry>, disk: Disk) {
    LaidOut(files) && Distinct(files) && Preallocated(files, disk)
  }

  /** The first n files end to end. */
  function StreamTo(files: seq<FileEntry>, disk: Disk, n: nat): bytes
    requires n <= |files|
  {
    if n == 0 then [] else StreamTo(files, disk, n - 1) + Contents(disk, files[n - 1].path)
  }

  /** All files end to end. */
  function Stream(files: seq<FileEntry>, disk: Disk): bytes {
    StreamTo(files, disk, |files|)
  }

  /** How many of `n` bytes at `off` fall inside a stream of `total` bytes. */
  function Clipped(off: nat, n: nat, total: nat): nat {
    if off >= total then 0 else if off + n > total then total - off else n
  }

  /** s' is s with the first n bytes of data written at `off`, and nothing else changed. */
  ghost predicate IsWritten(s: bytes, off: nat, data: bytes, n: nat, s': bytes)
    requires n <= |data|
  {
    && |s'| == |s|
    && (n > 0 ==> off + n <= |s|)
    && forall x :: 0 <= x < |s| ==> s'[x] == if off <= x < off + n then data[x - off] else s[x]
  }

  lemma {:induction false} StreamLength(files: seq<FileEntry>, disk: Disk, n: nat)
    requires Preallocated(files, disk) && n <= |files|
    ensures |StreamTo(files, disk, n)| == Offset(files, n)
  {
    if n > 0 {
      StreamLength(files, disk, n - 1);
    }
  }

  lemma {:induction false} UntouchedBefore(files: seq<FileEntry>, disk: Disk, i: nat, n: nat, c: bytes)
    requires Distinct(files) && n <= i < |files|
    ensures StreamTo(files, disk[files[i].path := c], n) == StreamTo(files, disk, n)
  {
    if n > 0 {
      UntouchedBefore(files, disk, i, n - 1, c);
    }
  }

  /** File i lies at its offset in the stream. */
  lemma {:induction false} FileInStream(files: seq<FileEntry>, disk: Disk, i: nat, n: nat)
    requires Ready(files, disk) && i < n <= |files|
    ensures var fe, s := files[i], StreamTo(files, disk, n);
      && 0 <= fe.offset && fe.offset + fe.length <= |s| == Offset(files, n)
      && forall x :: 0 <= x < fe.length ==> s[fe.offset + x] == disk[fe.path][x]
  {
    StreamLength(files, disk, n - 1);
    OffsetOf(files, i);
    if i < n - 1 {
      FileInStream(files, disk, i, n - 1);
    }
  }

  /** Replacing the contents of file i replaces that part of the stream. */
  lemma {:induction false} ReplacedInStream(files: seq<FileEntry>, disk: Disk, i: nat, n: nat, c: bytes)
    requires Ready(files, disk) && i < n <= |files| && |c| == files[i].length
    ensures 0 <= files[i].offset
    ensures IsWritten(StreamTo(files, disk, n), files[i].offset, c, |c|, StreamTo(files, disk[files[i].path := c], n))
  {
    StreamLength(files, disk, n - 1);
    OffsetOf(files, i);
    var disk' := disk[files[i].path := c];
    var t, t' := Contents(disk, files[n - 1].path), Contents(disk', files[n - 1].path);
    if n == i + 1 {
      UntouchedBefore(files, disk, i, i, c);
      WrittenLast(StreamTo(files, disk, i), t, c);
    } else {
      ReplacedInStream(files, disk, i, n - 1, c);
      assert t' == t;
      WrittenAppend(StreamTo(files, disk, n - 1), files[i].offset, c, StreamTo(files, disk', n - 1), t);
    }
  }

  lemma WrittenLast(s: bytes, t: bytes, c: bytes)
    requires |t| == |c|
    ensures IsWritten(s + t, |s|, c, |c|, s + c)
  {
  }

  lemma WrittenAppend(s: bytes, off: nat, c: bytes, s': bytes, t: bytes)
    requires IsWritten(s, off, c, |c|, s')
    ensures IsWritten(s + t, off, c, |c|, s' + t)
  {
  }

  // ------------------------------------------------------------------ refinement

  /** A positioned write puts the data in its place, keeps every other byte and fills a gap with zeros. */
  lemma OverwrittenBytes(c: bytes, off: nat, data: bytes)
    ensures var r := Overwritten(c, off, data);
      && |r| == (if |c| < off + |data| then off + |data| else |c|)
      && forall x :: 0 <= x < |r| ==>
           r[x] == if off <= x < off + |data| then data[x - off] else if x < |c| then c[x] else 0
  {
  }

  /** A positioned read gives the bytes there, and too few only at the end of the file. */
  lemma ReadSliceBytes(c: bytes, off: nat, n: nat)
    ensures var r := ReadSlice(c, off, n);
      && |r| <= n && (|r| < n ==> off + |r| >= |c|)
      && forall x :: 0 <= x < |r| ==> off + x < |c| && r[x] == c[off + x]
  {
  }

  lemma OverwrittenAt(c: bytes, off: nat, data: bytes)
    requires off + |data| <= |c|
    ensures IsWritten(c, off, data, |data|, Overwritten(c, off, data))
  {
  }

  /** Overwriting part of a part. */
  lemma WrittenInside(s: bytes, lo: nat, c: bytes, off: nat, data: bytes, c': bytes, s': bytes)
    requires lo + |c| <= |s| && forall x :: 0 <= x < |c| ==> s[lo + x] == c[x]
    requires lo <= off && off + |data| <= lo + |c|
    requires IsWritten(c, off - lo, data, |data|, c') && IsWritten(s, lo, c', |c'|, s')
    ensures IsWritten(s, off, data, |data|, s')
  {
    forall x | 0 <= x < |s| ensures s'[x] == if off <= x < off + |data| then data[x - off] else s[x] {
      if lo <= x < lo + |c| {
        assert s[lo + (x - lo)] == c[x - lo];
        assert c'[x - lo] == if off <= x < off + |data| then data[x - off] else c[x - lo];
      }
    }
  }

  lemma OneFileWrite(files: seq<FileEntry>, disk: Disk, i: nat, off: nat, data: bytes, disk': Disk)
    requires Ready(files, disk) && i < |files|
    requires files[i].offset <= off && off + |data| <= files[i].offset + files[i].length
    requires disk' == disk[files[i].path := Overwritten(Contents(disk, files[i].path), off - files[i].offset, data)]
    ensures Ready(files, disk')
    ensures IsWritten(Stream(files, disk), off, data, |data|, Stream(files, disk'))
  {
    var fe := files[i];
    var c := Overwritten(disk[fe.path], off - fe.offset, data);
    OverwrittenAt(disk[fe.path], off - fe.offset, data);
    StillReady(files, disk, i, c);
    OnePartWritten(files, disk, i, off, data, c);
  }

  lemma OnePartWritten(files: seq<FileEntry>, disk: Disk, i: nat, off: nat, data: bytes, c: bytes)
    requires Ready(files, disk) && i < |files| && |c| == files[i].length
    requires files[i].offset <= off && off + |data| <= files[i].offset + files[i].length
    requires IsWritten(disk[files[i].path], off - files[i].offset, data, |data|, c)
    requires Ready(files, disk[files[i].path := c])
    ensures IsWritten(Stream(files, disk), off, data, |data|, Stream(files, disk[files[i].path := c]))
  {
    hide IsWritten, StreamTo, Offset, LaidOut;
    var fe := files[i];
    FileInStream(files, disk, i, |files|);
    ReplacedInStream(files, disk, i, |files|, c);
    WrittenInside(Stream(files, disk), fe.offset, disk[fe.path], off, data, c, Stream(files, disk[fe.path := c]));
  }

  lemma StillReady(files: seq<FileEntry>, disk: Disk, i: nat, c: bytes)
    requires Ready(files, disk) && i < |files| && |c| == files[i].length
    ensures Ready(files, disk[files[i].path := c])
  {
    hide LaidOut;
  }

  /** Writing n bytes and then m more of the rest. */
  lemma WrittenTwice(s: bytes, off: nat, data: bytes, n: nat, s1: bytes, m: nat, s2: bytes)
    requires n + m <= |data|
    requires IsWritten(s, off, data[..n], n, s1) && IsWritten(s1, off + n, data[n..], m, s2)
    ensures IsWritten(s, off, data, n + m, s2)
  {
    forall x | 0 <= x < |s| ensures s2[x] == if off <= x < off + n + m then data[x - off] else s[x] {
      assert s1[x] == if off <= x < off + n then data[..n][x - off] else s[x];
      assert s2[x] == if off + n <= x < off + n + m then data[n..][x - off - n] else s1[x];
    }
  }

  lemma OffsetOf(files: seq<FileEntry>, i: nat)
    requires LaidOut(files) && i < |files|
    ensures files[i].offset == Offset(files, i) && Offset(files, i + 1) == files[i].offset + files[i].length
  {
    assert Placed(files, i);
  }

  /** One turn of the write loop that reaches into file i. */
  lemma WriteTurn(files: seq<FileEntry>, disk: Disk, i: nat, off: nat, data: bytes) returns (n: nat, disk': Disk)
    requires i < |files| && data != []
    requires files[i].offset <= off < files[i].offset + files[i].length
    ensures n == Min(files[i].length - (off - files[i].offset), |data|)
    ensures disk' == disk[files[i].path := Overwritten(Contents(disk, files[i].path), off - files[i].offset, data[..n])]
    ensures var r := WriteFrom(files, disk', i + 1, off + n, data[n..]);
      WriteFrom(files, disk, i, off, data) == WriteResult(r.disk, n + r.count)
  {
    n := Min(files[i].length - (off - files[i].offset), |data|);
    disk' := disk[files[i].path := Overwritten(Contents(disk, files[i].path), off - files[i].offset, data[..n])];
  }

  /** The outcome of a write: the bytes that fall inside the stream are written there, and nowhere else. */
  ghost predicate Refines(files: seq<FileEntry>, disk: Disk, off: nat, data: bytes, r: WriteResult) {
    && r.count == Clipped(off, |data|, Total(files)) <= |data|
    && Ready(files, r.disk)
    && IsWritten(Stream(files, disk), off, data, r.count, Stream(files, r.disk))
  }

  lemma WriteEnd(files: seq<FileEntry>, disk: Disk, i: nat, off: nat, data: bytes)
    requires Ready(files, disk) && i <= |files| && (data == [] || (i == |files| && Total(files) <= off))
    ensures Refines(files, disk, off, data, WriteFrom(files, disk, i, off, data))
  {
  }

  lemma WriteSkip(files: seq<FileEntry>, disk: Disk, i: nat, off: nat, data: bytes)
    requires i < |files| && off >= files[i].offset + files[i].length
    ensures WriteFrom(files, disk, i, off, data) == WriteFrom(files, disk, i + 1, off, data)
  {
  }

  /** The write loop from file i on writes to the stream, and nowhere else, the bytes that fall inside. */
  lemma {:induction false} WriteRefines(files: seq<FileEntry>, disk: Disk, i: nat, off: nat, data: bytes)
    requires Ready(files, disk) && i <= |files|
    requires data != [] ==> Offset(files, i) <= off
    ensures Refines(files, disk, off, data, WriteFrom(files, disk, i, off, data))
    decreases |files| - i
  {
    hide StreamTo, WriteFrom, IsWritten, Offset;
    if data == [] || i == |files| {
      WriteEnd(files, disk, i, off, data);
    } else {
      OffsetOf(files, i);
      if off >= files[i].offset + files[i].length {
        WriteSkip(files, disk, i, off, data);
        WriteRefines(files, disk, i + 1, off, data);
      } else {
        var n, disk' := WriteTurn(files, disk, i, off, data);
        OneFileWrite(files, disk, i, off, data[..n], disk');
        WriteRefines(files, disk', i + 1, off + n, data[n..]);
        var r := WriteFrom(files, disk', i + 1, off + n, data[n..]);
        WriteCombines(files, disk, off, data, n, disk', r.count, r.disk);
      }
    }
    assert Refines(files, disk, off, data, WriteFrom(files, disk, i, off, data));
  }

  lemma WriteCombines(files: seq<FileEntry>, disk: Disk, off: nat, data: bytes, n: nat, disk': Disk, m: nat,
                      disk'': Disk)
    requires Preallocated(files, disk) && 0 < n <= |data| && m == Clipped(off + n, |data| - n, Total(files))
    requires IsWritten(Stream(files, disk), off, data[..n], n, Stream(files, disk'))
    requires IsWritten(Stream(files, disk'), off + n, data[n..], m, Stream(files, disk''))
    ensures n + m == Clipped(off, |data|, Total(files)) <= |data|
    ensures IsWritten(Stream(files, disk), off, data, n + m, Stream(files, disk''))
  {
    StreamLength(files, disk, |files|);
    hide StreamTo, Offset;
    WrittenTwice(Stream(files, disk), off, data, n, Stream(files, disk'), m, Stream(files, disk''));
  }
}
