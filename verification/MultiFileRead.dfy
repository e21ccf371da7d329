/** Reading a byte stream that is spread over several files, some of which may be too short. */
module MultiFileRead {
  import opened Bytes
  import opened MultiFile

  /** The bytes of the stream that a read of n bytes at `off` should return. */
  function Slice(s: bytes, off: nat, n: nat): (r: bytes)
    ensures |r| == Clipped(off, n, |s|)
  {
    if off >= |s| then [] else s[off..off + Clipped(off, n, |s|)]
  }

  lemma SplitRead(s: bytes, off: nat, n: nat, k: nat, got: bytes)
    requires |got| == k <= n && off + k <= |s| && forall x :: 0 <= x < k ==> got[x] == s[off + x]
    ensures Slice(s, off, n) == got + Slice(s, off + k, n - k)
  {
    assert got == s[off..off + k];
  }

  /** What file i holds of its part of `content` is right, as far as it goes. */
  ghost predicate HoldsPart(files: seq<FileEntry>, disk: Disk, content: bytes, i: nat)
    requires i < |files|
  {
    var fe := files[i];
    && 0 <= fe.offset && fe.offset + fe.length <= |content|
    && (fe.path in disk ==>
          forall y :: 0 <= y < fe.length && y < |disk[fe.path]| ==> disk[fe.path][y] == content[fe.offset + y])
  }

  /** Every file holds a prefix of its part of `content`, possibly followed by anything. */
  ghost predicate Consistent(files: seq<FileEntry>, disk: Disk, content: bytes) {
    |content| == Total(files) && forall i :: 0 <= i < |files| ==> HoldsPart(files, disk, content, i)
  }

  /** The file holds all of its part of the n bytes at `off`. */
  predicate Reaches(fe: FileEntry, disk: Disk, off: int, n: nat) {
    var end := Min(off + n, fe.offset + fe.length);
    (off < end && fe.offset < end) ==> fe.path in disk && end - fe.offset <= |disk[fe.path]|
  }

  /** No file that a read meets is missing or ends too early for it. */
  ghost predicate LongEnough(files: seq<FileEntry>, disk: Disk, off: int, n: nat) {
    forall i :: 0 <= i < |files| ==> Reaches(files[i], disk, off, n)
  }

  // ------------------------------------------------------------ long enough is enough

  /** At the end of the files, or with nothing left to read, there is nothing to return. */
  lemma ReadEnd(files: seq<FileEntry>, disk: Disk, content: bytes, i: nat, off: nat, n: nat)
    requires i <= |files| && |content| == Total(files) && (n == 0 || (i == |files| && Total(files) <= off))
    ensures ReadFrom(files, disk, i, off, n) == ReadResult(Slice(content, off, n), true)
  {
  }

  lemma ReadSkip(files: seq<FileEntry>, disk: Disk, i: nat, off: nat, n: nat)
    requires i < |files| && off >= files[i].offset + files[i].length
    ensures ReadFrom(files, disk, i, off, n) == ReadFrom(files, disk, i + 1, off, n)
  {
  }

  /** One turn of the read loop that reaches into file i. */
  lemma ReadTurn(files: seq<FileEntry>, disk: Disk, content: bytes, i: nat, off: nat, n: nat) returns (got: bytes)
    requires i < |files| && n > 0 && HoldsPart(files, disk, content, i) && Reaches(files[i], disk, off, n)
    requires files[i].offset <= off < files[i].offset + files[i].length
    ensures 0 < |got| <= n && off + |got| == Min(off + n, files[i].offset + files[i].length) <= |content|
    ensures forall x :: 0 <= x < |got| ==> got[x] == content[off + x]
    ensures var r := ReadFrom(files, disk, i + 1, off + |got|, n - |got|);
      ReadFrom(files, disk, i, off, n) == ReadResult(got + r.data, r.ok)
  {
    var fe := files[i];
    var o := off - fe.offset;
    got := ReadSlice(disk[fe.path], o, Min(fe.length - o, n));
    forall x | 0 <= x < |got| ensures got[x] == content[off + x] {
      assert disk[fe.path][o + x] == content[fe.offset + (o + x)];
    }
  }

  lemma StillLongEnough(files: seq<FileEntry>, disk: Disk, off: nat, n: nat, k: nat)
    requires LongEnough(files, disk, off, n) && k <= n
    ensures LongEnough(files, disk, off + k, n - k)
  {
    forall i | 0 <= i < |files| ensures Reaches(files[i], disk, off + k, n - k) {
      assert Reaches(files[i], disk, off, n);
    }
  }

  /** The read loop returns the clipped slice of the content if every file it meets is long enough. */
  lemma {:induction false} ReadIsRight(files: seq<FileEntry>, disk: Disk, content: bytes, i: nat, off: nat, n: nat)
    requires LaidOut(files) && Consistent(files, disk, content) && LongEnough(files, disk, off, n)
    requires i <= |files| && (n > 0 ==> Offset(files, i) <= off)
    ensures ReadFrom(files, disk, i, off, n) == ReadResult(Slice(content, off, n), true)
    decreases |files| - i
  {
    hide ReadFrom, Slice, HoldsPart, Reaches, Offset;
    if n == 0 || i == |files| {
      ReadEnd(files, disk, content, i, off, n);
    } else {
      OffsetOf(files, i);
      if off >= files[i].offset + files[i].length {
        ReadSkip(files, disk, i, off, n);
        ReadIsRight(files, disk, content, i + 1, off, n);
      } else {
        var got := ReadTurn(files, disk, content, i, off, n);
        StillLongEnough(files, disk, off, n, |got|);
        ReadIsRight(files, disk, content, i + 1, off + |got|, n - |got|);
        SplitRead(content, off, n, |got|, got);
      }
    }
    assert ReadFrom(files, disk, i, off, n) == ReadResult(Slice(content, off, n), true);
  }

  lemma ReadyIsConsistent(files: seq<FileEntry>, disk: Disk)
    requires Ready(files, disk)
    ensures Consistent(files, disk, Stream(files, disk))
  {
    StreamLength(files, disk, |files|);
    forall i | 0 <= i < |files| ensures HoldsPart(files, disk, Stream(files, disk), i) {
      FileInStream(files, disk, i, |files|);
    }
  }

  /** With preallocated files a read returns the slice of the concatenation of all files. */
  lemma ReadRefines(files: seq<FileEntry>, disk: Disk, off: nat, n: nat)
    requires Ready(files, disk)
    ensures ReadFrom(files, disk, 0, off, n) == ReadResult(Slice(Stream(files, disk), off, n), true)
  {
    ReadyIsConsistent(files, disk);
    assert LongEnough(files, disk, off, n);
    hide LongEnough, Ready, Consistent;
    assert LaidOut(files) by { IsLaidOut(files, disk); }
    ReadIsRight(files, disk, Stream(files, disk), 0, off, n);
  }

  lemma IsLaidOut(files: seq<FileEntry>, disk: Disk)
    requires Ready(files, disk)
    ensures LaidOut(files)
  {
  }

  // ------------------------------------------------------------ and needed

  /** The same files exist with the same lengths. */
  ghost predicate SameSizes(d: Disk, e: Disk) {
    d.Keys == e.Keys && forall p :: p in d ==> |d[p]| == |e[p]|
  }

  /** How much of the n bytes at `off` the file should give, and what it gives. */
  function Want(fe: FileEntry, off: int, n: nat): nat {
    Max0(Min(fe.length - Max0(off - fe.offset), n))
  }

  function Part(fe: FileEntry, disk: Disk, off: int, n: nat): (r: bytes)
    ensures |r| <= n
  {
    ReadSlice(Contents(disk, fe.path), Max0(off - fe.offset), Want(fe, off, n))
  }

  /** The file cannot be opened, or ends before the place to read. */
  predicate GivesNothing(fe: FileEntry, disk: Disk, off: int, n: nat) {
    fe.path !in disk || (Part(fe, disk, off, n) == [] && Want(fe, off, n) > 0)
  }

  /** One turn of the read loop. */
  lemma ReadUnfolds(files: seq<FileEntry>, disk: Disk, i: nat, off: int, n: nat)
    requires i <= |files|
    ensures i == |files| || n == 0 ==> ReadFrom(files, disk, i, off, n) == ReadResult([], true)
    ensures i < |files| && n > 0 && off >= files[i].offset + files[i].length ==>
      ReadFrom(files, disk, i, off, n) == ReadFrom(files, disk, i + 1, off, n)
    ensures i < |files| && n > 0 && off < files[i].offset + files[i].length && GivesNothing(files[i], disk, off, n) ==>
      ReadFrom(files, disk, i, off, n) == ReadResult([], false)
    ensures i < |files| && n > 0 && off < files[i].offset + files[i].length && !GivesNothing(files[i], disk, off, n) ==>
      var got := Part(files[i], disk, off, n);
      var r := ReadFrom(files, disk, i + 1, off + |got|, n - |got|);
      ReadFrom(files, disk, i, off, n) == ReadResult(got + r.data, r.ok)
  {
  }

  lemma PartAlike(fe: FileEntry, d: Disk, e: Disk, off: int, n: nat)
    requires SameSizes(d, e)
    ensures |Part(fe, d, off, n)| == |Part(fe, e, off, n)|
    ensures GivesNothing(fe, d, off, n) <==> GivesNothing(fe, e, off, n)
  {
  }

  /** The read loop is steered by lengths only. */
  lemma {:induction false} ReadAlike(files: seq<FileEntry>, d: Disk, e: Disk, i: nat, off: int, n: nat)
    requires SameSizes(d, e) && i <= |files|
    ensures ReadFrom(files, d, i, off, n).ok == ReadFrom(files, e, i, off, n).ok
    ensures |ReadFrom(files, d, i, off, n).data| == |ReadFrom(files, e, i, off, n).data|
    decreases |files| - i
  {
    hide ReadFrom, Part, GivesNothing, SameSizes;
    ReadUnfolds(files, d, i, off, n);
    ReadUnfolds(files, e, i, off, n);
    if i < |files| && n > 0 {
      PartAlike(files[i], d, e, off, n);
      if off >= files[i].offset + files[i].length {
        ReadAlike(files, d, e, i + 1, off, n);
      } else if !GivesNothing(files[i], d, off, n) {
        var got := |Part(files[i], d, off, n)|;
        ReadAlike(files, d, e, i + 1, off + got, n - got);
      }
    }
  }

  predicate AllZero(s: bytes) {
    forall x :: 0 <= x < |s| ==> s[x] == 0
  }

  function Blank(disk: Disk): (d: Disk)
    ensures SameSizes(disk, d) && forall p :: p in d ==> AllZero(d[p])
  {
    map p | p in disk :: Zeros(|disk[p]|)
  }

  lemma BlankPart(fe: FileEntry, d: Disk, off: int, n: nat)
    requires forall p :: p in d ==> AllZero(d[p])
    ensures AllZero(Part(fe, d, off, n))
  {
    assert AllZero(Contents(d, fe.path));
  }

  lemma {:induction false} BlankReadsZero(files: seq<FileEntry>, d: Disk, i: nat, off: int, n: nat)
    requires i <= |files| && forall p :: p in d ==> AllZero(d[p])
    ensures AllZero(ReadFrom(files, d, i, off, n).data)
    decreases |files| - i
  {
    hide ReadFrom, Part, GivesNothing;
    ReadUnfolds(files, d, i, off, n);
    if i < |files| && n > 0 {
      if off >= files[i].offset + files[i].length {
        BlankReadsZero(files, d, i + 1, off, n);
      } else if !GivesNothing(files[i], d, off, n) {
        var got := Part(files[i], d, off, n);
        BlankPart(files[i], d, off, n);
        BlankReadsZero(files, d, i + 1, off + |got|, n - |got|);
      }
    }
  }

  /** Zeros everywhere but at one place. */
  function Marked(total: nat, x: nat): (c: bytes)
    requires x < total
    ensures |c| == total && forall y :: 0 <= y < total ==> c[y] == if y == x then 1 else 0
  {
    Zeros(total)[x := 1]
  }

  /** The first byte of its part of the range that a file does not hold. */
  function Missing(fe: FileEntry, disk: Disk, off: int): int {
    var held := fe.offset + |Contents(disk, fe.path)|;
    var start := if off < fe.offset then fe.offset else off;
    if held < start then start else held
  }

  lemma MissingIsInRange(fe: FileEntry, disk: Disk, off: int, n: nat)
    requires !Reaches(fe, disk, off, n)
    ensures var x := Missing(fe, disk, off);
      && off <= x < off + n && fe.offset <= x < fe.offset + fe.length
      && x >= fe.offset + |Contents(disk, fe.path)|
  {
  }

  lemma {:induction false} OffsetGrows(files: seq<FileEntry>, m: nat, n: nat)
    requires m <= n <= |files|
    ensures Offset(files, m) <= Offset(files, n)
  {
    if m < n {
      OffsetGrows(files, m, n - 1);
    }
  }

  /** A position belongs to one file only. */
  lemma OneOwner(files: seq<FileEntry>, i: nat, j: nat, x: int)
    requires LaidOut(files) && i < |files| && j < |files|
    requires files[i].offset <= x < files[i].offset + files[i].length
    requires files[j].offset <= x < files[j].offset + files[j].length
    ensures i == j
  {
    OffsetOf(files, i);
    OffsetOf(files, j);
    if i < j {
      OffsetGrows(files, i + 1, j);
    } else if j < i {
      OffsetGrows(files, j + 1, i);
    }
  }

  /** A blank disk is consistent with content that differs only where the disk has no byte. */
  lemma BlankIsConsistent(files: seq<FileEntry>, disk: Disk, i: nat, x: nat)
    requires LaidOut(files) && i < |files| && x < Total(files)
    requires files[i].offset <= x < files[i].offset + files[i].length
    requires x >= files[i].offset + |Contents(disk, files[i].path)|
    ensures Consistent(files, Blank(disk), Marked(Total(files), x))
  {
    var d, c := Blank(disk), Marked(Total(files), x);
    forall j | 0 <= j < |files| ensures HoldsPart(files, d, c, j) {
      OffsetOf(files, j);
      OffsetGrows(files, j + 1, |files|);
      var fe := files[j];
      if fe.path in d {
        forall y | 0 <= y < fe.length && y < |d[fe.path]| ensures d[fe.path][y] == c[fe.offset + y] {
          assert AllZero(d[fe.path]);
          if fe.offset + y == x {
            OneOwner(files, i, j, x);
          }
        }
      }
    }
  }

  /** Some disk with files of these lengths holds only right bytes and is yet read wrong. */
  ghost predicate CanMislead(files: seq<FileEntry>, disk: Disk, off: nat, n: nat) {
    exists d, content :: Misleads(files, disk, off, n, d, content)
  }

  ghost predicate Misleads(files: seq<FileEntry>, disk: Disk, off: nat, n: nat, d: Disk, content: bytes) {
    && SameSizes(disk, d) && Consistent(files, d, content)
    && ReadFrom(files, d, 0, off, n) != ReadResult(Slice(content, off, n), true)
  }

  lemma ShortCanMislead(files: seq<FileEntry>, disk: Disk, off: nat, n: nat, i: nat)
    requires LaidOut(files) && i < |files| && !Reaches(files[i], disk, off, n)
    ensures CanMislead(files, disk, off, n)
  {
    var x := Missing(files[i], disk, off);
    MissingIsInRange(files[i], disk, off, n);
    OffsetOf(files, i);
    OffsetGrows(files, i + 1, |files|);
    BlankIsConsistent(files, disk, i, x);
    var d, c := Blank(disk), Marked(Total(files), x);
    BlankReadsZero(files, d, 0, off, n);
    assert Slice(c, off, n)[x - off] == 1;
    assert Misleads(files, disk, off, n, d, c);
  }

  /** A read can be trusted, for all contents of files of the given lengths, exactly when every file it
      meets exists and holds its part of the range. */
  lemma ReadIsRightIff(files: seq<FileEntry>, disk: Disk, off: nat, n: nat)
    requires LaidOut(files)
    ensures LongEnough(files, disk, off, n) <==> !CanMislead(files, disk, off, n)
  {
    if LongEnough(files, disk, off, n) {
      forall d, content | SameSizes(disk, d) && Consistent(files, d, content)
        ensures !Misleads(files, disk, off, n, d, content)
      {
        SizesDecide(files, disk, d, off, n);
        ReadIsRight(files, d, content, 0, off, n);
      }
    } else {
      var i :| 0 <= i < |files| && !Reaches(files[i], disk, off, n);
      ShortCanMislead(files, disk, off, n, i);
    }
  }

  lemma SizesDecide(files: seq<FileEntry>, d: Disk, e: Disk, off: int, n: nat)
    requires SameSizes(d, e) && LongEnough(files, d, off, n)
    ensures LongEnough(files, e, off, n)
  {
    forall i | 0 <= i < |files| ensures Reaches(files[i], e, off, n) {
      assert Reaches(files[i], d, off, n);
    }
  }

  /** What a file that is too short does to a read: it fails, or returns too little, or returns the full
      number of bytes without an error while some contents of the same lengths make them wrong. */
  lemma ShortReadIsUnsafe(files: seq<FileEntry>, disk: Disk, off: nat, n: nat)
    requires LaidOut(files) && off + n <= Total(files) && !LongEnough(files, disk, off, n)
    ensures var r := ReadFrom(files, disk, 0, off, n);
      || !r.ok
      || |r.data| < n
      || exists d, content :: Misleads(files, disk, off, n, d, content) && ReadFrom(files, d, 0, off, n).ok
           && |ReadFrom(files, d, 0, off, n).data| == |r.data|
  {
    ReadIsRightIff(files, disk, off, n);
    var d, content :| Misleads(files, disk, off, n, d, content);
    ReadAlike(files, disk, d, 0, off, n);
  }

  // ------------------------------------------------------------- reads after writes

  datatype WriteOp = WriteOp(off: nat, data: bytes)

  predicate Disjoint(v: WriteOp, w: WriteOp) {
    v.off + |v.data| <= w.off || w.off + |w.data| <= v.off
  }

  ghost predicate WrittenAt(streams: seq<bytes>, ops: seq<WriteOp>, i: int)
    requires 0 <= i < |ops| < |streams|
  {
    IsWritten(streams[i], ops[i].off, ops[i].data,
              Clipped(ops[i].off, |ops[i].data|, |streams[i]|), streams[i + 1])
  }

  /** The stream before and after each of a list of writes. */
  ghost predicate History(streams: seq<bytes>, ops: seq<WriteOp>) {
    |streams| == |ops| + 1 && forall i :: 0 <= i < |ops| ==> WrittenAt(streams, ops, i)
  }

  /** However many disjoint writes follow, the stream holds at the place of write k what it wrote, up to the
      end of the stream. */
  lemma {:induction false} WrittenStays(streams: seq<bytes>, ops: seq<WriteOp>, k: nat, m: nat)
    requires History(streams, ops) && k < m < |streams|
    requires forall i :: k < i < m ==> Disjoint(ops[k], ops[i])
    ensures |streams[m]| == |streams[k]|
    ensures var w := ops[k]; Slice(streams[m], w.off, |w.data|) == w.data[..Clipped(w.off, |w.data|, |streams[k]|)]
    decreases m
  {
    var w := ops[k];
    if m == k + 1 {
      assert WrittenAt(streams, ops, k);
    } else {
      WrittenStays(streams, ops, k, m - 1);
      assert WrittenAt(streams, ops, m - 1);
      SliceUntouched(streams[m - 1], ops[m - 1], streams[m], w);
    }
  }

  lemma SliceUntouched(s: bytes, v: WriteOp, s': bytes, w: WriteOp)
    requires IsWritten(s, v.off, v.data, Clipped(v.off, |v.data|, |s|), s') && Disjoint(w, v)
    ensures Slice(s', w.off, |w.data|) == Slice(s, w.off, |w.data|)
  {
  }

  ghost predicate WriteAt(files: seq<FileEntry>, disks: seq<Disk>, ops: seq<WriteOp>, i: int)
    requires 0 <= i < |ops| < |disks|
  {
    disks[i + 1] == WriteFrom(files, disks[i], 0, ops[i].off, ops[i].data).disk
  }

  /** The disk before and after each of a list of writes to preallocated files. */
  ghost predicate Writes(files: seq<FileEntry>, disks: seq<Disk>, ops: seq<WriteOp>) {
    && |disks| == |ops| + 1 && Ready(files, disks[0])
    && forall i :: 0 <= i < |ops| ==> WriteAt(files, disks, ops, i)
  }

  lemma {:induction false} WritesStayReady(files: seq<FileEntry>, disks: seq<Disk>, ops: seq<WriteOp>, n: nat)
    requires Writes(files, disks, ops) && n <= |ops|
    ensures Ready(files, disks[n])
  {
    if n > 0 {
      WritesStayReady(files, disks, ops, n - 1);
      assert WriteAt(files, disks, ops, n - 1);
      hide WriteFrom, Ready;
      WriteRefines(files, disks[n - 1], 0, ops[n - 1].off, ops[n - 1].data);
    }
  }

  ghost function Streams(files: seq<FileEntry>, disks: seq<Disk>): (r: seq<bytes>)
    ensures |r| == |disks| && forall i :: 0 <= i < |r| ==> r[i] == Stream(files, disks[i])
  {
    seq(|disks|, i requires 0 <= i < |disks| => Stream(files, disks[i]))
  }

  lemma WritesAreHistory(files: seq<FileEntry>, disks: seq<Disk>, ops: seq<WriteOp>)
    requires Writes(files, disks, ops)
    ensures History(Streams(files, disks), ops)
  {
    forall i | 0 <= i < |ops| ensures WrittenAt(Streams(files, disks), ops, i) {
      WritesStayReady(files, disks, ops, i);
      assert WriteAt(files, disks, ops, i);
      hide WriteFrom, Stream;
      WriteRefines(files, disks[i], 0, ops[i].off, ops[i].data);
      ReadyLength(files, disks[i]);
    }
  }

  lemma ReadyLength(files: seq<FileEntry>, disk: Disk)
    requires Ready(files, disk)
    ensures |Stream(files, disk)| == Total(files)
  {
    StreamLength(files, disk, |files|);
  }

  /** After any number of writes that do not overlap write k, reading at its place returns what it wrote, up
      to the end of the files. */
  lemma ReadReturnsWritten(files: seq<FileEntry>, disks: seq<Disk>, ops: seq<WriteOp>, k: nat, m: nat)
    requires Writes(files, disks, ops) && k < m <= |ops|
    requires forall i :: k < i < m ==> Disjoint(ops[k], ops[i])
    ensures var w := ops[k];
      ReadFrom(files, disks[m], 0, w.off, |w.data|) ==
        ReadResult(w.data[..Clipped(w.off, |w.data|, Total(files))], true)
  {
    hide WriteFrom, ReadFrom, Stream, Ready, Slice;
    WritesAreHistory(files, disks, ops);
    WrittenStays(Streams(files, disks), ops, k, m);
    WritesStayReady(files, disks, ops, k);
    WritesStayReady(files, disks, ops, m);
    ReadyLength(files, disks[k]);
    ReadRefines(files, disks[m], ops[k].off, |ops[k].data|);
  }

  /** Without full-length files reading is wrong: when the first of two files is one byte short, the
      missing byte is filled with the first byte of the second file, and no error is reported. */
  lemma ShortFileShiftsData(files: seq<FileEntry>, disk: Disk, x: byte, y: byte)
    requires |files| == 2 && files[0].path != files[1].path
    requires files[0].offset == 0 && files[0].length == 2 && files[1].offset == 2 && files[1].length == 1
    requires files[0].path in disk && disk[files[0].path] == [x]
    requires files[1].path in disk && disk[files[1].path] == [y]
    ensures ReadFrom(files, disk, 0, 0, 2) == ReadResult([x, y], true)
  {
    hide ReadFrom;
    assert Part(files[0], disk, 0, 2) == [x] && Part(files[1], disk, 1, 1) == [y];
    ReadUnfolds(files, disk, 2, 2, 0);
    ReadUnfolds(files, disk, 1, 1, 1);
    ReadUnfolds(files, disk, 0, 0, 2);
    assert [y] + [] == [y] && [x] + [y] == [x, y];
  }
}
