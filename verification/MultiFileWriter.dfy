/** The writer object of a multi-file torrent, over a disk that it reads and changes. Opening and
    writing files is taken to succeed; a file that does not exist cannot be opened for reading. */
module MultiFileWriter {
  import opened Bytes
  import opened MultiFile

  /** The file has its full length, with as much of its old bytes as fits. */
  ghost predicate Sized(fe: FileEntry, was: Disk, disk: Disk) {
    fe.path in disk && disk[fe.path] == Truncated(Contents(was, fe.path), fe.length)
  }

  /** The first n files have been given their length, the others are as they were. */
  ghost predicate SizedUpTo(files: seq<FileEntry>, was: Disk, disk: Disk, n: nat) {
    && (forall j :: 0 <= j < |files| && j < n ==> Sized(files[j], was, disk))
    && (forall j :: n <= j < |files| ==> Contents(disk, files[j].path) == Contents(was, files[j].path))
  }

  lemma SizeNext(files: seq<FileEntry>, was: Disk, disk: Disk, i: nat)
    requires Distinct(files) && i < |files| && SizedUpTo(files, was, disk, i)
    ensures var fe := files[i];
      SizedUpTo(files, was, disk[fe.path := Truncated(Contents(disk, fe.path), fe.length)], i + 1)
  {
    hide Truncated;
  }

  /** What was written before, together with the outcome of the rest. */
  function Counted(before: nat, rest: WriteResult): WriteResult {
    WriteResult(rest.disk, before + rest.count)
  }

  function Joined(before: bytes, rest: ReadResult): ReadResult {
    ReadResult(before + rest.data, rest.ok)
  }

  lemma JoinedTwice(a: bytes, b: bytes, rest: ReadResult)
    ensures Joined(a, Joined(b, rest)) == Joined(a + b, rest)
  {
    assert a + (b + rest.data) == (a + b) + rest.data;
  }

  /** The write loop stands before file i and has written some bytes; the whole outcome will be `all`. */
  ghost predicate Writing(all: WriteResult, written: nat, files: seq<FileEntry>, disk: Disk, i: nat, off: int,
                          data: bytes) {
    i <= |files| && all == Counted(written, WriteFrom(files, disk, i, off, data))
  }

  lemma WriteStarts(files: seq<FileEntry>, disk: Disk, off: int, data: bytes)
    ensures Writing(WriteFrom(files, disk, 0, off, data), 0, files, disk, 0, off, data)
  {
  }

  lemma WriteSkips(all: WriteResult, written: nat, files: seq<FileEntry>, disk: Disk, i: nat, off: int, data: bytes)
    requires Writing(all, written, files, disk, i, off, data) && i < |files| && data != []
    requires off >= files[i].offset + files[i].length
    ensures Writing(all, written, files, disk, i + 1, off, data)
  {
  }

  lemma WriteAdvances(all: WriteResult, written: nat, files: seq<FileEntry>, disk: Disk, i: nat, off: int, data: bytes)
    requires Writing(all, written, files, disk, i, off, data) && i < |files| && data != []
    requires off < files[i].offset + files[i].length
    ensures var fe := files[i];
      var n := Max0(Min(fe.length - Max0(off - fe.offset), |data|));
      var disk' := disk[fe.path := Overwritten(Contents(disk, fe.path), Max0(off - fe.offset), data[..n])];
      n <= |data| && Writing(all, written + n, files, disk', i + 1, off + n, data[n..])
  {
  }

  lemma WriteEnds(all: WriteResult, written: nat, files: seq<FileEntry>, disk: Disk, i: nat, off: int, data: bytes)
    requires Writing(all, written, files, disk, i, off, data) && (i == |files| || data == [])
    ensures all == WriteResult(disk, written)
  {
  }

  /** The read loop stands before file i and has read `data`; the whole outcome will be `all`. */
  ghost predicate Reading(all: ReadResult, data: bytes, files: seq<FileEntry>, disk: Disk, i: nat, off: int, n: nat) {
    i <= |files| && all == Joined(data, ReadFrom(files, disk, i, off, n))
  }

  lemma ReadStarts(files: seq<FileEntry>, disk: Disk, off: int, n: nat)
    ensures Reading(ReadFrom(files, disk, 0, off, n), [], files, disk, 0, off, n)
  {
    var r := ReadFrom(files, disk, 0, off, n);
    assert [] + r.data == r.data;
  }

  lemma ReadSkips(all: ReadResult, data: bytes, files: seq<FileEntry>, disk: Disk, i: nat, off: int, n: nat)
    requires Reading(all, data, files, disk, i, off, n) && i < |files| && n > 0
    requires off >= files[i].offset + files[i].length
    ensures Reading(all, data, files, disk, i + 1, off, n)
  {
  }

  /** What one file contributes to a read. */
  ghost predicate FileGives(fe: FileEntry, disk: Disk, off: int, n: nat, got: bytes, ok: bool) {
    var fileOff := Max0(off - fe.offset);
    var want := Max0(Min(fe.length - fileOff, n));
    if fe.path !in disk || (want > 0 && ReadSlice(disk[fe.path], fileOff, want) == [])
    then !ok
    else ok && got == ReadSlice(disk[fe.path], fileOff, want) && |got| <= n
  }

  lemma ReadAdvances(all: ReadResult, data: bytes, files: seq<FileEntry>, disk: Disk, i: nat, off: int, n: nat,
                     got: bytes, ok: bool)
    requires Reading(all, data, files, disk, i, off, n) && i < |files| && n > 0
    requires off < files[i].offset + files[i].length && FileGives(files[i], disk, off, n, got, ok)
    ensures ok ==> |got| <= n && Reading(all, data + got, files, disk, i + 1, off + |got|, n - |got|)
    ensures !ok ==> all == ReadResult(data, false)
  {
    if ok {
      JoinedTwice(data, got, ReadFrom(files, disk, i + 1, off + |got|, n - |got|));
    } else {
      assert data + [] == data;
    }
  }

  lemma ReadEnds(all: ReadResult, data: bytes, files: seq<FileEntry>, disk: Disk, i: nat, off: int, n: nat)
    requires Reading(all, data, files, disk, i, off, n) && (i == |files| || n == 0)
    ensures all == ReadResult(data, true)
  {
    assert data + [] == data;
  }

  class Writer {
    const files: seq<FileEntry>
    const total: nat
    var disk: Disk
    var handles: set<Path>
    var closed: bool

    /** Lays the files out one after the other. */
    constructor (entries: seq<(Path, nat)>, disk: Disk)
      ensures |files| == |entries|
      ensures forall i :: 0 <= i < |entries| ==> files[i].path == entries[i].0 && files[i].length == entries[i].1
      ensures LaidOut(files) && total == Total(files)
      ensures this.disk == disk && handles == {} && !closed
    {
      var fs, offset := [], 0;
      for i := 0 to |entries|
        invariant |fs| == i && offset == Offset(fs, i)
        invariant forall j :: 0 <= j < i ==> fs[j].path == entries[j].0 && fs[j].length == entries[j].1
        invariant LaidOut(fs)
      {
        LayOutNext(fs, FileEntry(entries[i].0, offset, entries[i].1));
        fs := fs + [FileEntry(entries[i].0, offset, entries[i].1)];
        offset := offset + entries[i].1;
      }
      files, total := fs, offset;
      this.disk, handles, closed := disk, {}, false;
    }

    /** Writes as much of the data as belongs into one file. */
    method WriteFile(fe: FileEntry, pos: int, data: bytes) returns (n: nat)
      requires data != [] && pos < fe.offset + fe.length
      modifies this`disk, this`handles
      ensures n == Max0(Min(fe.length - Max0(pos - fe.offset), |data|)) <= |data|
      ensures disk == old(disk)[fe.path := Overwritten(Contents(old(disk), fe.path), Max0(pos - fe.offset), data[..n])]
    {
      var fileOff := pos - fe.offset;
      if fileOff < 0 {
        fileOff := 0;
      }
      var canWrite := fe.length - fileOff;
      if canWrite > |data| {
        canWrite := |data|;
      }
      n := canWrite;
      handles := handles + {fe.path};
      disk := disk[fe.path := Overwritten(Contents(disk, fe.path), fileOff, data[..n])];
    }

    /** One turn of the write loop, at file i. */
    method WriteTurn(ghost all: WriteResult, written: nat, i: nat, pos: int, data: bytes)
      returns (written': nat, pos': int, data': bytes)
      requires i < |files| && data != [] && Writing(all, written, files, disk, i, pos, data)
      modifies this`disk, this`handles
      ensures Writing(all, written', files, disk, i + 1, pos', data')
    {
      hide Writing, Overwritten, Contents, Max0, Min;
      written', pos', data' := written, pos, data;
      if pos < files[i].offset + files[i].length {
        WriteAdvances(all, written, files, disk, i, pos, data);
        var n := WriteFile(files[i], pos, data);
        written', pos', data' := written + n, pos + n, data[n..];
      } else {
        WriteSkips(all, written, files, disk, i, pos, data);
      }
    }

    method WriteAt(data: bytes, off: int) returns (written: nat, err: bool)
      modifies this`disk, this`handles
      ensures old(closed) ==> err && written == 0 && disk == old(disk)
      ensures !old(closed) ==> !err && WriteResult(disk, written) == WriteFrom(files, old(disk), 0, off, data)
    {
      if closed {
        return 0, true;
      }
      written, err := 0, false;
      var i, remaining, pos := 0, data, off;
      ghost var all := WriteFrom(files, disk, 0, off, data);
      WriteStarts(files, disk, off, data);
      hide WriteFrom, Writing, Overwritten, Contents, Max0, Min;
      while i < |files| && |remaining| > 0
        invariant 0 <= i <= |files| && !err && !closed
        invariant Writing(all, written, files, disk, i, pos, remaining)
      {
        written, pos, remaining := WriteTurn(all, written, i, pos, remaining);
        i := i + 1;
      }
      WriteEnds(all, written, files, disk, i, pos, remaining);
    }

    /** Reads as much as belongs to one file; false if it cannot be opened or ends before the place. */
    method ReadFile(fe: FileEntry, pos: int, left: nat) returns (got: bytes, ok: bool)
      requires left > 0 && pos < fe.offset + fe.length
      modifies this`handles
      ensures FileGives(fe, disk, pos, left, got, ok)
    {
      var fileOff := pos - fe.offset;
      if fileOff < 0 {
        fileOff := 0;
      }
      var canRead := fe.length - fileOff;
      if canRead > left {
        canRead := left;
      }
      if fe.path !in disk {
        return [], false;
      }
      handles := handles + {fe.path};
      got := ReadSlice(disk[fe.path], fileOff, canRead);
      ok := !(got == [] && canRead > 0);
    }

    method ReadAt(n: nat, off: int) returns (data: bytes, err: bool)
      modifies this`handles
      ensures old(closed) ==> err && data == []
      ensures !old(closed) ==> ReadResult(data, !err) == ReadFrom(files, disk, 0, off, n)
    {
      if closed {
        return [], true;
      }
      data, err := [], false;
      var i, left, pos := 0, n, off;
      ghost var all := ReadFrom(files, disk, 0, off, n);
      ReadStarts(files, disk, off, n);
      hide ReadFrom, Reading, ReadSlice, FileGives;
      while i < |files| && left > 0
        invariant 0 <= i <= |files| && 0 <= left && !err
        invariant Reading(all, data, files, disk, i, pos, left)
      {
        if pos < files[i].offset + files[i].length {
          var got, ok := ReadFile(files[i], pos, left);
          ReadAdvances(all, data, files, disk, i, pos, left, got, ok);
          if !ok {
            err := true;
            return;
          }
          data := data + got;
          left := left - |got|;
          pos := pos + |got|;
        } else {
          ReadSkips(all, data, files, disk, i, pos, left);
        }
        i := i + 1;
      }
      ReadEnds(all, data, files, disk, i, pos, left);
    }

    /** Creates every file with its full length. */
    method PreallocateFiles()
      modifies this`disk, this`handles
      ensures Distinct(files) ==> Preallocated(files, disk)
      ensures Distinct(files) ==> forall i :: 0 <= i < |files| ==> Sized(files[i], old(disk), disk)
      ensures forall p :: p in old(disk) && (forall i :: 0 <= i < |files| ==> files[i].path != p) ==>
        p in disk && disk[p] == old(disk)[p]
    {
      for i := 0 to |files|
        invariant Distinct(files) ==> SizedUpTo(files, old(disk), disk, i)
        invariant forall p :: p in old(disk) && (forall j :: 0 <= j < i ==> files[j].path != p) ==>
          p in disk && disk[p] == old(disk)[p]
      {
        var fe := files[i];
        handles := handles + {fe.path};
        if Distinct(files) {
          SizeNext(files, old(disk), disk, i);
        }
        disk := disk[fe.path := Truncated(Contents(disk, fe.path), fe.length)];
      }
    }

    method Close()
      modifies this`closed, this`handles
      ensures closed && handles == {}
    {
      closed := true;
      handles := {};
    }
  }

  lemma {:induction false} OffsetOfPrefix(fs: seq<FileEntry>, e: FileEntry, n: nat)
    requires n <= |fs|
    ensures Offset(fs + [e], n) == Offset(fs, n)
  {
    if n > 0 { OffsetOfPrefix(fs, e, n - 1); }
  }

  lemma LayOutNext(fs: seq<FileEntry>, e: FileEntry)
    requires LaidOut(fs) && e.offset == Offset(fs, |fs|)
    ensures LaidOut(fs + [e]) && Offset(fs + [e], |fs| + 1) == Offset(fs, |fs|) + e.length
  {
    forall i | 0 <= i < |fs + [e]| ensures Placed(fs + [e], i) {
      OffsetOfPrefix(fs, e, i);
      if i < |fs| { assert Placed(fs, i); }
    }
    OffsetOfPrefix(fs, e, |fs|);
  }
}
