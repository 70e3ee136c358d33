/** File storage, single or multi-file, behaves as one flat byte array, and exactly when it does. */
module StorageTheorems {
  import opened Prelude
  import opened Tiling
  import opened Storage

  ghost function Paths(files: seq<StorageFile>): set<Path> {
    set i | 0 <= i < |files| :: files[i].path
  }

  /** Every file exists with its declared length, under a path of its own. */
  ghost predicate LaidOut(files: seq<StorageFile>, disk: Disk) {
    files == [] ||
    (&& files[0].path in disk && |disk[files[0].path]| == files[0].length
     && files[0].path !in Paths(files[1..])
     && LaidOut(files[1..], disk))
  }

  /** The contents of the files, one after the other. */
  ghost function Flat(files: seq<StorageFile>, disk: Disk): seq<byte>
    requires LaidOut(files, disk)
  {
    if files == [] then [] else disk[files[0].path] + Flat(files[1..], disk)
  }

  ghost function Total(files: seq<StorageFile>): nat {
    if files == [] then 0 else files[0].length + Total(files[1..])
  }

  /** Where a transfer of bytes `offset..end` stops: at the end of the range, at
      the end of the files, or at the first empty file strictly inside the range. */
  ghost function Stop(offset: nat, end: nat, files: seq<StorageFile>, start: nat): nat {
    if files == [] || start >= end then Min(start, end)
    else if files[0].length == 0 && offset < start then start
    else Stop(offset, end, files[1..], start + files[0].length)
  }

  /** `flat`, which begins at byte `start`, with the bytes `offset..stop` taken from `data`. */
  ghost function Overlay(flat: seq<byte>, start: nat, offset: nat, stop: nat, data: seq<byte>): seq<byte>
    requires stop <= offset + |data|
  {
    seq(|flat|, i requires 0 <= i < |flat| =>
      if offset <= start + i < stop then data[start + i - offset] else flat[i])
  }

  /** How much of the range lies in front of byte `pos`. */
  ghost function Done(pos: nat, offset: nat): nat {
    Max(0, pos - offset)
  }

  lemma {:induction false} StopBounds(offset: nat, end: nat, files: seq<StorageFile>, start: nat)
    ensures Stop(offset, end, files, start) <= end
    ensures start <= end ==> start <= Stop(offset, end, files, start) <= start + Total(files)
  {
    if !(files == [] || start >= end) && !(files[0].length == 0 && offset < start) {
      StopBounds(offset, end, files[1..], start + files[0].length);
    }
  }

  lemma {:induction false} FlatLength(files: seq<StorageFile>, disk: Disk)
    requires LaidOut(files, disk)
    ensures |Flat(files, disk)| == Total(files)
  {
    if files != [] {
      FlatLength(files[1..], disk);
    }
  }

  /** A change to some other path is not seen. */
  lemma {:induction false} FlatFrame(files: seq<StorageFile>, disk: Disk, disk': Disk)
    requires LaidOut(files, disk)
    requires forall p :: p in Paths(files) && p in disk ==> p in disk' && disk'[p] == disk[p]
    ensures LaidOut(files, disk') && Flat(files, disk') == Flat(files, disk)
  {
    if files != [] {
      assert files[0].path in Paths(files);
      assert forall p :: p in Paths(files[1..]) ==> p in Paths(files) by {
        PathsTail(files);
      }
      FlatFrame(files[1..], disk, disk');
    }
  }

  lemma PathsTail(files: seq<StorageFile>)
    requires files != []
    ensures Paths(files) == {files[0].path} + Paths(files[1..])
  {
    assert forall i :: 0 < i < |files| ==> files[i] == files[1..][i - 1];
    forall p | p in Paths(files[1..])
      ensures p in Paths(files)
    {
      var i :| 0 <= i < |files| - 1 && files[1..][i].path == p;
      assert files[i + 1].path == p;
    }
  }

  lemma OverlayConcat(a: seq<byte>, b: seq<byte>, start: nat, offset: nat, stop: nat, data: seq<byte>)
    requires stop <= offset + |data|
    ensures Overlay(a + b, start, offset, stop, data)
         == Overlay(a, start, offset, stop, data) + Overlay(b, start + |a|, offset, stop, data)
  {}

  lemma OverlayNothing(a: seq<byte>, start: nat, offset: nat, stop: nat, data: seq<byte>)
    requires stop <= offset + |data| && (stop <= start || start + |a| <= offset)
    ensures Overlay(a, start, offset, stop, data) == a
  {}

  // ---------------------------------------------------------------- writing

  lemma WriteInside(content: seq<byte>, at: nat, chunk: seq<byte>)
    requires at + |chunk| <= |content|
    ensures |WriteAt(content, at, chunk)| == |content|
    ensures forall i :: 0 <= i < |content| ==>
              WriteAt(content, at, chunk)[i] == if at <= i < at + |chunk| then chunk[i - at] else content[i]
  {}

  /** A file's content after it took its share of the data. */
  ghost function Share(content: seq<byte>, start: nat, offset: nat, data: seq<byte>): seq<byte>
    requires start < offset + |data| && offset < start + |content|
  {
    var from, to := Max(start, offset), Min(start + |content|, offset + |data|);
    WriteAt(content, from - start, data[from - offset..to - offset])
  }

  lemma ShareOverlay(content: seq<byte>, start: nat, offset: nat, stop: nat, data: seq<byte>)
    requires start < offset + |data| && offset < start + |content|
    requires Min(start + |content|, offset + |data|) <= stop <= offset + |data|
    ensures Share(content, start, offset, data) == Overlay(content, start, offset, stop, data)
  {
    var from, to := Max(start, offset), Min(start + |content|, offset + |data|);
    var chunk := data[from - offset..to - offset];
    WriteInside(content, from - start, chunk);
    hide WriteAt;
    var w, o := Share(content, start, offset, data), Overlay(content, start, offset, stop, data);
    forall i | 0 <= i < |content|
      ensures w[i] == o[i]
    {
      if from - start <= i < to - start {
        assert chunk[i - (from - start)] == data[start + i - offset];
      }
    }
  }

  /** The write loop from a file boundary on: every byte of the range up to
      `Stop` is written, every other byte of these files is kept. */
  ghost predicate WritesOverlay(disk: Disk, files: seq<StorageFile>, start: nat, offset: nat, data: seq<byte>, w: Written)
    requires LaidOut(files, disk)
  {
    var stop := Stop(offset, offset + |data|, files, start);
    && w.ok
    && LaidOut(files, w.disk)
    && stop <= offset + |data|
    && Flat(files, w.disk) == Overlay(Flat(files, disk), start, offset, stop, data)
    && Elsewhere(disk, files, w.disk)
  }

  /** Only the given files differ between the two disks. */
  ghost predicate Elsewhere(disk: Disk, files: seq<StorageFile>, disk': Disk) {
    && disk'.Keys == disk.Keys
    && forall p :: p in disk && p !in Paths(files) ==> disk'[p] == disk[p]
  }

  lemma WriteStops(disk: Disk, files: seq<StorageFile>, start: nat, offset: nat, data: seq<byte>)
    requires LaidOut(files, disk) && Stop(offset, offset + |data|, files, start) <= start
    ensures WritesOverlay(disk, files, start, offset, data, Written(true, disk))
  {
    StopBounds(offset, offset + |data|, files, start);
    OverlayNothing(Flat(files, disk), start, offset, Stop(offset, offset + |data|, files, start), data);
  }

  ghost function WriteLoop(disk: Disk, files: seq<StorageFile>, start: nat, offset: nat, data: seq<byte>): Written {
    WriteRanges(disk, Ranges(offset, offset + |data|, files, start), data, Done(start, offset))
  }

  /** One turn of the mapping loop, at a file boundary. */
  lemma RangesTurn(offset: nat, end: nat, files: seq<StorageFile>, start: nat, fileEnd: nat)
    requires files != [] && start < end && offset < end && fileEnd == start + files[0].length
    ensures fileEnd <= offset ==> Ranges(offset, end, files, start) == Ranges(offset, end, files[1..], fileEnd)
    ensures fileEnd > offset ==>
              Ranges(offset, end, files, start)
              == [ShareRange(offset, end, files[0], start)] + TailRanges(offset, end, files, fileEnd)
  {
    if fileEnd <= offset {
      assert HeadRange(offset, end, files[0], start) == [];
      assert [] + Ranges(offset, end, files[1..], fileEnd) == Ranges(offset, end, files[1..], fileEnd);
    }
  }

  ghost function ShareRange(offset: nat, end: nat, file: StorageFile, start: nat): Range
    requires start < end && offset < start + file.length && offset <= end
  {
    var from, to := Max(start, offset), Min(start + file.length, end);
    Range(file.path, from - start, to - from)
  }

  ghost function TailRanges(offset: nat, end: nat, files: seq<StorageFile>, fileEnd: nat): seq<Range>
    requires files != [] && offset <= end
  {
    if fileEnd >= end then [] else Ranges(offset, end, files[1..], fileEnd)
  }

  lemma WriteCons(disk: Disk, r: Range, tail: seq<Range>, data: seq<byte>, done: nat)
    requires r.path in disk
    ensures WriteRanges(disk, [r] + tail, data, done)
         == if done >= Min(done + r.len, |data|) then Written(true, disk)
            else WriteRanges(disk[r.path := WriteAt(disk[r.path], r.offset, data[done..Min(done + r.len, |data|)])],
                             tail, data, done + r.len)
  {
    assert ([r] + tail)[1..] == tail;
  }

  lemma WriteSkipTurn(disk: Disk, files: seq<StorageFile>, start: nat, fileEnd: nat, offset: nat, data: seq<byte>)
    requires files != [] && data != [] && start <= fileEnd <= offset
    requires fileEnd == start + files[0].length
    ensures WriteLoop(disk, files, start, offset, data) == WriteLoop(disk, files[1..], fileEnd, offset, data)
  {
    RangesTurn(offset, offset + |data|, files, start, fileEnd);
    hide Ranges, WriteRanges;
  }

  lemma WriteEmptyTurn(disk: Disk, files: seq<StorageFile>, start: nat, offset: nat, data: seq<byte>)
    requires files != [] && files[0].length == 0 && files[0].path in disk
    requires offset < start < offset + |data|
    ensures WriteLoop(disk, files, start, offset, data) == Written(true, disk)
  {
    RangesTurn(offset, offset + |data|, files, start, start);
    WriteCons(disk, ShareRange(offset, offset + |data|, files[0], start),
      TailRanges(offset, offset + |data|, files, start), data, start - offset);
    hide Ranges, WriteRanges;
  }

  lemma WriteShareTurn(disk: Disk, files: seq<StorageFile>, start: nat, fileEnd: nat, offset: nat, data: seq<byte>)
    requires files != [] && files[0].path in disk && |disk[files[0].path]| == files[0].length > 0
    requires data != [] && start < offset + |data| && offset < fileEnd == start + files[0].length
    ensures WriteLoop(disk, files, start, offset, data)
         == WriteLoop(disk[files[0].path := Share(disk[files[0].path], start, offset, data)],
                      files[1..], fileEnd, offset, data)
  {
    hide Ranges, WriteRanges, WriteAt;
    var end, file := offset + |data|, files[0];
    var from, to := Max(start, offset), Min(fileEnd, end);
    var disk1 := disk[file.path := Share(disk[file.path], start, offset, data)];
    RangesTurn(offset, end, files, start, fileEnd);
    var tail := TailRanges(offset, end, files, fileEnd);
    var r, done := ShareRange(offset, end, file, start), from - offset;
    assert done == Done(start, offset) && done + r.len == to - offset == Min(done + r.len, |data|);
    WriteCons(disk, r, tail, data, done);
    assert WriteLoop(disk, files, start, offset, data) == WriteRanges(disk1, tail, data, to - offset);
    if fileEnd >= end {
      WriteNone(disk1, data, to - offset);
      WriteEnd(disk1, files[1..], fileEnd, offset, data);
    }
  }

  lemma WriteNone(disk: Disk, data: seq<byte>, done: nat)
    ensures WriteRanges(disk, [], data, done) == Written(true, disk)
  {}

  lemma WriteEnd(disk: Disk, files: seq<StorageFile>, start: nat, offset: nat, data: seq<byte>)
    requires files == [] || start >= offset + |data|
    ensures WriteLoop(disk, files, start, offset, data) == Written(true, disk)
  {}

  lemma {:induction false} WriteFrom(disk: Disk, files: seq<StorageFile>, start: nat, offset: nat, data: seq<byte>)
    requires LaidOut(files, disk) && data != []
    ensures WritesOverlay(disk, files, start, offset, data, WriteLoop(disk, files, start, offset, data))
  {
    hide WriteLoop, WritesOverlay, Share;
    if files == [] || start >= offset + |data| {
      WriteEnd(disk, files, start, offset, data);
      WriteStops(disk, files, start, offset, data);
    } else {
      var path, fileEnd := files[0].path, start + files[0].length;
      if files[0].length == 0 && offset < start {
        WriteEmptyTurn(disk, files, start, offset, data);
        WriteStops(disk, files, start, offset, data);
      } else if fileEnd <= offset {
        WriteSkipTurn(disk, files, start, fileEnd, offset, data);
        WriteFrom(disk, files[1..], fileEnd, offset, data);
        WriteSkip(disk, files, start, offset, data, WriteLoop(disk, files[1..], fileEnd, offset, data));
      } else {
        WriteShareTurn(disk, files, start, fileEnd, offset, data);
        var content := Share(disk[path], start, offset, data);
        FlatFrame(files[1..], disk, disk[path := content]);
        WriteFrom(disk[path := content], files[1..], fileEnd, offset, data);
        StopBounds(offset, offset + |data|, files[1..], fileEnd);
        ShareOverlay(disk[path], start, offset, Stop(offset, offset + |data|, files, start), data);
        WriteHead(disk, files, start, offset, data, content,
          WriteLoop(disk[path := content], files[1..], fileEnd, offset, data));
      }
    }
  }

  /** A file in front of the range. */
  lemma WriteSkip(disk: Disk, files: seq<StorageFile>, start: nat, offset: nat, data: seq<byte>, w: Written)
    requires LaidOut(files, disk) && files != [] && data != [] && start + files[0].length <= offset
    requires WritesOverlay(disk, files[1..], start + files[0].length, offset, data, w)
    ensures WritesOverlay(disk, files, start, offset, data, w)
  {
    var content, stop := disk[files[0].path], Stop(offset, offset + |data|, files, start);
    PathsTail(files);
    OverlayNothing(content, start, offset, stop, data);
    OverlayConcat(content, Flat(files[1..], disk), start, offset, stop, data);
  }

  /** A file that holds a part of the range. */
  lemma WriteHead(disk: Disk, files: seq<StorageFile>, start: nat, offset: nat, data: seq<byte>,
                  content: seq<byte>, w: Written)
    requires LaidOut(files, disk) && files != []
    requires start < offset + |data| && !(files[0].length == 0 && offset < start)
    requires Stop(offset, offset + |data|, files, start) <= offset + |data|
    requires content == Overlay(disk[files[0].path], start, offset, Stop(offset, offset + |data|, files, start), data)
    requires LaidOut(files[1..], disk[files[0].path := content])
             && Flat(files[1..], disk[files[0].path := content]) == Flat(files[1..], disk)
    requires WritesOverlay(disk[files[0].path := content], files[1..], start + files[0].length, offset, data, w)
    ensures WritesOverlay(disk, files, start, offset, data, w)
  {
    var path, stop := files[0].path, Stop(offset, offset + |data|, files, start);
    assert stop == Stop(offset, offset + |data|, files[1..], start + files[0].length);
    assert |content| == files[0].length;
    hide Stop, Overlay, Elsewhere, Paths;
    HeadElsewhere(disk, files, content, w.disk);
    OverlayConcat(disk[path], Flat(files[1..], disk), start, offset, stop, data);
    assert Flat(files, disk) == disk[path] + Flat(files[1..], disk);
    assert Flat(files, w.disk) == w.disk[path] + Flat(files[1..], w.disk);
  }

  lemma HeadElsewhere(disk: Disk, files: seq<StorageFile>, content: seq<byte>, disk': Disk)
    requires files != [] && files[0].path in disk && files[0].path !in Paths(files[1..])
    requires Elsewhere(disk[files[0].path := content], files[1..], disk')
    ensures Elsewhere(disk, files, disk') && disk'[files[0].path] == content
  {
    PathsTail(files);
    hide Paths;
  }

  // ---------------------------------------------------------------- reading

  ghost function ReadLoop(disk: Disk, files: seq<StorageFile>, start: nat, offset: nat, len: nat, buf: seq<byte>)
    : (bool, seq<byte>)
  {
    ReadRanges(disk, Ranges(offset, offset + len, files, start), buf, Done(start, offset))
  }

  /** The buffer with bytes `offset..stop` of the torrent in it, as far as they lie in `flat`. */
  ghost function Filled(flat: seq<byte>, start: nat, offset: nat, stop: nat, buf: seq<byte>): seq<byte>
    requires stop <= start + |flat| || stop <= offset
  {
    seq(|buf|, i requires 0 <= i < |buf| => if start <= offset + i < stop then flat[offset + i - start] else buf[i])
  }

  /** The buffer after the first file gave its share. */
  ghost function HeadRead(content: seq<byte>, start: nat, offset: nat, len: nat, buf: seq<byte>): seq<byte>
    requires len <= |buf| && start < offset + len && offset < start + |content|
  {
    var from, to := Max(start, offset), Min(start + |content|, offset + len);
    buf[..from - offset] + content[from - start..to - start] + buf[to - offset..]
  }

  lemma ReadCons(disk: Disk, r: Range, tail: seq<Range>, buf: seq<byte>, done: nat)
    requires r.path in disk && r.offset + r.len <= |disk[r.path]| && done + r.len <= |buf|
    ensures ReadRanges(disk, [r] + tail, buf, done)
         == if r.len == 0 then (true, buf)
            else ReadRanges(disk, tail,
                   buf[..done] + disk[r.path][r.offset..r.offset + r.len] + buf[done + r.len..], done + r.len)
  {
    hide ReadExact, ReadRanges;
    assert ([r] + tail)[1..] == tail;
    var end := done + r.len;
    ReadInside(disk[r.path], r.offset, r.len);
    ReadTurn(disk, [r] + tail, buf, done, end, disk[r.path][r.offset..r.offset + r.len]);
  }

  /** One turn of the read loop that stays inside its buffer and file. */
  lemma ReadTurn(disk: Disk, ranges: seq<Range>, buf: seq<byte>, done: nat, end: nat, data: seq<byte>)
    requires ranges != [] && ranges[0].path in disk && done + ranges[0].len == end <= |buf|
    requires ReadExact(disk[ranges[0].path], ranges[0].offset, end - done) == Ok(data)
    ensures ReadRanges(disk, ranges, buf, done)
         == if done >= end then (true, buf)
            else ReadRanges(disk, ranges[1..], buf[..done] + data + buf[end..], end)
  {
    hide ReadExact;
  }

  lemma ReadInside(content: seq<byte>, offset: nat, len: nat)
    requires offset + len <= |content|
    ensures ReadExact(content, offset, len) == Ok(content[offset..offset + len])
  {
    assert content[offset..offset] == [];
  }

  lemma ReadSkipTurn(disk: Disk, files: seq<StorageFile>, start: nat, fileEnd: nat, offset: nat, len: nat, buf: seq<byte>)
    requires files != [] && len > 0 && start <= fileEnd <= offset
    requires fileEnd == start + files[0].length
    ensures ReadLoop(disk, files, start, offset, len, buf) == ReadLoop(disk, files[1..], fileEnd, offset, len, buf)
  {
    hide Ranges, ReadRanges;
    RangesTurn(offset, offset + len, files, start, fileEnd);
    assert Done(start, offset) == Done(fileEnd, offset);
  }

  lemma ReadEmptyTurn(disk: Disk, files: seq<StorageFile>, start: nat, offset: nat, len: nat, buf: seq<byte>)
    requires files != [] && files[0].length == 0 && files[0].path in disk
    requires len <= |buf| && offset < start < offset + len
    ensures ReadLoop(disk, files, start, offset, len, buf) == (true, buf)
  {
    RangesTurn(offset, offset + len, files, start, start);
    ReadCons(disk, ShareRange(offset, offset + len, files[0], start),
      TailRanges(offset, offset + len, files, start), buf, start - offset);
    hide Ranges, ReadRanges;
  }

  lemma ReadShareTurn(disk: Disk, files: seq<StorageFile>, start: nat, fileEnd: nat, offset: nat, len: nat, buf: seq<byte>)
    requires files != [] && files[0].path in disk && |disk[files[0].path]| == files[0].length > 0
    requires 0 < len <= |buf| && start < offset + len && offset < fileEnd == start + files[0].length
    ensures ReadLoop(disk, files, start, offset, len, buf)
         == ReadLoop(disk, files[1..], fileEnd, offset, len, HeadRead(disk[files[0].path], start, offset, len, buf))
  {
    hide Ranges, ReadRanges;
    var end, file := offset + len, files[0];
    var from, to := Max(start, offset), Min(fileEnd, end);
    var buf1 := HeadRead(disk[file.path], start, offset, len, buf);
    RangesTurn(offset, end, files, start, fileEnd);
    var tail := TailRanges(offset, end, files, fileEnd);
    var r, done := ShareRange(offset, end, file, start), from - offset;
    assert done == Done(start, offset) && done + r.len == to - offset;
    ReadCons(disk, r, tail, buf, done);
    assert ReadLoop(disk, files, start, offset, len, buf) == ReadRanges(disk, tail, buf1, to - offset);
    if fileEnd >= end {
      ReadNone(disk, buf1, to - offset);
      ReadEnd(disk, files[1..], fileEnd, offset, len, buf1);
    }
  }

  lemma ReadNone(disk: Disk, buf: seq<byte>, done: nat)
    ensures ReadRanges(disk, [], buf, done) == (true, buf)
  {}

  lemma ReadEnd(disk: Disk, files: seq<StorageFile>, start: nat, offset: nat, len: nat, buf: seq<byte>)
    requires files == [] || start >= offset + len
    ensures ReadLoop(disk, files, start, offset, len, buf) == (true, buf)
  {}

  /** The read loop from a file boundary on fills the buffer up to `Stop`. */
  lemma {:induction false} ReadFrom(disk: Disk, files: seq<StorageFile>, start: nat, offset: nat, len: nat, buf: seq<byte>)
    requires LaidOut(files, disk) && 0 < len <= |buf|
    ensures var stop := Stop(offset, offset + len, files, start);
            && (stop <= start + |Flat(files, disk)| || stop <= offset)
            && ReadLoop(disk, files, start, offset, len, buf)
            == (true, Filled(Flat(files, disk), start, offset, stop, buf))
  {
    hide ReadLoop;
    var end := offset + len;
    var stop := Stop(offset, end, files, start);
    StopBounds(offset, end, files, start);
    FlatLength(files, disk);
    if files == [] || start >= end {
      ReadEnd(disk, files, start, offset, len, buf);
      assert Filled(Flat(files, disk), start, offset, stop, buf) == buf;
    } else {
      var file, fileEnd := files[0], start + files[0].length;
      var content, rest := disk[file.path], Flat(files[1..], disk);
      FlatLength(files[1..], disk);
      if file.length == 0 && offset < start {
        ReadEmptyTurn(disk, files, start, offset, len, buf);
        assert Filled(Flat(files, disk), start, offset, stop, buf) == buf;
      } else if fileEnd <= offset {
        ReadSkipTurn(disk, files, start, fileEnd, offset, len, buf);
        ReadFrom(disk, files[1..], fileEnd, offset, len, buf);
        FilledSkip(content, rest, start, offset, stop, buf);
      } else {
        ReadShareTurn(disk, files, start, fileEnd, offset, len, buf);
        var buf1 := HeadRead(content, start, offset, len, buf);
        ReadFrom(disk, files[1..], fileEnd, offset, len, buf1);
        StopBounds(offset, end, files[1..], fileEnd);
        hide Stop, Filled, HeadRead;
        FilledHead(content, rest, start, offset, len, stop, buf);
      }
    }
  }

  lemma FilledSkip(content: seq<byte>, rest: seq<byte>, start: nat, offset: nat, stop: nat, buf: seq<byte>)
    requires start + |content| <= offset
    requires stop <= start + |content| + |rest| || stop <= offset
    ensures Filled(content + rest, start, offset, stop, buf)
         == Filled(rest, start + |content|, offset, stop, buf)
  {}

  lemma FilledHead(content: seq<byte>, rest: seq<byte>, start: nat, offset: nat, len: nat, stop: nat, buf: seq<byte>)
    requires len <= |buf| && start < offset + len && offset < start + |content|
    requires Min(start + |content|, offset + len) <= stop <= offset + len
    requires stop <= start + |content| + |rest|
    ensures Filled(content + rest, start, offset, stop, buf)
         == Filled(rest, start + |content|, offset, stop, HeadRead(content, start, offset, len, buf))
  {
    var flat, buf1 := content + rest, HeadRead(content, start, offset, len, buf);
    var l, r := Filled(flat, start, offset, stop, buf), Filled(rest, start + |content|, offset, stop, buf1);
    var from, to := Max(start, offset), Min(start + |content|, offset + len);
    forall i | 0 <= i < |buf|
      ensures l[i] == r[i]
    {
      if from <= offset + i < to {
        assert buf1[i] == content[from - start..to - start][offset + i - from];
      }
    }
  }

  // ---------------------------------------------------------------- refinement of the flat array

  /** The file of a single-file torrent after a write: it grows, over zeros if there is
      a gap, when the write reaches past its end. */
  ghost predicate FileWritten(content: seq<byte>, offset: nat, data: seq<byte>, after: seq<byte>) {
    && |after| == (if data == [] then |content| else Max(|content|, offset + |data|))
    && forall i :: 0 <= i < |after| ==>
         after[i] == if offset <= i < offset + |data| then data[i - offset]
                     else if i < |content| then content[i] else 0
  }

  ghost predicate SingleWritten(disk: Disk, path: Path, offset: nat, data: seq<byte>, w: Written) {
    if path in disk then
      && w.ok && w.disk.Keys == disk.Keys && FileWritten(disk[path], offset, data, w.disk[path])
      && forall p :: p in disk && p != path ==> w.disk[p] == disk[p]
    else w == Written(false, disk)
  }

  lemma WriteSingle(disk: Disk, path: Path, offset: nat, data: seq<byte>)
    ensures SingleWritten(disk, path, offset, data, WriteRange(SingleFile(path), disk, offset, data))
  {}

  lemma WriteMulti(files: seq<StorageFile>, disk: Disk, offset: nat, data: seq<byte>)
    requires LaidOut(files, disk)
    ensures WritesOverlay(disk, files, 0, offset, data, WriteRange(MultiFile(files), disk, offset, data))
  {
    if data == [] {
      StopBounds(offset, offset, files, 0);
      var stop := Stop(offset, offset, files, 0);
      assert Overlay(Flat(files, disk), 0, offset, stop, data) == Flat(files, disk);
    } else {
      WriteFrom(disk, files, 0, offset, data);
    }
  }

  /** `write_range` on either layout and for any range. One file takes all of the data.
      Of several laid-out files the bytes up to `Stop` are written and every other byte
      is kept. Other files are never touched. */
  lemma WriteRefines(mode: Mode, disk: Disk, offset: nat, data: seq<byte>)
    requires mode.MultiFile? ==> LaidOut(mode.files, disk)
    ensures var w := WriteRange(mode, disk, offset, data);
            match mode
            case SingleFile(path) => SingleWritten(disk, path, offset, data, w)
            case MultiFile(files) => WritesOverlay(disk, files, 0, offset, data, w)
  {
    hide WriteRange, SingleWritten, WritesOverlay;
    match mode
    case SingleFile(path) => WriteSingle(disk, path, offset, data);
    case MultiFile(files) => WriteMulti(files, disk, offset, data);
  }

  ghost function Copied(flat: seq<byte>, offset: nat, stop: nat): seq<byte> {
    if offset < stop <= |flat| then flat[offset..stop] else []
  }

  lemma ReadMulti(files: seq<StorageFile>, disk: Disk, offset: nat, len: nat, buf: seq<byte>)
    requires LaidOut(files, disk) && 0 < len <= |buf|
    ensures var copied := Copied(Flat(files, disk), offset, Stop(offset, offset + len, files, 0));
            && |copied| <= len
            && ReadRange(MultiFile(files), disk, offset, len, buf) == (true, copied + buf[|copied|..])
  {
    ReadFrom(disk, files, 0, offset, len, buf);
    StopBounds(offset, offset + len, files, 0);
    ReadRangeLoop(files, disk, offset, len, buf);
    hide ReadRange, ReadLoop, Flat, Stop, LaidOut;
    FilledCopied(Flat(files, disk), offset, Stop(offset, offset + len, files, 0), len, buf);
  }

  lemma FilledCopied(flat: seq<byte>, offset: nat, stop: nat, len: nat, buf: seq<byte>)
    requires (stop <= |flat| || stop <= offset) && stop <= offset + len && len <= |buf|
    ensures |Copied(flat, offset, stop)| <= len
    ensures Filled(flat, 0, offset, stop, buf) == Copied(flat, offset, stop) + buf[|Copied(flat, offset, stop)|..]
  {}

  lemma ReadRangeLoop(files: seq<StorageFile>, disk: Disk, offset: nat, len: nat, buf: seq<byte>)
    requires len <= |buf|
    ensures ReadRange(MultiFile(files), disk, offset, len, buf) == ReadLoop(disk, files, 0, offset, len, buf)
  {}

  /** `read_range` on either layout and for any range. One file gives the whole range or
      an error; several laid-out files give the bytes up to `Stop` and no error. */
  lemma ReadRefines(mode: Mode, disk: Disk, offset: nat, len: nat, buf: seq<byte>)
    requires mode.MultiFile? ==> LaidOut(mode.files, disk)
    requires 0 < len <= |buf|
    ensures var r := ReadRange(mode, disk, offset, len, buf);
            match mode
            case SingleFile(path) =>
              r == (if path in disk && offset + len <= |disk[path]|
                    then (true, disk[path][offset..offset + len] + buf[len..]) else (false, buf))
            case MultiFile(files) =>
              var copied := Copied(Flat(files, disk), offset, Stop(offset, offset + len, files, 0));
              |copied| <= len && r == (true, copied + buf[|copied|..])
  {
    if mode.MultiFile? {
      ReadMulti(mode.files, disk, offset, len, buf);
      hide ReadRange, Flat, LaidOut, Stop;
    }
  }

  function FileStart(files: seq<StorageFile>, i: nat): nat
    requires i <= |files|
  {
    if i == 0 then 0 else files[0].length + FileStart(files[1..], i - 1)
  }

  /** An empty file lies strictly inside the range, for files from byte `start` on. */
  predicate EmptyInside(offset: nat, end: nat, files: seq<StorageFile>, start: nat) {
    exists i :: 0 <= i < |files| && files[i].length == 0 && offset < start + FileStart(files, i) < end
  }

  /** A transfer is complete exactly when the torrent reaches to the end of the
      range and no empty file lies strictly inside it. */
  lemma {:induction false} StopExact(offset: nat, end: nat, files: seq<StorageFile>, start: nat)
    requires offset < end
    ensures Stop(offset, end, files, start) == end
       <==> end <= start + Total(files) && !EmptyInside(offset, end, files, start)
  {
    if files != [] {
      var rest, next := files[1..], start + files[0].length;
      EmptySplit(offset, end, files, start);
      if start >= end {
        NoneInside(offset, end, files, start);
      } else if files[0].length == 0 && offset < start {
      } else {
        StopExact(offset, end, rest, next);
      }
    }
  }

  lemma EmptySplit(offset: nat, end: nat, files: seq<StorageFile>, start: nat)
    requires files != []
    ensures EmptyInside(offset, end, files, start)
       <==> ((files[0].length == 0 && offset < start < end)
             || EmptyInside(offset, end, files[1..], start + files[0].length))
  {
    var rest, next := files[1..], start + files[0].length;
    assert FileStart(files, 0) == 0;
    forall i | 0 < i < |files|
      ensures files[i] == rest[i - 1] && start + FileStart(files, i) == next + FileStart(rest, i - 1)
    {}
    if EmptyInside(offset, end, rest, next) {
      var j :| 0 <= j < |rest| && rest[j].length == 0 && offset < next + FileStart(rest, j) < end;
      assert files[j + 1].length == 0 && offset < start + FileStart(files, j + 1) < end;
    }
    if EmptyInside(offset, end, files, start) {
      var i :| 0 <= i < |files| && files[i].length == 0 && offset < start + FileStart(files, i) < end;
      if i > 0 {
        assert rest[i - 1].length == 0 && offset < next + FileStart(rest, i - 1) < end;
      }
    }
  }

  lemma NoneInside(offset: nat, end: nat, files: seq<StorageFile>, start: nat)
    requires start >= end
    ensures !EmptyInside(offset, end, files, start)
  {}

  // ---------------------------------------------------------------- both layouts inside the torrent

  /** The files as they are once prepared: `total` bytes in one file or over several. */
  ghost predicate Prepared(mode: Mode, total: nat, disk: Disk) {
    match mode
    case SingleFile(path) => path in disk && |disk[path]| == total
    case MultiFile(files) => LaidOut(files, disk) && Total(files) == total
  }

  /** The bytes of the torrent. */
  ghost function Bytes(mode: Mode, total: nat, disk: Disk): seq<byte>
    requires Prepared(mode, total, disk)
  {
    match mode
    case SingleFile(path) => disk[path]
    case MultiFile(files) => Flat(files, disk)
  }

  /** Where a transfer of bytes `offset..end` stops. */
  ghost function StopIn(mode: Mode, offset: nat, end: nat): nat {
    match mode
    case SingleFile(_) => end
    case MultiFile(files) => Stop(offset, end, files, 0)
  }

  /** The guard for a complete transfer: an empty file lies strictly inside the range. */
  predicate Interrupted(mode: Mode, offset: nat, end: nat) {
    mode.MultiFile? && EmptyInside(offset, end, mode.files, 0)
  }

  lemma BytesLength(mode: Mode, total: nat, disk: Disk)
    requires Prepared(mode, total, disk)
    ensures |Bytes(mode, total, disk)| == total
  {
    if mode.MultiFile? {
      FlatLength(mode.files, disk);
    }
  }

  lemma StopInside(mode: Mode, total: nat, disk: Disk, offset: nat, end: nat)
    requires Prepared(mode, total, disk) && offset < end <= total
    ensures offset < StopIn(mode, offset, end) <= end
    ensures StopIn(mode, offset, end) == end <==> !Interrupted(mode, offset, end)
  {
    if mode.MultiFile? {
      StopExact(offset, end, mode.files, 0);
      StopBounds(offset, end, mode.files, 0);
      StopAfter(offset, end, mode.files, 0);
    }
  }

  /** The flat array with `data` put at `offset`. */
  ghost function Splice(flat: seq<byte>, offset: nat, data: seq<byte>): seq<byte>
    requires offset + |data| <= |flat|
  {
    flat[..offset] + data + flat[offset + |data|..]
  }

  lemma WriteOverlays(mode: Mode, total: nat, disk: Disk, offset: nat, data: seq<byte>)
    requires Prepared(mode, total, disk) && data != [] && offset + |data| <= total
    ensures var w := WriteRange(mode, disk, offset, data);
            var stop := StopIn(mode, offset, offset + |data|);
            && w.ok && Prepared(mode, total, w.disk) && stop <= offset + |data|
            && Bytes(mode, total, w.disk) == Overlay(Bytes(mode, total, disk), 0, offset, stop, data)
  {
    WriteRefines(mode, disk, offset, data);
    if mode.SingleFile? {
      var w := WriteRange(mode, disk, offset, data);
      hide WriteRange, StopIn;
      assert w.disk[mode.path] == Overlay(disk[mode.path], 0, offset, offset + |data|, data);
    }
  }

  /** Inside the torrent, a write splices the flat array if no empty file lies
      strictly inside the range; otherwise the rest of the data is dropped, so it
      does so only if the bytes it drops were there already. */
  lemma WriteSplices(mode: Mode, total: nat, disk: Disk, offset: nat, data: seq<byte>)
    requires Prepared(mode, total, disk) && data != [] && offset + |data| <= total
    ensures var w := WriteRange(mode, disk, offset, data);
            var flat, stop := Bytes(mode, total, disk), StopIn(mode, offset, offset + |data|);
            && |flat| == total && w.ok && Prepared(mode, total, w.disk)
            && offset < stop <= offset + |data|
            && (stop == offset + |data| <==> !Interrupted(mode, offset, offset + |data|))
            && Bytes(mode, total, w.disk) == Splice(flat, offset, data[..stop - offset])
            && (data[stop - offset..] == flat[stop..offset + |data|]
                <==> Bytes(mode, total, w.disk) == Splice(flat, offset, data))
  {
    hide StopIn, WriteRange, Bytes, Prepared, Interrupted, Overlay, Splice;
    WriteOverlays(mode, total, disk, offset, data);
    BytesLength(mode, total, disk);
    StopInside(mode, total, disk, offset, offset + |data|);
    OverlaySplice(Bytes(mode, total, disk), offset, StopIn(mode, offset, offset + |data|), data);
  }

  /** Inside the torrent, a read gives the slice of the flat array if no empty file lies
      strictly inside the range; otherwise it reports success with the rest of the buffer
      as it was, so the slice is there only if the buffer already held that rest. */
  lemma ReadCopies(mode: Mode, total: nat, disk: Disk, offset: nat, len: nat, buf: seq<byte>)
    requires Prepared(mode, total, disk) && 0 < len <= |buf| && offset + len <= total
    ensures var r := ReadRange(mode, disk, offset, len, buf);
            var flat, stop := Bytes(mode, total, disk), StopIn(mode, offset, offset + len);
            && |flat| == total && offset < stop <= offset + len
            && (stop == offset + len <==> !Interrupted(mode, offset, offset + len))
            && r == (true, flat[offset..stop] + buf[stop - offset..])
            && (buf[stop - offset..len] == flat[stop..offset + len]
                <==> r == (true, flat[offset..offset + len] + buf[len..]))
  {
    hide ReadRange, Bytes, Prepared, StopIn, Interrupted;
    BytesLength(mode, total, disk);
    StopInside(mode, total, disk, offset, offset + len);
    ReadUpToStop(mode, total, disk, offset, len, buf);
    SliceSplit(Bytes(mode, total, disk), offset, StopIn(mode, offset, offset + len), len, buf);
  }

  lemma ReadUpToStop(mode: Mode, total: nat, disk: Disk, offset: nat, len: nat, buf: seq<byte>)
    requires Prepared(mode, total, disk) && 0 < len <= |buf| && offset + len <= total
    ensures var stop := StopIn(mode, offset, offset + len);
            && offset < stop <= |Bytes(mode, total, disk)| && stop - offset <= |buf|
            && ReadRange(mode, disk, offset, len, buf)
            == (true, Bytes(mode, total, disk)[offset..stop] + buf[stop - offset..])
  {
    ReadRefines(mode, disk, offset, len, buf);
    BytesLength(mode, total, disk);
    StopInside(mode, total, disk, offset, offset + len);
    hide ReadRange, Flat, Stop, LaidOut, Interrupted;
  }

  lemma SliceSplit(flat: seq<byte>, offset: nat, stop: nat, len: nat, buf: seq<byte>)
    requires offset <= stop <= offset + len <= |flat| && len <= |buf|
    ensures flat[offset..stop] + buf[stop - offset..] == flat[offset..offset + len] + buf[len..]
       <==> buf[stop - offset..len] == flat[stop..offset + len]
  {
    var l, r := flat[offset..stop] + buf[stop - offset..], flat[offset..offset + len] + buf[len..];
    var x, y := buf[stop - offset..len], flat[stop..offset + len];
    if l == r {
      forall i | 0 <= i < |x|
        ensures x[i] == y[i]
      {
        assert l[stop - offset + i] == r[stop - offset + i];
      }
    }
    if x == y {
      forall i | 0 <= i < |l|
        ensures l[i] == r[i]
      {
        if stop - offset <= i < len {
          assert x[i - (stop - offset)] == y[i - (stop - offset)];
        }
      }
    }
  }

  lemma DataSplit(data: seq<byte>, stored: nat, buf: seq<byte>)
    requires stored <= |data| <= |buf|
    ensures data[..stored] + buf[stored..] == data + buf[|data|..] <==> data[stored..] == buf[stored..|data|]
  {
    SliceSplit(data, 0, stored, |data|, buf);
    assert data[0..stored] == data[..stored] && data[stored..|data|] == data[stored..] && data[0..|data|] == data;
  }

  lemma SpliceHolds(flat: seq<byte>, offset: nat, data: seq<byte>)
    requires offset + |data| <= |flat|
    ensures Splice(flat, offset, data)[offset..offset + |data|] == data
  {}

  /** Reading a range back right after writing it gives the data, as far as it was stored. */
  lemma WriteThenRead(mode: Mode, total: nat, disk: Disk, offset: nat, data: seq<byte>, buf: seq<byte>)
    requires Prepared(mode, total, disk) && data != [] && offset + |data| <= total && |data| <= |buf|
    ensures var w := WriteRange(mode, disk, offset, data);
            var r := ReadRange(mode, w.disk, offset, |data|, buf);
            var stored := StopIn(mode, offset, offset + |data|) - offset;
            && 0 < stored <= |data| && w.ok
            && r == (true, data[..stored] + buf[stored..])
            && (r.1 == data + buf[|data|..] <==> data[stored..] == buf[stored..|data|])
            && (stored == |data| <==> !Interrupted(mode, offset, offset + |data|))
  {
    hide WriteRange, ReadRange, Bytes, Prepared, StopIn, Interrupted, Splice;
    var w := WriteRange(mode, disk, offset, data);
    var flat, stop := Bytes(mode, total, disk), StopIn(mode, offset, offset + |data|);
    WriteSplices(mode, total, disk, offset, data);
    ReadCopies(mode, total, w.disk, offset, |data|, buf);
    SpliceHolds(flat, offset, data[..stop - offset]);
    DataSplit(data, stop - offset, buf);
  }

  lemma {:induction false} StopAfter(offset: nat, end: nat, files: seq<StorageFile>, start: nat)
    requires offset < end <= start + Total(files)
    ensures Stop(offset, end, files, start) > offset
  {
    if files != [] && start < end && !(files[0].length == 0 && offset < start) {
      StopAfter(offset, end, files[1..], start + files[0].length);
    }
  }

  lemma OverlaySplice(flat: seq<byte>, offset: nat, stop: nat, data: seq<byte>)
    requires offset <= stop <= offset + |data| <= |flat|
    ensures Overlay(flat, 0, offset, stop, data) == Splice(flat, offset, data[..stop - offset])
    ensures Overlay(flat, 0, offset, stop, data) == Splice(flat, offset, data)
       <==> data[stop - offset..] == flat[stop..offset + |data|]
  {
    var o, s := Overlay(flat, 0, offset, stop, data), Splice(flat, offset, data);
    assert o == Splice(flat, offset, data[..stop - offset]);
    if data[stop - offset..] == flat[stop..offset + |data|] {
      forall i | 0 <= i < |flat|
        ensures o[i] == s[i]
      {
        if stop <= i < offset + |data| {
          assert data[stop - offset..][i - stop] == flat[stop..offset + |data|][i - stop];
        }
      }
      assert o == s;
    }
    if o == s {
      var d, f := data[stop - offset..], flat[stop..offset + |data|];
      forall j | 0 <= j < |d|
        ensures d[j] == f[j]
      {
        assert o[stop + j] == s[stop + j];
      }
    }
  }

  /** An empty file between two others: a two-byte write over all three loses its second byte. */
  lemma EmptyFileDropsData(a: Path, b: Path, c: Path, disk: Disk)
    requires a in disk && b in disk && disk[a] == [0] && disk[b] == []
    ensures WriteRange(MultiFile([StorageFile(a, 1), StorageFile(b, 0), StorageFile(c, 1)]), disk, 0, [1, 2])
         == Written(true, disk[a := [1]])
  {
    var files := [StorageFile(a, 1), StorageFile(b, 0), StorageFile(c, 1)];
    var rest := files[1..];
    assert rest[0] == StorageFile(b, 0);
    var tail := Ranges(0, 2, rest, 1);
    assert tail[0] == Range(b, 0, 0);
    assert Ranges(0, 2, files, 0) == [Range(a, 0, 1)] + tail;
    var data: seq<byte> := [1, 2];
    assert WriteRanges(disk[a := [1]], tail, data, 1) == Written(true, disk[a := [1]]);
    assert WriteAt(disk[a], 0, data[0..1]) == [1];
    assert ([Range(a, 0, 1)] + tail)[1..] == tail;
  }

  // ---------------------------------------------------------------- whole torrents

  /** Write pieces of `content` in the given order, stopping at the first failure. */
  ghost function WritePieces(mode: Mode, disk: Disk, order: seq<nat>, content: seq<byte>, p: nat): Written
    decreases |order|
  {
    if order == [] then Written(true, disk)
    else
      var w := WriteRange(mode, disk, PieceOffset(order[0], p), Tile(content, order[0], p));
      if w.ok then WritePieces(mode, w.disk, order[1..], content, p) else w
  }

  /** The write of its piece gets as far as byte `b`; a matter of file lengths and piece length. */
  ghost predicate Reaches(mode: Mode, b: nat, p: nat, total: nat)
    requires p > 0
  {
    var start := PieceOffset(b / p, p);
    b < StopIn(mode, start, Min(start + p, total))
  }

  lemma WriteOnePiece(mode: Mode, disk: Disk, index: nat, content: seq<byte>, p: nat)
    requires Prepared(mode, |content|, disk) && p > 0 && index < DivCeil(|content|, p)
    ensures var w := WriteRange(mode, disk, PieceOffset(index, p), Tile(content, index, p));
            && w.ok && Prepared(mode, |content|, w.disk)
            && |Bytes(mode, |content|, w.disk)| == |Bytes(mode, |content|, disk)| == |content|
            && forall b :: 0 <= b < |content| ==>
                 Bytes(mode, |content|, w.disk)[b]
                 == if b / p == index && Reaches(mode, b, p, |content|) then content[b]
                    else Bytes(mode, |content|, disk)[b]
  {
    var start, data := PieceOffset(index, p), Tile(content, index, p);
    PieceInside(index, p, |content|);
    assert data == content[start..Min(start + p, |content|)];
    var stop := StopIn(mode, start, start + |data|);
    WriteOverlays(mode, |content|, disk, start, data);
    BytesLength(mode, |content|, disk);
    StopInside(mode, |content|, disk, start, start + |data|);
    hide WriteRange, Tile, Prepared, Bytes, StopIn, PieceOffset;
    var flat := Bytes(mode, |content|, disk);
    forall b | 0 <= b < |content|
      ensures Overlay(flat, 0, start, stop, data)[b]
           == if b / p == index && Reaches(mode, b, p, |content|) then content[b] else flat[b]
    {
      ByteInPiece(b, index, p);
      if start <= b < start + |data| {
        assert data[b - start] == content[b];
      }
    }
  }

  /** Any order of writes, with or without repeats: the bytes of written pieces that their
      writes reach hold the content, all others what they held before. */
  lemma {:induction false} WriteSomePieces(mode: Mode, disk: Disk, order: seq<nat>, content: seq<byte>, p: nat)
    requires Prepared(mode, |content|, disk) && p > 0
    requires forall i :: 0 <= i < |order| ==> order[i] < DivCeil(|content|, p)
    ensures var w := WritePieces(mode, disk, order, content, p);
            && w.ok && Prepared(mode, |content|, w.disk)
            && |Bytes(mode, |content|, w.disk)| == |Bytes(mode, |content|, disk)| == |content|
            && forall b :: 0 <= b < |content| ==>
                 Bytes(mode, |content|, w.disk)[b]
                 == if b / p in order && Reaches(mode, b, p, |content|) then content[b]
                    else Bytes(mode, |content|, disk)[b]
    decreases |order|
  {
    if order == [] {
      BytesLength(mode, |content|, disk);
    } else {
      WriteOnePiece(mode, disk, order[0], content, p);
      var w := WriteRange(mode, disk, PieceOffset(order[0], p), Tile(content, order[0], p));
      WriteSomePieces(mode, w.disk, order[1..], content, p);
      hide WriteRange, Bytes, Prepared, Tile, Reaches;
      assert forall q :: q in order <==> q == order[0] || q in order[1..];
    }
  }

  /** Writing every piece, in any order, leaves exactly the bytes of the torrent if and
      only if the bytes that no write reaches were there before. */
  lemma WriteAllPieces(mode: Mode, disk: Disk, order: seq<nat>, content: seq<byte>, p: nat)
    requires Prepared(mode, |content|, disk) && p > 0
    requires forall i: nat :: i in order <==> i < DivCeil(|content|, p)
    ensures var w := WritePieces(mode, disk, order, content, p);
            && w.ok && Prepared(mode, |content|, w.disk) && |Bytes(mode, |content|, disk)| == |content|
            && (Bytes(mode, |content|, w.disk) == content
                <==> forall b :: 0 <= b < |content| && !Reaches(mode, b, p, |content|) ==>
                       Bytes(mode, |content|, disk)[b] == content[b])
  {
    hide WritePieces, Bytes, Prepared, DivCeil, Reaches;
    assert forall i :: 0 <= i < |order| ==> order[i] in order;
    WriteSomePieces(mode, disk, order, content, p);
    var w := WritePieces(mode, disk, order, content, p);
    forall b | 0 <= b < |content|
      ensures b / p in order
    {
      ByteHasPiece(b, p, |content|);
    }
  }

  /** No empty file lies strictly inside piece `i`. */
  predicate WholePiece(mode: Mode, i: nat, p: nat, total: nat) {
    !Interrupted(mode, PieceOffset(i, p), Min(PieceOffset(i, p) + p, total))
  }

  /** A piece is written completely exactly when its last byte is reached. */
  lemma LastOfPiece(mode: Mode, total: nat, disk: Disk, i: nat, p: nat)
    requires Prepared(mode, total, disk) && p > 0 && i < DivCeil(total, p)
    ensures var end := Min(PieceOffset(i, p) + p, total);
            PieceOffset(i, p) < end && (WholePiece(mode, i, p, total) <==> Reaches(mode, end - 1, p, total))
  {
    var start, end := PieceOffset(i, p), Min(PieceOffset(i, p) + p, total);
    PieceInside(i, p, total);
    ByteInPiece(end - 1, i, p);
    StopInside(mode, total, disk, start, end);
    hide StopIn, Interrupted, PieceOffset;
  }

  lemma ReachesBefore(mode: Mode, b: nat, p: nat, total: nat)
    requires p > 0 && b < total
    ensures Reaches(mode, Min(PieceOffset(b / p, p) + p, total) - 1, p, total) ==> Reaches(mode, b, p, total)
  {
    var start := PieceOffset(b / p, p);
    var end := Min(start + p, total);
    ByteInPiece(b, b / p, p);
    ByteInPiece(end - 1, b / p, p);
    hide StopIn, PieceOffset;
  }

  lemma WholeReaches(mode: Mode, total: nat, disk: Disk, b: nat, p: nat)
    requires Prepared(mode, total, disk) && p > 0 && b < total
    ensures b / p < DivCeil(total, p)
    ensures WholePiece(mode, b / p, p, total) ==> Reaches(mode, b, p, total)
  {
    ByteHasPiece(b, p, total);
    LastOfPiece(mode, total, disk, b / p, p);
    ReachesBefore(mode, b, p, total);
  }

  /** All bytes are reached exactly when no empty file lies strictly inside a piece. */
  lemma AllReached(mode: Mode, total: nat, disk: Disk, p: nat)
    requires Prepared(mode, total, disk) && p > 0
    ensures (forall b :: 0 <= b < total ==> Reaches(mode, b, p, total))
       <==> (forall i :: 0 <= i < DivCeil(total, p) ==> WholePiece(mode, i, p, total))
  {
    hide Reaches, WholePiece, Prepared, DivCeil, PieceOffset;
    if i :| 0 <= i < DivCeil(total, p) && !WholePiece(mode, i, p, total) {
      LastOfPiece(mode, total, disk, i, p);
    } else {
      forall b | 0 <= b < total
        ensures Reaches(mode, b, p, total)
      {
        WholeReaches(mode, total, disk, b, p);
      }
    }
  }
}
