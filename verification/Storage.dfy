/** File-backed storage: byte ranges of the torrent mapped to ranges of files. */
module Storage {
  import opened Prelude
  import opened Tiling

  type Path = string

  datatype StorageFile = StorageFile(path: Path, length: nat)

  datatype Mode =
    | SingleFile(path: Path)
    | MultiFile(files: seq<StorageFile>)

  /** `len` bytes of a file, from `offset` on. */
  datatype Range = Range(path: Path, offset: nat, len: nat)

  type Disk = map<Path, seq<byte>>

  // ---------------------------------------------------------------- files

  /** Open for writing, seek and `write_all`: a gap behind the end is zero-filled. */
  function WriteAt(content: seq<byte>, offset: nat, chunk: seq<byte>): seq<byte> {
    if chunk == [] then content
    else
      var padded := if |content| < offset then content + seq(offset - |content|, _ => 0 as byte) else content;
      padded[..offset] + chunk + (if offset + |chunk| <= |padded| then padded[offset + |chunk|..] else [])
  }

  /** Open, seek and `read_exact`. */
  function ReadExact(content: seq<byte>, offset: nat, len: nat): Result<seq<byte>> {
    if len == 0 then Ok([])
    else if offset + len <= |content| then Ok(content[offset..offset + len])
    else Err(Io)
  }

  // ---------------------------------------------------------------- mapping

  /** The file ranges that make up bytes `offset..end`, for files from byte `start` on. */
  function Ranges(offset: nat, end: nat, files: seq<StorageFile>, start: nat): seq<Range>
    requires offset <= end
  {
    if files == [] then []
    else
      var fileEnd := start + files[0].length;
      var head := HeadRange(offset, end, files[0], start);
      if fileEnd >= end then head else head + Ranges(offset, end, files[1..], fileEnd)
  }

  function HeadRange(offset: nat, end: nat, file: StorageFile, start: nat): seq<Range>
    requires offset <= end
  {
    var fileEnd := start + file.length;
    if fileEnd > offset && start < end then
      var readStart := Max(start, offset) - start;
      var readEnd := Min(fileEnd, end) - start;
      [Range(file.path, readStart, readEnd - readStart)]
    else []
  }

  /** `all` are the ranges in `done` and those still to come. */
  ghost predicate Remaining(done: seq<Range>, offset: nat, end: nat, files: seq<StorageFile>, start: nat, all: seq<Range>)
    requires offset <= end
  {
    done + Ranges(offset, end, files, start) == all
  }

  lemma NoneDone(offset: nat, end: nat, files: seq<StorageFile>)
    requires offset <= end
    ensures Remaining([], offset, end, files, 0, Ranges(offset, end, files, 0))
    ensures files[0..] == files
  {
    hide Ranges;
  }

  /** One turn of the mapping loop. */
  lemma NextRange(done: seq<Range>, offset: nat, end: nat, files: seq<StorageFile>, i: nat, start: nat, all: seq<Range>)
    requires offset <= end && i < |files| && Remaining(done, offset, end, files[i..], start, all)
    ensures var file, fileEnd := files[i], start + files[i].length;
            var pushed :=
              if fileEnd > offset && start < end then
                done + [Range(file.path, Max(start, offset) - start, Min(fileEnd, end) - start - (Max(start, offset) - start))]
              else done;
            if fileEnd >= end then pushed == all
            else Remaining(pushed, offset, end, files[i + 1..], fileEnd, all)
  {
    var head, fileEnd := HeadRange(offset, end, files[i], start), start + files[i].length;
    assert files[i..][1..] == files[i + 1..];
    assert head == [] ==> done + head == done;
    if fileEnd < end {
      assert Ranges(offset, end, files[i..], start) == head + Ranges(offset, end, files[i + 1..], fileEnd);
      Assoc(done, head, Ranges(offset, end, files[i + 1..], fileEnd));
    }
  }

  lemma NoneLeft(done: seq<Range>, offset: nat, end: nat, start: nat, all: seq<Range>)
    requires offset <= end && Remaining(done, offset, end, [], start, all)
    ensures done == all
  {
    assert done + [] == done;
  }

  method MapByteRange(offset: nat, length: nat, files: seq<StorageFile>) returns (result: seq<Range>)
    ensures result == Ranges(offset, offset + length, files, 0)
  {
    hide Ranges, Remaining;
    ghost var all := Ranges(offset, offset + length, files, 0);
    var end := offset + length;
    var currentOffset := 0;
    result := [];
    NoneDone(offset, end, files);
    for i := 0 to |files|
      invariant currentOffset >= 0
      invariant Remaining(result, offset, end, files[i..], currentOffset, all)
    {
      NextRange(result, offset, end, files, i, currentOffset, all);
      var fileStart := currentOffset;
      var fileEnd := currentOffset + files[i].length;
      if fileEnd > offset && fileStart < end {
        var readStart := Max(fileStart, offset) - fileStart;
        var readEnd := Min(fileEnd, end) - fileStart;
        result := result + [Range(files[i].path, readStart, readEnd - readStart)];
      }
      currentOffset := fileEnd;
      if currentOffset >= end {
        return;
      }
    }
    assert files[|files|..] == [];
    NoneLeft(result, offset, end, currentOffset, all);
  }

  // ---------------------------------------------------------------- the transfer loops

  /** What a loop over files leaves behind: success or the first I/O error, and the files. */
  datatype Written = Written(ok: bool, disk: Disk)

  /** The write loop: `dataOffset` bytes of `data` are done; a range of length
      zero ends the loop like the end of the data does. */
  function WriteRanges(disk: Disk, ranges: seq<Range>, data: seq<byte>, dataOffset: nat): Written {
    if ranges == [] then Written(true, disk)
    else
      var r := ranges[0];
      var end := Min(dataOffset + r.len, |data|);
      if dataOffset >= end then Written(true, disk)
      else if r.path !in disk then Written(false, disk)
      else
        var content := WriteAt(disk[r.path], r.offset, data[dataOffset..end]);
        WriteRanges(disk[r.path := content], ranges[1..], data, dataOffset + r.len)
  }

  /** The read loop, filling `buf` from `bufOffset` on. */
  function ReadRanges(disk: Disk, ranges: seq<Range>, buf: seq<byte>, bufOffset: nat): (bool, seq<byte>) {
    if ranges == [] then (true, buf)
    else
      var r := ranges[0];
      var end := Min(bufOffset + r.len, |buf|);
      if bufOffset >= end then (true, buf)
      else if r.path !in disk then (false, buf)
      else
        match ReadExact(disk[r.path], r.offset, end - bufOffset)
        case Err(_) => (false, buf)
        case Ok(data) =>
          ReadRanges(disk, ranges[1..], buf[..bufOffset] + data + buf[end..], bufOffset + r.len)
  }

  /** `write_range` on either layout. */
  function WriteRange(mode: Mode, disk: Disk, offset: nat, data: seq<byte>): Written {
    match mode
    case SingleFile(path) =>
      if path !in disk then Written(false, disk)
      else Written(true, disk[path := WriteAt(disk[path], offset, data)])
    case MultiFile(files) => WriteRanges(disk, Ranges(offset, offset + |data|, files, 0), data, 0)
  }

  /** `read_range` on either layout; `len` is at most the length of the buffer. */
  function ReadRange(mode: Mode, disk: Disk, offset: nat, len: nat, buf: seq<byte>): (bool, seq<byte>)
    requires len <= |buf|
  {
    match mode
    case SingleFile(path) =>
      if path !in disk then (false, buf)
      else
        (match ReadExact(disk[path], offset, len)
         case Err(_) => (false, buf)
         case Ok(data) => (true, data + buf[len..]))
    case MultiFile(files) => ReadRanges(disk, Ranges(offset, offset + len, files, 0), buf, 0)
  }

  class FileStorage {
    const numPieces: nat
    const pieceLength: nat
    const totalSize: nat
    const mode: Mode
    var disk: Disk

    constructor (numPieces: nat, pieceLength: nat, totalSize: nat, mode: Mode, disk: Disk)
      ensures this.numPieces == numPieces && this.pieceLength == pieceLength
      ensures this.totalSize == totalSize && this.mode == mode && this.disk == disk
    {
      this.numPieces, this.pieceLength, this.totalSize := numPieces, pieceLength, totalSize;
      this.mode, this.disk := mode, disk;
    }

    method WriteRangeAt(offset: nat, data: seq<byte>) returns (ok: bool)
      modifies this
      ensures Written(ok, disk) == WriteRange(mode, old(disk), offset, data)
    {
      match mode
      case SingleFile(path) =>
        if path !in disk {
          return false;
        }
        disk := disk[path := WriteAt(disk[path], offset, data)];
        return true;
      case MultiFile(files) =>
        var ranges := MapByteRange(offset, |data|, files);
        ok := WriteFiles(ranges, data);
    }

    method WriteFiles(ranges: seq<Range>, data: seq<byte>) returns (ok: bool)
      modifies this
      ensures Written(ok, disk) == WriteRanges(old(disk), ranges, data, 0)
    {
      hide WriteAt;
      var dataOffset := 0;
      for i := 0 to |ranges|
        invariant dataOffset >= 0
        invariant WriteRanges(disk, ranges[i..], data, dataOffset) == WriteRanges(old(disk), ranges, data, 0)
      {
        assert ranges[i..][1..] == ranges[i + 1..];
        var r := ranges[i];
        var end := Min(dataOffset + r.len, |data|);
        if dataOffset >= end {
          return true;
        }
        if r.path !in disk {
          return false;
        }
        var chunk := data[dataOffset..end];
        disk := disk[r.path := WriteAt(disk[r.path], r.offset, chunk)];
        dataOffset := dataOffset + r.len;
      }
      return true;
    }

    method ReadRangeAt(offset: nat, len: nat, buf: array<byte>) returns (ok: bool)
      requires len <= buf.Length
      modifies buf
      ensures (ok, buf[..]) == ReadRange(mode, disk, offset, len, old(buf[..]))
    {
      match mode
      case SingleFile(path) =>
        if path !in disk {
          return false;
        }
        var data := ReadExact(disk[path], offset, len);
        if data.Err? {
          return false;
        }
        forall i | 0 <= i < len {
          buf[i] := data.value[i];
        }
        assert buf[..] == data.value + old(buf[..])[len..];
        return true;
      case MultiFile(files) =>
        var ranges := MapByteRange(offset, len, files);
        ok := ReadFiles(ranges, buf);
    }

    method ReadFiles(ranges: seq<Range>, buf: array<byte>) returns (ok: bool)
      modifies buf
      ensures (ok, buf[..]) == ReadRanges(disk, ranges, old(buf[..]), 0)
    {
      var bufOffset := 0;
      for i := 0 to |ranges|
        invariant bufOffset >= 0
        invariant ReadRanges(disk, ranges[i..], buf[..], bufOffset)
               == ReadRanges(disk, ranges, old(buf[..]), 0)
      {
        assert ranges[i..][1..] == ranges[i + 1..];
        var r := ranges[i];
        var end := Min(bufOffset + r.len, buf.Length);
        if bufOffset >= end {
          return true;
        }
        if r.path !in disk {
          return false;
        }
        var data := ReadExact(disk[r.path], r.offset, end - bufOffset);
        if data.Err? {
          return false;
        }
        ghost var before := buf[..];
        forall k | bufOffset <= k < end {
          buf[k] := data.value[k - bufOffset];
        }
        assert buf[..] == before[..bufOffset] + data.value + before[end..];
        bufOffset := bufOffset + r.len;
      }
      return true;
    }

    method WritePiece(index: nat, data: seq<byte>) returns (ok: bool)
      modifies this
      ensures Written(ok, disk) == WriteRange(mode, old(disk), PieceOffset(index, pieceLength), data)
    {
      ok := WriteRangeAt(PieceOffset(index, pieceLength), data);
    }

    method ReadPiece(index: nat, buf: array<byte>) returns (ok: bool)
      requires 0 <= PieceLen(index, numPieces, pieceLength, totalSize) <= buf.Length
      modifies buf
      ensures (ok, buf[..]) == ReadRange(mode, disk, PieceOffset(index, pieceLength),
                                         PieceLen(index, numPieces, pieceLength, totalSize), old(buf[..]))
    {
      ok := ReadRangeAt(PieceOffset(index, pieceLength),
                        PieceLen(index, numPieces, pieceLength, totalSize), buf);
    }

    method WriteBlock(piece: nat, offset: nat, data: seq<byte>) returns (ok: bool)
      modifies this
      ensures Written(ok, disk) == WriteRange(mode, old(disk), PieceOffset(piece, pieceLength) + offset, data)
    {
      ok := WriteRangeAt(PieceOffset(piece, pieceLength) + offset, data);
    }

    method ReadBlock(piece: nat, offset: nat, buf: array<byte>) returns (ok: bool)
      modifies buf
      ensures (ok, buf[..]) == ReadRange(mode, disk, PieceOffset(piece, pieceLength) + offset,
                                         buf.Length, old(buf[..]))
    {
      ok := ReadRangeAt(PieceOffset(piece, pieceLength) + offset, buf.Length, buf);
    }
  }
}
