/** The handle of an open compound file (in-memory variant). */
module OleFiles {
  import opened Bytes
  import opened OleImage

  /** A directory entry of a root or stream object: its first sector and its size. */
  datatype FileEntry = FileEntry(start: dword, size: dword)

  class OleFile {
    const buffer: seq<byte>
    var bufferPos: nat
    // header fields
    var cfat: dword
    var dirstart: dword
    var sectorCutoff: dword
    var sfatstart: dword
    var csfat: dword
    var difstart: dword
    // tables, None while not allocated
    var secID: seq<dword>
    var sSecID: Option<seq<dword>>
    var ssat: Option<seq<byte>>
    var files: seq<FileEntry>

    constructor (data: seq<byte>)
      ensures buffer == data && bufferPos == 0
      ensures secID == [] && sSecID == None && ssat == None && files == []
    {
      buffer := data;
      bufferPos := 0;
      cfat, dirstart, sectorCutoff, sfatstart, csfat, difstart := 0, 0, 0, 0, 0, 0;
      secID, sSecID, ssat, files := [], None, None, [];
    }

    /** What streams see of this file. */
    function Img(): Image
      reads this`secID, this`sSecID, this`ssat
    {
      Image(buffer, secID,
            if sSecID.Some? then sSecID.value else [],
            if sSecID.Some? then ssat else None)
    }

    /** Moves the read position; false when it would lie past the end. */
    method Seek(pos: nat) returns (ok: bool)
      modifies this`bufferPos
      ensures ok <==> pos <= |buffer|
      ensures bufferPos == if ok then pos else old(bufferPos)
    {
      if pos > |buffer| {
        return false;
      }
      bufferPos := pos;
      return true;
    }

    /** Reads size bytes at the read position into a destination with room for capacity bytes. */
    method Fread(capacity: int, size: nat) returns (r: Option<seq<byte>>)
      modifies this`bufferPos
      ensures r.Some? <==> size <= capacity && old(bufferPos) + size <= |buffer|
      ensures r.Some? ==> r.value == buffer[old(bufferPos)..old(bufferPos) + size] && bufferPos == old(bufferPos) + size
      ensures r.None? ==> bufferPos == old(bufferPos)
    {
      if size > capacity {
        return None;
      }
      if bufferPos + size > |buffer| {
        return None;
      }
      r := Some(buffer[bufferPos..bufferPos + size]);
      bufferPos := bufferPos + size;
    }

    /** Reads one sector into a destination with room for capacity bytes, whatever was read before. */
    method SectorRead(capacity: int, sid: dword) returns (r: Option<seq<byte>>)
      modifies this`bufferPos
      ensures r == if capacity < SECTOR then None else FileSector(buffer, sid)
    {
      var seeked := Seek(SectorPos(sid));
      if !seeked {
        return None;
      }
      r := Fread(capacity, SECTOR);
    }
  }
}
