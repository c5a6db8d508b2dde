/**
 * The byte-stream adapter the GIF decoder pulls its input through: open,
 * close, read and seek callbacks over a Storage.File, with the decoder's
 * cursor record (position and size) kept in step with the file.
 */
module GifFileIO {
  import opened Storage

  /**
   * The decoder's cursor record for one open file (GIFFILE): the file handle,
   * the tracked position iPos and the file size iSize.
   */
  class GifFile {
    var fHandle: File
    var iPos: int
    var iSize: int

    /** The tracked position agrees with the file's own position, and the size with its length. */
    ghost predicate Valid()
      reads this, fHandle
    {
      fHandle.Valid() && fHandle.isOpen && iSize == |fHandle.data| && iPos == fHandle.pos
    }

    /** The record as the decoder sets it up after a successful open. */
    constructor (f: File, size: int)
      requires f.Valid() && f.isOpen && f.pos == 0 && size == |f.data|
      ensures Valid() && fHandle == f && iSize == size && iPos == 0
    {
      fHandle := f;
      iSize := size;
      iPos := 0;
    }
  }

  /**
   * The number of bytes GIFReadFile asks the file for when the decoder wants
   * iLen bytes at position iPos of a file of iSize bytes. A request that does
   * not fit in what remains is shrunk so that it stops one byte short of the
   * end; a request that fits, including one for exactly the bytes that
   * remain, is passed through.
   */
  function RequestLength(iSize: int, iPos: int, iLen: int): (r: int)
    ensures r <= iLen
    ensures r <= iSize - iPos
    ensures r < iLen ==> iPos + r == iSize - 1
    ensures iLen <= iSize - iPos ==> r == iLen
  {
    if iSize - iPos < iLen then iSize - iPos - 1 else iLen
  }

  /** GIFOpenFile: a handle and its size when the name resolves; null and the size left as it was otherwise. */
  method OpenFile(fs: Volume, fname: string, pSize: int) returns (handle: File?, size: int)
    ensures (handle != null) == (fname in fs.files)
    ensures handle != null ==> fresh(handle) && handle.Valid() && handle.isOpen && handle.pos == 0
                               && handle.data == fs.files[fname] && size == |handle.data|
    ensures handle == null ==> size == pSize
  {
    handle := fs.Open(fname);
    size := pSize;
    if handle != null {
      size := |handle.data|;
    }
  }

  /** GIFCloseFile: closes the file unless the handle is null. */
  method CloseFile(pHandle: File?)
    modifies pHandle
    ensures pHandle != null ==> !pHandle.isOpen
    ensures pHandle != null ==> pHandle.data == old(pHandle.data) && pHandle.pos == old(pHandle.pos)
  {
    if pHandle != null {
      pHandle.Close();
    }
  }

  /**
   * GIFReadFile: reads the decoder's request, shrunk at the end of the file
   * by RequestLength. A request that comes out at zero or less returns 0
   * without touching the file; otherwise the bytes read land at the start of
   * pBuf and iPos is taken again from the file's position.
   */
  method ReadFile(pFile: GifFile, pBuf: array<bv8>, iLen: int) returns (iBytesRead: int)
    requires pFile.Valid() && iLen <= pBuf.Length
    modifies pFile, pFile.fHandle, pBuf
    ensures pFile.Valid()
    ensures pFile.fHandle == old(pFile.fHandle) && pFile.iSize == old(pFile.iSize)
    ensures pFile.fHandle.data == old(pFile.fHandle.data)
    ensures var r := RequestLength(old(pFile.iSize), old(pFile.iPos), iLen);
            if r <= 0 then
              && iBytesRead == 0
              && pFile.iPos == old(pFile.iPos)
              && pBuf[..] == old(pBuf[..])
            else
              && iBytesRead == r
              && pFile.iPos == old(pFile.iPos) + r
              && pBuf[..r] == pFile.fHandle.data[old(pFile.iPos)..pFile.iPos]
              && pBuf[r..] == old(pBuf[r..])
  {
    iBytesRead := iLen;
    var f := pFile.fHandle;
    // reading a file all the way to its last byte would break seek()
    if pFile.iSize - pFile.iPos < iLen {
      iBytesRead := pFile.iSize - pFile.iPos - 1;
    }
    if iBytesRead <= 0 {
      return 0;
    }
    var count := f.Read(pBuf, iBytesRead);
    iBytesRead := count;
    pFile.iPos := f.pos;
  }

  /** GIFSeekFile: seeks the file, then takes iPos again from the file's position and returns it. */
  method SeekFile(pFile: GifFile, iPosition: int) returns (pos: int)
    requires pFile.Valid()
    modifies pFile, pFile.fHandle
    ensures pFile.Valid()
    ensures pFile.fHandle == old(pFile.fHandle) && pFile.iSize == old(pFile.iSize)
    ensures pFile.fHandle.data == old(pFile.fHandle.data)
    ensures pos == pFile.iPos == pFile.fHandle.pos
    ensures pos == if 0 <= iPosition <= pFile.iSize then iPosition else old(pFile.iPos)
  {
    var f := pFile.fHandle;
    var _ := f.Seek(iPosition);
    pFile.iPos := f.pos;
    pos := pFile.iPos;
  }

  // Properties of the end-of-file guard.

  /** A shrunk request that reads anything leaves the cursor on the file's final byte, never past it. */
  lemma ShrunkReadStopsBeforeLastByte(iSize: int, iPos: int, iLen: int)
    requires 0 <= iPos <= iSize && iSize - iPos < iLen
    ensures RequestLength(iSize, iPos, iLen) > 0 ==> iPos + RequestLength(iSize, iPos, iLen) == iSize - 1
    ensures RequestLength(iSize, iPos, iLen) <= 0 <==> iSize - iPos <= 1
  {
  }

  /**
   * The guard is strict: a request for exactly the bytes that remain is not
   * shrunk, so it reads through the final byte.
   */
  lemma ExactRequestReachesEnd(iSize: int, iPos: int)
    requires 0 <= iPos < iSize
    ensures RequestLength(iSize, iPos, iSize - iPos) == iSize - iPos
  {
  }

  /** Reading 5 bytes with 3 left asks the file for 2: the last byte stays unread. */
  lemma EndOfFileGuardExample(iSize: int)
    requires iSize >= 3
    ensures RequestLength(iSize, iSize - 3, 5) == 2
  {
  }
}
