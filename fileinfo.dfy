/**
 * The part of Go's os.FileInfo that the comparators and the diff engine
 * read: base name, size, mode and modification time.
 */
module FileInfo {

  /** Go's os.FileMode, an unsigned 32-bit word: type bits on top, the
      permission bits at the bottom. */
  type FileMode = bv32

  /** The directory bit, 1 << 31. */
  const ModeDir: FileMode := 0x8000_0000

  /** Every type bit (directory, symlink, device, named pipe, socket, character
      device, irregular); a mode with none of them is a regular file. */
  const ModeType: FileMode := 0x8F28_0000

  /** The nine Unix permission bits rwxrwxrwx. */
  const ModePerm: FileMode := 0x1FF

  /** The owner-only mode 0700 used for every freshly made directory. */
  const OwnerOnly: FileMode := 0x1C0

  /** What os.FileInfo reports about one entry; `mtime` is in nanoseconds. */
  datatype Info = Info(name: string, size: int, mode: FileMode, mtime: int)

  predicate IsDir(i: Info) { i.mode & ModeDir != 0 }

  predicate IsRegular(i: Info) { i.mode & ModeType == 0 }

  function Perm(i: Info): (p: FileMode)
    ensures p <= ModePerm
  {
    i.mode & ModePerm
  }

  /** A directory is never a regular file. */
  lemma {:induction false} DirNotRegular(i: Info)
    ensures IsDir(i) ==> !IsRegular(i)
  {
  }
}
