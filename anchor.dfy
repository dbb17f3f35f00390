/**
 * The anchor file a caller hands to the broker, and the part of `Pion::entry`
 * that turns it into a rendezvous key: clone the descriptor, read its metadata,
 * refuse a read-only file, and take the `(dev, ino)` pair.
 */
module Anchor {
  import opened Wrappers
  import opened Status

  newtype u64 = x: int | 0 <= x < 0x1_0000_0000_0000_0000

  /** The registry key: device and inode number of the anchor's file. */
  type Key = (u64, u64)

  /** What `fstat` reports about the file behind a descriptor. */
  datatype Metadata = Metadata(dev: u64, ino: u64, mode: bv32)

  /** How the caller opened the descriptor. */
  datatype AccessMode = ReadOnly | WriteOnly | ReadWrite

  /**
   * A `ParcelFileDescriptor` as the broker sees it: whether duplicating it
   * succeeds, what reading its metadata yields (None when that fails), and
   * the mode it was opened with.
   */
  datatype Descriptor = Descriptor(cloneOk: bool, stat: Option<Metadata>, access: AccessMode)

  /** `Permissions::readonly` on Unix: no bit of 0o222 (= 0x92) is set in the mode. */
  predicate Readonly(mode: bv32) {
    mode & 0x92 == 0
  }

  /** Someone may write the file: the owner (0o200), the group (0o020) or others (0o002). */
  predicate Writable(mode: bv32) {
    mode & 0x80 != 0 || mode & 0x10 != 0 || mode & 0x02 != 0
  }

  /** The descriptor can be cloned and its metadata read. */
  predicate Accessible(fd: Descriptor) {
    fd.cloneOk && fd.stat.Some?
  }

  /**
   * The first three steps of `Pion::entry`: the key for `fd`, or the error the
   * broker answers with. The guard is fail-closed: a key comes out exactly
   * when the metadata can be read and grants someone write permission, and
   * every other outcome is one of the two errors.
   */
  function Identify(fd: Descriptor): (r: Result<Key, Error>)
    ensures r.Ok? <==> Accessible(fd) && Writable(fd.stat.value.mode)
    ensures r.Ok? ==> r.value == (fd.stat.value.dev, fd.stat.value.ino)
    ensures r.Err? ==> r.error == Unidentified || r.error == Denied
    ensures r == Err(Unidentified) <==> !Accessible(fd)
  {
    if !fd.cloneOk then Err(Unidentified)
    else match fd.stat
      case None => Err(Unidentified)
      case Some(meta) =>
        if Readonly(meta.mode) then Err(Denied)
        else Ok((meta.dev, meta.ino))
  }

  /**
   * The key names the file, not the descriptor: two accepted descriptors
   * give the same key exactly when their files share device and inode,
   * whatever path, process or access mode they were opened with.
   */
  lemma SameFileSameKey(a: Descriptor, b: Descriptor)
    requires Identify(a).Ok? && Identify(b).Ok?
    ensures Identify(a) == Identify(b) <==>
      a.stat.value.dev == b.stat.value.dev && a.stat.value.ino == b.stat.value.ino
  {
  }

  /**
   * The guard reads the file's permission bits only: a descriptor opened
   * read-only is treated exactly like one opened for writing.
   */
  lemma AccessModeIgnored(fd: Descriptor, access: AccessMode)
    ensures Identify(fd.(access := access)) == Identify(fd)
  {
  }

  /** A file created with mode 0o644 and opened read-only is accepted. */
  lemma ReadOnlyOpenAccepted(dev: u64, ino: u64)
    ensures Identify(Descriptor(true, Some(Metadata(dev, ino, 0x1A4)), ReadOnly)) == Ok((dev, ino))
  {
  }
}
