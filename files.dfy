/** The file system as the duplicate finder sees it: the entries a directory
    walk yields, and a hasher that reads a file by path and digests all of it
    or a prefix of it. MD5 itself is abstract: `md5` may be any function from
    bytes to a 16-byte digest, so nothing proved here depends on it. */
module Files {

  newtype byte = x: int | 0 <= x < 256

  type Bytes = seq<byte>

  /** md5.Size */
  const Md5Size: nat := 16

  /** A digest is always exactly md5.Size bytes long; the source panics
      ("Unexpected checksum length") otherwise, so the type rules that out. */
  type Digest = d: Bytes | |d| == Md5Size witness [0, 0, 0, 0, 0, 0, 0, 0, 0, 0, 0, 0, 0, 0, 0, 0]

  /** A path produced by filepath.Walk: it starts with the (non-empty) root,
      so it is never the empty string the engine uses as a sentinel. */
  type Path = p: string | p != "" witness "/"

  /** One entry reported by the walk: its path, whether it is a directory, and
      the byte length os.FileInfo reported at walk time. */
  datatype Entry = Entry(path: Path, isDir: bool, size: nat)

  /** What a later read of a path finds: its bytes, and whether opening or
      reading it fails (permission denied, I/O error). */
  datatype Blob = Blob(content: Bytes, readable: bool)

  /** The block size that asks hash for the whole file. */
  const WholeFile: int := -1

  datatype HashResult = Sum(digest: Digest) | ReadError

  /** One call of the hashing primitive: the file read and the block size
      asked for (at most 0 means the whole file). */
  datatype HashCall = HashCall(path: Path, blocksize: int)

  /** The hashing collaborator: the files as they are when hashed (a path
      missing from `files` was deleted after the walk) and the digest function. */
  datatype Hasher = Hasher(files: map<Path, Blob>, md5: Bytes -> Digest) {

    /** hash(path, blocksize): with a positive block size, digest exactly the
        first `blocksize` bytes (io.CopyN reports EOF, an error, when the file is
        shorter); otherwise digest the whole file (io.Copy). */
    function Hash(path: Path, blocksize: int): (r: HashResult)
      ensures r.Sum? <==> path in files && files[path].readable
                          && (blocksize > 0 ==> blocksize <= |files[path].content|)
      ensures r.Sum? && blocksize > 0 ==> r.digest == md5(files[path].content[..blocksize])
      ensures r.Sum? && blocksize <= 0 ==> r.digest == md5(files[path].content)
    {
      if path !in files || !files[path].readable then ReadError
      else if blocksize > 0 then
        if |files[path].content| < blocksize then ReadError
        else Sum(md5(files[path].content[..blocksize]))
      else Sum(md5(files[path].content))
    }

    /** Two readable files with the same bytes hash alike at every block size:
        the digest is a function of the bytes covered and nothing else. */
    lemma SameContentSameHash(p: Path, q: Path, blocksize: int)
      requires p in files && q in files && files[p].readable && files[q].readable
      requires files[p].content == files[q].content
      ensures Hash(p, blocksize) == Hash(q, blocksize)
    {
    }
  }
}
