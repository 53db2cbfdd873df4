/** Identifiers, page values, error kinds and I/O events shared by the buffer manager model. */
module Types {

  /** Identity of an open `File` object (the C++ code compares `File*` pointers). */
  type FileId = nat

  /** Page number within a file. */
  type PageId = nat

  /** Index of a frame in the buffer pool. */
  type FrameId = nat

  /** The page number BadgerDB reserves for "no page" (`Page::INVALID_NUMBER`). */
  const InvalidPageNo: PageId := 0

  /** A page-table key: the (file, page number) pair the hash table is indexed by. */
  type Key = (FileId, PageId)

  datatype Option<T> = None | Some(value: T)

  /** A page as an opaque value that carries its own page number. */
  datatype Page = Page(number: PageId, data: seq<bv8>)

  /** The page a freshly constructed pool slot holds. */
  const BlankPage: Page := Page(InvalidPageNo, [])

  /**
   * The exceptions that leave the buffer manager, one constructor each.
   * `NotFound` is the hash table's miss, `InvalidPage` the file's complaint
   * about a page number it does not hold.
   */
  datatype BufError =
    | BufferExceeded
    | PageNotPinned(frame: FrameId)
    | PagePinned(frame: FrameId)
    | BadBuffer(frame: FrameId)
    | NotFound
    | InvalidPage

  datatype Result<T> = Ok(value: T) | Err(error: BufError)

  /** A call the buffer manager makes on a file that changes what is on disk. */
  datatype IoEvent =
    | Write(file: FileId, page: Page)
    | Delete(file: FileId, pageNo: PageId)
}
