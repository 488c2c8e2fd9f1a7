/** Identifiers and small shared types of the storage engine. */
module Config {

  /** A page id names one on-disk page across the whole engine. */
  type PageId = int

  /** A frame id names one in-memory frame of a buffer pool instance. */
  type FrameId = int

  /** The sentinel page id that never refers to a real page. */
  const INVALID_PAGE_ID: PageId := -1

  /** A value that may be absent; stands for an out-parameter written only on success
      or for a pointer result that may be null. */
  datatype Option<+T> = None | Some(value: T)
}
