/** The user's files as the pipeline sees them: a name, bytes, and the ways a read of them can fail. */
module Files {
  import opened Wrappers

  type byte = bv8

  /** Why a `FileReader` read of one slice was rejected. */
  datatype ReadFault =
    | EmptyResult            // `onload` fired with no result: "Failed to read chunk"
    | ReaderError            // `onerror` fired

  /**
   * A selected file. `wholeReadError` is the message with which `text()` or `arrayBuffer()`
   * rejects, if it does; `chunkFaults` maps the start offset of a slice read to its fault.
   */
  datatype UserFile = UserFile(
    name: string,
    contents: seq<byte>,
    wholeReadError: Option<string>,
    chunkFaults: map<nat, ReadFault>)
}
