/** The foreign collaborators of the scanner: the gzip and tar decoders, the
    HTML sanitiser followed by entity unescaping, and the diff engine. None of
    them is modelled; the scanner is verified for every choice of them. */
module Codecs {
  import opened Streams

  /** The outcome of a foreign decoding step. */
  datatype Decoded<T> = Decoded(value: T) | Corrupt(fault: Fault)

  /** One tar entry: its header name and the result of reading its content
      in full. The content is only read for entries that are inspected. */
  datatype Entry = Entry(name: string, body: Decoded<seq<byte>>)

  /** A tar archive as the forward-only walk sees it: the entries `Next`
      yields, in order, and then how `Next` stops (end of archive or a
      header error). */
  datatype Archive = Archive(entries: seq<Entry>, tail: Ending)

  /** The collaborators, each a deterministic function of its input.
      - `gunzip`: opening a gzip reader over the buffered compressed bytes;
        either a header error, or the stream of decoded bytes.
      - `untar`: walking the buffered decompressed bytes as a tar archive.
      - `clean`: the user-generated-content sanitising policy followed by
        HTML entity unescaping, on a file's text.
      - `diff`: the textual patch from the original text to the cleaned one. */
  datatype Collaborators = Collaborators(
    gunzip: seq<byte> -> Decoded<Stream>,
    untar: seq<byte> -> Archive,
    clean: seq<byte> -> seq<byte>,
    diff: (seq<byte>, seq<byte>) -> string
  )
}
