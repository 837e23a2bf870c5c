/** The chart scanner: two bounded copies (compressed input, then decompressed
    stream), a forward walk over the tar entries, and a sanitise-and-compare
    check on every ".md" entry. The first operational error or policy
    violation ends the scan. */
module Scanner {
  import opened Streams
  import opened Codecs
  import opened PathExt

  const MaxCompressedArchiveSize: nat := 10 * 1024 * 1024
  const MaxUncompressedArchiveSize: nat := 10 * 1024 * 1024

  const CompressedArchiveSizePolicy := "compressed-archive-size"
  const UncompressedArchiveSizePolicy := "uncompressed-archive-size"
  const MaliciousContentPolicy := "maliciousContent"

  const TooLargeMessage := "chart is too large"

  function MaliciousMessage(name: string): string {
    "chart contains malicious content in file: " + name
  }

  /** The step whose foreign call failed, for an operational error. */
  datatype Stage =
    | ReadArchive
    | OpenGzip
    | Decompress
    | ExtractArchive
    | ExtractFile(name: string)

  /** What `Scan` returns: no error, an operational error wrapping the
      collaborator's fault, or a policy violation. */
  datatype ScanResult =
    | Ok
    | OpError(stage: Stage, cause: Fault)
    | Violation(policy: string, message: string, context: string)

  predicate IsSizePolicy(p: string) {
    p == CompressedArchiveSizePolicy || p == UncompressedArchiveSizePolicy
  }

  /** An entry passes when it is not inspected, or when its content reads in
      full and is left unchanged by cleaning. */
  predicate Passes(e: Entry, clean: seq<byte> -> seq<byte>) {
    IsMarkdown(e.name) ==> e.body.Decoded? && clean(e.body.value) == e.body.value
  }

  predicate AllPass(entries: seq<Entry>, clean: seq<byte> -> seq<byte>) {
    forall i :: 0 <= i < |entries| ==> Passes(entries[i], clean)
  }

  /** The check on one tar entry: `Ok` to go on to the next entry, or the
      result that ends the scan. */
  function Inspect(e: Entry, clean: seq<byte> -> seq<byte>, diff: (seq<byte>, seq<byte>) -> string): (r: ScanResult)
    ensures r == Ok <==> Passes(e, clean)
    ensures !IsMarkdown(e.name) ==> r == Ok
    ensures r.OpError? <==> IsMarkdown(e.name) && e.body.Corrupt?
    ensures r.OpError? ==> r == OpError(ExtractFile(e.name), e.body.fault)
    ensures r.Violation? <==> IsMarkdown(e.name) && e.body.Decoded? && clean(e.body.value) != e.body.value
    ensures r.Violation? ==>
      && r.policy == MaliciousContentPolicy
      && r.message == MaliciousMessage(e.name)
      && r.context == diff(e.body.value, clean(e.body.value))
  {
    if !IsMarkdown(e.name) then Ok
    else
      match e.body
      case Corrupt(f) => OpError(ExtractFile(e.name), f)
      case Decoded(content) =>
        var cleaned := clean(content);
        if content != cleaned then
          Violation(MaliciousContentPolicy, MaliciousMessage(e.name), diff(content, cleaned))
        else Ok
  }

  /** The tar walk: entries in archive order, stopping at the first one whose
      check does not pass; after the last entry, the way `Next` stopped. */
  function Walk(entries: seq<Entry>, tail: Ending, clean: seq<byte> -> seq<byte>, diff: (seq<byte>, seq<byte>) -> string): (r: ScanResult)
    ensures r == Ok <==> tail == AtEof && AllPass(entries, clean)
    ensures r.Violation? ==> r.policy == MaliciousContentPolicy
    ensures r.OpError? ==> r.stage.ExtractArchive? || r.stage.ExtractFile?
    ensures r.OpError? && r.stage.ExtractArchive? <==> AllPass(entries, clean) && tail.Failed?
    decreases |entries|
  {
    if |entries| == 0 then
      match tail
      case AtEof => Ok
      case Failed(f) => OpError(ExtractArchive, f)
    else
      var verdict := Inspect(entries[0], clean, diff);
      if verdict != Ok then verdict
      else Walk(entries[1..], tail, clean, diff)
  }

  /** The compressed stage passes when the input ends cleanly below the
      bound. */
  predicate CompressedPasses(input: Stream) {
    |input.data| < MaxCompressedArchiveSize && input.ending == AtEof
  }

  predicate UncompressedPasses(gz: Stream) {
    |gz.data| < MaxUncompressedArchiveSize && gz.ending == AtEof
  }

  /** `ChartScanner.Scan` on an input stream, for the given collaborators. */
  function Scan(input: Stream, c: Collaborators): (r: ScanResult)
    // compressed stage: a size violation exactly from 10 MiB on, the limit included
    ensures r == Violation(CompressedArchiveSizePolicy, TooLargeMessage, "")
      <==> |input.data| >= MaxCompressedArchiveSize
    ensures r.OpError? && r.stage == ReadArchive
      <==> |input.data| < MaxCompressedArchiveSize && input.ending.Failed?
    // gzip is opened only on a compressed stage that passed
    ensures r.OpError? && r.stage == OpenGzip
      <==> CompressedPasses(input) && c.gunzip(input.data).Corrupt?
    // decompressed stage: a size violation exactly from 10 MiB of output on
    ensures r == Violation(UncompressedArchiveSizePolicy, TooLargeMessage, "")
      <==> CompressedPasses(input) && c.gunzip(input.data).Decoded?
           && |c.gunzip(input.data).value.data| >= MaxUncompressedArchiveSize
    ensures r.OpError? && r.stage == Decompress
      <==> CompressedPasses(input) && c.gunzip(input.data).Decoded?
           && |c.gunzip(input.data).value.data| < MaxUncompressedArchiveSize
           && c.gunzip(input.data).value.ending.Failed?
    // a tar header error surfaces only after both stages pass and every
    // entry before it passed
    ensures r.OpError? && r.stage == ExtractArchive
      <==> CompressedPasses(input) && c.gunzip(input.data).Decoded?
           && UncompressedPasses(c.gunzip(input.data).value)
           && c.untar(c.gunzip(input.data).value.data).tail.Failed?
           && AllPass(c.untar(c.gunzip(input.data).value.data).entries, c.clean)
    // success needs both stages, a clean end of the archive, and every
    // inspected entry unchanged by cleaning
    ensures r == Ok <==>
      && CompressedPasses(input)
      && c.gunzip(input.data).Decoded?
      && UncompressedPasses(c.gunzip(input.data).value)
      && c.untar(c.gunzip(input.data).value.data).tail == AtEof
      && AllPass(c.untar(c.gunzip(input.data).value.data).entries, c.clean)
    // the three policies, and only content violations carry a context
    ensures r.Violation? ==> IsSizePolicy(r.policy) || r.policy == MaliciousContentPolicy
    ensures r.Violation? && IsSizePolicy(r.policy) ==> r.message == TooLargeMessage && r.context == ""
  {
    var compressed := CopyN(input, MaxCompressedArchiveSize);
    if compressed.status.ReadFailed? then OpError(ReadArchive, compressed.status.fault)
    else if compressed.status != Eof && |compressed.buf| == MaxCompressedArchiveSize then
      Violation(CompressedArchiveSizePolicy, TooLargeMessage, "")
    else
      match c.gunzip(compressed.buf)
      case Corrupt(f) => OpError(OpenGzip, f)
      case Decoded(gz) =>
        var decompressed := CopyN(gz, MaxUncompressedArchiveSize);
        if decompressed.status.ReadFailed? then OpError(Decompress, decompressed.status.fault)
        else if decompressed.status != Eof && |decompressed.buf| == MaxUncompressedArchiveSize then
          Violation(UncompressedArchiveSizePolicy, TooLargeMessage, "")
        else
          var archive := c.untar(decompressed.buf);
          Walk(archive.entries, archive.tail, c.clean, c.diff)
  }
}
