# chartsec scanner model

A Dafny model of `ChartScanner.Scan` from the chartsec package. It is a
resource-bounded security scan of a Helm chart archive, which is a gzip-compressed
tar file. The scan works in four steps:

1. It copies at most 10 MiB of the compressed input.
2. It opens it with gzip and copies at most 10 MiB of the decompressed stream.
3. It walks the tar entries in order.
4. For every entry whose extension is `.md` in any letter case, it compares the
   content with its sanitised-and-unescaped form.

The first operational error or policy violation ends the scan.

`Scan` is a pure function from an input stream and a record of collaborators
to a tagged result. The possible results are:

- `Ok`: the Go `nil` error.
- `OpError(stage, cause)`: a wrapped read or decode error. The stage is the
  archive read, the gzip open, the decompression, the tar walk, or the
  extraction of a named file.
- `Violation(policy, message, context)`: a policy violation error.

The collaborators are parameters, and every property is proved for every
choice of them. They are: the gzip decoder, the tar decoder, the sanitiser
composed with HTML unescaping, and the diff engine.

Modules:

- `Streams` (`streams.dfy`) covers bytes, streams that end at EOF or with a
  fault, and `io.CopyN`. That function returns `nil` once it has copied
  exactly `n` bytes.
- `Codecs` (`codecs.dfy`) holds tar entries, archives and the collaborator
  record.
- `PathExt` (`pathext.dfy`) models `filepath.Ext` and the case-insensitive
  comparison with `.md`. It proves that the comparison holds exactly when the
  name ends in `.md` in any letter case, and the scanner uses that form of the
  filter.
- `Scanner` (`scanner.dfy`) holds the constants, the result type, the
  per-entry check, the walk and `Scan`.
- `ScannerProperties` (`scanner_properties.dfy`) proves the properties that
  relate several entries or archives.

The size checks include the limit itself. The comments before both copies
(internal/chartsec/scanner.go:55 and :75) say the archive must not exceed the
maximum size. The tests that follow them (:61 and :81) are
`err != io.EOF && readBytes == max`, and `io.CopyN` returns a `nil` error
once it has copied `max` bytes. So the code rejects a stream of exactly 10 MiB,
at both stages. `Scan`'s contract states that a violation happens exactly when
the stream is at least 10 MiB long.

## Model

| member | source | states |
|---|---|---|
| Streams.CopyN | internal/chartsec/scanner.go:56 | the bounded copy buffers at most `n` bytes, a prefix of the stream; it reports "filled" (a `nil` error) exactly when the stream holds at least `n` bytes, whatever follows; otherwise it returns all the data, with EOF when the stream ended cleanly or with the stream's own fault |
| Streams.CopyNStepwise | internal/chartsec/scanner.go:76 | copying byte by byte through a reader limited to `n` bytes, then turning a short count into EOF, gives the same buffer and status as `CopyN` |
| PathExt.Ext | internal/chartsec/scanner.go:102 | `filepath.Ext`: the extension is a suffix of the name and is empty or starts with '.'; its full meaning is fixed by `ExtIsFinalSegmentSuffix`, and `ExtScan` proves it equal to the Go library's backward loop |
| PathExt.ExtIsFinalSegmentSuffix | internal/chartsec/scanner.go:102 | the extension is a suffix of the name; it is empty or starts with '.'; it has no other '.' and no '/'; and it is empty only when every '.' in the name has a '/' after it |
| PathExt.LastDotIsLast | internal/chartsec/scanner.go:102 | the backward scan for the extension stops at the last '.' with no '/' after it; when it finds none, every '.' has a '/' after it |
| PathExt.ExtScan | internal/chartsec/scanner.go:102 | a backward scan that stops at the first '/' and returns the suffix from the first '.' it meets computes exactly `Ext` |
| PathExt.FoldEqIff | internal/chartsec/scanner.go:102 | two characters fold alike exactly when they are equal or are the upper- and lower-case forms of one ASCII letter |
| PathExt.EqualFold | internal/chartsec/scanner.go:102 | `strings.EqualFold`, folding ASCII letters only: two strings match exactly when they have the same length and, position by position, the characters are equal or are the upper- and lower-case forms of one ASCII letter; so 'M' matches 'm', and two different letters, or a letter and a non-letter, do not match |
| PathExt.ExtEqualsMd | internal/chartsec/scanner.go:102 | the filter condition `strings.EqualFold(filepath.Ext(name), ".md")` holds exactly when `IsMarkdown(name)` does, that is when the name ends in '.', then 'm' or 'M', then 'd' or 'D' |
| PathExt.IsMarkdownIff | internal/chartsec/scanner.go:102 | `EqualFold(Ext(name), ".md")` holds if and only if the name ends in '.', then 'm' or 'M', then 'd' or 'D'. This is the `IsMarkdown` test that the scanner uses |
| PathExt.FilterExamples | internal/chartsec/scanner.go:102 | `README.MD`, `a/b.x.md` and `docs/.md` are inspected; `notes.mdx`, `md` and `a.md/README` are not |
| Scanner.Inspect | internal/chartsec/scanner.go:100-122 | a non-`.md` entry never stops the scan; a `.md` entry whose content cannot be read gives an operational error naming the file; one whose content cleaning changes gives a `maliciousContent` violation, with the message naming the file and the diff of original to cleaned as context; otherwise the walk goes on |
| Scanner.Walk | internal/chartsec/scanner.go:92-125 | the walk succeeds if and only if the archive ends at EOF and every inspected entry reads and is unchanged by cleaning; it violates only the `maliciousContent` policy; its operational errors come only from the tar reader or from a file read; a tar error is reported exactly when every entry passed and the archive did not end cleanly |
| Scanner.Scan | internal/chartsec/scanner.go:52-126 | a `compressed-archive-size` violation happens exactly when the input is at least 10 MiB; a read error happens exactly when a shorter input fails; gzip is opened only on a clean input under the limit; an `uncompressed-archive-size` violation happens exactly when the decoded stream is at least 10 MiB, however small the input; a decompression error happens exactly when a shorter decoded stream fails; a tar header error happens exactly when both stages pass, every entry passes and the archive does not end cleanly; the result is `Ok` exactly when both stages pass, the archive ends at EOF and every inspected entry is unchanged; size violations say "chart is too large" and have an empty context |
| ScannerProperties.WalkStopsAtFirstFinding | internal/chartsec/scanner.go:111-120 | the walk returns the check of the first entry, in archive order, that does not pass |
| ScannerProperties.WalkIgnoresLaterEntries | internal/chartsec/scanner.go:92-123 | once a prefix of the archive holds an entry that does not pass, neither the later entries nor the way the archive ends change the result |
| ScannerProperties.WalkSkipsPassingPrefix | internal/chartsec/scanner.go:92-123 | entries that all pass have no effect on the result of the entries after them |
| ScannerProperties.WalkIgnoresNonMarkdown | internal/chartsec/scanner.go:102-122 | removing every non-`.md` entry from an archive does not change the walk's result |
| ScannerProperties.WalkReadsOnlyMarkdownContent | internal/chartsec/scanner.go:102-106 | two archives with the same names in the same order and the same `.md` contents scan alike, so the content of the other entries is never read |
| ScannerProperties.ScanWalksDecodedArchive | internal/chartsec/scanner.go:88-125 | once both size stages pass, the scan's result is the walk over the archive that the decompressed bytes decode to, so every later outcome (a tar error, a file read error, a content violation, or success) comes from the walk |
| ScannerProperties.ScanReportsFirstFinding | internal/chartsec/scanner.go:104-120 | once both size stages pass, the scan reports the first `.md` entry in archive order that cannot be read or that cleaning changes. An unreadable entry gives an operational error naming the file. A changed entry gives a `maliciousContent` violation whose message names the file and whose context is the diff |
| ScannerProperties.ScanAcceptsArchiveWithoutMarkdown | internal/chartsec/scanner.go:92-125 | an archive that passes both size stages, ends cleanly and has no `.md` entry is accepted, whatever its other entries contain |

## Left out

- The gzip and tar codecs are not modelled. They are foreign library code, so
  they appear as the `gunzip` and `untar` parameters. `untar` gives the
  entries that the tar reader's `Next` yields, plus how it stops.
- The bluemonday UGC policy and `html.UnescapeString` are not modelled. They
  are foreign, and their composition is the single deterministic `clean`
  parameter.
- `diffmatchpatch` patch generation is not modelled. It is foreign and appears
  as the `diff` parameter.
- `io.Reader` streaming is modelled as finite data plus an ending. An endless
  stream, such as a decompression bomb, is represented by any prefix at least
  as long as the limit, because the bounded copy never reads past the limit.
- The text that `errors.Wrap` adds is not modelled. An operational error keeps
  only the failing stage, the file name where there is one, and the
  collaborator's fault.
- The `gzr.Close()` call is not modelled, because it is resource handling with
  no effect on the result.
- `NewChartScanner` and the empty `ChartScanner` struct are not modelled,
  because they have no behaviour.
- PathExt.EqualFold folds only ASCII letters, while `strings.EqualFold` uses
  full Unicode simple folding. The only comparison made is with ".md", and no
  non-ASCII rune folds to '.', 'm' or 'd', so the filter is exact.
- PathExt.Ext uses '/' as the only path separator, as `filepath.Ext` does on
  Unix. On Windows '\\' would also end the scan.
- Entry names are modelled as sequences of runes. Tar header names are
  arbitrary Go byte strings and need not be valid UTF-8, and a sequence of
  runes cannot hold an invalid byte. The filter decision depends only on the
  final three bytes ('.', 'm' or 'M', 'd' or 'D', all ASCII), so it is not
  affected. The only thing not represented is an invalid name as quoted in
  the violation message and in `ExtractFile`.
- Scanning the same input twice gives the same result. This holds by
  construction, because `Scan` is a function of its input and of
  deterministic collaborators. No separate lemma states it.
