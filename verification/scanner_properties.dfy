/** Properties of the tar walk and of the whole scan that relate several
    entries or several archives: the first finding decides, later entries are
    never looked at, and entries that are not ".md" play no part. */
module ScannerProperties {
  import opened Streams
  import opened Codecs
  import opened PathExt
  import opened Scanner

  /** The walk's result is the check of the first entry, in archive order,
      that does not pass. */
  lemma {:induction false} WalkStopsAtFirstFinding(
    entries: seq<Entry>, tail: Ending, clean: seq<byte> -> seq<byte>,
    diff: (seq<byte>, seq<byte>) -> string, k: nat)
    requires k < |entries|
    requires forall i :: 0 <= i < k ==> Passes(entries[i], clean)
    requires !Passes(entries[k], clean)
    ensures Walk(entries, tail, clean, diff) == Inspect(entries[k], clean, diff)
    decreases k
  {
    if k > 0 {
      assert Passes(entries[0], clean);
      var rest := entries[1..];
      assert forall i :: 0 <= i < k - 1 ==> rest[i] == entries[i + 1];
      WalkStopsAtFirstFinding(rest, tail, clean, diff, k - 1);
    }
  }

  /** Once a prefix of the archive holds an entry that does not pass, nothing
      after that prefix matters: neither the later entries nor how the
      archive ends. */
  lemma {:induction false} WalkIgnoresLaterEntries(
    prefix: seq<Entry>, rest: seq<Entry>, tail: Ending, tail': Ending,
    clean: seq<byte> -> seq<byte>, diff: (seq<byte>, seq<byte>) -> string)
    requires !AllPass(prefix, clean)
    ensures Walk(prefix + rest, tail, clean, diff) == Walk(prefix, tail', clean, diff)
    decreases |prefix|
  {
    assert (prefix + rest)[0] == prefix[0];
    if Passes(prefix[0], clean) {
      assert (prefix + rest)[1..] == prefix[1..] + rest;
      assert !AllPass(prefix[1..], clean) by {
        var i :| 0 <= i < |prefix| && !Passes(prefix[i], clean);
        assert i > 0 && prefix[1..][i - 1] == prefix[i];
      }
      WalkIgnoresLaterEntries(prefix[1..], rest, tail, tail', clean, diff);
    }
  }

  /** A prefix in which every entry passes is walked past without effect. */
  lemma {:induction false} WalkSkipsPassingPrefix(
    prefix: seq<Entry>, rest: seq<Entry>, tail: Ending,
    clean: seq<byte> -> seq<byte>, diff: (seq<byte>, seq<byte>) -> string)
    requires AllPass(prefix, clean)
    ensures Walk(prefix + rest, tail, clean, diff) == Walk(rest, tail, clean, diff)
    decreases |prefix|
  {
    if |prefix| > 0 {
      assert (prefix + rest)[0] == prefix[0];
      assert Passes(prefix[0], clean);
      assert (prefix + rest)[1..] == prefix[1..] + rest;
      assert AllPass(prefix[1..], clean) by {
        forall i | 0 <= i < |prefix| - 1 ensures Passes(prefix[1..][i], clean) {
          assert prefix[1..][i] == prefix[i + 1];
        }
      }
      WalkSkipsPassingPrefix(prefix[1..], rest, tail, clean, diff);
    } else {
      assert prefix + rest == rest;
    }
  }

  /** The entries the filter selects, kept in archive order: the non-".md"
      entries are dropped and the others keep their relative order (the
      contract states only membership; the order is that of the body). */
  function MarkdownOnly(entries: seq<Entry>): (m: seq<Entry>)
    ensures |m| <= |entries|
    ensures forall i :: 0 <= i < |m| ==> IsMarkdown(m[i].name)
    ensures forall e :: e in m ==> e in entries
    ensures forall i :: 0 <= i < |entries| && IsMarkdown(entries[i].name) ==> entries[i] in m
    decreases |entries|
  {
    if |entries| == 0 then []
    else
      var rest := MarkdownOnly(entries[1..]);
      assert entries == [entries[0]] + entries[1..];
      if IsMarkdown(entries[0].name) then [entries[0]] + rest else rest
  }

  /** Entries that are not ".md" never influence the scan: dropping them all
      leaves the walk's result unchanged, whatever their content. */
  lemma {:induction false} WalkIgnoresNonMarkdown(
    entries: seq<Entry>, tail: Ending,
    clean: seq<byte> -> seq<byte>, diff: (seq<byte>, seq<byte>) -> string)
    ensures Walk(entries, tail, clean, diff) == Walk(MarkdownOnly(entries), tail, clean, diff)
    decreases |entries|
  {
    if |entries| > 0 {
      WalkIgnoresNonMarkdown(entries[1..], tail, clean, diff);
      var m := MarkdownOnly(entries[1..]);
      if IsMarkdown(entries[0].name) {
        assert MarkdownOnly(entries) == [entries[0]] + m;
        assert ([entries[0]] + m)[0] == entries[0];
        assert ([entries[0]] + m)[1..] == m;
      }
    }
  }

  /** Two archives whose entries have the same names in the same order, and
      the same content for every ".md" entry, scan alike: the content of the
      other entries is never read. */
  lemma {:induction false} WalkReadsOnlyMarkdownContent(
    entries: seq<Entry>, entries': seq<Entry>, tail: Ending,
    clean: seq<byte> -> seq<byte>, diff: (seq<byte>, seq<byte>) -> string)
    requires |entries| == |entries'|
    requires forall i :: 0 <= i < |entries| ==> entries[i].name == entries'[i].name
    requires forall i :: 0 <= i < |entries| && IsMarkdown(entries[i].name) ==> entries[i].body == entries'[i].body
    ensures Walk(entries, tail, clean, diff) == Walk(entries', tail, clean, diff)
    decreases |entries|
  {
    if |entries| > 0 {
      assert Inspect(entries[0], clean, diff) == Inspect(entries'[0], clean, diff);
      WalkReadsOnlyMarkdownContent(entries[1..], entries'[1..], tail, clean, diff);
    }
  }

  /** With both size stages passed, the scan is the walk over the archive
      the decompressed bytes decode to. */
  lemma ScanWalksDecodedArchive(input: Stream, c: Collaborators)
    requires CompressedPasses(input)
    requires c.gunzip(input.data).Decoded?
    requires UncompressedPasses(c.gunzip(input.data).value)
    ensures var archive := c.untar(c.gunzip(input.data).value.data);
      Scan(input, c) == Walk(archive.entries, archive.tail, c.clean, c.diff)
  {
  }

  /** With both size stages passed, the scan reports the first ".md" entry,
      in archive order, that cannot be read or that cleaning changes: a read
      failure as an operational error naming the file, a change as a
      `maliciousContent` violation naming the file and carrying the diff. */
  lemma ScanReportsFirstFinding(input: Stream, c: Collaborators, k: nat)
    requires CompressedPasses(input)
    requires c.gunzip(input.data).Decoded?
    requires UncompressedPasses(c.gunzip(input.data).value)
    requires k < |c.untar(c.gunzip(input.data).value.data).entries|
    requires forall i :: 0 <= i < k ==> Passes(c.untar(c.gunzip(input.data).value.data).entries[i], c.clean)
    requires !Passes(c.untar(c.gunzip(input.data).value.data).entries[k], c.clean)
    ensures var e := c.untar(c.gunzip(input.data).value.data).entries[k];
      && IsMarkdown(e.name)
      && (e.body.Corrupt? ==> Scan(input, c) == OpError(ExtractFile(e.name), e.body.fault))
      && (e.body.Decoded? ==> Scan(input, c) == Violation(
            MaliciousContentPolicy,
            MaliciousMessage(e.name),
            c.diff(e.body.value, c.clean(e.body.value))))
  {
    var archive := c.untar(c.gunzip(input.data).value.data);
    ScanWalksDecodedArchive(input, c);
    WalkStopsAtFirstFinding(archive.entries, archive.tail, c.clean, c.diff, k);
    var e := archive.entries[k];
    assert Scan(input, c) == Inspect(e, c.clean, c.diff);
  }

  /** An archive with no ".md" entry that passes both size stages and ends
      cleanly is accepted, whatever its other entries hold. */
  lemma ScanAcceptsArchiveWithoutMarkdown(input: Stream, c: Collaborators)
    requires CompressedPasses(input)
    requires c.gunzip(input.data).Decoded?
    requires UncompressedPasses(c.gunzip(input.data).value)
    requires c.untar(c.gunzip(input.data).value.data).tail == AtEof
    requires forall e :: e in c.untar(c.gunzip(input.data).value.data).entries ==> !IsMarkdown(e.name)
    ensures Scan(input, c) == Ok
  {
  }
}
