# Provenance runner: a verified model

Provenance runner takes leases from a gateway, runs the leased job in a measured worker, and reports
evidence about it.  This project models the stateful core of the runner in Dafny and proves what that core
is for.  It has four parts.

**Output.**  Job output may contain secrets.  `SecretPatterns` builds the sparse Aho-Corasick automaton in
place, `SecretRedactor` drives it with a ring buffer as long as the longest pattern and a list of merged
intervals, and both are proved against the plain specification in `Masking`: a position is masked exactly
if it lies inside an occurrence of a pattern in the whole stream.  Around the redactor stand the expansion of
secrets into patterns, the UTF-8 normalizer, the escape stripper, the line router (`LineRouter` is its
specification, `RawProcessor` the code), the line limiter and the two-stream bounded buffer.  `Capture` puts
them together, with `LineCuts` and `WholeRunes`: where each captured byte of both streams comes from, and why no
secret, of one line or several, is a copy.  Each specification that says byte by byte what a part writes is
also given a second time, from its result: `CodePoints` says valid text by the encodings of scalar values,
`EscapeSequences` gives the sequences by their form, `JsonDelimiters` the strings by their quotes, `MarkedRuns` and
`RoutedLines` the output by the masked runs and lines themselves, and `Insertions` says what else is in it.

**Lease protocol.**  `LeaseRunner` is the session and its journal as one class: a one-slot outbox with
acknowledgements, stale reissue, cancellation, expiry, start gating and restart recovery.  The gateway may
send anything.  Every journal write may fail, before the new file is in place or after it, with an error that
ends the process or one that only costs the session.  A crash keeps only what may be on disk.  A ghost history
records what happened; `LeaseHistory` says which entry may follow which history, `LeaseSafety.Run` proves it
of every run, and the lemmas after it read the promises off a safe history.  `LeaseRuns` holds runs from an
empty journal that reach the exceptions named there.

**Durable stores.**  `EvidenceDisk` is the restart evidence directory with every state a crash may leave;
`EvidenceQueue` is the same store under every interleaving of observers, flushes, the writer and a close, and
`EvidenceRuns` says what it has seen in terms of the observations alone;
`CredentialRotation` is the four-step exchange of the connection credential.

**Local framing and locking.**  `ControlChannel`, `StartFraming` and `ResultProtocol` are the packets
between the worker and the root service.  `CacheLocks` and `CacheStore` are the artifact cache's lock per key
and its byte quota.

Conventions: a hash is an arbitrary function, and no injectivity is assumed.  Time is an integer.  What the
environment decides (whether a write succeeds, how much of it arrives, whether somebody cancels) is a
nondeterministic value in a method; a constant `healthy`, or `trouble` where one particular failure matters,
says what of the kind goes wrong, for the clauses about what must then happen.  `images` is the set of states
a crash may leave on disk.

## Where the code does less than one may expect

- `drainDeferred` (internal/gatewayclient/supervisor.go:1102-1113) does not return if the outbox slot is
  empty, the active lease carries a cancellation id without a command digest and a result is deferred: the
  result is deferred again each time it is taken out.  `DrainRound` proves that each round leaves the state as
  it was, `DrainDeferred` that the loop fails to return in exactly these states, and `DrainNeverReturns` is a run
  without any failure that gets there: a heartbeat reconciliation announces a cancellation before the start event
  is acknowledged, as internal/gatewayclient/supervisor.go:628-634 allows.
- A failed journal write need not end the process: an error such as too many open files counts as transient
  (internal/gatewayclient/client.go:775-777), and if the directory cannot be opened for its sync the new journal is
  already in place and in memory (internal/gatewayclient/journal.go:422-429).  The handlers return before they have
  answered the start callback or dropped what belongs to the lease.  So a start can be granted after its
  cancellation was written (`GrantedAfterCancellation`), and a deferred result of one lease can end the next
  one (`OldResultEndsNextLease`).  `NothingStartsAfterCancellation` and `OwnWorkerUnlessLeftBehind` say which
  runs these are, and `ResultFromOwnWorker` that in all others a lease is ended only by the result of its own worker;
  `NoGrantAfterSyncedCancellation` says that no start is granted after a cancellation where every write is synced or ends
  the process.
- A terminal reconciliation of the active lease (internal/gatewayclient/supervisor.go:609-627) also removes a
  pending rejection of another offer, which then is neither acknowledged nor replayed.  `OneUnacknowledged` names
  this way out of the slot, `TerminateWithPending` proves that no other event of another lease goes with it, and
  `RejectionLost` is a run without any failure in which a rejection is lost.
- A cache entry whose temporary name stays behind, because the process stopped after the link or because the
  removal failed unnoticed (internal/artifact/cache.go:143), is counted twice.  The bytes on disk still keep the quota; the
  walked total keeps it if and only if twice the entry fits (`LeftoverCounted`), and beyond it the cache takes
  nothing more (`LeftoverBlocksCache`).
- A pattern that is not in the text can appear in what is captured, free of anything inserted, in three ways:
  structured lines between its parts were routed away (`RoutingJoinsLines`), the end of a malformed line was left out without a marker, which takes
  a pattern that cuts a rune (`MalformedLineJoins`), or the total limit put up to three bytes of a new line directly after
  a cut (`TruncationJoinsText`).  `PatternsOverlapInCapture` proves that there is no fourth, and `ValidStreamsOverlap`
  that on valid streams without a prefix only the last is possible.
- A secret written after an unfinished control sequence loses its beginning to that sequence, and the rest is not
  masked (`EscapeTakesBeginning`).  `WrittenSecretIsMasked` proves that a valid secret without escapes is searched whole
  if and only if the stripper lets its first byte pass.
- The escape stripper loses a line end exactly if it directly follows an escape inside an operating system
  command (`NewlinesSurvive`).
- A dropped evidence entry fails the store for good exactly if the writer still has a check to come:
  `DroppedEntryFailsStore` in one direction, `LateDropGoesUnnoticed` in the other.  On an open store it always
  has.  A flush of a closed store returns without waiting for the writer (`ClosedFlushDoesNotWait`).
- Recording a credential rotation does not check that it follows the committed one, while the check at the
  next start does.  `RecordNeedsSuccessor` gives the exact condition, and `RepeatedRotationRefused` an example: a
  completed rotation that is sent once more.
- The normalizer's output depends on how malformed input is cut into writes, exactly when a cut falls inside
  a malformed group (`CutMattersWhenSevered`, `CutsMatterWhenSevered`).

## Model

| member | source | states |
|---|---|---|
| `Suffixes.LongestSuffixIsLongest` | internal/evidence/redaction.go:63-106 | the specification of a match state: the longest suffix of a text that a dictionary holds is a suffix, is in the dictionary, and no longer one is |
| `Suffixes.LongestSuffixStep` | internal/evidence/redaction.go:139-142 | what reading one more byte does to that suffix: the longest fallback that can be extended, or nothing; this is what makes the fallback loop right |
| `Suffixes.LongestSuffixOfSubset` | internal/evidence/redaction.go:86-92 | the longest pattern ending at a node is a suffix of what the node stands for, so match lengths can be inherited along failure links |
| `SecretPatterns.DistinctPatterns` | internal/evidence/redaction.go:47-59 | the compiled set is exactly the nonempty variants, each once |
| `SecretPatterns.Pigeonhole` | internal/evidence/redaction.go:78-95 | a list of distinct node numbers is no longer than the number of nodes: the breadth-first queue is finite |
| `SecretPatterns.SecretPatterns.Transition` | internal/evidence/redaction.go:99-106 | walking the edge chain finds the child that spells the longer word, or 0 exactly if the trie has no such word |
| `SecretPatterns.SecretPatterns.AddChild` | internal/evidence/redaction.go:68-73 | one new node and edge at the head of a chain; every other word, failure link and match length stays |
| `SecretPatterns.SecretPatterns.Insert` | internal/evidence/redaction.go:64-77 | after inserting a pattern the trie spells it, each node knows whether its own word is a pattern, and at most one node per byte was added |
| `SecretPatterns.SecretPatterns.Follow` | internal/evidence/redaction.go:86-90 | following failure links ends, at the node of the longest suffix of the extended word that the trie spells |
| `SecretPatterns.SecretPatterns.LinkChild` | internal/evidence/redaction.go:85-92 | a child gets the failure link and the match length that its word requires, and no other node changes |
| `SecretPatterns.ShallowNodesQueued` | internal/evidence/redaction.go:78-95 | breadth first: when a node is taken from the queue, every node that is no deeper is already queued |
| `SecretPatterns.AllNodesQueued` | internal/evidence/redaction.go:78-95 | at the end every node other than the root has been queued, so none is left without links |
| `SecretPatterns.SecretPatterns.LinkFailures` | internal/evidence/redaction.go:78-95 | every failure link is the longest proper suffix the trie spells, and every match length is that of the longest pattern ending there; the walk terminates |
| `SecretPatterns.CompileSecrets` | internal/evidence/redaction.go:53-97 | refuses exactly the pattern sets beyond the limits; otherwise a valid automaton for exactly the given set, with at most one node per pattern byte plus the root |
| `Masking.LongestMatchesMask` | internal/evidence/redaction.go:145-152 | the longest match at each end masks exactly the positions that lie inside any occurrence of any pattern |
| `Masking.MaskedExtension` | internal/evidence/redaction.go:145-152 | one more byte masks exactly the positions of the longest match that ends there |
| `Masking.MaskedIsStable` | internal/evidence/redaction.go:153-156 | a position further back than the longest pattern is decided: the rest of the stream cannot change it |
| `SecretRedactor.Merge` | internal/evidence/redaction.go:146-151 | merging keeps the intervals in order and apart, and covers exactly the old positions and the new match |
| `SecretRedactor.DropPassed` | internal/evidence/redaction.go:166-168 | dropping finished intervals changes nothing about the positions still to report |
| `SecretRedactor.FirstIntervalDecides` | internal/evidence/redaction.go:166-169 | the first interval alone decides whether the next position is masked |
| `SecretRedactor.RingSlotsDiffer` | internal/evidence/redaction.go:143-155 | two positions less than one ring apart never share a slot, so no unreported byte is overwritten |
| `SecretRedactor.SecretRedactor.NextState` | internal/evidence/redaction.go:138-145 | after any bytes, the state is the longest suffix in the trie and its match length is that of the longest pattern that ends here |
| `SecretRedactor.SecretRedactor.RecordMatch` | internal/evidence/redaction.go:145-152 | the intervals cover exactly the unreported positions that are masked in the stream so far |
| `SecretRedactor.SecretRedactor.ReadByte` | internal/evidence/redaction.go:137-152 | one byte joins the stream; the ring, the intervals and every report stay right |
| `SecretRedactor.SecretRedactor.EmitNext` | internal/evidence/redaction.go:165-186 | the oldest byte held back is reported, with its final masking status |
| `SecretRedactor.SecretRedactor.Write` | internal/evidence/redaction.go:128-157 | any chunk extends the stream; every report made so far is final and less than one pattern length is held back |
| `SecretRedactor.SecretRedactor.Finish` | internal/evidence/redaction.go:159-163 | every position of the stream has been reported exactly once, in order, masked exactly if it lies inside an occurrence of a pattern |
| `Emission.PatternsOverlapMarkers` | internal/evidence/structured_redaction.go:11-22 | any occurrence of a pattern in the rendered output overlaps a redaction marker |
| `Emission.RenderingIsTraced` | internal/evidence/redaction.go:165-186 | outside markers the output is runs of consecutive unmasked bytes of the input |
| `MarkedRuns.PiecesCounted` | internal/evidence/redaction.go:165-186 | the bytes written as they are are exactly the unmasked ones, in order, and there are as many markers as maximal masked runs |
| `MarkedRuns.RunIsOneMarker` | internal/evidence/redaction.go:165-186 | each maximal masked run is one whole marker, directly after the byte before the run and directly before the byte after it |
| `MarkedRuns.UnmaskedIsRendered` | internal/evidence/redaction.go:165-186 | each unmasked byte is in the output as itself |
| `MarkedRuns.NothingElse` | internal/evidence/redaction.go:165-186 | every byte of the output is one of these |
| `Emission.Redact` | internal/evidence/redaction.go:53-186 | compile a pattern set, write in any chunks, finish: the result is the mask of the whole stream with each run collapsed, however it was split |
| `SecretVariants.Expand` | internal/evidence/redaction.go:37-51 | the forms of one secret: itself, cleaned, and encoded in every way that is looked for, and nothing else |
| `SecretVariants.ExpandAll` | internal/evidence/redaction.go:29-51 | all forms of all secrets, although repeated secrets are skipped |
| `SecretVariants.CompileAll` | internal/evidence/redaction.go:29-97 | the patterns of a job are exactly the nonempty forms of its secrets, within the limits |
| `SecretVariants.WrittenSecretIsMasked` | internal/evidence/processor.go:28-71 | a secret that is valid text without escapes, after any bytes at all: what it adds to the searched text, that this is the whole secret if and only if the stripper lets its first byte pass, and that then every byte of it is masked |
| `SecretVariants.EscapeTakesBeginning` | internal/evidence/processor.go:234-293 | an example: after an unfinished control sequence the beginning of a secret is lost and the rest comes out unmasked |
| `LineRouter.RawStep` | internal/evidence/processor.go:156-165 | one raw byte extends the raw output by itself, by one marker, or by nothing inside a masked run |
| `LineRouter.StructuredStep` | internal/evidence/processor.go:94-154 | one structured byte extends its own line and nothing else |
| `LineRouter.OutputStable` | internal/evidence/processor.go:94-154 | what has been handed on for decided lines does not depend on later bytes |
| `JsonStrings.UnsafeJsonStep` | internal/evidence/processor.go:133-147 | the running verdict on a structured line is whether a masked byte lies outside a JSON string body |
| `JsonDelimiters.DelimitersExist` | internal/evidence/structured_redaction.go:96-121 | every text has its delimiting quotes: those that no odd number of backslashes inside a string directly precedes |
| `JsonDelimiters.BodyIsBetween` | internal/evidence/processor.go:133-147 | a position is string body if and only if it lies strictly between two delimiters that pair up, or after a last one without a partner |
| `JsonDelimiters.UnsafeExactly` | internal/evidence/structured_redaction.go:96-121 | a payload is unsafe if and only if something masked is not there |
| `JsonDelimiters.MaskedOutside` | internal/evidence/structured_redaction.go:101-113 | anything masked before the first delimiter, between two strings or at a delimiter makes it unsafe |
| `RawProcessor.RawProcessor.RouteByte` | internal/evidence/processor.go:94-154 | one reported byte goes to the limiter of its line, with everything routed so far still exact |
| `RawProcessor.RawProcessor.RouteMatched` | internal/evidence/processor.go:94-154 | routing of any reported bytes: a line goes wholly to one limiter, decided by its prefix |
| `RawProcessor.RawProcessor.AcceptProbe` | internal/evidence/processor.go:110-124 | a complete prefix turns the line into a structured one, with the masking of its first bytes kept |
| `RawProcessor.RawProcessor.FlushProbe` | internal/evidence/processor.go:103-109 | a failed prefix gives its bytes back to the raw line, in order |
| `RawProcessor.RawProcessor.EmitMatchedRaw` | internal/evidence/processor.go:156-165 | the raw limiter gets unmasked bytes verbatim and one marker per maximal masked run |
| `RawProcessor.RawProcessor.Finish` | internal/evidence/processor.go:73-90 | the raw output is exactly the raw lines of the stream, and each structured line is offered with its verdict |
| `RoutedLines.RawIsPlaced` | internal/evidence/processor.go:94-165 | in the raw text each unmasked byte of a raw line is there as itself, and each masked run as one whole marker where it first touches a raw line |
| `RoutedLines.NothingElseRaw` | internal/evidence/processor.go:94-165 | every byte of the raw text is one of these |
| `RoutedLines.LineIsListed` | internal/evidence/processor.go:94-154 | each line end of a line with the prefix lists that line, whole and with its verdict, after those that ended before |
| `RoutedLines.NothingElseListed` | internal/evidence/processor.go:73-90 | after them comes only the line the stream ends in, if it has the prefix |
| `StructuredRedaction.ProcessStream` | internal/evidence/processor.go:73-165 | from the cleaned text in any chunks to both limiters: the raw pieces and the structured lines of the masked stream, however it was split |
| `StructuredRedaction.SanitizeString` | internal/evidence/structured_redaction.go:11-22 | the result is the normalized and stripped value with each masked run replaced by one marker; unchanged exactly if the value was clean before and nothing in it is masked |
| `StructuredRedaction.UnsafeSerializedJson` | internal/evidence/structured_redaction.go:96-121 | unsafe exactly if a masked byte of the payload lies neither between two delimiting quotes that pair up nor after a last one without a partner |
| `AnsiStripper.Stripper.Write` | internal/evidence/processor.go:234-293 | one write goes through the sequence states byte by byte and hands on exactly what passes |
| `AnsiStripper.StrippedConcat` | internal/evidence/processor.go:234-293 | it does not matter how a text is cut into writes |
| `AnsiStripper.StripStream` | internal/evidence/processor.go:217-297 | for every chunking no escape comes out, and a stream without escapes comes out unchanged |
| `EscapeSequences.SequencesRemoved` | internal/evidence/processor.go:234-293 | however a text falls into plain bytes, whole escape sequences, sequences broken off by a line end, and an unfinished rest, exactly the plain bytes and those line ends are handed on |
| `EscapeSequences.FallsApart` | internal/evidence/processor.go:234-293 | and every text falls apart in this way |
| `AnsiStripper.StrippedTwice` | internal/evidence/processor.go:234-293 | stripping twice is stripping once |
| `AnsiStripper.HandedOnWhole` | internal/evidence/processor.go:234-293 | in any state, text without escapes is handed on whole if and only if its first byte is |
| `AnsiStripper.NewlinesSurvive` | internal/evidence/processor.go:276-291 | no line end is lost, if and only if none directly follows an escape inside an operating system command |
| `AnsiStripper.NewlineSwallowed` | internal/evidence/processor.go:286-291 | an example of four bytes in which the line end is lost |
| `Utf8Normalizer.NormalizeStream` | internal/evidence/processor.go:167-216 | for every chunking the output is valid UTF-8, valid UTF-8 comes out unchanged, and the output is that of one write of the whole if and only if no cut falls inside a malformed group |
| `Utf8Normalizer.Normalizer.Write` | internal/evidence/processor.go:172-192 | one write emits what the bytes in hand decide and keeps an unfinished rune |
| `Utf8Normalizer.InvalidSequenceSize` | internal/evidence/processor.go:194-209 | the loop drops the leading byte and the continuation bytes after it, as many as it announces and are in hand, and no fewer |
| `Utf8Normalizer.EmittedIsValid` | internal/evidence/processor.go:172-192 | whatever the bytes, what is emitted is valid UTF-8 |
| `CodePoints.EncodingIsRune` | internal/evidence/processor.go:183-190 | the encoding of every Unicode scalar value, by division and remainder, is taken as one rune whatever follows |
| `CodePoints.RuneIsEncoding` | internal/evidence/processor.go:183-190 | every rune is the encoding of a scalar value |
| `CodePoints.RuneIsOneEncoding` | internal/evidence/processor.go:183-190 | and of only one |
| `CodePoints.ValidIsEncoded` | internal/evidence/processor.go:183-190 | a text is valid if and only if it is a concatenation of encodings of scalar values |
| `CodePoints.WaitsForEncoding` | internal/evidence/processor.go:178-181 | the normalizer waits if and only if it has nothing or the beginning of an encoding without its end |
| `CodePoints.NormalizedExactly` | internal/evidence/processor.go:172-209 | on any bytes: what is written and kept is exactly what falls out of the groups, each encoding as it is and each malformed group as one replacement |
| `Utf8Normalizer.WholeBefore` | internal/evidence/processor.go:172-209 | before a byte that continues no rune, text is normalized as if it ended there: an unfinished rune becomes one replacement |
| `Utf8Normalizer.CutMattersWhenSevered` | internal/evidence/processor.go:172-209 | on any bytes, one cut changes the output if and only if it falls inside a malformed group; what is kept never depends on the cut |
| `Utf8Normalizer.CutsMatterWhenSevered` | internal/evidence/processor.go:172-209 | the same for any number of cuts: each cut inside a group makes the output longer, and nothing makes up for it |
| `Utf8Normalizer.ValidIsNeverSevered` | internal/evidence/processor.go:172-192 | in a beginning of valid text no cut falls inside such a group |
| `Utf8Normalizer.MalformedDependsOnCut` | internal/evidence/processor.go:172-209 | an example: three malformed bytes give one replacement or two, depending on the cut |
| `LineLimiter.LineLimiter.Write` | internal/evidence/processor.go:307-325 | after any writes, one line has been handed on for each complete line, rendered as it should be |
| `LineLimiter.LineLimiter.Flush` | internal/evidence/processor.go:333-350 | a line is handed on as the longest valid text within the limit, a marker exactly if bytes were left out, and its newline |
| `LineLimiter.LimitLines` | internal/evidence/processor.go:299-350 | for every way of writing a stream: one line handed on per line, in order, each with its own truncation, partial and redaction marks |
| `LineLimiter.RenderedIsSafe` | internal/evidence/processor.go:333-350 | every line handed on is valid UTF-8 and bounded; a valid line within the limit is handed on verbatim |
| `LineLimiter.LinesRejoin` | internal/evidence/processor.go:307-325 | the lines of a text, joined by newlines, are the text |
| `LineLimiter.TouchedExactly` | internal/evidence/processor.go:307-311 | a line is marked as redacted if and only if a redacted write begins in it |
| `BoundedOutput.BoundedOutput.Append` | internal/evidence/collector.go:261-276 | a piece that fits is appended exactly; the first that does not fit starts the overflow; later pieces change nothing |
| `BoundedOutput.BoundedOutput.TruncateTotal` | internal/evidence/collector.go:278-296 | the tail metadata always frees enough room for the marker; a new piece fills the room left, with at most three bytes if something had to go |
| `BoundedOutput.BoundedOutput.RemoveTail` | internal/evidence/collector.go:326-338 | bytes come off newest first: exactly the newest bytes leave the record, and each stream loses its own part of them |
| `BoundedOutput.BoundedOutput.TrackTail` | internal/evidence/collector.go:307-324 | the metadata covers the last bytes captured, as many as the marker needs or all there are |
| `BoundedOutput.BoundedOutput.ConsumeTail` | internal/evidence/collector.go:340-351 | metadata of removed bytes is removed with them |
| `BoundedOutput.BoundedOutput.TruncateStream` | internal/evidence/collector.go:353-368 | a stream is cut to a valid prefix, and the metadata follows |
| `BoundedOutput.BoundedOutput.OverflowAppend` | internal/evidence/collector.go:261-296 | at the overflow: a prefix of the history, as much of the new piece as there is room for, and the marker, within the maximum |
| `BoundedOutput.CollectOutput` | internal/evidence/collector.go:261-368 | for every sequence of valid appends: both streams exact before the overflow, as promised at it, unchanged after it, with at most three bytes of the limit unused by cutting runes |
| `BoundedOutput.ConsumedTwice` | internal/evidence/collector.go:340-351 | taking bytes off the record in several rounds is taking them off at once |
| `Capture.RawIsExcerpt` | internal/evidence/processor.go:156-165 | every byte for the raw limiter is part of a marker or a copy of an unmasked byte, line ends included; between two neighbouring copies nothing is missing except lines that were routed away |
| `Capture.RawPatternsOverlap` | internal/evidence/processor.go:94-165 | in the raw output any occurrence of any pattern, with or without newlines, overlaps a marker or spans a place where structured lines were routed away; without a prefix it always overlaps a marker |
| `Capture.JumpsOverSomething` | internal/evidence/processor.go:94-154 | wherever two neighbouring copies were apart in the text, everything between them was routed away or is the end of a line that is not valid text |
| `Capture.NeverJumps` | internal/evidence/processor.go:94-154 | without a prefix, and with valid lines, there is no such place |
| `LineCuts.LinesAt` | internal/evidence/processor.go:307-325 | where each line of a text begins: its bytes are there and end at a newline or at the end |
| `LineCuts.RecordLine` | internal/evidence/collector.go:219-253 | a line within the limit is recorded as it is; a longer one as the longest valid text within the limit, marked as cut |
| `LineCuts.LineIsSliced` | internal/evidence/processor.go:333-350 | after both limits a recorded line is a beginning of its line, inserted markers, and the line end that was in the text |
| `LineCuts.LinesAreSliced` | internal/evidence/processor.go:333-350 | so all recorded lines together are copies in order and insertions; if every line is valid, neighbouring copies were neighbours |
| `WholeRunes.RuneIsWhole` | internal/evidence/redaction.go:145-152 | in valid text under valid patterns a rune is masked as a whole or not at all |
| `WholeRunes.RawIsValid` | internal/evidence/processor.go:156-165 | so the raw output is valid text |
| `WholeRunes.ValidTextIsWellFormed` | internal/evidence/processor.go:333-350 | and every line of it is, so that none is cut short without a marker |
| `Capture.EmitStream` | internal/evidence/collector.go:196-231 | from the cleaned text in any chunks to the recorded lines |
| `Capture.StreamIsExcerpt` | internal/evidence/collector.go:196-231 | the recorded lines of a whole stream consist of copies of unmasked bytes, line ends included, and of insertions |
| `Insertions.RawIsNoted` | internal/evidence/processor.go:156-165 | in the raw text every byte that is not a copy belongs to a redaction marker, which is there from its first byte on |
| `Insertions.CopyIsTraced` | internal/evidence/processor.go:156-165 | every unmasked byte of a raw line is traced to itself |
| `Insertions.LineIsNoted` | internal/evidence/processor.go:333-350 | after both limits every byte of a line that is not a copy belongs to a redaction or truncation marker |
| `Insertions.StreamIsNoted` | internal/evidence/collector.go:196-253 | so in everything recorded of a stream nothing is inserted but markers, or beginnings of them where a limit cuts |
| `Capture.CapturedCut` | internal/evidence/collector.go:261-296 | however the two streams interleave, what is captured of one is a beginning of its recorded lines, perhaps up to three later bytes, and the marker |
| `Capture.PatternsOverlapInsertions` | internal/evidence/processor.go:94-165 | any occurrence of any pattern in copies and insertions overlaps an insertion or spans a place where something is missing: it is never a copy |
| `Capture.NoPatternSurvives` | internal/evidence/collector.go:261-296 | the same in what is captured, for any pattern, unless it reaches over the one gap that the total limit can leave |
| `Capture.PatternsOverlapInCapture` | internal/evidence/collector.go:196-296 | for every pattern, every stream and every interleaving: every captured byte is accounted for, and a pattern overlaps an insertion, spans a place where something was routed away or left out of a malformed line, or reaches over the gap; without a prefix and with valid lines only the first and the last |
| `Capture.ValidStreamsOverlap` | internal/evidence/collector.go:196-296 | on a stream without a prefix, with valid text and valid patterns, a pattern of any number of lines overlaps an insertion or reaches over the gap |
| `Capture.Interleave` | internal/evidence/collector.go:219-276 | the recorded lines of two streams, in any order that keeps the order of each |
| `Capture.CollectStreams` | internal/evidence/processor.go:28-90 | the whole way of both streams: from configured secrets and written chunks to what is captured of stdout and stderr, with every form of every secret |
| `Capture.RoutingJoinsLines` | internal/evidence/processor.go:94-154 | an example: a pattern of two lines appears in the raw output although it is not in the text, because a structured line was routed away |
| `Capture.TruncationJoinsText` | internal/evidence/collector.go:278-338 | an example: a pattern that is not in the text is captured, overlaps no insertion and reaches over the gap |
| `Capture.MalformedLineJoins` | internal/evidence/processor.go:333-350 | an example: a pattern that is half a rune leaves a malformed line, whose end goes without a marker, and another pattern appears |
| `Utf8.TrimToValid` | internal/evidence/collector.go:353-368 | cutting bytes one by one ends at the longest valid prefix |
| `Utf8.CutLosesLittle` | internal/evidence/collector.go:353-368 | a cut anywhere in valid text is at most three bytes away from a valid prefix |
| `LeaseRunner.Runner.Update` | internal/gatewayclient/journal.go:332-351 | an update is committed and synced, or refused and the run ends; a failed write ends the run or only the session, with the old state in memory, or with the new one in memory and either on disk; a failed callback leaves its writes in memory |
| `LeaseRunner.Runner.NextMessage` | internal/gatewayclient/journal.go:353-364 | a message id is new, and it is committed before it is used |
| `LeaseRunner.Runner.QueueDurable` | internal/gatewayclient/supervisor.go:257-307 | an event enters an empty outbox slot in the same commit as its effect on the lease, under the next id, and is sent; if only the session is lost the journal has nothing of it, its id, or all of it |
| `LeaseRunner.Runner.ReplayPending` | internal/gatewayclient/supervisor.go:309-319 | exactly the event in the slot is sent, as it is in the journal, and nothing else |
| `LeaseRunner.Runner.HandleOffer` | internal/gatewayclient/supervisor.go:141-241 | an eligible offer to a free runner becomes the lease, with its identity, expiry and message, and its acceptance pending; any other offer changes no lease |
| `LeaseRunner.Runner.RejectOffer` | internal/gatewayclient/supervisor.go:243-255 | a rejection takes the empty outbox slot and leaves the lease alone |
| `LeaseRunner.Runner.AcceptLease` | internal/gatewayclient/supervisor.go:211-241 | the lease and its acceptance event are journalled in one commit, under an acceptance that no earlier one of the run has, and the event is sent |
| `LeaseRunner.Runner.WriteAcceptance` | internal/gatewayclient/supervisor.go:211-241 | the acceptance enters the history before its write, with the journal, workers and drain it found, whatever becomes of the write |
| `LeaseRunner.Runner.ClearPendingAcknowledged` | internal/gatewayclient/supervisor.go:527-537 | the slot is cleared only after the acknowledgement of exactly its event |
| `LeaseRunner.Runner.HandleEventAcknowledgement` | internal/gatewayclient/supervisor.go:321-474 | only an acknowledgement of the pending event, or of one settled in this session, does not end the run; the pending one leaves the slot, and a lease that goes on, after a renewal as after any other event, has the later of both expiries and the announced cancellation |
| `LeaseRunner.Runner.SettleCancelling` | internal/gatewayclient/supervisor.go:357-374 | an acknowledgement that announces a cancellation records it on the lease it belongs to |
| `LeaseRunner.Runner.SettleOrdinary` | internal/gatewayclient/supervisor.go:392-474 | a stale event is reissued unchanged under the next id, unless the network authority of a job that goes on has just ended; an applied one goes on as far as it can, a rejection is settled; nothing older stays in the slot |
| `LeaseRunner.Runner.ProceedAfter` | internal/gatewayclient/supervisor.go:415-470 | an applied acceptance leads to preparing, applied preparing starts the worker, applied start grants its own callback |
| `LeaseRunner.Runner.ReissueStaleEvent` | internal/gatewayclient/supervisor.go:476-525 | a stale event is queued again with the same content under the next id |
| `LeaseRunner.Runner.HandleSettledEventAcknowledgement` | internal/gatewayclient/supervisor.go:539-593 | a repeated acknowledgement must fit what was settled |
| `LeaseRunner.Runner.ApplyLateReconciliation` | internal/gatewayclient/supervisor.go:595-640 | a reconciliation of the active lease ends it or updates it; of any other lease it changes nothing |
| `LeaseRunner.Runner.TerminateLease` | internal/gatewayclient/supervisor.go:609-627 | only a terminal reconciliation of exactly the active identity clears the lease; what the process keeps of it goes too once the write is synced, and is left behind exactly if the write is in place but failed |
| `LeaseRunner.Runner.UpdateJob` | internal/gatewayclient/supervisor.go:642-676 | the lease becomes a later version of itself; a waiting start callback is answered only after the write succeeded, and an unsynced cancellation with a waiting callback is noted |
| `LeaseRunner.Runner.ApplyAuthoritativeReconciliation` | internal/gatewayclient/supervisor.go:642-676 | the later of both expiries, the phase of the gateway if it is specified and no lower, the announced cancellation, and everything else of the lease unchanged; a conflicting cancellation is refused |
| `LeaseRunner.Runner.HandleCancellation` | internal/gatewayclient/supervisor.go:898-943 | a command for the active lease makes it cancelling with this id, digest and deadline and changes nothing else of it, and no start answer is left open; a repetition must be identical |
| `LeaseRunner.Runner.Advance` | internal/gatewayclient/supervisor.go:945-997 | a cancelled lease gets its cancellation event, an expired one its failure, and neither a start answer; one with no more than half of its time left gets its renewal, and any other is left alone |
| `LeaseRunner.Runner.HandleStartCall` | internal/gatewayclient/supervisor.go:1041-1071 | a start call queues its own start event and waits; on a cancelled lease it is refused |
| `LeaseRunner.Runner.HandleResult` | internal/gatewayclient/supervisor.go:1026-1098 | a result becomes the terminal event, or waits for the cancellation command; a failed cleanup makes the process drain |
| `LeaseRunner.Runner.DrainDeferred` | internal/gatewayclient/supervisor.go:1102-1113 | the loop does not return if and only if the slot is empty, the lease waits for its cancellation command and a result is deferred |
| `LeaseRunner.Runner.DrainRound` | internal/gatewayclient/supervisor.go:1102-1113 | one round takes the oldest deferred event and handles it; in that state it succeeds, the journal stays and the state is the same again |
| `LeaseRunner.Runner.DrainRounds` | internal/gatewayclient/supervisor.go:1102-1113 | so after any number of rounds another one is due |
| `LeaseRunner.Runner.StartWorker` | internal/gatewayclient/supervisor.go:1405-1492 | the worker starts only for an acceptance of this process that never started, is not cancelled and was not found after a restart |
| `LeaseRunner.Runner.CompleteStartResponse` | internal/gatewayclient/supervisor.go:1543-1551 | a start answer is a success only for the very call whose event was acknowledged as active and running |
| `LeaseRunner.Runner.QueuePreparing` | internal/gatewayclient/supervisor.go:999-1008 | the lease goes to preparing in the same commit as the event |
| `LeaseRunner.Runner.QueueResult` | internal/gatewayclient/supervisor.go:1166-1238 | a terminal event of the active lease, or an error that ends the run |
| `LeaseRunner.Runner.ReportResult` | internal/gatewayclient/supervisor.go:1073-1098 | a result that becomes an event is recorded first, with the lease in the journal and the workers that execute |
| `LeaseRunner.Runner.QueueRestartFailure` | internal/gatewayclient/supervisor.go:1294-1341 | a recovered lease only ever gets a failure event |
| `LeaseRunner.Runner.SendHeartbeat` | internal/gatewayclient/supervisor.go:847-896 | an unacknowledged heartbeat is repeated unchanged; lease and slot are untouched |
| `LeaseRunner.Runner.NewHeartbeat` | internal/gatewayclient/supervisor.go:847-896 | a heartbeat lists the active lease exactly if the slot is empty |
| `LeaseRunner.Runner.HandleHeartbeatAcknowledgement` | internal/gatewayclient/supervisor.go:678-722 | the acknowledged heartbeat is forgotten, and the lease is what the reconciliations of the listed leases make of it, one after the other; one that goes on has the later of both expiries |
| `LeaseRunner.Runner.ReconcileAll` | internal/gatewayclient/supervisor.go:694-708 | each reconciliation must be valid and for the lease at its place, and they apply in order |
| `LeaseRunner.Runner.Connect` | internal/gatewayclient/client.go:284-420 | a new session changes neither the lease nor the pending event, and sends that event |
| `LeaseRunner.Runner.Restart` | internal/gatewayclient/client.go:157-214 | a new process takes over what the disk holds; a lease found there is recovering |
| `LeaseTypes.ReconciledGrows` | internal/gatewayclient/supervisor.go:642-676 | a reconciliation never lowers the expiry, keeps it equal to the specification, and never changes a recorded cancellation |
| `LeaseTypes.ReconciledTakesOver` | internal/gatewayclient/supervisor.go:642-676 | field by field what a reconciliation makes of a lease; its expiry is one of the two and no earlier than either |
| `LeaseTypes.CancelledByGrows` | internal/gatewayclient/supervisor.go:898-943 | a cancellation command only adds to the lease |
| `LeaseSafety.Receive` | internal/gatewayclient/supervisor.go:98-139 | whatever the gateway sends, the runner stays within the protocol |
| `LeaseSafety.Run` | internal/gatewayclient/supervisor.go:98-1555 | every run from an empty journal, with any messages, clock, reconnects, restarts, and writes that end the process, the session or nothing, has a safe history, whose last journals are exactly those in memory and on disk |
| `LeaseSafety.AtMostOneStart` | internal/gatewayclient/supervisor.go:1405-1455 | a worker starts only for the lease in the journal, and two starts are never for the same acceptance |
| `LeaseSafety.NeverStartedAfterRestart` | internal/gatewayclient/client.go:211-213 | a lease in the journal that a restart took over is never started and never granted its start |
| `LeaseSafety.StartedOnlyAfterPreparing` | internal/gatewayclient/supervisor.go:427-437 | a worker starts only after the preparing event of the lease in the journal was acknowledged as applied, active and preparing |
| `LeaseSafety.NothingStartsAfterCancellation` | internal/gatewayclient/supervisor.go:898-952 | once a cancellation is in the journal, synced or not, the worker is not started; its start is granted only if a cancellation was written unsynced while the callback waited |
| `LeaseSafety.UnansweredAfterUnsyncedWrite` | internal/gatewayclient/supervisor.go:930-943 | a waiting callback is passed over only by an unsynced write of the cancellation |
| `LeaseSafety.NoGrantAfterSyncedCancellation` | internal/gatewayclient/supervisor.go:898-952 | where every journal write is synced or ends the process, no start is granted after a cancellation |
| `LeaseSafety.OwnWorkerUnlessLeftBehind` | internal/gatewayclient/supervisor.go:438-446 | unless a lease was ended by an unsynced write with something of it in memory, a granted start has its own worker and an offer is accepted with no worker left |
| `LeaseSafety.ResultFromOwnWorker` | internal/gatewayclient/supervisor.go:1026-1098 | a result is only used for the lease in the journal; unless something was left behind, the worker of that very lease was started since the last restart and no worker executes any more |
| `LeaseSafety.CompletedOnlyByResult` | internal/gatewayclient/supervisor.go:1166-1238 | a completion is journalled only for a lease for which a result was used |
| `LeaseSafety.LeftBehindAfterUnsyncedWrite` | internal/gatewayclient/supervisor.go:609-627 | something is left behind only by an unsynced write that ended the lease of the journal, after that lease was reconciled terminal |
| `LeaseSafety.GrantedOnlyAfterOwnAcknowledgement` | internal/gatewayclient/supervisor.go:438-446 | the start callback succeeds only after its own event, of the lease in the journal, was acknowledged as applied, active and running |
| `LeaseSafety.MessageIdsIncrease` | internal/gatewayclient/journal.go:353-364 | message ids strictly increase across crashes and failed writes |
| `LeaseSafety.SentIdsWereTaken` | internal/gatewayclient/supervisor.go:257-307 | an event is sent only under an id that was taken before, from a counter that every journal a crash may leave has reached |
| `LeaseSafety.AcknowledgedIdsWereTaken` | internal/gatewayclient/supervisor.go:321-356 | an event is acknowledged only after its id was taken |
| `LeaseSafety.ReplayedUnchanged` | internal/gatewayclient/supervisor.go:309-319 | the same id always carries the same event |
| `LeaseSafety.OutboxStep` | internal/gatewayclient/supervisor.go:257-319 | every step keeps each sent event in the slot of every crash image, or gone for good below the id in it |
| `LeaseSafety.OneUnacknowledged` | internal/gatewayclient/supervisor.go:257-319 | never two unacknowledged events: before another one is sent, the earlier was acknowledged or left with its terminated lease, and ids go up |
| `LeaseSafety.NeverSentAgain` | internal/gatewayclient/supervisor.go:309-319 | an event that was followed by another one is never sent again, over all reconnects and restarts |
| `LeaseSafety.LeaseOnlyGrows` | internal/gatewayclient/supervisor.go:642-676 | from a synced journal to every later one of the same lease, synced, only written or found after a restart: expiry never falls and equals the specification, cancelling exactly with an id, and neither id nor digest ever changes |
| `LeaseSafety.ClearedOnlyForCause` | internal/gatewayclient/supervisor.go:595-627 | a write drops the lease only after a valid reconciliation with terminal status of exactly its identity, made while it was in the journal, and the event in the slot only after its own acknowledgement by id and identity or together with that lease; a new event only enters an empty slot |
| `LeaseSafety.AcceptedOnlyWhenIdle` | internal/gatewayclient/supervisor.go:141-241 | every write that brings a lease into the journal, synced or not, directly follows its acceptance, made with no lease, no worker, an empty slot and no drain on top of exactly the journal before |
| `LeaseSafety.EveryLeaseWasAccepted` | internal/gatewayclient/supervisor.go:141-241 | every lease in any journal of a run, also one that was only written or that a restart found, was accepted by an idle runner |
| `LeaseSafety.NoOfferAfterFailedCleanup` | internal/gatewayclient/supervisor.go:1026-1033 | after a failed cleanup no lease enters the journal before a restart |
| `LeaseSafety.TerminateWithPending` | internal/gatewayclient/supervisor.go:609-627 | a terminal reconciliation empties the slot; the event that goes belongs to that lease unless it rejects another offer |
| `LeaseRuns.DrainNeverReturns` | internal/gatewayclient/supervisor.go:1102-1113 | a run in which nothing fails ends in the loop that does not return |
| `LeaseRuns.GrantedAfterCancellation` | internal/gatewayclient/supervisor.go:898-943 | a run with one failed sync grants a start after its cancellation was written |
| `LeaseRuns.OldResultEndsNextLease` | internal/gatewayclient/supervisor.go:609-627 | a run with one failed sync ends a lease with the result of the one before it, while its own worker runs |
| `LeaseRuns.RejectionLost` | internal/gatewayclient/supervisor.go:609-627 | a run in which nothing fails: a rejection is sent, the active lease ends by a heartbeat reconciliation, and the slot is empty without an acknowledgement |
| `EvidenceDisk.LoadExactly` | internal/gatewayclient/restart_evidence.go:229-277 | a load gives a version if and only if the metadata describes it and both files begin with it |
| `EvidenceDisk.RecoveryNeverFails` | internal/gatewayclient/restart_evidence.go:649-714 | a directory that holds a described version always loads as that version, whatever uncommitted bytes follow |
| `EvidenceDisk.TruncationKeepsLoad` | internal/gatewayclient/restart_evidence.go:681-714 | cutting off the uncommitted suffix changes nothing about what a load gives |
| `EvidenceDisk.LoadStore` | internal/gatewayclient/restart_evidence.go:229-277 | without a file error the load succeeds exactly on acceptable directories; a crash between its own steps changes nothing |
| `EvidenceDisk.AppendingRecovers` | internal/gatewayclient/restart_evidence.go:353-374 | with any part of new bytes written, the directory still loads as the old version |
| `EvidenceDisk.AppendedDescribes` | internal/gatewayclient/restart_evidence.go:375-388 | the new metadata describes exactly the longer stream, within the bound |
| `EvidenceDisk.EvidenceStore.PersistMetadata` | internal/gatewayclient/restart_evidence.go:775-812 | the metadata is replaced whole or not at all, perhaps without being known to be |
| `EvidenceDisk.EvidenceStore.Append` | internal/gatewayclient/restart_evidence.go:353-388 | whatever happens and whenever a crash comes, the directory loads as the version before or after; without a fault it succeeds exactly if the log stays within its bound |
| `EvidenceDisk.EvidenceStore.ApplyBatch` | internal/gatewayclient/restart_evidence.go:323-350 | a batch is committed whole or fails the store for good; a failed store changes nothing; an overflow commits nothing; the redaction mark is set exactly if redacted bytes were added |
| `EvidenceDisk.EvidenceStore.Fail` | internal/gatewayclient/restart_evidence.go:437-444 | a failure is remembered, and every crash image still loads |
| `EvidenceDisk.EvidenceStore.RecordUsage` | internal/gatewayclient/restart_evidence.go:336-346 | usage only grows, a negative one is an error, and no byte is touched |
| `EvidenceDisk.EvidenceStore.WriteCompleteLog` | internal/gatewayclient/restart_evidence.go:579-615 | the archive is both sections of the committed streams, and its size is the one the bound was checked for |
| `EvidenceDisk.LogHoldsStreams` | internal/gatewayclient/restart_evidence.go:579-615 | each stream is in the log as it is, under its own header at the beginning of a line, stdout first, and the log ends with a line end |
| `EvidenceDisk.EvidenceStore.Snapshot` | internal/gatewayclient/restart_evidence.go:537-577 | what it gives is the complete log of the committed bytes, exactly if both files hold nothing else; files that fail the check belong to a store that has failed already |
| `EvidenceQueue.Buffers.Enqueue` | internal/gatewayclient/restart_evidence.go:461-502 | an observation is buffered, or dropped with the overflow mark set, and the writer is woken at most once |
| `EvidenceQueue.Buffers.TakePending` | internal/gatewayclient/restart_evidence.go:303-322 | the writer takes everything pending at once |
| `EvidenceQueue.ApplyPending` | internal/gatewayclient/restart_evidence.go:303-351 | one round of the writer on the real store is a run of the take, check and write steps; bytes, redaction mark and usage in the metadata are those of the model |
| `EvidenceQueue.EnqueuedLosesNothing` | internal/gatewayclient/restart_evidence.go:461-502 | an observation that does not set the mark is in the buffer, after everything observed before it |
| `EvidenceQueue.InvariantStep` | internal/gatewayclient/restart_evidence.go:292-535 | every step of any thread keeps the invariant |
| `EvidenceQueue.RunKeepsInvariant` | internal/gatewayclient/restart_evidence.go:292-535 | the invariant holds after every interleaving |
| `EvidenceQueue.CommittedIsPrefix` | internal/gatewayclient/restart_evidence.go:292-351 | under every interleaving each committed stream is a prefix of the bytes observed on it |
| `EvidenceQueue.FlushCommitsEverything` | internal/gatewayclient/restart_evidence.go:504-519 | a flush that succeeds on an open store has committed every byte, redaction mark and usage report observed before it |
| `EvidenceQueue.TakeSnapshot` | internal/gatewayclient/restart_evidence.go:537-577 | a snapshot at any reachable moment after its flush is the complete log of streams that begin with everything the flush of an open store had seen and hold nothing that was not observed, with its redaction mark and usage; a store that has not failed and has usage gives one |
| `EvidenceRuns.SeenIsObserved` | internal/gatewayclient/restart_evidence.go:446-502 | over the observations of any run: both streams are their data in order, the marks are whether any was redacted, and the processor time is the highest reported one |
| `EvidenceRuns.TicketAsked` | internal/gatewayclient/restart_evidence.go:504-519 | a flush keeps what had been observed when it was asked for, and knows whether the store was closed before |
| `EvidenceRuns.SnapshotOfRun` | internal/gatewayclient/restart_evidence.go:537-577 | a snapshot in terms of the observations alone: every byte, mark and processor time observed before its flush was asked for on an open store, and no byte, mark or processor time that was not observed |
| `EvidenceQueue.CreateStore` | internal/gatewayclient/restart_evidence.go:178-227 | a new store on disk agrees with the empty model |
| `EvidenceQueue.CloseCommitsEverything` | internal/gatewayclient/restart_evidence.go:521-535 | a store that closed without failing holds everything observed if and only if no entry came after the last check |
| `EvidenceQueue.DroppedEntryFailsStore` | internal/gatewayclient/restart_evidence.go:461-502 | an entry dropped before the last check fails the store for good, and no flush of the open store asked for later succeeds |
| `EvidenceQueue.OpenStoreChecksAgain` | internal/gatewayclient/restart_evidence.go:292-351 | on an open store there is always a check to come |
| `EvidenceQueue.LateDropGoesUnnoticed` | internal/gatewayclient/restart_evidence.go:461-467 | after the last check every entry is dropped, and the store can end without failing |
| `EvidenceQueue.ClosedFlushDoesNotWait` | internal/gatewayclient/restart_evidence.go:504-519 | a flush of a closed store can succeed with nothing committed |
| `CredentialRotation.BoundIsAccepted` | internal/gatewayclient/journal.go:284-321 | a bound journal and credential pass the load-time check until something in them expires |
| `CredentialRotation.RecordedIsBound` | internal/gatewayclient/credential_rotation.go:42-57 | recording a valid successor keeps the old credential bound and binds the new one; it is refused exactly if another rotation is in progress |
| `CredentialRotation.PersistedIsBound` | internal/gatewayclient/credential_rotation.go:62-79 | committing after the file was replaced is always valid and binds the new credential |
| `CredentialRotation.ReconciledIsBound` | internal/gatewayclient/credential_rotation.go:147-175 | clearing after authentication is always valid before expiry and keeps the credential bound |
| `CredentialRotation.CredentialClient.UpdateJournal` | internal/gatewayclient/journal.go:332-351 | an invalid journal is never written; a valid one is, perhaps without being known to be |
| `CredentialRotation.CredentialClient.HandleRotation` | internal/gatewayclient/credential_rotation.go:20-98 | a valid request that does not conflict is never refused, and commits exactly the requested credential with its id and lifetime; after any fault or kill everything on disk is bound |
| `CredentialRotation.CredentialClient.ReconcileAfterAuthentication` | internal/gatewayclient/credential_rotation.go:147-175 | the rotation is cleared with exactly its credential committed; it is refused only after expiry |
| `CredentialRotation.CredentialClient.Restart` | internal/gatewayclient/config.go:100-114 | the next start accepts whatever a crash left, until something in it expires |
| `CredentialRotation.Run` | internal/gatewayclient/credential_rotation.go:20-175 | over any requests, authentications, faults and crashes at non-decreasing times: while rotations follow in order, every crash image is a valid journal with an accepted credential |
| `CredentialRotation.RecordNeedsSuccessor` | internal/gatewayclient/journal.go:284-330 | a recorded rotation beside a committed credential is accepted if and only if it is a valid successor |
| `CredentialRotation.RepeatedRotationRefused` | internal/gatewayclient/journal.go:295-330 | recording a completed rotation once more turns an accepted directory into a refused one |
| `ControlChannel.BigEndianDecodes` | internal/controlchannel/channel_linux.go:165-167 | numbers come back from their bytes |
| `ControlChannel.BigEndianIsCanonical` | internal/controlchannel/channel_linux.go:253-266 | bytes come back from their number |
| `ControlChannel.BigEndianDigit` | internal/controlchannel/channel_linux.go:165-167 | the most significant byte comes first |
| `ControlChannel.HeaderFields` | internal/controlchannel/channel_linux.go:162-168 | where each field of the header is |
| `ControlChannel.EncodeDecodes` | internal/controlchannel/channel_linux.go:162-266 | decoding a sent packet gives it back |
| `ControlChannel.DecodeIsCanonical` | internal/controlchannel/channel_linux.go:253-266 | every accepted message is the encoding of the packet it is taken for |
| `ControlChannel.Channel.Send` | internal/controlchannel/channel_linux.go:129-182 | a packet goes out only with the next sequence number and within bounds; anything else closes the channel |
| `ControlChannel.Channel.Receive` | internal/controlchannel/channel_linux.go:184-271 | a packet comes in only with the next sequence number and in the right form; anything else closes the channel |
| `StartFraming.ChunksConcat` | internal/controlchannel/start_linux.go:56-69 | after full pieces the rest is cut as if it stood alone |
| `StartFraming.ParseHeaderExactly` | internal/controlchannel/start_linux.go:131-141 | a header parses to two numbers if and only if it is the header made of them |
| `StartFraming.SendStart` | internal/controlchannel/start_linux.go:33-71 | sends exactly the packets of the request, as the first thing on the channel; out of bounds it sends nothing |
| `StartFraming.ReceivePayload` | internal/controlchannel/start_linux.go:142-149 | full chunks only, until the announced length is reached |
| `StartFraming.ReceiveFiles` | internal/controlchannel/start_linux.go:150-157 | full batches only, until the announced count is reached |
| `StartFraming.ReceiveStart` | internal/controlchannel/start_linux.go:88-158 | what is accepted is exactly what the other end sends for the returned values, and everything it sends within bounds is accepted; probes stand alone |
| `StartFraming.StartRoundTrip` | internal/controlchannel/start_linux.go:33-158 | every request within bounds comes back unchanged, with the same last sequence number |
| `ResultProtocol.CompletionExactly` | internal/controlchannel/result_stream_linux.go:36-45 | a payload decodes to a completion if and only if it is its encoding |
| `ResultProtocol.RootSender.SendLocked` | internal/measuredservice/sender_linux.go:44-50 | packets go out with consecutive sequence numbers, and none after the completion |
| `ResultProtocol.RootSender.Progress` | internal/measuredservice/sender_linux.go:52-60 | a keepalive belongs to the current phase |
| `ResultProtocol.RootSender.Observe` | internal/measuredservice/sender_linux.go:62-73 | the observation goes out once |
| `ResultProtocol.RootSender.Relay` | internal/measuredservice/sender_linux.go:75-82 | results go out only after the observation |
| `ResultProtocol.RootSender.Complete` | internal/measuredservice/sender_linux.go:84-93 | the completion ends the conversation, sent or not |
| `ResultProtocol.RunSender` | internal/measuredservice/sender_linux.go:13-93 | any interleaving of calls sends consecutive packets: preparing, then one observation, then results, then a completion; on a working channel exactly what the calls amount to |
| `ResultProtocol.ObservationDivides` | internal/measuredservice/sender_linux.go:52-73 | what calls amount to: the first observation, the keepalives before it and the relay phase after it |
| `ResultProtocol.RelayedInOrder` | internal/measuredservice/sender_linux.go:75-93 | up to the first completion each relayed result goes out in its place, and nothing after that |
| `ResultProtocol.AwaitRootObservation` | internal/controlchannel/root_observation_linux.go:43-98 | accepts at most 512 empty keepalives and then a nonempty observation, and every such beginning |
| `ResultProtocol.ResultStream.TakePacket` | internal/controlchannel/result_stream_linux.go:123-153 | a packet within the bounds joins the results or is the completion; anything else fails the stream |
| `ResultProtocol.ResultStream.Read` | internal/controlchannel/result_stream_linux.go:102-158 | a read delivers the next bytes of the results in order; the end comes only after a completion and after every byte |
| `ResultProtocol.ResultStream.Receipt` | internal/controlchannel/result_stream_linux.go:86-92 | the receipt is the decoded completion, and there is none without it |
| `ResultProtocol.ResultStream.ReadAll` | internal/controlchannel/result_stream_linux.go:102-158 | reading in any sizes gives exactly the concatenated results of a conversation within bounds |
| `ResultProtocol.Session` | internal/measuredservice/sender_linux.go:44-93 | sender and client together: for every interleaving of calls that amounts to a complete conversation within bounds, the client gets its observation, exactly its bytes, and its completion |
| `CacheLocks.LockTable.Enter` | internal/artifact/cache.go:273-285 | a thread becomes a user of the one lock of its key |
| `CacheLocks.LockTable.TakeToken` | internal/artifact/cache.go:287-301 | a waiting thread takes a token that is there |
| `CacheLocks.LockTable.Cancel` | internal/artifact/cache.go:288-290 | a cancelled thread leaves without the token |
| `CacheLocks.LockTable.ReturnToken` | internal/artifact/cache.go:292-295 | the holder puts the token back |
| `CacheLocks.LockTable.Release` | internal/artifact/cache.go:304-311 | the last user takes exactly its own lock off the map, never a newer one |
| `CacheLocks.MutualExclusion` | internal/artifact/cache.go:273-302 | at most one thread holds a key |
| `CacheLocks.MapHoldsUsedKeys` | internal/artifact/cache.go:273-311 | the map holds exactly the keys with users |
| `CacheLocks.RunSchedule` | internal/artifact/cache.go:273-311 | both hold after every interleaving of acquirers and cancellations |
| `CacheStore.VerifyingWriter.Write` | internal/artifact/cache.go:405-431 | bytes written, counted and hashed agree, never exceed the maximum, and an error is final |
| `CacheStore.Cache.CurrentBytes` | internal/artifact/cache.go:208-237 | the walk gives the total, or refuses exactly if it is beyond the quota |
| `CacheStore.Cache.ExistingEntry` | internal/artifact/cache.go:239-266 | an entry is returned only if its content has the expected digest and size |
| `CacheStore.Cache.Acquire` | internal/artifact/cache.go:101-206 | nothing stored changes, only verified content is published or returned; a request adds nothing, a temporary file, an entry, or an entry with its temporary name, within the room there was; unless files fail an absent artifact is stored exactly if its source delivers it within the quota |
| `CacheStore.Cache.Publish` | internal/artifact/cache.go:184-206 | the entry is a second name of the temporary file, whose own name goes if its removal works |
| `CacheStore.LeftoverCounted` | internal/artifact/cache.go:208-237 | an entry whose temporary name stays is counted twice: the walked total is within the quota if and only if twice its size fits |
| `CacheStore.GrowthKeepsQuota` | internal/artifact/cache.go:101-206 | whatever a request adds, the bytes on disk are within the quota; only a leftover name can put the walked total beyond it, by at most one entry |
| `CacheStore.RunRequests` | internal/artifact/cache.go:90-206 | over any requests and failures the bytes on disk never exceed the quota, and once the walked total does nothing is added any more |
| `CacheStore.LeftoverBlocksCache` | internal/artifact/cache.go:135-237 | one artifact of more than half the quota and one failed removal: every later request for another artifact is refused |

## Left out

- Encodings: protobuf, JSON, gzip and base64 are not modelled; messages, journals and metadata are datatypes.
- Secret encodings: the base64 and hexadecimal forms of a secret are arbitrary functions of it.
- Event recording: counters, live sinks, snapshots, the complete archive and the structured event decoder behind the limiters are not modelled.
- Offer validation, timestamps and identifiers: one verdict per offer or message, given as an input.
- Network authority, uploads and the contents of terminal evidence: nondeterministic results where the lease protocol branches on them.
- EvidenceDisk.EvidenceStore.Snapshot: the archive is the text that is compressed; the hash and size of the compressed file are not modelled.
- EvidenceQueue.Buffers.Enqueue: that an observer never waits is the form of the model, in which an observation is one step that is always possible.
- Liveness: the lease model states safety only; several protocol conflicts end the run on purpose.
- The journal's credential part is modelled apart from its lease part; the two never touch the same fields.
- Crash images of the lease journal are whole states, because the file is replaced by a rename.
- Resource usage of a job is its CPU time alone in the restart evidence; the other counters are merged in the same way.
- Creation and removal of the evidence directory: only the store on an existing directory is modelled.
- Descriptors: a file that crosses the control channel is a value; that refused files are closed is not stated.
- Peer authentication and deadlines of the control channel are part of the constant `healthy`.
- Other processes that write into the artifact cache: the directory changes only through the cache.
- The cache's quota lock is held over a whole acquisition, so an acquisition is one method and not a schedule of steps.
- Enrollment, configuration, providers, provisioning scripts and the command line: mostly single checks over host state.
- SecretPatterns.CompileSecrets: takes the expanded forms of the secrets; `SecretVariants.CompileAll` adds the expansion.
- Emission.Redact: takes the expanded forms, and the text behind the normalizer and the stripper; `Capture.CollectStreams` goes the whole way.
- StructuredRedaction.ProcessStream: starts behind the normalizer and the stripper, and ends before the limiters; `Capture.EmitStream` adds these, and `Capture.CollectStreams` goes the whole way.
- SecretVariants.WrittenSecretIsMasked: a secret that is not valid text, or has escapes in it, is found only in its cleaned or encoded forms; nothing is stated about where those begin.
- CredentialRotation.CredentialClient.ReconcileAfterAuthentication: a runner with an identity key file; without one the rotation is cleared without any check, because nothing is bound.
- LeaseRunner.Runner.Connect: states what a new session keeps and that it sends the pending event, not the order of its other messages.
- LeaseRunner.Runner.SettleOrdinary: whether the network authority of a job has just ended is a nondeterministic value, told to the caller.
- LeaseRunner.Runner.QueueResult: leaves open which terminal event it is, because that depends on the evidence upload.
