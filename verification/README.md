# Verified model of clipy-si-core

clipy-si-core holds the decisions that every ClipySi shell shares. This project models its three parts that
carry the most state, arithmetic and branching, and proves what they promise together.

**Sync** (`Clock`, `ClockRuns`, `Merge`, `Recopy`, `Retention`, `Vault`, `Rejoin`, `Scenario`, `Delivery`,
`RunClocks`, `SkewBound`). Devices share one vault folder and no server. Stamps come from a Hybrid Logical Clock,
deletions are tombstones that always win, old tombstones are collected, and a device that was away decides about
the rows it no longer finds. The functions are pure, so the model is functions and lemmas. `Merge` folds the
merge rule over a device's tables. `Vault` is a state machine over capture, delete, session, collection, join,
time, lost record files and stale record files; `Scenario` is the opening that its concrete runs share. The main
results:

- In every run a deleted record is never written back, and no device shows it after its next session, as long as every
  clock stays within 30 hours of real time. The bound is exact: at 30 hours and one millisecond there is a
  run that resurrects a record (`SkewBound.DeletionSafeExactly`).
- In every run, while nobody deletes a record and the provider does not lose its file, the file stays, no device deletes
  it, and every device that shows its row keeps showing it (`Vault.NothingLost`). A device that has
  not applied the record, and neither knows nor is about to pull a tombstone of its content as new as it, shows
  the content after its next session, unless it was away too long and drops, in that same session, the row that
  suppressed the insert
  (`Delivery.DeliveredExactly` is the exact condition). Then the record is never shown there
  (`Delivery.SuppressedForGood`), and a run with perfect clocks does this
  (`Delivery.ReturningDeviceMissesRecopy`).
- In every run, a row that both folders have lost is written back by a device that last appeared at most thirty days
  before, by its own clock, and deleted by any other (`Rejoin.RejoinExactly`).
- The result of a tombstones-first pull is given without mentioning any order, and the exact condition under
  which a tombstone and a record do not commute is stated (`Merge.SwapExactly`).
- A published stamp beats everything in its causal past, on any number of devices, if and only if nothing in that
  past was published from the exhausted clock (`ClockRuns.CausalAtExactly`); devices it never heard from do not
  matter. A skewed device can push another clock ahead only by a stated amount.
- A vault run's clocks are those of its clock log (`RunClocks.RunAgrees`), so in every run a content that is
  captured again by a device that knew its tombstones beats them all, and reaches the other devices exactly as
  above (`RunClocks.RecopyDelivered`), and what a deleter knew of a content is covered by its tombstone
  (`RunClocks.WipeCoversInRun`).

**Records** (`Utf8`, `Canonical`, `Records`). The body layout is a length-prefixed writer with a cursor
reader. Both are imperative and proved equal to a layout function and a parser, which are then proved to be
exact inverses, and decoding is proved to accept exactly the documented byte layout (`Canonical.DecodesLayout`).
The envelope and the sealed body are built on them.

**Redaction** (`Entropy`, `Overlaps`, `Detector`). The scan, the overlap resolution and the offset conversion
are loops, proved against functions and then against statements about maximal runs, kept spans and scalars.

`Base` holds the machine integers and the growable buffer that the writers append to.

## Choices

- A Rust `String` is the sequence of its Unicode scalar values; its bytes are its UTF-8 encoding by RFC 3629.
- `len() as u32` truncates modulo 2^32, `saturating_add` clamps. The two unchecked multiplications by 1000 in
  `gc_eligible` wrap modulo 2^64 as release builds do; debug builds panic there.
- `checked_add` on `usize` in the reader needs no case of its own: a sum that overflowed would lie past the end
  of the buffer, and both give the same error.
- A UUID is its bytes; the node tie-break compares them lexicographically.
- Shannon entropy is computed over the reals from exact counts; the binary logarithm is a parameter.
- The functions that the shell executes are outside the repository. `Merge.Execute` and `Vault.Step` have the
  effects that the comments on `MergeAction`, `LocalState` and `RejoinAction` promise. A row dropped by
  `DeleteLocally` is marked deleted with no tombstone stamp. A local capture of content that is already live
  makes no new record (a bump is local-only).
- What `Vault` assumes of its surroundings: sessions are atomic; record ids are fresh; deleting removes the
  record file; a stale record file may come back only while its tombstone exists, and is gone again when the
  tombstone is collected; nobody tampers with `tombs/`; readings are unix times, not before 1970. The
  provider may lose any record file. The presence list given to collection is arbitrary.

## Where the code and its comments differ

- `hlc_next` is described as monotonic. It is, except at the single stamp (i64::MAX, u32::MAX), from which it
  goes backwards (`Clock.HlcNextAdvances`).
- `gc_eligible` is described as waiting for every fresh device to have synced after the tombstone. That check
  never decides for times that convert to milliseconds: RETENTION > STALE already implies it
  (`Retention.GcIsAgeTest`). It can only block on a presence so far in the future that its conversion
  overflows (`Retention.GcExactly`).
- A tombstone envelope with trailing bytes decodes (`Records.DecodeEncodedWithExtra`), so decoding and
  re-encoding need not give the same bytes (`Records.ReencodeExactly`).
- `gc_eligible` wraps past i64::MAX / 1000 seconds; up to there, and for unix times no further, it is the age
  test (`Retention.AgeTestExactly`).
- `encode_plaintext` writes plaintexts that `decode_plaintext` does not read back: those over 4096
  representations or with a length past u32::MAX (`Canonical.RoundTripExactly`,
  `Canonical.SurplusRepresentationsRefused`).
- A re-copy is described as surviving once the tombstone has been applied. If it arrives while the deleted row
  still shows the content, it is suppressed, stays applied, and goes when the row goes
  (`Merge.RecopyDependsOnOrder`, `Recopy.RecopyStaysExactly`). Within one tombstones-first pull the listing
  order does not matter (`Merge.PullConverges`).
- Reported offsets are clamped at u32::MAX; they are exact for the matches that end by there and for no other
  (`Detector.ReportedOffsetsExact`).

## Model

| member | source | states |
|---|---|---|
| Clock.CompareBytesLexicographic | crates/clipy-si-core/src/sync/mod.rs:44 | node bytes compare as less exactly when the first position where they differ has the smaller byte, or the shorter ends there |
| Clock.HlcCompareTotal | crates/clipy-si-core/src/sync/mod.rs:38-45 | the stamp order is total: only equal stamps compare equal, it is antisymmetric and transitive |
| Clock.HlcCompareExactly | crates/clipy-si-core/src/sync/mod.rs:38-45 | a stamp is before another exactly by earlier wall, then smaller counter, then the node with the smaller byte at the first difference; node 1 is before node 2 |
| Clock.HlcNextAdvances | crates/clipy-si-core/src/sync/mod.rs:47-78 | a new stamp beats the previous one, for any reading, exactly when that is not (i64::MAX, u32::MAX); from that one it goes backwards |
| Clock.HlcNextIsLeast | crates/clipy-si-core/src/sync/mod.rs:49-78 | the new stamp is the least that beats the previous one and is not older than the reading |
| Clock.HlcNextCoversNow | crates/clipy-si-core/src/sync/mod.rs:49-78 | an issued stamp's wall is never before the reading, and its node is the issuer |
| Clock.HlcReceiveDominates | crates/clipy-si-core/src/sync/mod.rs:80-114 | receiving never falls behind the local clock, the reading, or an unclamped remote; it strictly passes the local clock, and likewise an unclamped remote, exactly unless a saturated counter at the resulting wall stops it; a clamped remote that is ahead of the local clock stays ahead of the result |
| Clock.HlcReceiveTakesClamped | crates/clipy-si-core/src/sync/mod.rs:80-114 | clamped or not, receiving moves the wall to the largest of the reading, the local wall and the remote wall cut at 86 400 000 ms past the reading, and dominates the remote stamp with that wall, strictly unless a saturated counter stops it |
| Clock.HlcReceiveIsLeast | crates/clipy-si-core/src/sync/mod.rs:84-114 | any stamp that beats the local clock and the clamped remote and is not before the reading is at least the received clock |
| ClockRuns.PoisoningBounded | crates/clipy-si-core/src/sync/mod.rs:32-114 | against arbitrary remote stamps a clock's wall stays within the device's largest reading plus the drift allowance plus one millisecond per counter rollover |
| ClockRuns.ClockCoversReadings | crates/clipy-si-core/src/sync/mod.rs:49-114 | in every run a device's wall never falls behind a stamp it held or a reading it took |
| ClockRuns.ClockMonotone | crates/clipy-si-core/src/sync/mod.rs:47-114 | over any interleaving of devices a clock never falls behind a value it has held, unless that same device publishes from the exhausted clock in between |
| ClockRuns.CausalOrder | crates/clipy-si-core/src/sync/mod.rs:38-114 | along every chain of local events and unclamped messages, across any number of devices, the stamp published at its end is strictly greater than every stamp before it, if nothing in its causal past, itself included, published from the exhausted clock |
| ClockRuns.CausalAtExactly | crates/clipy-si-core/src/sync/mod.rs:38-114 | a publication beats everything that causally precedes it if and only if nothing in its causal past, itself included, published from the exhausted clock |
| ClockRuns.CausalExactly | crates/clipy-si-core/src/sync/mod.rs:38-114 | every chain that ends in a publication is strictly increasing if and only if no device publishes from the exhausted clock |
| ClockRuns.InRangeNeverExhausted | crates/clipy-si-core/src/sync/mod.rs:57-69 | readings below i64::MAX by the drift allowance and one millisecond per event exhaust no clock |
| ClockRuns.PublishBeatsReceived | crates/clipy-si-core/src/sync/mod.rs:80-114 | a publication causally after receiving a stamp unclamped, wherever that stamp came from, beats it, if nothing in its causal past, itself included, published from the exhausted clock |
| ClockRuns.StampsDistinct | crates/clipy-si-core/src/sync/mod.rs:38-78 | two publications never share a stamp on two devices, nor on one device that does not publish from the exhausted clock after the first of them |
| ClockRuns.ExhaustedStampsEqual | crates/clipy-si-core/src/sync/mod.rs:59-69 | any two publications of one device from the exhausted clock carry the same stamp |
| ClockRuns.ExhaustedStampsCollide | crates/clipy-si-core/src/sync/mod.rs:59-69 | a run in which one publication from the exhausted clock already repeats an earlier stamp |
| Merge.NewestDecides | crates/clipy-si-core/src/sync/mod.rs:129-131 | comparing a record with the newest tombstone of its content is comparing it with all of them |
| Merge.DecisionExactly | crates/clipy-si-core/src/sync/mod.rs:152-178 | which action is chosen, in terms of the tables: Skip for an applied id whose tombstone is no news, ApplyTombstone and RecordTombstoneOnly for a tombstone that is, ApplyRemote exactly for an unknown live record newer than every tombstone of its content and shown by no row |
| Merge.DeleteStateOrderFree | crates/clipy-si-core/src/sync/mod.rs:118-178 | any envelopes in any order with repeats: applied and deleted are exactly the unions, no old row returns, and no content becomes live twice |
| Merge.ReplayChangesNothing | crates/clipy-si-core/src/sync/mod.rs:155-162 | an envelope already processed changes nothing |
| Merge.DeletedStaysDeleted | crates/clipy-si-core/src/sync/mod.rs:13-16 | once an id's tombstone is known, nothing that arrives later makes it live |
| Merge.PullOneTombstone | crates/clipy-si-core/src/sync/mod.rs:137-165 | a tombstone's effect on the tables, whether its id was live, unknown or already deleted |
| Merge.PullOneRecord | crates/clipy-si-core/src/sync/mod.rs:166-177 | a live record adds its content exactly when it is not applied and newer than every tombstone of the content; rows stay |
| Merge.PullResult | crates/clipy-si-core/src/sync/mod.rs:13-18 | the tables and live contents after a tombstones-first pull, stated without any order |
| Merge.PullConverges | crates/clipy-si-core/src/sync/mod.rs:152-178 | two devices in one state that list the same folder in different orders end with the same delete state, tombstones and contents |
| Merge.RowAdded | crates/clipy-si-core/src/sync/mod.rs:166-177 | a live record adds its own row exactly when it is news and its content is not shown |
| Merge.SwapExactly | crates/clipy-si-core/src/sync/mod.rs:152-178 | from any state a tombstone and a record give the same tables in both orders, exactly unless a stated condition on the state before holds; the same condition is exact for the live contents alone |
| Merge.CoveredRecordDependsOnOrder | crates/clipy-si-core/src/sync/mod.rs:167-171 | the first failing family: a covered record taken in before its content's unknown tombstone stays live |
| Merge.RecopyDependsOnOrder | crates/clipy-si-core/src/sync/mod.rs:172-176 | the second failing family: a newer record suppressed by the row about to be deleted is lost, whatever follows |
| Merge.ContentStaysExactly | crates/clipy-si-core/src/sync/mod.rs:134-178 | while nothing new of a content arrives it is shown exactly as long as the tombstone of its row has not come |
| Recopy.RecopySurvives | crates/clipy-si-core/src/sync/mod.rs:9-11 | a record published knowing all tombstones of its content that a device knows is inserted there, unless the content is live already; guard: nothing in its causal past, itself included, published from the exhausted clock |
| Recopy.RecopyStaysExactly | crates/clipy-si-core/src/sync/mod.rs:9-11 | under the same guard the re-copied content then stays exactly until the tombstone of the row that shows it, its own or the one that suppressed it; in that case the re-copy is not shown either |
| Recopy.WipeCovers | crates/clipy-si-core/src/sync/mod.rs:166-171 | a record its deleter knew before wiping the content is never inserted by a device that knows the tombstone, whatever follows, if nothing in the tombstone's causal past was published from the exhausted clock |
| Retention.StaleExactly | crates/clipy-si-core/src/sync/mod.rs:189-229 | saturation never changes the staleness verdict or the rejoin decision: stale is more than 2 592 000 seconds |
| Retention.GcIsAgeTest | crates/clipy-si-core/src/sync/mod.rs:194-207 | with times in range, collection is exactly the age test, more than 3 024 000 000 ms, for every presence list |
| Retention.GcExactly | crates/clipy-si-core/src/sync/mod.rs:194-207 | without a range on the presences, only ones whose conversion overflows upwards can block an old tombstone |
| Retention.GcMonotone | crates/clipy-si-core/src/sync/mod.rs:194-207 | eligibility survives the passing of time and any change of the presence list |
| Retention.AgeTestExactly | crates/clipy-si-core/src/sync/mod.rs:194-207 | collection is the age test for every tombstone if and only if now converts to milliseconds, or it is negative and wraps so low that nothing is eligible; for unix times, exactly up to i64::MAX / 1000 |
| Retention.OverflowKeepsAncientTombstone | crates/clipy-si-core/src/sync/mod.rs:199 | one second past i64::MAX / 1000 a tombstone from 1970 is past retention and kept |
| Retention.FutureDatedPresenceBlocks | crates/clipy-si-core/src/sync/mod.rs:206 | one presence past i64::MAX / 1000 seconds blocks an old tombstone |
| Vault.PullOutcome | crates/clipy-si-core/src/sync/mod.rs:12-16 | after a session's pull every tombstoned id is deleted and only untombstoned files gave new rows, in any listing order |
| Vault.SessionKeepsBuried | crates/clipy-si-core/src/sync/mod.rs:209-229 | a session neither writes back nor shows a record whose tombstone was ever written |
| Vault.CollectRespectsHorizon | crates/clipy-si-core/src/sync/mod.rs:27-31 | a tombstone is not collected before a stated real time, whatever the skew and the presence list |
| Vault.NoResurrection | crates/clipy-si-core/src/sync/mod.rs:27-31 | in every run, from the tombstone on, nobody writes the record back and no device shows it after its session; its file never lies there without the tombstone, which for the collection step is the assumption above about stale files |
| Vault.OneLiveRowPerContent | crates/clipy-si-core/src/sync/mod.rs:17-18 | in every run no device shows one content twice |
| Vault.NothingLost | crates/clipy-si-core/src/sync/mod.rs:209-229 | in every run a record nobody deletes and whose file is not lost stays published, undeleted and unchanged on every device that shows it |
| Vault.FreshHolderRestores | crates/clipy-si-core/src/sync/mod.rs:217-219 | a file the provider lost is back, unchanged, after a session of a fresh device that shows the row |
| Rejoin.LastSeenIsLatest | crates/clipy-si-core/src/sync/mod.rs:180-192 | in every run a device's recorded time is its latest join or session, in whole seconds of its own clock |
| Rejoin.RejoinExactly | crates/clipy-si-core/src/sync/mod.rs:209-229 | in every run, a session that finds one of its rows in neither folder keeps it and writes it back unchanged if the device last appeared at most 2 592 000 seconds of its own clock before, and otherwise deletes it and writes nothing |
| Delivery.SurvivesPull | crates/clipy-si-core/src/sync/mod.rs:166-171 | after a pull a record is newer than every known tombstone of its content exactly when it is newer than those known before and those pulled for ids not deleted here |
| Delivery.DeliveredExactly | crates/clipy-si-core/src/sync/mod.rs:166-229 | a session shows the content of a record that is news to the device, by its tables and the folder before the session, exactly unless the device is stale and a live row of that content is absent from both folders |
| Delivery.SuppressedForGood | crates/clipy-si-core/src/sync/mod.rs:145-150 | in every run a record applied and not shown on a device is never shown there again |
| Delivery.ReturningDeviceMissesRecopy | crates/clipy-si-core/src/sync/mod.rs:145-229 | a run with perfect clocks in which a returning device drops the row that suppressed a published re-copy and shows nothing |
| RunClocks.RunAgrees | crates/clipy-si-core/src/sync/mod.rs:47-114 | in every vault run each device's clock is the one computed by the log of its publications and of the stamps it pulled |
| RunClocks.IssuedBeatsLearned | crates/clipy-si-core/src/sync/mod.rs:47-114 | in every vault run a stamp a device writes beats every stamp it issued or pulled unclamped at an earlier step, if that device did not publish from the exhausted clock in between |
| RunClocks.IssuedBeatsKnown | crates/clipy-si-core/src/sync/mod.rs:47-114 | in every vault run a written stamp beats every stamp in its causal past over any number of devices, if nothing there was published from the exhausted clock |
| RunClocks.RecopyDelivered | crates/clipy-si-core/src/sync/mod.rs:9-11 | in every vault run, while a re-copy is neither deleted nor lost, the next session of a device that has not applied it shows its content, if the copier knew every tombstone of the content that this device knows or pulls; exactly unless that device is stale and a doomed row suppresses the insert |
| RunClocks.CapturedFileStays | crates/clipy-si-core/src/sync/mod.rs:9-18 | in every vault run a captured record's file stays as published and the device that captured it keeps showing it, while nobody deletes it and the file is not lost |
| RunClocks.DeleterRemembers | crates/clipy-si-core/src/sync/mod.rs:134-143 | in every vault run a deletion replaces the record file by a tombstone of the row's content, and the deleter keeps that tombstone for good |
| RunClocks.WipeCoversInRun | crates/clipy-si-core/src/sync/mod.rs:166-171 | in every vault run a record the deleter knew when it wiped the content is not shown by the session of a device that knows or pulls that tombstone, the deleter included, unless its row was there already |
| SkewBound.UnsafePastBound | crates/clipy-si-core/src/sync/mod.rs:27-31 | past thirty hours of skew a run writes a deleted record back |
| SkewBound.DeletionSafeExactly | crates/clipy-si-core/src/sync/mod.rs:27-31 | deletion is safe over all runs if and only if clocks stay within thirty hours of real time |
| Utf8.ValidExactly | crates/clipy-si-core/src/record/canonical.rs:93-95 | bytes decode to a string exactly when they are its encoding |
| Utf8.EncodedBits | crates/clipy-si-core/src/record/canonical.rs:93-95 | the first byte's leading bits give the shortest length that fits, and the other bits, six to a following byte, are the scalar |
| Canonical.PutBytes | crates/clipy-si-core/src/record/canonical.rs:24-27 | appends the length field and the bytes, keeping what was written |
| Canonical.EncodePlaintext | crates/clipy-si-core/src/record/canonical.rs:29-48 | the writer produces the layout |
| Canonical.Reader.ReadU8 | crates/clipy-si-core/src/record/canonical.rs:60-64 | reads what the byte parser reads off the remaining bytes, or fails with it |
| Canonical.Reader.ReadU32 | crates/clipy-si-core/src/record/canonical.rs:66-77 | reads what the u32 parser reads off the remaining bytes, or fails with it |
| Canonical.Reader.ReadBytes | crates/clipy-si-core/src/record/canonical.rs:79-91 | reads what the prefixed-bytes parser reads off the remaining bytes, or fails with it |
| Canonical.Reader.ReadString | crates/clipy-si-core/src/record/canonical.rs:93-95 | reads what the string parser reads off the remaining bytes, or fails with it |
| Canonical.DecodePlaintext | crates/clipy-si-core/src/record/canonical.rs:98-138 | the reader computes the parser's result, error included |
| Canonical.BodyExactly | crates/clipy-si-core/src/record/canonical.rs:101-127 | the parser reads p and leaves rest exactly when p fits the layout and the bytes are p's encoding and then rest |
| Canonical.DecodeExactly | crates/clipy-si-core/src/record/canonical.rs:98-138 | decoding gives p exactly when p fits and the bytes are its encoding; every failure is UnsupportedFormat |
| Canonical.RoundTripExactly | crates/clipy-si-core/src/record/canonical.rs:21-138 | the round trip succeeds exactly on plaintexts with lengths within u32 and at most 4096 representations |
| Canonical.DecodesLayout | crates/clipy-si-core/src/record/canonical.rs:1-16 | decoding gives p exactly on the bytes that lay p out field by field as documented, lengths least significant byte first, flags 0 or 1, at most 4096 representations; every encodable plaintext is written so |
| Canonical.LengthsTruncate | crates/clipy-si-core/src/record/canonical.rs:24-27 | the length written in front of any bytes is their number modulo 2^32 |
| Canonical.SurplusRepresentationsRefused | crates/clipy-si-core/src/record/canonical.rs:115-121 | every plaintext with more than 4096 representations whose strings fit is written and then refused; 4097 empty ones are an instance |
| Canonical.PrefixFree | crates/clipy-si-core/src/record/canonical.rs:29-48 | no valid body starts with another one |
| Canonical.TruncationAndExtensionRefused | crates/clipy-si-core/src/record/canonical.rs:98-130 | every proper truncation and extension of a valid body is refused |
| Records.EncodeEnvelope | crates/clipy-si-core/src/record/mod.rs:189-204 | the writer produces the envelope layout |
| Records.DecodedIsWellFormed | crates/clipy-si-core/src/record/mod.rs:206-239 | whatever decodes has the known version and a body exactly when not deleted; every failure is UnsupportedFormat |
| Records.DecodesLaidOut | crates/clipy-si-core/src/record/mod.rs:206-239 | for any codec and any header bytes it reads: decoding gives e exactly when the bytes are a header length, a header read as version 1, and 0 for a deleted record or 1 and the body for a live one |
| Records.EncodesLaidOut | crates/clipy-si-core/src/record/mod.rs:189-204 | an encoded envelope holds the header length, the header, and 0, or 1 and the body, at these positions |
| Records.DecodeEncodedWithExtra | crates/clipy-si-core/src/record/mod.rs:224-238 | bytes after an encoded envelope join a live body and are ignored after a tombstone |
| Records.EnvelopeRoundTrip | crates/clipy-si-core/src/record/mod.rs:189-239 | decoding an encoding gives the envelope back exactly when it is well formed, and an error otherwise |
| Records.ReencodeExactly | crates/clipy-si-core/src/record/mod.rs:206-239 | when re-encoding a decoded envelope gives the same bytes |
| Records.SealAndWipe | crates/clipy-si-core/src/record/mod.rs:126-130 | seals the encoded body and leaves the caller's master key, subkey and body buffers wiped, also when sealing fails |
| Records.SealRecord | crates/clipy-si-core/src/record/mod.rs:116-131 | computes the sealed body or the error |
| Records.OpenAndWipe | crates/clipy-si-core/src/record/mod.rs:137-139 | opens the box and leaves the caller's two key buffers zeroed, also when opening fails |
| Records.OpenRecord | crates/clipy-si-core/src/record/mod.rs:133-141 | computes the plaintext or the error |
| Records.LocalOpenExactly | crates/clipy-si-core/src/crypto/mod.rs:43-70 | a box opens to p exactly when sealing p under the box's nonce gives the box |
| Records.OpenExactly | crates/clipy-si-core/src/record/mod.rs:118-141 | a body opens to p exactly when p fits and sealing p under the body's first twelve bytes gives the body |
| Records.OpenUndoesSeal | crates/clipy-si-core/src/record/mod.rs:118-141 | opening a sealed plaintext gives it back exactly when it fits the layout |
| Records.SealExactly | crates/clipy-si-core/src/record/mod.rs:114-131 | sealing gives the nonce and then the ciphertext of the body under the subkey labelled clipysi/v1/cclip, exactly when the key has 32 bytes, the nonce 12 and the cipher succeeds; every failure is InvalidInput |
| Records.OpenFailsExactly | crates/clipy-si-core/src/record/mod.rs:133-141 | InvalidInput exactly for a key that is not 32 bytes, DecryptFailed exactly when nothing seals to the box under that key, UnsupportedFormat exactly when the box opens to bytes that encode no plaintext, and no other error |
| Entropy.ClassCount | crates/clipy-si-core/src/redaction/entropy.rs:88-104 | the number of distinct character classes in the run |
| Entropy.CountBytes | crates/clipy-si-core/src/redaction/entropy.rs:107-113 | the table holds how often each byte value occurs |
| Entropy.ShannonEntropy | crates/clipy-si-core/src/redaction/entropy.rs:106-126 | the sum of -p log2 p over the byte values that occur, zero for an empty run |
| Entropy.EntropyIsMeanSurprisal | crates/clipy-si-core/src/redaction/entropy.rs:106-126 | the entropy of every run is the mean, over its characters, of minus the logarithm of the character's frequency |
| Entropy.EvenRunEntropy | crates/clipy-si-core/src/redaction/entropy.rs:106-126 | when every byte that occurs does so equally often, the entropy is minus the logarithm of that frequency |
| Entropy.EntropyNonNegative | crates/clipy-si-core/src/redaction/entropy.rs:106-126 | the entropy is never negative when the logarithm is at most zero up to one |
| Entropy.RunQualifies | crates/clipy-si-core/src/redaction/entropy.rs:65-82 | the qualification test: length, hex, classes, entropy floor and entropy ratio |
| Entropy.QualifiesExactly | crates/clipy-si-core/src/redaction/entropy.rs:65-104 | a run qualifies exactly when its length modulo 2^32 reaches the minimum, some character is no hex digit, three of the four kinds of character occur, and its entropy reaches the floor and 0.85 of the smaller of log2 of its length and 6 |
| Entropy.TokenBytesExactly | crates/clipy-si-core/src/redaction/entropy.rs:59-63 | the run alphabet is letters, digits, plus and equals |
| Entropy.OverlapExactly | crates/clipy-si-core/src/redaction/entropy.rs:128-130 | non-empty spans overlap exactly when they share a position; spans that only touch do not |
| Entropy.QualifiesIgnoresOrder | crates/clipy-si-core/src/redaction/entropy.rs:65-126 | whether a run qualifies depends only on how often each byte occurs |
| Entropy.ConstantRunHasNoEntropy | crates/clipy-si-core/src/redaction/entropy.rs:106-126 | a run of one repeated byte has entropy zero |
| Entropy.HighEntropyMatches | crates/clipy-si-core/src/redaction/entropy.rs:25-57 | appends exactly the scan's matches to the buffer |
| Entropy.ScanExactly | crates/clipy-si-core/src/redaction/entropy.rs:26-63 | the scan reports each maximal token run that qualifies and overlaps nothing occupied, nothing else, in increasing order with gaps, as Medium matches of the entropy kind |
| Overlaps.MergeNonOverlapping | crates/clipy-si-core/src/redaction/detector.rs:148-164 | the sort and the loop compute the merged list |
| Overlaps.StableSortKeeps | crates/clipy-si-core/src/redaction/detector.rs:149-154 | sorting permutes and orders by start, confidence and length |
| Overlaps.StableSortStable | crates/clipy-si-core/src/redaction/detector.rs:149-154 | matches with equal span and confidence keep their input order |
| Overlaps.MergedCorrect | crates/clipy-si-core/src/redaction/detector.rs:86-164 | a disjoint, ordered sub-collection; every input starts inside a kept match that takes precedence over it; empty only for empty input |
| Overlaps.KeptIsBest | crates/clipy-si-core/src/redaction/detector.rs:149-154 | of the matches that start together the kept one is High if any is, and of its confidence the longest |
| Overlaps.SpansIgnoreOrderAndKind | crates/clipy-si-core/src/redaction/detector.rs:148-164 | kept spans and confidences depend only on the multiset of input spans and confidences |
| Overlaps.SpansIgnoreOrder | crates/clipy-si-core/src/redaction/detector.rs:148-164 | permuting the input leaves kept spans and confidences alone |
| Overlaps.TiedKindIsTheFirst | crates/clipy-si-core/src/redaction/detector.rs:148-164 | for every input, a kept match is the first in the input among those with its span and confidence |
| Overlaps.TiedKindDependsOnOrder | crates/clipy-si-core/src/redaction/detector.rs:148-164 | two equal spans of different kinds keep a different kind in each order |
| Detector.CollectRaw | crates/clipy-si-core/src/redaction/detector.rs:122-146 | the buffer ends with the literals in source order, then the entropy matches outside them |
| Detector.CollectedExactly | crates/clipy-si-core/src/redaction/detector.rs:122-146 | collected are, in the order of the sources, all provider, gated, URL and user matches and the key-value matches apart from every URL match, and then exactly the maximal qualifying runs apart from all of these and from every data URI |
| Detector.OutsideSpansExactly | crates/clipy-si-core/src/redaction/detector.rs:133-134 | exactly the key-value matches that overlap no URL match are retained |
| Detector.OutsideSpansConcat | crates/clipy-si-core/src/redaction/detector.rs:133-134 | matches are retained one by one, in their order |
| Detector.EntropyIsConservative | crates/clipy-si-core/src/redaction/detector.rs:122-164 | merging everything keeps, of High confidence, exactly what merging the literals alone keeps, and every entropy match |
| Detector.ConfidenceNeverDecides | crates/clipy-si-core/src/redaction/detector.rs:122-164 | matches that start together have one confidence, and sorting without the confidence comparison gives the same order and the same merged list |
| Detector.ByteToCharOffsets | crates/clipy-si-core/src/redaction/detector.rs:177-199 | each offset is the number of scalars that start before the boundary, clamped to u32 |
| Detector.DetectSecrets | crates/clipy-si-core/src/redaction/detector.rs:86-110 | one match per kept span, with its kind and confidence and its offsets converted |
| Detector.ReportedOffsetsExact | crates/clipy-si-core/src/redaction/detector.rs:7-13 | slicing the text's scalars at the reported offsets gives exactly the matched bytes, entropy matches included, if and only if the match ends within the first u32::MAX scalars |
| Detector.IsSecret | crates/clipy-si-core/src/redaction/detector.rs:112-115 | true exactly when detection reports something |
| Detector.SecretIffDetected | crates/clipy-si-core/src/redaction/detector.rs:86-115 | detection reports something exactly when some pattern source found anything or some maximal run qualifies outside the data URIs |

## Left out

- The regular expressions, value gates and placeholder lists: their results are the arbitrary non-empty High spans of `PatternHits`.
- Entropy.ShannonEntropy: does not model floating-point rounding, nor the u32 counters of runs past 4 GiB; the logarithm is an arbitrary function, and the laws about values name what they need of it.
- Entropy.RunQualifies: the floor and the ratio are compared over the reals, so a NaN floor and f64 rounding are not covered.
- Records.SealAndWipe: the emptied body buffer stands for zeroed bytes; spare capacity is not modelled.
- AES-GCM, HKDF, HMAC, PBKDF2 and NFC: library code, present only as functions with the stated laws.
- The JSON text of headers and manifests, UUID text and hex fields: the header codec is an arbitrary pair whose reader undoes its writer.
- Records.EnvelopeRoundTrip: requires the header's JSON to be shorter than 2^32 bytes; past that the length field is truncated and the result depends on how the truncated JSON reads.
- Retention.GcExactly: requires `now` in milliseconds to fit in i64; `AgeTestExactly` covers the rest for an empty presence list.
- ClockRuns.StampsDistinct: a device's first publication from the exhausted clock need not repeat a stamp, so on one device the guard is sufficient, not necessary; any two such publications do (`ExhaustedStampsEqual`).
- Vault.NoResurrection: assumes that no stale record file shows up once its tombstone has been collected; such a file would be new to every device that never knew the tombstone.
- Sessions that stop half way and provider listings that miss tombstones: a session is one step over the whole folder.
- The host's database, blobs and file writes beyond the effects that the action comments state.
- Display masking, the passphrase check, the vault manifest, the FFI layer and version constants: each follows from reading one branch.
- The sort algorithm: the source calls the library's stable sort, and the model uses an insertion sort with the same order.
