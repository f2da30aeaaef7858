# Verified models of the command-line applications

This project models the stateful parts of five commands of the toolkit, in Dafny, and proves what they
are for.

* **The OCSP pre-fork supervisor** (`OcspSupervisor.dfy`). Every system call takes its outcome from an
  arbitrary script of events, so a run may meet any result of `fork` and `waitpid` and a signal between
  any two steps. The real table of process ids is proved to follow an abstract machine that knows only
  the set of unreaped children.
* **The URL decoder of the OCSP responder** (`UrlDecode.dfy`, `Chars.dfy`): in-place decoding against
  out-of-place decoding, and percent-encoding undone.
* **The CA database** (`CaDatabase.dfy`, `CaSerial.dfy`, `CaRevInfo.dfy`, `CaExpiry.dfy`,
  `CaPolicy.dfy`, `CaIssue.dfy`): revocation texts, serial numbers, the expiry pass, the policy check,
  sequences of issue, revoke, add-valid and expire, and the commit of serial file and index, observed
  after each file operation.
* **Two views of that database** (`CaStatus.dfy`): the revocation list that `ca` makes and the answers
  that `ocsp` gives.
* **The password algorithms** (`PasswdCrypt.dfy`, `PasswdEncoding.dfy`, `PasswdSetting.dfy`,
  `CString.dfy`), for an arbitrary hash function.
* **rehash** (`RehashTable.dfy`, `RehashBits.dfy`, `RehashIds.dfy`, `RehashPlan.dfy`,
  `RehashLinks.dfy`, `RehashOrder.dfy`, `RehashNarrow.dfy`, `RehashExamples.dfy`, `RehashDir.dfy`): the
  bucket table, the id allocator on a bit mask of which only a part is cleared, and the links on disk
  afterwards.
* **The signing options of cms** (`CmsOptions.dfy`): the option machine against a cut of the option
  list into one group per signer.

`dafny verify dfyconfig.toml` checks all of it.

Conventions. A `char` is one unsigned byte in everything that handles C strings. A C buffer is an array; a
list whose nodes are only appended to or overwritten is a `seq` that methods reassign. Where a
method follows a specification function, what the source promises is proved about that function in
lemmas. Syntax checks of foreign formats (UTCTIME, GeneralizedTime, object identifiers) are arbitrary
predicates and hash functions are arbitrary functions of the right output size.

## What turned out to be false

Each of these is proved, as an exact condition, by an example, or both.

* rehash keeps any link whose number is below `num_needed`, needed or not, and clears only the first
  (`num_needed` + 7) / 8 bytes of a mask that is never set up and is used again from bucket to bucket.
  The search for a free id skips what is left set in it. So the ids in use are an initial segment if and
  only if no bit left set lies among them (`RehashPlan.IdsInUse`), for every mask if and only if the
  needed entries and the unneeded links kept together fit the cleared bits (`RehashPlan.EveryMaskIff`),
  and the accesses stay inside the mask under the same condition (`RehashPlan.InsideForEveryMaskIff`).
* A probe does not always find every needed file. `RehashLinks.ReachedIff` is the exact condition for
  any bucket, order, mask and disk. With a mask that is clean as far as it matters, every order finds
  every file if and only if no link that is removed has a number below the number of ids in use
  (`RehashOrder.EveryOrderIff`). The examples are directories as the scan meets them
  (`RehashExamples.StaleExample`, `RehashExamples.ClobberExample`, `RehashExamples.DirtyExample`). The
  manual page (doc/man1/openssl-rehash.pod:56-59) says that all links are removed first; the model
  follows the code.
* A link number above 65535 is narrowed. With one link per file that costs a file if and only if the
  narrowed number is below `num_needed` (`RehashNarrow.NarrowingIff`, `RehashNarrow.OneLinkIff`).
  Numbers too large for an unsigned long are stored as 65535 and do no harm.
* The responder and the revocation list agree if and only if the serial fields of the revoked rows are
  canonical. The load check also accepts lower-case digits, and they break the agreement
  (`CaStatus.AgreeIffCanonical`, `CaStatus.LowerCaseDisagreement`).
* The responder gives no answer at all for a row that is neither `V` nor `R`, an expired one for instance,
  and for an `R` row whose revocation time cannot be read (`CaStatus.StatusMeaning`,
  `CaStatus.AllAnswered`, `CaStatus.ExpiredUnanswered`). It does not make the load check, and from 2050 on
  `ca` writes such rows (`CaStatus.RevokedAnsweredIff`, `CaStatus.LateRevocationUnanswered`).
* The expiry pass takes the first twelve digits of a GeneralizedTime for a UTCTIME, and so is right if
  and only if the current time is not between the date and that misreading
  (`CaExpiry.GeneralizedTimeRightIff`). A date of 2050 to 2099 counts as passed exactly from 2021 on,
  99991231235959Z exactly from 2000 on (`CaExpiry.GeneralizedTimeMisread`, `CaExpiry.NoExpiryMisread`),
  and a date of 2015 may be missed (`CaExpiry.MissedExample`).
* A revocation text can be read back if and only if the current time is a UTCTIME
  (`CaRevInfo.RoundTrip`, `CaRevInfo.NotReadBack`).
* A certificate added as valid ahead of the serial file makes a later issue fail
  (`CaIssue.AddedAheadClashes`); operations below the next serial cannot (`CaIssue.ApplyBelowIff`).
* The SHA algorithms fail exactly for an empty password or salt, besides malformed arguments
  (`PasswdCrypt.ShaCrypt`), because an allocation of no bytes is taken for a failure.
* The comment on `urldecode` says that malformed sequences are ignored; the code fails on them
  (`UrlDecode.UrlDecodeInPlace`, `UrlDecode.MalformedExample`).

## Model

| member | source | states |
|---|---|---|
| OcspSupervisor.SpawnLoop | apps/ocsp.c:950-1050 | In every run, at every stopping point, the slots hold exactly the unreaped children once each and `procs` is their number, at most `multi`; neither internal error is reached; on exit every unreaped child is signalled exactly once and nothing else is. The last events decide the end: serving exactly after fork, no signal and a good seed, exit 1 of a child exactly after a bad seed, exit 0 of a child exactly after a signal, exit 1 of the parent exactly after a wait that failed and was not interrupted, exit 0 exactly on a signal read or noted; every wait is with a full table and every fork with room in it |
| OcspSupervisor.AwaitRoom | apps/ocsp.c:978-1013 | Leaving the waiting loop without a signal means there is room; it exits only when `waitpid` fails with something other than an interruption, and has then signalled all children |
| OcspSupervisor.ReleaseSlot | apps/ocsp.c:985-991 | The slot with the pid is freed and the count lowered, exactly if there is one; otherwise nothing changes |
| OcspSupervisor.TakeSlot | apps/ocsp.c:1033-1039 | A free slot gets the pid and the count is raised, exactly if there is one; otherwise nothing changes |
| OcspSupervisor.Reap | apps/ocsp.c:984-997 | With a full table a reaped child always has a slot, and the table stays exact |
| OcspSupervisor.Record | apps/ocsp.c:1032-1045 | Below the limit a new child always finds a slot, and the table stays exact |
| OcspSupervisor.ChildStart | apps/ocsp.c:1020-1030 | The child exits with 0 exactly after a signal, with 1 exactly after a bad seed, and serves exactly after a good one |
| OcspSupervisor.KillAll | apps/ocsp.c:926-936 | The non-zero slots are signalled, in order |
| OcspSupervisor.Killed | apps/ocsp.c:926-936 | In an exact table those are the children, each signalled once |
| UrlDecode.UrlDecodeInPlace | apps/ocsp.c:1379-1398 | In-place decoding leaves the out-of-place decoding of the original text, its terminator, and the rest of the buffer unchanged; it returns the length, or -1 exactly on a malformed escape |
| UrlDecode.DecodeWellFormed | apps/ocsp.c:1384-1395 | Decoding fails exactly on a percent sign without two hexadecimal digits, and shortens the text by two per escape |
| UrlDecode.MalformedExample | apps/ocsp.c:1394-1395 | Two texts with a percent sign that is not followed by two digits, which are refused |
| UrlDecode.DecodeEncode | apps/ocsp.c:1379-1398 | Decoding undoes percent-encoding (section 2.1 of RFC 3986) of every byte string, with any choice of unescaped characters and either case of digits, and the encoding never holds a NUL |
| CString.Strlcpy | crypto/o_str.c:69-79 | The buffer holds the longest prefix that fits, terminated |
| CString.Strlcat | crypto/o_str.c:81-87 | The buffer holds the longest prefix of the joined texts that fits, terminated |
| CaRevInfo.RoundTrip | apps/ca.c:2383-2465 | Every text made, for every kind and argument, commas included, reads back as the same time, reason and argument if and only if the current time is a UTCTIME |
| CaRevInfo.NotReadBack | apps/ca.c:2441-2454 | A current time that is no UTCTIME is printed and cannot be read back |
| CaRevInfo.ReasonsAreStandard | apps/ca.c:2613-2662 | Whatever is read, the code is 0 to 6, 8 or none (section 5.3.1 of RFC 5280), a hold instruction comes only with certificateHold and an invalidity date only with a compromise |
| CaRevInfo.MakeRevocationStr | apps/ca.c:2383-2465 | The printer fails exactly on an unknown reason or malformed argument, and its allocation is filled exactly, so no copy is cut off |
| CaRevInfo.TextMadeIff | apps/ca.c:2391-2439 | A text is made if and only if the reason is one of the eight names in any case, the hold argument an object identifier, or the compromise argument a GeneralizedTime |
| CaRevInfo.UnpackIff | apps/ca.c:2602-2671 | A text is read, and as what, exactly as spelled out over its three fields, with the CRLReason numbers of section 5.3.1 of RFC 5280 |
| CaRevInfo.UnpackRevinfo | apps/ca.c:2570-2675 | The parser on the cut copy answers what the three comma-separated fields mean, and hands out the time even when the rest is malformed |
| CaRevInfo.SplitRevinfo | apps/ca.c:2581-2600 | Writing a NUL over the first two commas leaves the three fields: up to the first comma, up to the second, and all the rest |
| CaRevInfo.CutAt | apps/ca.c:2595-2599 | The first comma is replaced, what is before it is untouched, and both parts are C strings |
| CaSerial.CheckSerial | apps/ca.c:697-715 | A serial field is accepted exactly if it is an optional sign and a positive even number of hexadecimal digits |
| CaSerial.SerialTextReads | crypto/bn/bn_conv.c:17-47 | The text printed for any serial, negative or zero too, passes the load check and reads back as that serial |
| CaSerial.SerialTextExamples | crypto/bn/bn_conv.c:17-47 | Zero, one byte, two bytes and a negative number |
| CaSerial.SerialKeysDiffer | apps/lib/apps.c:1208-1216 | Different serials never have equal keys in the index |
| CaSerial.FoundByValue | apps/lib/apps.c:1208-1216 | A serial field is found by the number it stands for if and only if it has no lower-case digit and no leading zero byte after a sign |
| CaSerial.KeyDeterminesValue | apps/lib/apps.c:1208-1216 | A field found under a number stands for that number |
| CaExpiry.ExpiryIsChronological | apps/ca.c:2318-2351 | For UTCTIME dates the century flags and the string comparison together are the chronological order of the 1950 to 2049 window (section 4.1.2.5.1 of RFC 5280) |
| CaExpiry.MarkedByMisread | apps/ca.c:2328-2348 | Every GeneralizedTime is judged by its first twelve digits read as a UTCTIME |
| CaExpiry.GeneralizedTimeRightIff | apps/ca.c:2328-2348 | For every GeneralizedTime and every current time the pass is right if and only if the current time is not between the date and that misreading; for dates from 2050 on, if and only if the misread date has not passed |
| CaExpiry.MarkedFromYear | apps/ca.c:2328-2348 | From which year on a GeneralizedTime counts as passed, for the first year of a century and for years of a century above 12 |
| CaExpiry.GeneralizedTimeMisread | apps/ca.c:2328-2348 | A date of 2050 to 2099 is later than every UTCTIME and yet counts as passed if and only if the year is 2021 or later |
| CaExpiry.NoExpiryMisread | apps/ca.c:2328-2348 | The date 99991231235959Z counts as passed if and only if the year is 2000 or later |
| CaExpiry.MissedExample | apps/ca.c:2328-2348 | A concrete date of 2015 that a pass in 2019 does not mark |
| CaDatabase.RunKeepsRows | apps/ca.c:1831-1954 | Over every sequence of issue, revoke, add-valid and expire no row is lost or moved, each row keeps serial, name and date and changes status only as allowed, serials stay unique, and valid names stay unique where configured |
| CaDatabase.RunLoadsAgain | apps/ca.c:680-716 | Every table reached from one that loads passes the load check again |
| CaDatabase.RunStatusMoves | apps/ca.c:2208-2222 | Over every run a revoked row and its revocation text never change, and a status moves only from V to E, V to R or E to R |
| CaDatabase.RunRevocationText | apps/ca.c:680-692 | After every run from a table that loads, a row has a revocation text exactly when it is R |
| CaDatabase.RunStatuses | apps/ca.c:2219-2221 | No run brings in a status other than V, E and R |
| CaDatabase.RevokeExact | apps/ca.c:2157-2227 | A revocation changes the row of that serial at most and adds at most one row, for a serial that had none; success leaves the row R with the text of this revocation under the same name, and it was not R before; an entry made before a failure stays |
| CaDatabase.RevokeIff | apps/ca.c:2157-2222 | When a revocation succeeds. With a row for the serial: the name is the certificate's, the row is not R, the certificate is not only to be added, and the argument is good. Without one: serial and name are free, and the argument is good or the certificate only to be added |
| CaDatabase.IssueIff | apps/ca.c:1831-1955 | A certificate is issued if and only if serial and name are free, it is accepted and it is signed; declining it is no hard failure |
| CaDatabase.NewRowIs | apps/ca.c:1802-1829 | The row of a new certificate, with the serial for an empty subject |
| CaDatabase.RevokeOnce | apps/ca.c:2208-2211 | After a successful revocation every other one of that certificate fails and changes nothing |
| CaDatabase.RevokeValid | apps/ca.c:2157-2227 | A revocation keeps the indexes exact and rows develop by the rules |
| CaDatabase.InsertValid | crypto/txt_db/txt_db.c:237-267 | An insertion keeps both indexes exact |
| CaDatabase.ValidIsUnique | apps/lib/apps.c:1470-1490 | A table with exact indexes passes the index construction again |
| CaDatabase.IndexSerials | crypto/txt_db/txt_db.c:150-190 | Building the serial index succeeds exactly when the keys are distinct, and the index is then exact |
| CaDatabase.IndexNames | crypto/txt_db/txt_db.c:150-190 | Building the name index succeeds exactly when the valid rows have distinct names |
| CaDatabase.CaDb.IndexIndex | apps/lib/apps.c:1470-1490 | Both indexes are built, the one for names only where subjects are unique, and any clash is refused |
| CaDatabase.CaDb.Insert | crypto/txt_db/txt_db.c:237-280 | The row is added and indexed, or a key clashes and nothing at all changes |
| CaDatabase.CaDb.IssueCert | apps/ca.c:1831-1956 | A clash is refused before the operator is asked, a declined or unsigned certificate leaves no row, and otherwise exactly the new valid row is added |
| CaDatabase.CaDb.RevokeCert | apps/ca.c:2124-2228 | The recursive revocation equals its specification, succeeds exactly if the certificate is revocable, and recurses at most once because the retry finds the row it inserted |
| CaDatabase.CaDb.UpdateIndex | apps/ca.c:2297-2356 | Without a current time in UTCTIME form the pass fails and changes nothing; with one it expires each row as specified and returns in how many rows the table changed |
| CaDatabase.ExpireIsExact | apps/ca.c:2323-2351 | A row with a UTCTIME date is E after the pass exactly if it was E, or was V with a date not after now |
| CaDatabase.ExpireTwice | apps/ca.c:2297-2356 | A second pass at the same time changes nothing and counts nothing |
| CaPolicy.CheckPolicy | apps/ca.c:1560-1651 | The policy loop succeeds if and only if every item lets the request pass, with the declared subject; otherwise it names the first refusing item and why |
| CaPolicy.AcceptedIff | apps/ca.c:1586-1640 | Over plain membership: every item has a known type; it is optional, or supplied with the type in the request, or match with the type in the request and all its entries in the CA's name |
| CaPolicy.ItemIff | apps/ca.c:1562-1640 | The cause of each refusal, over plain membership |
| CaPolicy.SubjectAppend | apps/ca.c:1560-1651 | The subject has the entries of each item's type after those of the items before it |
| CaPolicy.OfTypeAppend | apps/ca.c:1571-1583 | The entries of a type are those of the request, in its order |
| CaPolicy.CheckItem | apps/ca.c:1570-1650 | One item takes all request entries of its type in order, or refuses for the stated reason |
| CaPolicy.FindInCa | apps/ca.c:1608-1634 | The inner scan ends, and finds an entry exactly if the CA has an equal one; a missing type and a different value are told apart |
| CaPolicy.GetIndexByObj | crypto/x509/x509name.c:67-85 | The next entry of the type after a position, skipping none |
| CaPolicy.SubjectFromRequest | apps/ca.c:1642-1647 | Nothing enters the subject that the request did not have |
| CaPolicy.SubjectHas | apps/ca.c:1574-1588 | Every request entry of a type that the policy names enters the subject |
| CaPolicy.AcceptedOccurs | apps/ca.c:1589-1606 | In an accepted request a supplied or matched type occurs in the subject |
| CaPolicy.AcceptedMatches | apps/ca.c:1598-1634 | In an accepted request every entry of a matched type equals some entry of the CA |
| CaPolicy.RemoveType | apps/ca.c:1787-1793 | Deleting while searching removes all entries of the type and keeps the others in order |
| CaIssue.IssueRun | apps/ca.c:919-1106 | At no point where the run could stop does the live index hold a serial at or above the live serial file; a hard failure, an empty batch or a refused commit leaves both live files alone; a committed run leaves the first serial plus the number of rows added, and those rows; if no file operation is refused a run with certificates that is confirmed is committed |
| CaIssue.CertifyAll | apps/ca.c:919-1002 | The certifying loop stops at the first hard failure and raises the serial by one per certificate |
| CaIssue.CertifySerials | apps/ca.c:928-1001 | A run gives consecutive serials from the first and adds exactly their rows, in that order |
| CaIssue.OneMore | apps/ca.c:981-1001 | One more request gets the next serial exactly if it is free, accepted and signed, and fails the run exactly if it is broken, not free, or accepted and not signed |
| CaIssue.RejectionUsesNoSerial | apps/ca.c:987-1001 | A rejected, declined or failed request uses no serial and leaves no row |
| CaIssue.CertifyHard | apps/ca.c:987-988 | A hard failure is final: later requests change nothing |
| CaIssue.CertifyBelow | apps/ca.c:992-1031 | If all rows were below the first serial, all rows are below the serial that is saved |
| CaIssue.NoSerialClash | apps/ca.c:1842-1849 | While all rows are below the next serial, the already-issued clash cannot happen |
| CaIssue.ApplyBelowIff | apps/ca.c:1831-1954 | Issuing, revoking, adding and expiring keep all rows below the next serial if and only if they add no row or one below it |
| CaIssue.RunNoSerialClash | apps/ca.c:1842-1849 | After any run on certificates below the next serial, issuing with it does not clash |
| CaIssue.AddedAheadClashes | apps/ca.c:2192-2194 | A certificate added as valid ahead of the serial file makes the issue that reaches its serial fail |
| CaIssue.Store.SaveSerial | apps/lib/apps.c:1284-1332 | Only the new file is written |
| CaIssue.Store.SaveIndex | apps/lib/apps.c:1492-1536 | Only the new files are written, rows before attributes |
| CaIssue.Store.RotateSerial | apps/lib/apps.c:1334-1375 | At every moment the live file has the old or the new number or is absent; success makes the new one live, and failure leaves the old number if anything is live |
| CaIssue.Store.RotateIndex | apps/lib/apps.c:1538-1602 | At every moment the live index has the old or the new rows or is absent, also while a failed step is being undone |
| CaStatus.LoadCheck | apps/ca.c:680-716 | The load check accepts a table exactly if every row is as it should be, and otherwise names the first that is not |
| CaStatus.MakeRevoked | apps/ca.c:2475-2527 | 0 exactly for an unreadable text, 2 exactly when the entry has an extension |
| CaStatus.MakeCrl | apps/ca.c:1173-1229 | The entries are those of the revoked rows in order, and the list is version 2 exactly when some entry has an extension or a list extension or number is configured |
| CaStatus.RevocationSaid | apps/ca.c:2475-2527 | List and responder both say of a revoked row, by kind of revocation: the time, the reason number, and the invalidity date or hold instruction |
| CaStatus.LoadExamples | apps/ca.c:680-716 | Rows that the load check refuses for each of its reasons, and some that it takes |
| CaStatus.MakeOcspResponse | apps/ocsp.c:1173-1314 | No id gives a malformed request, an unknown digest or failed signature an internal error, and otherwise the single responses answer the ids in order, without those that lead to no answer |
| CaStatus.AnswerId | apps/ocsp.c:1203-1269 | The answer depends only on whether some issuer matches and on the row found, with one extension at most; a revoked row whose time cannot be read leads to none, because adding it fails (crypto/ocsp/ocsp_srv.c:118-126) |
| CaStatus.NoIssuerUnknown | apps/ocsp.c:1229-1234 | Without a matching issuer the answer is unknown, whatever the table holds |
| CaStatus.SinglesAppend | apps/ocsp.c:1197-1270 | Each id adds its own answer after those before it |
| CaStatus.FoundRow | apps/ocsp.c:1316-1335 | The row found for a serial has a field that stands for that serial |
| CaStatus.AgreeIffCanonical | apps/ca.c:1173-1194 | For every table that loads: responder and list agree on every serial, with the same date, reason, invalidity date and hold instruction and listed once, if and only if the serials of the revoked rows are canonical |
| CaStatus.LowerCaseDisagreement | apps/ca.c:708-715 | A row that passes the load check, is listed under 10 and unknown to the responder under 10 |
| CaStatus.StatusMeaning | apps/ocsp.c:1235-1267 | With canonical serials: good exactly for a V row of that serial, revoked exactly for an R row with a readable time, unknown exactly for an absent serial, and no answer exactly for any other row |
| CaStatus.ExpiredUnanswered | apps/ocsp.c:1235-1267 | An expired certificate whose request gets a response without an answer |
| CaStatus.RevokedAnsweredIff | apps/ca.c:2441-2454 | After a certificate is revoked the responder answers for it if and only if the current time then was a UTCTIME |
| CaStatus.LateRevocationUnanswered | apps/ocsp.c:1243-1254 | A certificate revoked in 2050 whose request gets a response without an answer |
| CaStatus.AllAnswered | apps/ocsp.c:1197-1270 | A response answers every id if and only if each that is found under a known issuer is in a V row or in an R row with a readable time |
| PasswdEncoding.AbsorbEmit | apps/passwd.c:719-728 | The six-bit packing has a left inverse on every word that fits |
| PasswdEncoding.Cov2CharIs | apps/passwd.c:25-35 | The characters are those of the 64-character alphabet |
| PasswdEncoding.TablePermutes | apps/passwd.c:730-766 | Each index table packs every byte of the digest, no byte at two places |
| PasswdEncoding.EncodeDetermines | apps/passwd.c:730-766 | For all three digest sizes the encoded text determines the digest |
| PasswdEncoding.EncodeText | apps/passwd.c:719-766 | The encoded text holds no NUL |
| PasswdEncoding.B64From24Bit | apps/passwd.c:719-728 | The shifting loop writes the packed word at the position and nothing else |
| PasswdEncoding.PutSha256 | apps/passwd.c:731-743 | The eleven calls write the encoding of a 32-byte digest |
| PasswdEncoding.PutSha512 | apps/passwd.c:744-767 | The twenty-two calls write the encoding of a 64-byte digest |
| PasswdEncoding.PutMd5 | apps/passwd.c:452-485 | Permuting and packing by hand writes the encoding of a 16-byte digest |
| PasswdEncoding.Permute | apps/passwd.c:459-463 | The walk by six modulo seventeen never leaves the digest |
| PasswdEncoding.HandPacking | apps/passwd.c:475-480 | Packing with masks and shifts of bytes equals shifting the 24-bit word |
| PasswdSetting.ReparseSetting | apps/passwd.c:557-611 | Reading back the printed rounds and salt gives the same clamped rounds and truncated salt, for every salt argument that is accepted |
| PasswdSetting.SettingIs | apps/passwd.c:557-573 | 5000 rounds without the prefix; with it 1000 for fewer, 999999999 for more, and otherwise the number; without a dollar after the prefix no setting |
| PasswdSetting.StrtoulSigns | apps/passwd.c:560-560 | A blank is skipped, a minus sign subtracts from the next power of two, and what is too large saturates |
| PasswdSetting.PrintedLength | apps/passwd.c:600-615 | The rounds need at most 17 characters, so the length check never rejects |
| PasswdCrypt.BitLengthExact | apps/passwd.c:640-647 | Shifting right until nothing is left visits every bit and no more |
| PasswdCrypt.DigestCtx.FeedCycle | apps/passwd.c:633-638 | Feeding whole digests and a last part feeds the digest repeated to the length |
| PasswdCrypt.DigestCtx.FeedBits | apps/passwd.c:640-647 | The bit loop feeds one piece per bit of the length, the lowest first |
| PasswdCrypt.DigestCtx.OneRound | apps/passwd.c:686-705 | What a round hashes, as one of eight concatenations by the round's number odd or even, divisible by 3 or not, by 7 or not |
| PasswdCrypt.RoundsAre | apps/passwd.c:685-706 | The rounds from any start, each as one of those concatenations over the result before it |
| PasswdCrypt.FirstRounds | apps/passwd.c:685-706 | The first four rounds as one expression |
| PasswdCrypt.BitPiecesLow | apps/passwd.c:640-647 | The pieces for a length are the piece of its lowest bit and then those of its half |
| PasswdCrypt.ShaDigestIs | apps/passwd.c:617-706 | The SHA digest spelled out: start digest, P bytes, S bytes of 16 plus the first byte copies, and the rounds |
| PasswdCrypt.Md5DigestIs | apps/passwd.c:385-446 | The MD5 digest spelled out, with its thousand rounds |
| PasswdCrypt.ShaTextIs | apps/passwd.c:596-771 | The text spelled out, with the rounds only if they were given |
| PasswdCrypt.Md5TextIs | apps/passwd.c:363-485 | The text spelled out, with and without a magic string |
| PasswdCrypt.DigestCtx.RunRounds | apps/passwd.c:685-706 | The round loop is the iterated round |
| PasswdCrypt.Memcpy | apps/passwd.c:664-666 | A copy changes its own range only, and both ranges are inside their buffers |
| PasswdCrypt.FillCycle | apps/passwd.c:662-666 | Byte k of the filled array is byte k mod the digest size, with no copy out of range |
| PasswdCrypt.StartDigest | apps/passwd.c:617-649 | The incremental updates equal one hash of the declared concatenation |
| PasswdCrypt.Stretch | apps/passwd.c:651-666 | The P and S bytes are the digest of the repeated input, repeated to its length; the step fails exactly on no bytes |
| PasswdCrypt.ShaCryptDigest | apps/passwd.c:617-706 | All digest steps together compute the declarative SHA password digest |
| PasswdCrypt.ShaCrypt | apps/passwd.c:506-785 | It fails exactly on an unknown magic string, a malformed rounds setting, an empty password or an empty salt; otherwise the whole text with its terminator is in the buffer |
| PasswdCrypt.LongestShaText | apps/passwd.c:519-520 | The longest text has 123 characters, so with its terminator it exactly fills the buffer |
| PasswdCrypt.ShaTextStable | apps/passwd.c:557-611 | Hashing again with the printed setting as the salt gives the same text |
| PasswdCrypt.WriteHeader | apps/passwd.c:596-611 | The header is written in full |
| PasswdCrypt.WriteDigest | apps/passwd.c:716-771 | The dollar, the encoding and the terminator follow the text that is there |
| PasswdCrypt.Md5CryptDigest | apps/passwd.c:385-446 | The incremental steps compute the declarative MD5 password digest, with or without a magic string |
| PasswdCrypt.Md5Crypt | apps/passwd.c:324-499 | It fails exactly on a magic string of more than four characters; otherwise the whole text with its terminator is in the buffer |
| RehashBits.BitSet | apps/rehash.c:110-113 | Setting a bit sets that bit of the mask and no other |
| RehashBits.BitIsSet | apps/rehash.c:115-118 | Testing a bit reads membership in the set that the mask stands for |
| RehashBits.ClearBytes | apps/rehash.c:380-380 | Clearing n bytes removes exactly the ids below 8n |
| RehashIds.NthFreeBound | apps/rehash.c:396-397 | Pigeonhole: a search never goes past the number of ids in use |
| RehashIds.NoGap | apps/rehash.c:378-418 | With enough searches the kept and new ids are exactly an initial segment |
| RehashIds.InitialSegmentIff | apps/rehash.c:378-418 | The ids in use are an initial segment if and only if the searches are as many as the gaps below the largest kept id |
| RehashTable.HashTable.FindBucket | apps/rehash.c:134-144 | The bucket of the key is found in its chain or added there, and no key's bucket changes |
| RehashTable.HashTable.FindEntry | apps/rehash.c:146-160 | The list scan reports a duplicate exactly if some entry has the digest, and otherwise the entry of the file name |
| RehashTable.HashTable.AddEntry | apps/rehash.c:124-187 | One call changes the bucket of its key as specified and no other, keeps one bucket per key in its right chain, and reports exactly an overflow |
| RehashTable.StepIgnores | apps/rehash.c:146-167 | A call reports an error exactly for a new file without an equal digest in a bucket with 256 needed entries; such a call and a duplicate digest leave the bucket alone |
| RehashTable.StepRecords | apps/rehash.c:168-186 | Any other call gives the file's entry, or a new one at the end, the least id, and makes it needed and counts it if it was not needed and is now |
| RehashTable.OneMoreCall | apps/rehash.c:363-374 | One more call changes its own bucket only, and only a file that overflows counts as an error |
| RehashTable.NdxIs | apps/rehash.c:132-132 | The chain of a key, with the wrap-around of 32 bits |
| RehashTable.Scan | apps/rehash.c:363-374 | The scan of a directory leaves for every key the bucket of its own calls in order, and counts the errors of files |
| RehashTable.AfterOk | apps/rehash.c:124-187 | After any calls file names are unique per bucket, needed entries have distinct digests, and `num_needed` is the count of needed entries |
| RehashTable.OldIdIsMin | apps/rehash.c:179-180 | Without overflow every entry's id is the least one seen for that file, and no file seen is missing |
| RehashTable.DigestsComplete | apps/rehash.c:146-187 | Without overflow every digest that was added has a needed entry, and every needed entry is a file that was added |
| RehashTable.ZeroDigestLostIff | apps/rehash.c:147-152 | A file with a digest of all zeros is skipped if and only if some entry of its bucket is not needed |
| RehashPlan.IdsInUse | apps/rehash.c:378-418 | For distinct kept ids and any initial mask, the ids in use are an initial segment if and only if no bit that was set before and not cleared lies below their number, which is `num_needed` plus the unneeded links kept |
| RehashPlan.EveryMaskIff | apps/rehash.c:378-418 | For distinct kept ids every initial mask gives an initial segment without an access outside the mask if and only if that number is within the cleared bits and `num_needed` within 256 |
| RehashPlan.InsideLastId | apps/rehash.c:380-397 | All accesses stay inside the 32 bytes if and only if `num_needed` is at most 256 and the last id handed out is below 256 |
| RehashPlan.InsideForEveryMaskIff | apps/rehash.c:380-397 | They do so for every mask if and only if nothing is handed out or the ids in use fit the cleared bits |
| RehashPlan.FitsCleared | apps/rehash.c:380-397 | In a bucket that fits, no bit outside the cleared bytes is tested or set |
| RehashPlan.OnlyNeededIds | apps/rehash.c:378-418 | The ids in use are exactly those below `num_needed` if and only if no unneeded link is kept |
| RehashPlan.NeededIdsBijection | apps/rehash.c:385-418 | Then kept and new ids together are a bijection from the needed entries onto the ids below `num_needed` |
| RehashLinks.HoleIff | apps/rehash.c:385-433 | An id that is skipped or handed out has a link in the end unless it was skipped with nothing on disk, or dropped by an entry that comes after enough new ones |
| RehashLinks.ReachedIff | apps/rehash.c:385-433 | After a bucket is processed, in any list order, with any mask and any other links on disk, probing 0, 1, 2, ... meets every needed file before the first gap if and only if every entry that gets an id at or beyond a hole has a link left from before below it |
| RehashOrder.ReachedCleanIff | apps/rehash.c:385-433 | With no dirty bit among the ids in use: links that are never removed leave all files reached, and otherwise all are if and only if every dropped id is at least the kept ids plus the new entries before it |
| RehashOrder.EveryOrderIff | apps/rehash.c:385-433 | Likewise every list order reaches all files if and only if no dropped id is below the number of ids in use |
| RehashOrder.AlwaysReachedIff | apps/rehash.c:378-433 | With nothing on disk right after the cleared bits: every order and every mask reach all files, inside the mask, if and only if the ids in use fit the cleared bits and no dropped id is below their number |
| RehashOrder.DirtyBitFails | apps/rehash.c:380-397 | A dirty bit among the ids in use with nothing on disk under its number always leaves some needed file unreached |
| RehashExamples.StaleExample | apps/rehash.c:387-393 | A scanned directory in which a stale link 0 pushes the only needed file to id 1 |
| RehashExamples.ClobberExample | apps/rehash.c:411-433 | A scanned directory in which a later deletion removes a new link |
| RehashExamples.DirtyExample | apps/rehash.c:380-397 | A scanned directory whose last file is found or not depending on one bit that was never cleared |
| RehashNarrow.NarrowingIff | apps/rehash.c:217-226 | With one link per file and no unneeded link kept, for any order and mask: every needed file is reached if and only if no link whose number as stored is below `num_needed` has a number above 65535; a number too large for an unsigned long is stored as 65535 |
| RehashNarrow.ScanNarrowingIff | apps/rehash.c:193-227 | The same condition for every scan of such a directory |
| RehashNarrow.OneLinkIff | apps/rehash.c:217-226 | A single file with a single link is found if and only if the link's number is at most 65535, or too large for an unsigned long, or no multiple of 65536 |
| RehashDir.MarkKept | apps/rehash.c:380-383 | The clearing stays inside the mask exactly for `num_needed` up to 256; then the mask is the set of kept ids and of the bits that were set beyond the cleared ones |
| RehashDir.FindFree | apps/rehash.c:396-397 | For any mask the search stops at the next free id, or leaves the mask exactly if there is none inside |
| RehashDir.MakeLink | apps/rehash.c:405-417 | What is reported is the number of calls that failed, which is none if none is refused; without failures the link is there |
| RehashDir.ProcessBucket | apps/rehash.c:378-433 | For any bucket and mask the loops stay inside the mask exactly when the plan says so; then the mask is the set of ids in use and of the dirty bits, and without errors the links on disk are the planned ones; other buckets' links are untouched; the errors are the calls that failed, none if none is refused |
| RehashDir.ProcessTable | apps/rehash.c:376-440 | All buckets are processed, each from the links it started with and the mask that the ones before have left; an access outside the mask means that some bucket does not fit its cleared bits |
| RehashDir.FilesReached | apps/rehash.c:376-440 | The planned links of a good bucket, for any mask, lead a probe to a file with the digest of every certificate scanned |
| RehashDir.Rehash | apps/rehash.c:320-446 | The errors are the files that overflowed and the calls that failed, and no call fails unless one is refused; after a run without errors a linear probe meets, for every certificate and revocation list in a good bucket, a file with its digest before the first gap, for any reading order and any initial mask |
| CmsOptions.SigningOptions.Run | apps/cms.c:659-681 | The option list is accepted if and only if it can be cut into one group per signer; then signer, key and key options i are those of group i, and the signers are the -signer arguments in order; each refusal has its exact cause |
| CmsOptions.SigningOptions.OnSigner | apps/cms.c:521-537 | A signer joins the pending group or closes it; an unpaired signer is its own key |
| CmsOptions.SigningOptions.OnInKey | apps/cms.c:538-556 | A key joins the pending group or closes it, and is refused exactly if the group would have no signer |
| CmsOptions.SigningOptions.OnKeyOpt | apps/cms.c:579-608 | A key option goes to the pending pair, at the end of its node, and is refused exactly if nothing is pending |
| CmsOptions.SigningOptions.Finish | apps/cms.c:659-681 | The last group is closed, or refused exactly if it has no signer |
| CmsOptions.SigningOptions.Signatures | apps/cms.c:976-1011 | The signing loop gives each signature the signer, the key and the key options of its own group |
| CmsOptions.TwoSigners | apps/cms.c:521-608 | A signer with a key and a key option, and one that is its own key, as two groups |
| CmsOptions.KeyFirst | apps/cms.c:538-556 | A key may come before its signer, and a second key opens a group of its own |
| CmsOptions.CutUnique | apps/cms.c:521-556 | There is only one way to cut the options |
| CmsOptions.GroupingIsCut | apps/cms.c:521-556 | Every cut that is fit for signing is the greedy one |
| CmsOptions.CutIsGrouping | apps/cms.c:659-681 | The greedy cut is fit for signing if it starts with a signer or key and every group has a signer |
| CmsOptions.NoGrouping | apps/cms.c:540-544 | A closed group without a signer rules out every cut, whatever follows |
| CmsOptions.KeysConserved | apps/cms.c:538-556 | Every -inkey argument belongs to exactly one group, in order |
| CmsOptions.FlattenReads | apps/cms.c:521-537 | Every -signer argument is the signer of exactly one group, in order |
| CmsOptions.ParamsAdd | apps/cms.c:592-607 | Node indices stay strictly increasing, and each option list is that of its group |

## Left out

- Option tables, help texts, prompts, printing and configuration files of all commands: user interface.
- X.509, ASN.1, EVP, PEM, CMS and OCSP library calls: syntax checks are predicates, digests arbitrary functions, signing an outcome.
- Failing memory allocations and failing digest calls.
- EBCDIC, VMS and Windows branches, DES crypt; the 32-bit counter of md5crypt's bit loop.
- The sockets, the HTTP reader, timeouts, sleeping and logging of the responder.
- The text format of the index file, and reading it; rows are values.
- Random serials, and creating a serial file that is missing: the issuing run starts with both live files present.
- Files cut off while being written: a new file is either absent or complete.
- Sorting the revocation list, its times and its number.
- Rehashing certificate ids with another digest for the response, and nonces.
- `get_certificate_status`, SPKAC requests and extensions, `preserve` and string type checks of `do_body`.
- The `set` numbers of name entries, and the comparison of string types inside a name entry: a value is compared as a whole.
- The cms commands other than signing, options given before the operation, and options that do not touch the signer lists.
- File names of rehash: parsing a link's name and writing it are abstract, so a link is its kind, hash, number and target. Names with a sign, blanks or leading zeros in the number are not told apart from the number. An unsigned long has 64 bits.
- The sorting of names before the scan: the theorems hold for every order, and the sorted one is among them.
- Linked lists and the pointers into them: hash chains, bucket lists and key parameter lists are sequences, so aliasing is not captured, only order and contents.
- RehashDir.Rehash: speaks of the files in good buckets. A bucket is good if it did not overflow, its needed entries fit an unsigned short and with its unneeded kept links fit the cleared bits, no link that is removed has a number among those in use, every scanned link whose stored number is below `num_needed` is on disk under that number, and each file has one digest, which is not all zeros. The overflow check (apps/rehash.c:161-167) runs only for new entries, which is why the count is a condition. What a bucket that is not good leads to is the subject of RehashLinks.ReachedIff.
- RehashDir.ProcessBucket: says nothing about what follows an access outside the mask, which the language does not define.
- RehashLinks.ReachedIff: takes the links recorded below `num_needed` to be on disk; RehashNarrow.NarrowingIff is about those that are not.
- RehashOrder.AlwaysReachedIff: with a link left right after the cleared bits, files may be found by luck; RehashLinks.ReachedIff says when.
- Dates in other forms than the two of RFC 5280 in the expiry pass. Its current time is always a UTCTIME: from 2050 on there is none (crypto/x509/x509_vfy.c:1899-1901, crypto/asn1/a_time.c:276-278) and the pass fails.
- CaRevInfo.RoundTrip: requires a current time without a comma, which no time has.
- CaIssue.IssueRun: a rotation that fails half-way may leave no live file; the contract then states only that the files present are consistent.
