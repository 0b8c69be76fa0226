# gpg-verifier: the verification pipeline in Dafny

A model of the local file-verification pipeline of gpg-verifier. A user supplies four files:
an armored OpenPGP public key, a hash file, a detached signature over the hash file, and a target
file. The page checks the signature, takes the first 64-character hex run out of the verified
text as the expected SHA-256 digest, hashes the target in 256 KiB slices with progress
reports, and compares the two digests. It keeps an ordered log and ends every run in exactly one
outcome.

Modules, one per source file, plus three small shared ones:

- `HashCalculator` (`hash_calculator.dfy`) models `calculateFileHash`. The method
  `CalculateFileHash` keeps the source's loop, its `start` offset, the hasher's absorbed bytes and
  `processedSize`. It is proved equal to `HashSpec`, which is declarative: slice k is
  `[k*chunkSize, min((k+1)*chunkSize, size))`, there are ceil(size/chunkSize) slices, and the
  first failing read ends the run. Lemmas on `HashSpec` cover tiling, slice sizes, progress, the
  empty file, read failures and chunk-size independence.
- `HashComparer` (`hash_comparer.dfy`) models `compareHashes` as the predicate `CompareHashes`
  (trimmed equality) and proves its algebra.
- `SignatureVerifier` (`verify_signature.dfy`) models `verifyGpgSignature`. The method
  `VerifyGpgSignature` reassigns the locals step by step and is proved equal to `Verification`.
  Key normalisation is `ReplaceCrLf` inside `NormalizeKey`, the header check is `HasArmorHeader`
  and error classification is `ErrorFor`. All three are functions.
- `Page` (`page.dfy`) models the hex-digest extractor and `handleSubmit`. `ExtractHash` is the
  regex match and `toLowerCase` of the extractor, and `FirstHexRun` finds where the match starts. The class `Home` holds
  the page state. `HandleSubmit` runs the guard, the reset, the `try` block (split into one method
  per stage, each with its early `return`) and the `finally` clause. It is proved equal to the
  pure `Submit`, and the pipeline's properties are lemmas about `Submit`.
- `Strings` (`strings.dfy`) holds ECMAScript `trim` (over the WhiteSpace and LineTerminator
  characters), `includes`, ASCII case mapping and the class `[a-fA-F0-9]`. `Files` and
  `Wrappers` hold the input files and Option/Result.

Inputs from outside the model are parameters:
- `digestOf: seq<byte> -> string` is SHA-256 as hex, a function of everything absorbed.
- `decode: seq<byte> -> string` is `TextDecoder` / `File.text()`.
- `crypto: (key, signature, message) -> PgpOutcome` is the OpenPGP library. It either throws
  with a message or returns its signature entries and the key's fingerprint.

Read failures are data of the file. `wholeReadError` says that `text()` / `arrayBuffer()`
rejects. `chunkFaults` maps a slice offset to an empty `onload` result or an `onerror`.

"The library is never called" and "the target is never hashed" are stated as non-interference:
the result is the same for any two libraries, or for any two target files and hash functions.

What the code does that a reader might not expect:
- The key check looks only for `BEGIN PGP PUBLIC KEY BLOCK`. No END marker is checked.
- One generic error text covers malformed keys, signatures and messages, library failures other
  than a digest mismatch, and hashing read failures.
- After a mismatch, a missing digest or a read failure, `verificationResult` keeps the signer
  text set after the signature check. The page shows it beside the error.
- For an empty target file no progress call is made.

## Model

| member | source | states |
|---|---|---|
| `HashCalculator.CalculateFileHash` | src/app/HashCalculator.tsx:18-54 | the loop's digest, read offsets and progress calls equal `HashSpec`; the slices fed to `hasher.update` are the file's slices in order, and on success they concatenate to the whole file |
| `HashCalculator.ChunkStartBelowSize` | src/app/HashCalculator.tsx:49 | the loop condition `start < fileSize` holds at the k-th offset exactly when k < ceil(size / chunkSize), so the loop runs ceil(size / chunkSize) times |
| `HashCalculator.FirstFaultFrom` | src/app/HashCalculator.tsx:33-50 | the search finds the first slice whose read fails, and no earlier slice fails |
| `HashCalculator.ChunkShape` | src/app/HashCalculator.tsx:23-30 | every slice is non-empty and at most chunkSize long; each slice ends where the next starts, so all but the last are exactly chunkSize long; the last ends at the file's end |
| `HashCalculator.ConcatPrefix` | src/app/HashCalculator.tsx:29-51 | the first k slices concatenate to the file up to the k-th offset |
| `HashCalculator.ChunksTile` | src/app/HashCalculator.tsx:29-51 | all slices, in order, concatenate to exactly the file's bytes |
| `HashCalculator.ProgressCountsBytes` | src/app/HashCalculator.tsx:24-42 | each progress call reports the bytes of all slices so far, so processedSize grows by each slice's size; totalBytes is always the file size |
| `HashCalculator.ProgressIncreases` | src/app/HashCalculator.tsx:41-42 | reported progress strictly increases and never exceeds the file size |
| `HashCalculator.ProgressEndsAtSize` | src/app/HashCalculator.tsx:41-51 | a successful run on a non-empty file makes one call per slice, and the last reports (fileSize, fileSize) |
| `HashCalculator.EmptyFileRun` | src/app/HashCalculator.tsx:49-53 | a zero-length file makes no reads and no progress calls and yields the digest of the empty sequence |
| `HashCalculator.ReadFailureStops` | src/app/HashCalculator.tsx:33-50 | a failed read rejects with that slice's offset and fault; it is the last offset read, every earlier read succeeded and was reported, and no digest is returned |
| `HashCalculator.DigestIgnoresChunkSize` | src/app/HashCalculator.tsx:40-53 | without read failures the digest is that of the whole file in one pass, for every positive slice size |
| `HashComparer.CompareReflexive` | src/app/HashComparer.tsx:3-5 | every digest string compares equal to itself |
| `HashComparer.CompareSymmetric` | src/app/HashComparer.tsx:3-5 | argument order does not matter |
| `HashComparer.CompareTransitive` | src/app/HashComparer.tsx:3-5 | comparison is transitive |
| `HashComparer.CompareIgnoresPadding` | src/app/HashComparer.tsx:4 | leading or trailing whitespace on either argument does not change the result |
| `HashComparer.CompareUnpaddedIsEquality` | src/app/HashComparer.tsx:4 | for strings without surrounding whitespace the comparison is exactly string equality |
| `HashComparer.CompareIsCaseSensitive` | src/app/HashComparer.tsx:4 | no case folding: a string holding a lower-case letter never compares equal to its upper-case spelling, with or without surrounding whitespace |
| `Strings.TrimIsCore` | src/app/HashComparer.tsx:4 | `trim` keeps one contiguous slice, removes only whitespace before and after it, and the slice is empty or starts and ends with non-whitespace |
| `Strings.TrimIgnoresPadding` | src/app/HashComparer.tsx:4 | `trim` of a string padded with whitespace on both sides equals `trim` of the string |
| `Strings.TrimIdempotent` | src/app/utils/verifyGPGSignature.tsx:26 | trimming twice is trimming once |
| `Strings.ContainsIffOccurs` | src/app/utils/verifyGPGSignature.tsx:27 | `includes` holds exactly when some slice of the string equals the searched text |
| `SignatureVerifier.VerifyGpgSignature` | src/app/utils/verifyGPGSignature.tsx:3-54 | the step-by-step try/catch body returns exactly `Verification` of its inputs |
| `SignatureVerifier.ReplaceCrLfIsDropCrBeforeLf` | src/app/utils/verifyGPGSignature.tsx:26 | replacing CR LF with LF left to right deletes exactly the CRs that precede an LF; all other characters stay, in order |
| `SignatureVerifier.ReplaceCrLfOnlyRemovesCr` | src/app/utils/verifyGPGSignature.tsx:26 | with CRs ignored, the normalised text equals the original |
| `SignatureVerifier.ReplaceCrLfKeepsPlainText` | src/app/utils/verifyGPGSignature.tsx:26 | text without a CR LF pair is unchanged |
| `SignatureVerifier.ErrorClassification` | src/app/utils/verifyGPGSignature.tsx:45-50 | a message containing "Signed digest did not match" yields exactly the invalid-signature text; any other yields the generic text |
| `SignatureVerifier.ExactlyOneOutcome` | src/app/utils/verifyGPGSignature.tsx:8-53 | either no error and a non-empty result text, or an error (invalid or generic) and an empty result text |
| `SignatureVerifier.SuccessExactlyWhenFirstSignatureValid` | src/app/utils/verifyGPGSignature.tsx:31-44 | no error exactly when all reads succeed, the normalised key has the header and the first signature entry is valid; the result text is then the valid prefix followed by the fingerprint |
| `SignatureVerifier.MissingHeaderSkipsLibrary` | src/app/utils/verifyGPGSignature.tsx:26-35 | without the BEGIN header the library plays no part; the generic error, an empty result text and the decoded hash file are returned |
| `SignatureVerifier.InvalidSignatureReported` | src/app/utils/verifyGPGSignature.tsx:40-50 | a rejected first `verified` promise gives the invalid-signature error exactly when its message names the digest mismatch, and the generic error otherwise |
| `SignatureVerifier.OnlyFirstSignatureCounts` | src/app/utils/verifyGPGSignature.tsx:40-41 | signature entries after the first never change the result |
| `SignatureVerifier.VerifiedDataAlwaysReturned` | src/app/utils/verifyGPGSignature.tsx:10-20 | once the files are read, the decoded hash file is returned whatever the signature verdict; before that it is empty |
| `Page.FirstHexRun` | src/app/page.tsx:62-63 | the search returns a position where 64 hex characters start, and no earlier position starts such a run |
| `Page.ExtractHashFindsLeftmostRun` | src/app/page.tsx:62-71 | a digest is found exactly when some 64 hex characters stand in a row; it is the leftmost run, lower-cased, 64 characters of [0-9a-f] |
| `Page.LongerRunYieldsPrefix` | src/app/page.tsx:62-71 | a first hex run longer than 64 characters yields its first 64 characters |
| `Page.ExtractHashIgnoresCase` | src/app/page.tsx:62-71 | lower-casing the verified text first extracts the same digest |
| `Page.Home.constructor` | src/app/page.tsx:11-21 | the page starts with an empty result, no error, an empty log, zero processed bytes and both flags off |
| `Page.Home.HandleSubmit` | src/app/page.tsx:23-123 | with a file missing nothing changes; otherwise the state, reset first and completed by the finally clause, equals `Submit` of the four files |
| `Page.Home.RunStages` | src/app/page.tsx:35-56 | from the reset state, the try block leaves the result, error, log and processed bytes `Submit` gives |
| `Page.Home.RunExtraction` | src/app/page.tsx:57-76 | the extraction stage appends its lines, stops with the no-hash error, or hands the lower-cased digest on to hashing |
| `Page.Home.RunHashing` | src/app/page.tsx:77-118 | the hashing stage records the last progress value and either appends the computed-hash and comparing lines or, on a rejected read, takes the catch path |
| `Page.Home.RunComparison` | src/app/page.tsx:95-110 | on a match the success line is appended to the result text and the log; otherwise the mismatch error is set and logged |
| `Page.RunEndsInOneOutcome` | src/app/page.tsx:35-122 | every run logs the verifying line first, ends its log with a verdict line, and logs no verdict line before it; loading ends false and completion true; the error is absent exactly when the verdict is a match |
| `Page.SignatureFailureStops` | src/app/page.tsx:44-48 | a signature error is shown with the log [verifying, signature failed], and target file and hash function play no part |
| `Page.VerifierErrorsAreTruthy` | src/app/page.tsx:44 | every error the verifier reports is a non-empty string, so `if (err)` sees it |
| `Page.NoHashSkipsHashing` | src/app/page.tsx:62-69 | without a hex run the no-hash error and log line end the run, processed bytes stay 0, and the target file is never hashed |
| `Page.VerdictFollowsComparison` | src/app/page.tsx:95-110 | the verdict is a match exactly when `compareHashes(extracted, computed)` holds, that is when the trimmed digest of the whole target equals the extracted digest; log and result text are given in full for both verdicts, and processed bytes end at the target's size |
| `Page.ReadFailureIsCritical` | src/app/page.tsx:82-118 | a rejected read sets the generic error, appends the critical line after the calculating line, and leaves processed bytes at the failing slice's offset |

## Left out

- React rendering, `useState` plumbing and the `FileInput` component: setters are modelled as assignments to the fields of `Home`. How files get selected is UI; the constructor takes the selections.
- The `HashCalculator` and `HashComparer` components and `formatSize`: UI, and `formatSize` uses floating point.
- The percentage `progress` state (`toFixed` on a float division): floating point. Only `processedBytes` is modelled.
- SHA-256 itself (`hash-wasm`): the parameter `digestOf`. A failure of `createSHA256` is not modelled.
- OpenPGP parsing and verification: the parameter `crypto`. The fingerprint is the string the outcome carries. The `|| publicKey.getFingerprint` fallback for an empty fingerprint is not modelled.
- UTF-8 decoding: the parameter `decode`.
- `console.log` calls: output only.
- Promises, `await` and `FileReader` events: reads are sequential calls that can fail.
- The progress callback: `CalculateFileHash` returns the list of progress calls. The page sets `processedBytes` from the last one after hashing returns, not during the loop; the final state is the same.
- The text of the TypeError raised when `verification.signatures` is empty depends on the JavaScript engine. It is a constant without the mismatch phrase, so it classifies as generic, as every engine's text does.
- A thrown value without a `message` (which would make the `catch` clause itself throw): every failure carries a message string.
- `toLowerCase` is modelled on ASCII letters only. That is exact for the 64 hex characters it is applied to.
- JavaScript numbers: sizes and offsets are unbounded naturals. Files beyond 2^53 bytes are not modelled.
- The slice size is a parameter of `CalculateFileHash`. The page passes the constant `ChunkSize`, 256 KiB.
- `next.config.ts`: build configuration.
