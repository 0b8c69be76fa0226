/**
 * The form handler `handleSubmit` of the home page: verify the signature over the hash file,
 * pull the expected SHA-256 digest out of the verified text, hash the target file and compare,
 * keeping an ordered log and ending every run in exactly one outcome.
 */
module Page {
  import opened Wrappers
  import opened Strings
  import opened Files
  import opened HashCalculator
  import opened HashComparer
  import opened SignatureVerifier

  // ---------------------------------------------------------------------------
  // Digest extraction: `verifiedData.match(/[a-fA-F0-9]{64}/)`, then `toLowerCase()`

  const DigestLength: nat := 64

  /** 64 characters of `[a-fA-F0-9]` start at position i of s. */
  predicate HexRunAt(s: string, i: nat)
  {
    i + DigestLength <= |s| && forall j | i <= j < i + DigestLength :: IsHexDigit(s[j])
  }

  /** The leftmost position at or after `from` where a hex run starts: where the regex matches. */
  function FirstHexRun(s: string, from: nat): (r: Option<nat>)
    decreases |s| - from
    ensures r.Some? ==> from <= r.value && HexRunAt(s, r.value)
    ensures forall i :: from <= i && (r.None? || i < r.value) ==> !HexRunAt(s, i)
  {
    if from + DigestLength > |s| then None
    else if HexRunAt(s, from) then Some(from)
    else FirstHexRun(s, from + 1)
  }

  /** `match[0].toLowerCase()`, or None when the text holds no 64-character hex run. */
  function ExtractHash(text: string): Option<string>
  {
    match FirstHexRun(text, 0)
    case None => None
    case Some(i) => Some(ToLower(text[i..i + DigestLength]))
  }

  predicate IsLowerHexDigit(c: char)
  {
    ('0' <= c <= '9') || ('a' <= c <= 'f')
  }

  /**
   * Extraction finds a digest exactly when some 64 hex characters stand in a row, and then
   * returns the leftmost such run, lower-cased: 64 characters of `[0-9a-f]`.
   */
  lemma ExtractHashFindsLeftmostRun(text: string)
    ensures ExtractHash(text).Some? <==> exists i: nat :: HexRunAt(text, i)
    ensures ExtractHash(text).Some? ==>
              exists i: nat :: HexRunAt(text, i) && (forall k :: 0 <= k < i ==> !HexRunAt(text, k)) &&
                          ExtractHash(text).value == ToLower(text[i..i + DigestLength])
    ensures ExtractHash(text).Some? ==>
              |ExtractHash(text).value| == DigestLength &&
              forall j :: 0 <= j < DigestLength ==> IsLowerHexDigit(ExtractHash(text).value[j])
  {
    match FirstHexRun(text, 0)
    case None =>
    case Some(i) =>
      var h := ToLower(text[i..i + DigestLength]);
      forall j | 0 <= j < DigestLength
        ensures IsLowerHexDigit(h[j])
      {
        assert IsHexDigit(text[i + j]);
      }
  }

  /** A hex run longer than 64 characters that is the first one yields its first 64 characters. */
  lemma LongerRunYieldsPrefix(text: string, i: nat, m: nat)
    requires DigestLength <= m && i + m <= |text|
    requires forall j :: i <= j < i + m ==> IsHexDigit(text[j])
    requires forall k :: 0 <= k < i ==> !HexRunAt(text, k)
    ensures ExtractHash(text) == Some(ToLower(text[i..i + DigestLength]))
  {
    assert HexRunAt(text, i);
  }

  lemma {:induction false} LowerKeepsHexRuns(text: string, i: nat)
    ensures HexRunAt(ToLower(text), i) <==> HexRunAt(text, i)
  {
    if i + DigestLength <= |text| {
      var lower := ToLower(text);
      assert forall j :: i <= j < i + DigestLength ==> (IsHexDigit(lower[j]) <==> IsHexDigit(text[j]));
    }
  }

  lemma {:induction false} LowerKeepsFirstRun(text: string, from: nat)
    ensures FirstHexRun(ToLower(text), from) == FirstHexRun(text, from)
    decreases |text| - from
  {
    LowerKeepsHexRuns(text, from);
    if from + DigestLength <= |text| && !HexRunAt(text, from) {
      LowerKeepsFirstRun(text, from + 1);
    }
  }

  /** The case of the verified text does not matter: lower-casing it first extracts the same digest. */
  lemma ExtractHashIgnoresCase(text: string)
    ensures ExtractHash(ToLower(text)) == ExtractHash(text)
  {
    LowerKeepsFirstRun(text, 0);
    if FirstHexRun(text, 0).Some? {
      var i := FirstHexRun(text, 0).value;
      assert ToLower(ToLower(text)[i..i + DigestLength]) == ToLower(text[i..i + DigestLength]);
    }
  }

  // ---------------------------------------------------------------------------
  // The log lines and error texts of `handleSubmit`

  const VerifyingLog := "🔍 Verifying signature..."
  const SignatureFailedLog := "❌ Signature verification failed"
  const SignatureVerifiedLog := "✅ Signature verified successfully"
  const NoHashError := "No valid SHA256 hash found in the verified file"
  const NoHashLog := "❌ No valid SHA256 hash found"
  const ComparingLog := "🔍 Comparing hashes..."
  const MatchLog := "✅ Hashes match - File is legitimate"
  const MatchSuffix := " \n\n ✅ Hashes match - File is legitimate"
  const MismatchError := "❌ Hashes do not match - File may have been tampered with"
  const MismatchLog := "❌ Hashes do not match"
  const CriticalLog := "❌ Critical error during verification"

  function ExtractingLog(hashFileName: string): string
  {
    "🔍 Extracting hash from verified file (" + hashFileName + ")..."
  }

  function ExtractedLog(hash: string): string
  {
    "✅ Extracted hash: " + hash
  }

  function CalculatingLog(fileName: string): string
  {
    "🔨 Calculating file hash for  " + fileName + " ..."
  }

  function ComputedLog(fileName: string, hash: string): string
  {
    "✅ Computed hash for " + fileName + ": " + hash + " "
  }

  /** JavaScript truthiness of `string | null`: `if (err)`. */
  predicate Truthy(e: Option<string>)
  {
    e.Some? && e.value != ""
  }

  // ---------------------------------------------------------------------------
  // The specified run

  /** The page state `handleSubmit` controls (the percentage `progress` is not modelled). */
  datatype PageState = PageState(
    verificationResult: string,
    error: Option<string>,
    logMessages: seq<string>,
    processedBytes: nat,
    isLoading: bool,
    isVerificationComplete: bool)

  /** The state after the `finally` clause. */
  function Finished(verificationResult: string, error: Option<string>, log: seq<string>, processed: nat): PageState
  {
    PageState(verificationResult, error, log, processed, false, true)
  }

  /** `processedBytes` after the progress calls: the last one's bytes, or 0 if there were none. */
  function LastProcessed(progress: seq<Progress>): nat
  {
    if progress == [] then 0 else progress[|progress| - 1].processed
  }

  /** One run of `handleSubmit` once all four files are selected. */
  function Submit(publicKeyFile: UserFile, hashFile: UserFile, signatureFile: UserFile, fileToHash: UserFile,
                  decode: seq<byte> -> string, crypto: Crypto, digestOf: seq<byte> -> string): PageState
  {
    var v := Verification(publicKeyFile, hashFile, signatureFile, decode, crypto);
    if Truthy(v.error) then
      Finished("", v.error, [VerifyingLog, SignatureFailedLog], 0)
    else
      ExtractStage(v.verificationResult, v.verifiedData,
                   [VerifyingLog, SignatureVerifiedLog, v.verificationResult] + [ExtractingLog(hashFile.name)],
                   fileToHash, digestOf)
  }

  /** From the extraction on, after a successful signature check that produced `result`. */
  function ExtractStage(result: string, verifiedData: string, log: seq<string>,
                        fileToHash: UserFile, digestOf: seq<byte> -> string): PageState
  {
    match ExtractHash(verifiedData)
    case None =>
      Finished(result, Some(NoHashError), log + [NoHashLog], 0)
    case Some(expected) =>
      HashStage(result, expected, log + [ExtractedLog(expected), CalculatingLog(fileToHash.name)],
                HashSpec(fileToHash, ChunkSize, digestOf), fileToHash.name)
  }

  /** From the end of hashing on, given the engine's run. */
  function HashStage(result: string, expected: string, log: seq<string>, run: HashRun, fileName: string): PageState
  {
    var processed := LastProcessed(run.progress);
    match run.digest
    case Err(_) =>
      Finished(result, Some(GenericError), log + [CriticalLog], processed)
    case Ok(computed) =>
      CompareStage(result, expected, computed, log + [ComputedLog(fileName, computed), ComparingLog], processed)
  }

  /** The comparison and the verdict. */
  function CompareStage(result: string, expected: string, computed: string, log: seq<string>, processed: nat): PageState
  {
    if CompareHashes(expected, computed) then
      Finished(result + MatchSuffix, None, log + [MatchLog], processed)
    else
      Finished(result, Some(MismatchError), log + [MismatchLog], processed)
  }

  // ---------------------------------------------------------------------------
  // Properties of a run

  /** The five lines that close a run with its verdict. */
  predicate IsVerdictLog(line: string)
  {
    line in {SignatureFailedLog, NoHashLog, CriticalLog, MatchLog, MismatchLog}
  }

  /** A line led by 🔍 or 🔨, or by ✅ with anything but the match line's 'H' after it, is no verdict. */
  lemma NotAVerdict(line: string)
    requires |line| >= 3
    requires line[0] == '🔍' || line[0] == '🔨' || (line[0] == '✅' && line[2] != 'H')
    ensures !IsVerdictLog(line)
  {
  }

  /** No line of `log` is a verdict. */
  ghost predicate NoVerdict(log: seq<string>)
  {
    forall i :: 0 <= i < |log| ==> !IsVerdictLog(log[i])
  }

  /** `log` ends with a verdict line and has no verdict line before it. */
  ghost predicate OneVerdictLast(log: seq<string>)
  {
    |log| > 0 && IsVerdictLog(log[|log| - 1]) && NoVerdict(log[..|log| - 1])
  }

  lemma CompareStageOneVerdict(result: string, expected: string, computed: string, log: seq<string>, processed: nat)
    requires NoVerdict(log)
    ensures OneVerdictLast(CompareStage(result, expected, computed, log, processed).logMessages)
  {
    var l := CompareStage(result, expected, computed, log, processed).logMessages;
    assert l[..|l| - 1] == log;
  }

  lemma HashStageOneVerdict(result: string, expected: string, log: seq<string>, run: HashRun, fileName: string)
    requires NoVerdict(log)
    ensures OneVerdictLast(HashStage(result, expected, log, run, fileName).logMessages)
  {
    match run.digest
    case Err(_) =>
      var l := HashStage(result, expected, log, run, fileName).logMessages;
      assert l[..|l| - 1] == log;
    case Ok(computed) =>
      NotAVerdict(ComputedLog(fileName, computed));
      NotAVerdict(ComparingLog);
      CompareStageOneVerdict(result, expected, computed, log + [ComputedLog(fileName, computed), ComparingLog],
                             LastProcessed(run.progress));
  }

  lemma ExtractStageOneVerdict(result: string, verifiedData: string, log: seq<string>,
                               fileToHash: UserFile, digestOf: seq<byte> -> string)
    requires NoVerdict(log)
    ensures OneVerdictLast(ExtractStage(result, verifiedData, log, fileToHash, digestOf).logMessages)
  {
    match ExtractHash(verifiedData)
    case None =>
      var l := ExtractStage(result, verifiedData, log, fileToHash, digestOf).logMessages;
      assert l[..|l| - 1] == log;
    case Some(expected) =>
      NotAVerdict(ExtractedLog(expected));
      NotAVerdict(CalculatingLog(fileToHash.name));
      HashStageOneVerdict(result, expected, log + [ExtractedLog(expected), CalculatingLog(fileToHash.name)],
                          HashSpec(fileToHash, ChunkSize, digestOf), fileToHash.name);
  }

  /**
   * Every run starts its log with the verifying line, ends it with a verdict line and has no
   * verdict line before that one; it leaves the loading flag off and the completion flag on, and
   * the error is absent exactly when the verdict is a match.
   */
  lemma RunEndsInOneOutcome(key: UserFile, data: UserFile, sig: UserFile, target: UserFile,
                            decode: seq<byte> -> string, crypto: Crypto, digestOf: seq<byte> -> string)
    ensures var st := Submit(key, data, sig, target, decode, crypto, digestOf);
            var log := st.logMessages;
            !st.isLoading && st.isVerificationComplete &&
            |log| >= 2 && log[0] == VerifyingLog &&
            IsVerdictLog(log[|log| - 1]) &&
            (forall i :: 0 <= i < |log| - 1 ==> !IsVerdictLog(log[i])) &&
            (st.error.None? <==> log[|log| - 1] == MatchLog)
  {
    SubmitOneVerdict(key, data, sig, target, decode, crypto, digestOf);
    var log := Submit(key, data, sig, target, decode, crypto, digestOf).logMessages;
    forall i | 0 <= i < |log| - 1
      ensures !IsVerdictLog(log[i])
    {
      assert log[i] == log[..|log| - 1][i];
    }
  }

  lemma SubmitOneVerdict(key: UserFile, data: UserFile, sig: UserFile, target: UserFile,
                         decode: seq<byte> -> string, crypto: Crypto, digestOf: seq<byte> -> string)
    ensures OneVerdictLast(Submit(key, data, sig, target, decode, crypto, digestOf).logMessages)
  {
    var v := Verification(key, data, sig, decode, crypto);
    NotAVerdict(VerifyingLog);
    if Truthy(v.error) {
      assert [VerifyingLog, SignatureFailedLog][..1] == [VerifyingLog];
    } else {
      ExactlyOneOutcome(key, data, sig, decode, crypto);
      SuccessExactlyWhenFirstSignatureValid(key, data, sig, decode, crypto);
      NotAVerdict(SignatureVerifiedLog);
      NotAVerdict(v.verificationResult);
      NotAVerdict(ExtractingLog(data.name));
      ExtractStageOneVerdict(v.verificationResult, v.verifiedData,
                             [VerifyingLog, SignatureVerifiedLog, v.verificationResult] + [ExtractingLog(data.name)],
                             target, digestOf);
    }
  }

  /**
   * A failed signature check stops the run: the verifier's error is shown, nothing after the
   * signature line is logged, and the target file and hash function play no part.
   */
  lemma SignatureFailureStops(key: UserFile, data: UserFile, sig: UserFile, target1: UserFile, target2: UserFile,
                              decode: seq<byte> -> string, crypto: Crypto,
                              digestOf1: seq<byte> -> string, digestOf2: seq<byte> -> string)
    requires Truthy(Verification(key, data, sig, decode, crypto).error)
    ensures Submit(key, data, sig, target1, decode, crypto, digestOf1) ==
            Finished("", Verification(key, data, sig, decode, crypto).error, [VerifyingLog, SignatureFailedLog], 0)
    ensures Submit(key, data, sig, target1, decode, crypto, digestOf1) ==
            Submit(key, data, sig, target2, decode, crypto, digestOf2)
  {
  }

  /** Every error the verifier reports is truthy, so `if (err)` catches each one. */
  lemma VerifierErrorsAreTruthy(key: UserFile, data: UserFile, sig: UserFile,
                                decode: seq<byte> -> string, crypto: Crypto)
    ensures Verification(key, data, sig, decode, crypto).error.Some? ==>
            Truthy(Verification(key, data, sig, decode, crypto).error)
  {
    ExactlyOneOutcome(key, data, sig, decode, crypto);
  }

  /**
   * Verified text without a 64-character hex run ends the run with the no-hash error; the
   * target file is never hashed, so neither it nor the hash function plays a part.
   */
  lemma NoHashSkipsHashing(key: UserFile, data: UserFile, sig: UserFile, target1: UserFile, target2: UserFile,
                           decode: seq<byte> -> string, crypto: Crypto,
                           digestOf1: seq<byte> -> string, digestOf2: seq<byte> -> string)
    requires var v := Verification(key, data, sig, decode, crypto);
             !Truthy(v.error) && ExtractHash(v.verifiedData).None?
    ensures var v := Verification(key, data, sig, decode, crypto);
            Submit(key, data, sig, target1, decode, crypto, digestOf1) ==
            Finished(v.verificationResult, Some(NoHashError),
                     [VerifyingLog, SignatureVerifiedLog, v.verificationResult, ExtractingLog(data.name), NoHashLog], 0)
    ensures Submit(key, data, sig, target1, decode, crypto, digestOf1) ==
            Submit(key, data, sig, target2, decode, crypto, digestOf2)
  {
  }

  /**
   * Once both digests exist, the verdict is a match exactly when `compareHashes` holds, which for
   * the lower-case extracted digest means the trimmed digest of the whole target file equals it.
   * A match appends the success line to the result text and to the log; a mismatch sets the
   * error. Either way every byte of the target was reported as processed.
   */
  lemma VerdictFollowsComparison(key: UserFile, data: UserFile, sig: UserFile, target: UserFile,
                                 decode: seq<byte> -> string, crypto: Crypto, digestOf: seq<byte> -> string,
                                 expected: string)
    requires var v := Verification(key, data, sig, decode, crypto);
             !Truthy(v.error) && ExtractHash(v.verifiedData) == Some(expected)
    requires HashSpec(target, ChunkSize, digestOf).digest.Ok?
    ensures var v := Verification(key, data, sig, decode, crypto);
            var st := Submit(key, data, sig, target, decode, crypto, digestOf);
            var computed := digestOf(target.contents);
            var comparing := [VerifyingLog, SignatureVerifiedLog, v.verificationResult, ExtractingLog(data.name),
                              ExtractedLog(expected), CalculatingLog(target.name),
                              ComputedLog(target.name, computed), ComparingLog];
            (st.error.None? <==> CompareHashes(expected, computed)) &&
            (CompareHashes(expected, computed) <==> Trim(computed) == expected) &&
            (st.error.None? ==> st.verificationResult == v.verificationResult + MatchSuffix &&
                                st.logMessages == comparing + [MatchLog]) &&
            (st.error.Some? ==> st.error == Some(MismatchError) && st.verificationResult == v.verificationResult &&
                                st.logMessages == comparing + [MismatchLog]) &&
            st.processedBytes == |target.contents|
  {
    ExtractHashFindsLeftmostRun(Verification(key, data, sig, decode, crypto).verifiedData);
    assert !IsWhitespace(expected[0]) && !IsWhitespace(expected[DigestLength - 1]) by {
      assert IsLowerHexDigit(expected[0]) && IsLowerHexDigit(expected[DigestLength - 1]);
    }
    TrimKeepsUnpadded(expected);
    if |target.contents| == 0 {
      EmptyFileRun(target, ChunkSize, digestOf);
    } else {
      ProgressEndsAtSize(target, ChunkSize, digestOf);
    }
  }

  /**
   * A rejected read while hashing lands in the catch-all: the generic error, the critical log
   * line after the calculating line, and processed bytes equal to the failing slice's offset.
   */
  lemma ReadFailureIsCritical(key: UserFile, data: UserFile, sig: UserFile, target: UserFile,
                              decode: seq<byte> -> string, crypto: Crypto, digestOf: seq<byte> -> string,
                              expected: string)
    requires var v := Verification(key, data, sig, decode, crypto);
             !Truthy(v.error) && ExtractHash(v.verifiedData) == Some(expected)
    requires HashSpec(target, ChunkSize, digestOf).digest.Err?
    ensures var v := Verification(key, data, sig, decode, crypto);
            var st := Submit(key, data, sig, target, decode, crypto, digestOf);
            st == Finished(v.verificationResult, Some(GenericError),
                           [VerifyingLog, SignatureVerifiedLog, v.verificationResult, ExtractingLog(data.name),
                            ExtractedLog(expected), CalculatingLog(target.name), CriticalLog],
                           HashSpec(target, ChunkSize, digestOf).digest.error.start)
  {
    var j := FirstFault(target, ChunkSize).value;
    if j > 0 {
      ChunkStartBelowSize(j, |target.contents|, ChunkSize);
      ChunkShape(target.contents, ChunkSize, j - 1);
    }
  }

  // ---------------------------------------------------------------------------
  // The component's state and the handler

  class Home {
    var publicKeyFile: Option<UserFile>
    var hashFile: Option<UserFile>
    var signatureFile: Option<UserFile>
    var fileToHash: Option<UserFile>
    var verificationResult: string
    var isLoading: bool
    var error: Option<string>
    var logMessages: seq<string>
    var processedBytes: nat
    var isVerificationComplete: bool

    /** The page with the given file selections and every other piece of state at its initial value. */
    constructor (publicKeyFile: Option<UserFile>, hashFile: Option<UserFile>,
                 signatureFile: Option<UserFile>, fileToHash: Option<UserFile>)
      ensures this.publicKeyFile == publicKeyFile && this.hashFile == hashFile
      ensures this.signatureFile == signatureFile && this.fileToHash == fileToHash
      ensures State() == PageState("", None, [], 0, false, false)
    {
      this.publicKeyFile := publicKeyFile;
      this.hashFile := hashFile;
      this.signatureFile := signatureFile;
      this.fileToHash := fileToHash;
      verificationResult := "";
      isLoading := false;
      error := None;
      logMessages := [];
      processedBytes := 0;
      isVerificationComplete := false;
    }

    function State(): PageState
      reads this
    {
      PageState(verificationResult, error, logMessages, processedBytes, isLoading, isVerificationComplete)
    }

    predicate AllSelected()
      reads this
    {
      publicKeyFile.Some? && hashFile.Some? && signatureFile.Some? && fileToHash.Some?
    }

    /**
     * `handleSubmit`. Without all four files it returns at once and changes nothing; otherwise
     * it resets the state, runs the `try` block and then the `finally` clause, leaving the state
     * `Submit` describes.
     */
    method HandleSubmit(decode: seq<byte> -> string, crypto: Crypto, digestOf: seq<byte> -> string)
      modifies this
      ensures publicKeyFile == old(publicKeyFile) && hashFile == old(hashFile)
      ensures signatureFile == old(signatureFile) && fileToHash == old(fileToHash)
      ensures !old(AllSelected()) ==> State() == old(State())
      ensures old(AllSelected()) ==>
                State() == Submit(publicKeyFile.value, hashFile.value, signatureFile.value, fileToHash.value,
                                  decode, crypto, digestOf)
    {
      if publicKeyFile.None? || hashFile.None? || signatureFile.None? || fileToHash.None? {
        return;
      }

      isLoading := true;
      error := None;
      verificationResult := "";
      logMessages := [];
      processedBytes := 0;
      isVerificationComplete := false;

      RunStages(decode, crypto, digestOf);

      // finally
      isLoading := false;
      isVerificationComplete := true;
    }

    /** The page's fields other than the flags hold what `st` says. */
    predicate Shows(st: PageState)
      reads this
    {
      verificationResult == st.verificationResult && error == st.error &&
      logMessages == st.logMessages && processedBytes == st.processedBytes
    }

    /**
     * The `try` block with its `catch`, from freshly reset state: each stage appends to the log
     * and a failing stage returns early.
     */
    method RunStages(decode: seq<byte> -> string, crypto: Crypto, digestOf: seq<byte> -> string)
      requires AllSelected()
      requires verificationResult == "" && error == None && logMessages == [] && processedBytes == 0
      modifies this`verificationResult, this`error, this`logMessages, this`processedBytes
      ensures Shows(Submit(publicKeyFile.value, hashFile.value, signatureFile.value, fileToHash.value,
                           decode, crypto, digestOf))
    {
      logMessages := logMessages + [VerifyingLog];
      var verification := VerifyGpgSignature(publicKeyFile.value, hashFile.value, signatureFile.value, decode, crypto);
      if Truthy(verification.error) {
        error := verification.error;
        logMessages := logMessages + [SignatureFailedLog];
        assert logMessages == [VerifyingLog, SignatureFailedLog];
        return;
      }

      verificationResult := verification.verificationResult;
      logMessages := logMessages + [SignatureVerifiedLog, verification.verificationResult];
      assert logMessages == [VerifyingLog, SignatureVerifiedLog, verificationResult];
      RunExtraction(verification.verifiedData, hashFile.value.name, fileToHash.value, digestOf);
    }

    /** Hash extraction and what follows it. */
    method RunExtraction(verifiedData: string, hashFileName: string, targetFile: UserFile, digestOf: seq<byte> -> string)
      requires error == None && processedBytes == 0
      modifies this`verificationResult, this`error, this`logMessages, this`processedBytes
      ensures Shows(ExtractStage(old(verificationResult), verifiedData, old(logMessages) + [ExtractingLog(hashFileName)],
                                 targetFile, digestOf))
    {
      logMessages := logMessages + [ExtractingLog(hashFileName)];
      var found := ExtractHash(verifiedData);
      if found.None? {
        error := Some(NoHashError);
        logMessages := logMessages + [NoHashLog];
        return;
      }
      var extractedHash := found.value;
      logMessages := logMessages + [ExtractedLog(extractedHash)];
      logMessages := logMessages + [CalculatingLog(targetFile.name)];
      assert logMessages == old(logMessages) + [ExtractingLog(hashFileName)] +
                            [ExtractedLog(extractedHash), CalculatingLog(targetFile.name)];
      RunHashing(extractedHash, targetFile, digestOf);
    }

    /** File hashing; a rejected read lands in the `catch` clause. */
    method RunHashing(extractedHash: string, targetFile: UserFile, digestOf: seq<byte> -> string)
      requires error == None && processedBytes == 0
      modifies this`verificationResult, this`error, this`logMessages, this`processedBytes
      ensures Shows(HashStage(old(verificationResult), extractedHash, old(logMessages),
                              HashSpec(targetFile, ChunkSize, digestOf), targetFile.name))
    {
      ghost var fed: seq<seq<byte>>;
      var computed, requested, progress;
      computed, requested, progress, fed := CalculateFileHash(targetFile, ChunkSize, digestOf);
      if |progress| > 0 {
        processedBytes := progress[|progress| - 1].processed;
      }
      if computed.Err? {
        // catch
        error := Some(GenericError);
        logMessages := logMessages + [CriticalLog];
        return;
      }
      var computedHash := computed.value;
      logMessages := logMessages + [ComputedLog(targetFile.name, computedHash)];
      logMessages := logMessages + [ComparingLog];
      assert logMessages == old(logMessages) + [ComputedLog(targetFile.name, computedHash), ComparingLog];
      RunComparison(extractedHash, computedHash);
    }

    /** The comparison and the verdict. */
    method RunComparison(extractedHash: string, computedHash: string)
      requires error == None
      modifies this`verificationResult, this`error, this`logMessages
      ensures Shows(CompareStage(old(verificationResult), extractedHash, computedHash, old(logMessages), processedBytes))
      ensures processedBytes == old(processedBytes)
    {
      var hashesMatch := CompareHashes(extractedHash, computedHash);
      if hashesMatch {
        verificationResult := verificationResult + MatchSuffix;
        logMessages := logMessages + [MatchLog];
      } else {
        error := Some(MismatchError);
        logMessages := logMessages + [MismatchLog];
      }
    }
  }
}
