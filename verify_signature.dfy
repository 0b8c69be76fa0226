/**
 * `verifyGpgSignature(publicKeyFile, hashFile, signatureFile)`: read the three files, normalise
 * the armored key, refuse a key without the armor header line of section 6.2 of RFC 4880, hand
 * key, detached signature and message to the OpenPGP library, and turn what happens into a
 * result text, an error text and the decoded hash file. The library call is the parameter
 * `crypto`; UTF-8 decoding is the parameter `decode`.
 */
module SignatureVerifier {
  import opened Wrappers
  import opened Strings
  import opened Files

  const ArmorHeader := "BEGIN PGP PUBLIC KEY BLOCK"
  const DigestMismatchPhrase := "Signed digest did not match"
  const InvalidSignatureError := "❌ Signature is invalid."
  const GenericError := "❌ Verification failed. Please check your files and try again."
  const ValidPrefix := "✅ Signature is valid. Fingerprint: "
  /** The message of the error thrown for a key without the armor header. */
  const InvalidKeyBlockMessage := "Invalid key block"
  /** The message of the TypeError raised when `verification.signatures` is empty. */
  const MissingSignatureMessage := "signatures[0] is undefined"

  /** How the `verified` promise of one signature entry settles. */
  datatype SignatureCheck = Valid | Invalid(message: string)

  /**
   * What the library does with one key, one detached signature and one message: one of
   * `readKey`, `readSignature`, `createMessage` or `verify` throws, or `verify` returns its list
   * of signature entries, alongside the key's fingerprint.
   */
  datatype PgpOutcome =
    | Threw(message: string)
    | Verified(signatures: seq<SignatureCheck>, fingerprint: string)

  type Crypto = (string, seq<byte>, seq<byte>) -> PgpOutcome

  /** `{ verificationResult, error, verifiedData }` */
  datatype VerifyResult = VerifyResult(verificationResult: string, error: Option<string>, verifiedData: string)

  // ---------------------------------------------------------------------------
  // The expression parts

  /** `s.replace(/\r\n/g, "\n")`: left to right, each CR LF pair becomes LF. */
  function ReplaceCrLf(s: string): string
  {
    if |s| >= 2 && s[0] == '\r' && s[1] == '\n' then "\n" + ReplaceCrLf(s[2..])
    else if |s| == 0 then []
    else [s[0]] + ReplaceCrLf(s[1..])
  }

  /** Reference definition: every character of `s` except a CR immediately followed by LF, in order. */
  function DropCrBeforeLf(s: string): string
  {
    if |s| == 0 then []
    else (if s[0] == '\r' && |s| > 1 && s[1] == '\n' then [] else [s[0]]) + DropCrBeforeLf(s[1..])
  }

  /** Characters of `s` other than CR, in order. */
  function WithoutCr(s: string): string
  {
    if |s| == 0 then [] else (if s[0] == '\r' then [] else [s[0]]) + WithoutCr(s[1..])
  }

  /** `publicKeyArmored.replace(/\r\n/g, "\n").trim()` */
  function NormalizeKey(armored: string): string
  {
    Trim(ReplaceCrLf(armored))
  }

  /** `normalizedPublicKey.includes("BEGIN PGP PUBLIC KEY BLOCK")`; no END line is looked for. */
  predicate HasArmorHeader(key: string)
  {
    Contains(key, ArmorHeader)
  }

  /** The `catch` clause: the error text for an exception with the given message. */
  function ErrorFor(message: string): string
  {
    if Contains(message, DigestMismatchPhrase) then InvalidSignatureError else GenericError
  }

  // ---------------------------------------------------------------------------
  // The specified result

  /** The message of the exception the `try` block raises, or None when it runs to the end. */
  function Thrown(publicKeyFile: UserFile, hashFile: UserFile, signatureFile: UserFile,
                  decode: seq<byte> -> string, crypto: Crypto): Option<string>
  {
    if publicKeyFile.wholeReadError.Some? then publicKeyFile.wholeReadError
    else if signatureFile.wholeReadError.Some? then signatureFile.wholeReadError
    else if hashFile.wholeReadError.Some? then hashFile.wholeReadError
    else
      var key := NormalizeKey(decode(publicKeyFile.contents));
      if !HasArmorHeader(key) then Some(InvalidKeyBlockMessage)
      else match crypto(key, signatureFile.contents, hashFile.contents)
        case Threw(message) => Some(message)
        case Verified(signatures, _) =>
          if |signatures| == 0 then Some(MissingSignatureMessage)
          else match signatures[0]
            case Valid => None
            case Invalid(message) => Some(message)
  }

  predicate ReadsSucceed(publicKeyFile: UserFile, hashFile: UserFile, signatureFile: UserFile)
  {
    publicKeyFile.wholeReadError.None? && signatureFile.wholeReadError.None? && hashFile.wholeReadError.None?
  }

  function Verification(publicKeyFile: UserFile, hashFile: UserFile, signatureFile: UserFile,
                        decode: seq<byte> -> string, crypto: Crypto): VerifyResult
  {
    var data := if ReadsSucceed(publicKeyFile, hashFile, signatureFile) then decode(hashFile.contents) else "";
    match Thrown(publicKeyFile, hashFile, signatureFile, decode, crypto)
    case Some(message) => VerifyResult("", Some(ErrorFor(message)), data)
    case None =>
      var outcome := crypto(NormalizeKey(decode(publicKeyFile.contents)), signatureFile.contents, hashFile.contents);
      VerifyResult(ValidPrefix + outcome.fingerprint, None, data)
  }

  // ---------------------------------------------------------------------------
  // The function body, step by step

  method VerifyGpgSignature(publicKeyFile: UserFile, hashFile: UserFile, signatureFile: UserFile,
                            decode: seq<byte> -> string, crypto: Crypto)
    returns (result: VerifyResult)
    ensures result == Verification(publicKeyFile, hashFile, signatureFile, decode, crypto)
  {
    var verificationResult := "";
    var error: Option<string> := None;
    var verifiedData := "";
    var thrown: Option<string> := None;
    // try
    if publicKeyFile.wholeReadError.Some? {
      thrown := publicKeyFile.wholeReadError;
    } else if signatureFile.wholeReadError.Some? {
      thrown := signatureFile.wholeReadError;
    } else if hashFile.wholeReadError.Some? {
      thrown := hashFile.wholeReadError;
    } else {
      var publicKeyArmored := decode(publicKeyFile.contents);
      verifiedData := decode(hashFile.contents);
      var normalizedPublicKey := NormalizeKey(publicKeyArmored);
      if !HasArmorHeader(normalizedPublicKey) {
        thrown := Some(InvalidKeyBlockMessage);
      } else {
        var verification := crypto(normalizedPublicKey, signatureFile.contents, hashFile.contents);
        match verification
        case Threw(message) =>
          thrown := Some(message);
        case Verified(signatures, fingerprint) =>
          if |signatures| == 0 {
            thrown := Some(MissingSignatureMessage);
          } else {
            match signatures[0]
            case Invalid(message) =>
              thrown := Some(message);
            case Valid =>
              verificationResult := ValidPrefix + fingerprint;
          }
      }
    }
    // catch
    if thrown.Some? {
      error := Some(ErrorFor(thrown.value));
    }
    result := VerifyResult(verificationResult, error, verifiedData);
  }

  // ---------------------------------------------------------------------------
  // Properties

  /** CR LF replacement deletes exactly the CRs that precede an LF; lone CRs and LFs stay, in order. */
  lemma {:induction false} ReplaceCrLfIsDropCrBeforeLf(s: string)
    ensures ReplaceCrLf(s) == DropCrBeforeLf(s)
  {
    if |s| >= 2 && s[0] == '\r' && s[1] == '\n' {
      ReplaceCrLfIsDropCrBeforeLf(s[2..]);
      assert s[1..][1..] == s[2..];
    } else if |s| > 0 {
      ReplaceCrLfIsDropCrBeforeLf(s[1..]);
    }
  }

  /** Normalising only ever removes CR characters: everything else survives in its order. */
  lemma {:induction false} ReplaceCrLfOnlyRemovesCr(s: string)
    ensures WithoutCr(ReplaceCrLf(s)) == WithoutCr(s)
  {
    if |s| >= 2 && s[0] == '\r' && s[1] == '\n' {
      ReplaceCrLfOnlyRemovesCr(s[2..]);
      assert s[1..][1..] == s[2..];
      assert WithoutCr("\n" + ReplaceCrLf(s[2..])) == "\n" + WithoutCr(ReplaceCrLf(s[2..]));
    } else if |s| > 0 {
      ReplaceCrLfOnlyRemovesCr(s[1..]);
      assert WithoutCr([s[0]] + ReplaceCrLf(s[1..])) ==
             (if s[0] == '\r' then [] else [s[0]]) + WithoutCr(ReplaceCrLf(s[1..]));
    }
  }

  /** Text without CR LF pairs passes the replacement unchanged. */
  lemma {:induction false} ReplaceCrLfKeepsPlainText(s: string)
    requires forall i :: 0 <= i < |s| - 1 ==> !(s[i] == '\r' && s[i + 1] == '\n')
    ensures ReplaceCrLf(s) == s
  {
    if |s| > 0 {
      ReplaceCrLfKeepsPlainText(s[1..]);
    }
  }

  /** A failure message naming the digest mismatch yields the invalid-signature text; any other the generic one. */
  lemma ErrorClassification(message: string)
    ensures ErrorFor(message) == InvalidSignatureError <==> Contains(message, DigestMismatchPhrase)
    ensures ErrorFor(message) == GenericError <==> !Contains(message, DigestMismatchPhrase)
  {
  }

  /** Exactly one outcome: no error and a non-empty result text, or an error and an empty result text. */
  lemma ExactlyOneOutcome(publicKeyFile: UserFile, hashFile: UserFile, signatureFile: UserFile,
                          decode: seq<byte> -> string, crypto: Crypto)
    ensures var r := Verification(publicKeyFile, hashFile, signatureFile, decode, crypto);
            (r.error.None? && r.verificationResult != "") ||
            (r.error.Some? && r.verificationResult == "" &&
             (r.error.value == InvalidSignatureError || r.error.value == GenericError))
  {
  }

  /**
   * The check succeeds exactly when all files are read, the normalised key has the armor header,
   * and the library's first signature entry is valid; the result text then names the fingerprint.
   */
  lemma SuccessExactlyWhenFirstSignatureValid(publicKeyFile: UserFile, hashFile: UserFile, signatureFile: UserFile,
                                              decode: seq<byte> -> string, crypto: Crypto)
    ensures var r := Verification(publicKeyFile, hashFile, signatureFile, decode, crypto);
            var key := NormalizeKey(decode(publicKeyFile.contents));
            var outcome := crypto(key, signatureFile.contents, hashFile.contents);
            r.error.None? <==>
              ReadsSucceed(publicKeyFile, hashFile, signatureFile) && HasArmorHeader(key) &&
              outcome.Verified? && |outcome.signatures| > 0 && outcome.signatures[0] == Valid
    ensures var r := Verification(publicKeyFile, hashFile, signatureFile, decode, crypto);
            var outcome := crypto(NormalizeKey(decode(publicKeyFile.contents)), signatureFile.contents, hashFile.contents);
            r.error.None? ==> r.verificationResult == ValidPrefix + outcome.fingerprint
  {
  }

  /**
   * A key without the armor header is refused before the library is reached: the result is the
   * same whatever the library would do, with the generic error and no result text.
   */
  lemma MissingHeaderSkipsLibrary(publicKeyFile: UserFile, hashFile: UserFile, signatureFile: UserFile,
                                  decode: seq<byte> -> string, crypto1: Crypto, crypto2: Crypto)
    requires ReadsSucceed(publicKeyFile, hashFile, signatureFile)
    requires !HasArmorHeader(NormalizeKey(decode(publicKeyFile.contents)))
    ensures Verification(publicKeyFile, hashFile, signatureFile, decode, crypto1) ==
            Verification(publicKeyFile, hashFile, signatureFile, decode, crypto2)
    ensures Verification(publicKeyFile, hashFile, signatureFile, decode, crypto1) ==
            VerifyResult("", Some(GenericError), decode(hashFile.contents))
  {
  }

  /** A rejected `verified` promise yields the invalid-signature text exactly when it names the digest mismatch. */
  lemma InvalidSignatureReported(publicKeyFile: UserFile, hashFile: UserFile, signatureFile: UserFile,
                                 decode: seq<byte> -> string, crypto: Crypto, message: string, rest: seq<SignatureCheck>, fingerprint: string)
    requires ReadsSucceed(publicKeyFile, hashFile, signatureFile)
    requires HasArmorHeader(NormalizeKey(decode(publicKeyFile.contents)))
    requires crypto(NormalizeKey(decode(publicKeyFile.contents)), signatureFile.contents, hashFile.contents) ==
             Verified([Invalid(message)] + rest, fingerprint)
    ensures Verification(publicKeyFile, hashFile, signatureFile, decode, crypto).error ==
            Some(if Contains(message, DigestMismatchPhrase) then InvalidSignatureError else GenericError)
  {
  }

  /** Only the first signature entry is consulted: entries after it never change the result. */
  lemma OnlyFirstSignatureCounts(publicKeyFile: UserFile, hashFile: UserFile, signatureFile: UserFile,
                                 decode: seq<byte> -> string, crypto1: Crypto, crypto2: Crypto,
                                 first: SignatureCheck, rest1: seq<SignatureCheck>, rest2: seq<SignatureCheck>, fingerprint: string)
    requires var key := NormalizeKey(decode(publicKeyFile.contents));
             crypto1(key, signatureFile.contents, hashFile.contents) == Verified([first] + rest1, fingerprint) &&
             crypto2(key, signatureFile.contents, hashFile.contents) == Verified([first] + rest2, fingerprint)
    ensures Verification(publicKeyFile, hashFile, signatureFile, decode, crypto1) ==
            Verification(publicKeyFile, hashFile, signatureFile, decode, crypto2)
  {
  }

  /** Once the files are read, the decoded hash file is returned whether or not the signature holds. */
  lemma VerifiedDataAlwaysReturned(publicKeyFile: UserFile, hashFile: UserFile, signatureFile: UserFile,
                                   decode: seq<byte> -> string, crypto: Crypto)
    ensures Verification(publicKeyFile, hashFile, signatureFile, decode, crypto).verifiedData ==
            if ReadsSucceed(publicKeyFile, hashFile, signatureFile) then decode(hashFile.contents) else ""
  {
  }
}
