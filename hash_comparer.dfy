/** `compareHashes(hash1, hash2)`: the two digest strings agree once surrounding whitespace is removed. */
module HashComparer {
  import opened Strings

  predicate CompareHashes(hash1: string, hash2: string)
  {
    Trim(hash1) == Trim(hash2)
  }

  lemma CompareReflexive(hash: string)
    ensures CompareHashes(hash, hash)
  {
  }

  lemma CompareSymmetric(hash1: string, hash2: string)
    ensures CompareHashes(hash1, hash2) <==> CompareHashes(hash2, hash1)
  {
  }

  lemma CompareTransitive(hash1: string, hash2: string, hash3: string)
    requires CompareHashes(hash1, hash2) && CompareHashes(hash2, hash3)
    ensures CompareHashes(hash1, hash3)
  {
  }

  /** Whitespace added before or after either argument does not change the verdict. */
  lemma CompareIgnoresPadding(front1: string, hash1: string, back1: string,
                              front2: string, hash2: string, back2: string)
    requires AllWhitespace(front1) && AllWhitespace(back1)
    requires AllWhitespace(front2) && AllWhitespace(back2)
    ensures CompareHashes(front1 + hash1 + back1, front2 + hash2 + back2) <==> CompareHashes(hash1, hash2)
  {
    TrimIgnoresPadding(front1, hash1, back1);
    TrimIgnoresPadding(front2, hash2, back2);
  }

  /** A string that neither begins nor ends with whitespace is its own trim. */
  lemma {:induction false} TrimKeepsUnpadded(s: string)
    requires s == [] || (!IsWhitespace(s[0]) && !IsWhitespace(s[|s| - 1]))
    ensures Trim(s) == s
  {
  }

  /** For digests without surrounding whitespace, such as lower-case hex, the comparison is plain equality. */
  lemma CompareUnpaddedIsEquality(hash1: string, hash2: string)
    requires hash1 == [] || (!IsWhitespace(hash1[0]) && !IsWhitespace(hash1[|hash1| - 1]))
    requires hash2 == [] || (!IsWhitespace(hash2[0]) && !IsWhitespace(hash2[|hash2| - 1]))
    ensures CompareHashes(hash1, hash2) <==> hash1 == hash2
  {
    TrimKeepsUnpadded(hash1);
    TrimKeepsUnpadded(hash2);
  }

  /**
   * No case folding happens: a string holding a lower-case letter never compares equal to its
   * upper-case spelling, whatever whitespace surrounds it.
   */
  lemma CompareIsCaseSensitive(hash: string, k: nat)
    requires k < |hash| && 'a' <= hash[k] <= 'z'
    ensures !CompareHashes(hash, ToUpper(hash))
  {
    TrimCommutesWithUpper(hash);
    TrimIsCore(hash);
    var i, j :| 0 <= i <= j <= |hash| && Trim(hash) == hash[i..j] &&
                AllWhitespace(hash[..i]) && AllWhitespace(hash[j..]);
    assert !IsWhitespace(hash[k]);
    forall m | 0 <= m < i
      ensures IsWhitespace(hash[m])
    {
      assert hash[..i][m] == hash[m];
    }
    forall m | j <= m < |hash|
      ensures IsWhitespace(hash[m])
    {
      assert hash[j..][m - j] == hash[m];
    }
    assert i <= k < j;
    var core := Trim(hash);
    assert ToUpper(core)[k - i] != core[k - i];
  }
}
