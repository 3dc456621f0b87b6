/** Which names are secret-shaped (`secrets.rs`). */
module SecretNames {
  import opened Ascii

  const SUFFIXES := [
    "_API_KEY", "_KEY", "_TOKEN", "_SECRET", "_PASSWORD", "_PASSWD", "KEY", "TOKEN", "SECRET", "PASSWORD", "PASSWD"]
  const PREFIXES := ["ANTHROPIC_", "OPENAI_", "AWS_", "GCP_", "AZURE_", "GITHUB_", "GITLAB_", "STRIPE_"]
  const NAMES := ["GITHUB_TOKEN", "GH_TOKEN", "NPM_TOKEN", "DATABASE_URL", "REDIS_URL"]

  predicate IsSecretName(name: string) {
    var up := UpperAll(name);
    || (exists i :: 0 <= i < |PREFIXES| && StartsWith(up, PREFIXES[i]))
    || (exists i :: 0 <= i < |SUFFIXES| && EndsWith(up, SUFFIXES[i]))
    || up in NAMES
  }

  /** Every table entry is at least three characters long, so every secret name is. */
  lemma SecretNameLength(name: string)
    requires IsSecretName(name)
    ensures |name| >= 3
  {
    assert forall i :: 0 <= i < |PREFIXES| ==> |PREFIXES[i]| >= 3;
    assert forall i :: 0 <= i < |SUFFIXES| ==> |SUFFIXES[i]| >= 3;
    assert forall n :: n in NAMES ==> |n| >= 3;
  }

  lemma SuffixIsSecret(name: string, i: nat)
    requires i < |SUFFIXES| && EndsWith(UpperAll(name), SUFFIXES[i])
    ensures IsSecretName(name)
  {
  }

  /** The long password flag is itself a secret-shaped name. */
  lemma PasswordFlagIsSecret(name: string)
    requires name == "--password"
    ensures IsSecretName(name)
  {
    assert UpperAll(name)[2..] == "PASSWORD";
    SuffixIsSecret(name, 9);
  }

  // ---- The tables, said without them ----

  predicate StartsLike(name: string, p: string) {
    |p| <= |name| && LowerAll(name[..|p|]) == p
  }

  predicate EndsLike(name: string, s: string) {
    |s| <= |name| && LowerAll(name[|name| - |s|..]) == s
  }

  const STARTS := ["anthropic_", "openai_", "aws_", "gcp_", "azure_", "github_", "gitlab_", "stripe_"]
  const ENDS := ["key", "token", "secret", "password", "passwd"]
  const WHOLE := ["database_url", "redis_url"]

  /** In any letter case: one of eight beginnings, one of five endings, or one of two names. */
  ghost predicate SecretShaped(name: string) {
    || (exists i :: 0 <= i < |STARTS| && StartsLike(name, STARTS[i]))
    || (exists i :: 0 <= i < |ENDS| && EndsLike(name, ENDS[i]))
    || (exists i :: 0 <= i < |WHOLE| && LowerAll(name) == WHOLE[i])
  }

  /** Text without small letters, and the same in small letters. */
  predicate Capitals(upper: string, lower: string) {
    |upper| == |lower| && forall i :: 0 <= i < |upper| ==> !('a' <= upper[i] <= 'z') && lower[i] == Lower(upper[i])
  }

  /** Ignoring case is the same towards capitals as towards small letters. */
  lemma SameLetters(s: string, upper: string, lower: string)
    requires Capitals(upper, lower)
    ensures UpperAll(s) == upper <==> LowerAll(s) == lower
  {
    if |s| == |upper| {
      assert forall i :: 0 <= i < |s| ==> (Upper(s[i]) == upper[i] <==> Lower(s[i]) == lower[i]);
    }
  }

  lemma StartsAlike(name: string, upper: string, lower: string)
    requires Capitals(upper, lower)
    ensures StartsWith(UpperAll(name), upper) <==> StartsLike(name, lower)
  {
    var n := |upper|;
    if n <= |name| {
      SameLetters(name[..n], upper, lower);
      assert UpperAll(name)[..n] == UpperAll(name[..n]);
    }
  }

  lemma EndsAlike(name: string, upper: string, lower: string)
    requires Capitals(upper, lower)
    ensures EndsWith(UpperAll(name), upper) <==> EndsLike(name, lower)
  {
    var n := |name| - |upper|;
    if n >= 0 {
      SameLetters(name[n..], upper, lower);
      assert UpperAll(name)[n..] == UpperAll(name[n..]);
    }
  }

  lemma PrefixTable(i: nat)
    requires i < 8
    ensures |PREFIXES| == |STARTS| == 8 && Capitals(PREFIXES[i], STARTS[i])
  {
    if i < 4 {
      FirstPrefixes(i);
    } else {
      LastPrefixes(i);
    }
  }

  lemma FirstPrefixes(i: nat)
    requires i < 4
    ensures |PREFIXES| == |STARTS| == 8 && Capitals(PREFIXES[i], STARTS[i])
  {
  }

  lemma LastPrefixes(i: nat)
    requires 4 <= i < 8
    ensures |PREFIXES| == |STARTS| == 8 && Capitals(PREFIXES[i], STARTS[i])
  {
  }

  /** Where each of the five endings stands among the eleven suffixes. */
  function SuffixOf(i: nat): (j: nat)
    requires i < 11
    ensures j < 5
  {
    if i in {0, 1, 6} then 0 else if i in {2, 7} then 1 else if i in {3, 8} then 2 else if i in {4, 9} then 3 else 4
  }

  lemma SuffixTable(i: nat)
    requires i < 11
    ensures |SUFFIXES| == 11 && |ENDS| == 5
    ensures EndsWith(SUFFIXES[i], SUFFIXES[6 + SuffixOf(i)])
  {
  }

  lemma EndingTable(j: nat)
    requires j < 5
    ensures |SUFFIXES| == 11 && |ENDS| == 5 && Capitals(SUFFIXES[6 + j], ENDS[j])
  {
  }

  lemma EndsWithEnds(s: string, t: string, u: string)
    requires EndsWith(s, t) && EndsWith(t, u)
    ensures EndsWith(s, u)
  {
    assert s[|s| - |u|..] == s[|s| - |t|..][|t| - |u|..];
  }

  lemma PrefixesExactly(name: string)
    ensures (exists i :: 0 <= i < |PREFIXES| && StartsWith(UpperAll(name), PREFIXES[i]))
       <==> (exists i :: 0 <= i < |STARTS| && StartsLike(name, STARTS[i]))
  {
    PrefixTable(0);
    forall i | 0 <= i < 8 ensures StartsWith(UpperAll(name), PREFIXES[i]) <==> StartsLike(name, STARTS[i]) {
      PrefixTable(i);
      StartsAlike(name, PREFIXES[i], STARTS[i]);
    }
  }

  lemma EndingAt(name: string, j: nat)
    requires j < 5
    ensures |SUFFIXES| == 11 && |ENDS| == 5
    ensures EndsWith(UpperAll(name), SUFFIXES[6 + j]) <==> EndsLike(name, ENDS[j])
  {
    EndingTable(j);
    EndsAlike(name, SUFFIXES[6 + j], ENDS[j]);
  }

  lemma SuffixesExactly(name: string)
    ensures (exists i :: 0 <= i < |SUFFIXES| && EndsWith(UpperAll(name), SUFFIXES[i]))
       <==> (exists j :: 0 <= j < |ENDS| && EndsLike(name, ENDS[j]))
  {
    EndingAt(name, 0);
    if i :| 0 <= i < |SUFFIXES| && EndsWith(UpperAll(name), SUFFIXES[i]) {
      SuffixTable(i);
      EndsWithEnds(UpperAll(name), SUFFIXES[i], SUFFIXES[6 + SuffixOf(i)]);
      EndingAt(name, SuffixOf(i));
      assert EndsLike(name, ENDS[SuffixOf(i)]);
    }
    if j :| 0 <= j < |ENDS| && EndsLike(name, ENDS[j]) {
      EndingAt(name, j);
      assert EndsWith(UpperAll(name), SUFFIXES[6 + j]);
    }
  }

  /** Of the five listed names, two are not covered by the beginnings and endings. */
  lemma NameTable(up: string)
    ensures up in NAMES <==> up == NAMES[3] || up == NAMES[4] || up in NAMES[..3]
    ensures up in NAMES[..3] ==> EndsWith(up, "TOKEN") && SUFFIXES[7] == "TOKEN"
    ensures Capitals(NAMES[3], WHOLE[0]) && Capitals(NAMES[4], WHOLE[1])
  {
  }

  /** The tables amount to this, and to no more. */
  lemma SecretNamesExactly(name: string)
    ensures IsSecretName(name) <==> SecretShaped(name)
  {
    var up := UpperAll(name);
    PrefixesExactly(name);
    SuffixesExactly(name);
    NameTable(up);
    SameLetters(name, NAMES[3], WHOLE[0]);
    SameLetters(name, NAMES[4], WHOLE[1]);
    assert up in NAMES[..3] ==> EndsWith(up, SUFFIXES[7]);
  }
}
