/** Bundle verification by canonical hash. The hash function is a parameter, and where
    a result needs it to be collision-free the collision is named instead: the result
    holds, or these two distinct texts have the same hash. */
module BundleHash {
  import opened Bytes
  import opened CanonicalJson

  /** What decoding the bundle's text gave; the decoder itself is not modelled. */
  datatype Decoded = Malformed | Value(v: Json)

  datatype BundleCheck =
    | Verdict(ok: bool)
    | InvalidJson
    | MissingRowHash
    | RowHashNotString

  const ROW_HASH := "row_hash"

  /** The bundle without its `row_hash`: what is hashed. */
  function Body(m: map<string, Json>): Json {
    Obj(m - {ROW_HASH})
  }

  /** `VerifyBundleHash`. A JSON `null` decodes into an empty map of raw messages, and a
      `null` row hash into the empty string: neither is a decoding error. */
  method VerifyBundleHash(hash: string -> string, bundle: Decoded) returns (r: BundleCheck)
    ensures r.InvalidJson? <==> bundle.Malformed? || !(bundle.v.Obj? || bundle.v.Null?)
    ensures bundle == Value(Null) ==> r == MissingRowHash
    ensures bundle.Value? && bundle.v.Obj? ==> r == CheckObject(hash, bundle.v.fields)
    ensures bundle.Value? && bundle.v.Obj? ==>
              var m := bundle.v.fields;
              var digest := hash(Canon(Obj(m - {"row_hash"})));
              && (r == MissingRowHash <==> "row_hash" !in m)
              && (r == RowHashNotString <==> "row_hash" in m && !m["row_hash"].Str? && !m["row_hash"].Null?)
              && (r == Verdict(true) <==>
                  "row_hash" in m && (m["row_hash"] == Str(digest) || (m["row_hash"] == Null && digest == "")))
  {
    if bundle.Malformed? || !(bundle.v.Obj? || bundle.v.Null?) {
      return InvalidJson;
    }
    var m := if bundle.v.Null? then map[] else bundle.v.fields;
    if ROW_HASH !in m {
      return MissingRowHash;
    }
    var expected;
    match m[ROW_HASH] {
      case Str(s) => expected := s;
      case Null => expected := "";
      case _ => return RowHashNotString;
    }
    m := m - {ROW_HASH};
    var canonical := CanonicalMarshal(Obj(m));
    r := Verdict(hash(canonical) == expected);
  }

  /** What a bundle object must look like to be accepted. */
  ghost function CheckObject(hash: string -> string, m: map<string, Json>): BundleCheck {
    if ROW_HASH !in m then MissingRowHash
    else match m[ROW_HASH]
      case Str(s) => Verdict(s == hash(Canon(Body(m))))
      case Null => Verdict("" == hash(Canon(Body(m))))
      case _ => RowHashNotString
  }

  /** `ComputeCanonicalHash` after decoding. */
  method ComputeCanonicalHash(hash: string -> string, v: Json) returns (digest: string)
    ensures digest == hash(Canon(v))
  {
    var canonical := CanonicalMarshal(v);
    digest := hash(canonical);
  }

  /** Equal digests come from equal values, or exhibit a collision. */
  lemma DigestDeterminesValue(hash: string -> string, a: Json, b: Json)
    requires WellFormed(a) && WellFormed(b)
    requires hash(Canon(a)) == hash(Canon(b))
    ensures a == b || Collision(hash, Canon(a), Canon(b))
  {
    if Canon(a) == Canon(b) {
      assert Canon(a) + "" == Canon(a);
      CanonInjective(a, b, "");
    }
  }

  /** Setting `row_hash` to the hash of the rest always gives a bundle that verifies,
      whatever `row_hash` was before. */
  lemma SignedBundleVerifies(hash: string -> string, m: map<string, Json>)
    ensures CheckObject(hash, m[ROW_HASH := Str(hash(Canon(Body(m))))]) == Verdict(true)
  {
    var signed := m[ROW_HASH := Str(hash(Canon(Body(m))))];
    assert signed - {ROW_HASH} == m - {ROW_HASH};
  }

  /** Two accepted bundles with one row hash are the same bundle, or exhibit a collision:
      no other field can be added, dropped or changed. */
  lemma TamperingDetected(hash: string -> string, a: map<string, Json>, b: map<string, Json>)
    requires WellFormed(Obj(a)) && WellFormed(Obj(b))
    requires CheckObject(hash, a) == Verdict(true)
    requires ROW_HASH in b && b[ROW_HASH] == a[ROW_HASH] && a != b
    ensures CheckObject(hash, b) == Verdict(false) || Collision(hash, Canon(Body(a)), Canon(Body(b)))
  {
    if CheckObject(hash, b) != Verdict(false) {
      assert a == (a - {ROW_HASH})[ROW_HASH := a[ROW_HASH]];
      assert b == (b - {ROW_HASH})[ROW_HASH := b[ROW_HASH]];
      DigestDeterminesValue(hash, Body(a), Body(b));
    }
  }

  /** Changing only the row hash to another string is detected too. */
  lemma ForeignRowHashRejected(hash: string -> string, a: map<string, Json>, s: string)
    requires CheckObject(hash, a) == Verdict(true) && Str(s) != a[ROW_HASH]
    requires s != "" || a[ROW_HASH] != Null
    ensures CheckObject(hash, a[ROW_HASH := Str(s)]) == Verdict(false)
  {
    assert a[ROW_HASH := Str(s)] - {ROW_HASH} == a - {ROW_HASH};
  }
}
