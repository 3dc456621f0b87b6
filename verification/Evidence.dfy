/** The evidence service: seal and verify packets over a growing chain. Signatures and
    the hash are ideal functions given as parameters; the clock and the time-stamping
    authority are inputs of each operation. */
module Evidence {
  import opened Bytes
  import opened HashChains
  import opened Retention
  import opened Wrappers

  /** The primitives the service calls. */
  datatype Crypto<!Key> = Crypto(
    hash: seq<Byte> -> Bytes32,
    serialize: seq<Byte> -> seq<Byte>,
    publicKey: Key -> Bytes32,
    validKey: seq<Byte> -> bool,
    sign: (Key, seq<Byte>) -> seq<Byte>,
    checkSignature: (seq<Byte>, seq<Byte>, seq<Byte>) -> bool)

  /** A signature is 64 bytes and verifies under the signer's own key. */
  ghost predicate Ideal<Key(!new)>(x: Crypto<Key>) {
    && (forall k :: x.validKey(x.publicKey(k)))
    && (forall k, m :: |x.sign(k, m)| == 64)
    && (forall k, m :: x.checkSignature(x.publicKey(k), m, x.sign(k, m)))
  }

  datatype Packet = Packet(
    tenant: string, invoice: string, payloadJson: seq<Byte>, hashHex: seq<Byte>, signatureHex: seq<Byte>,
    publicKeyHex: seq<Byte>, stamp: string, chainLength: nat)

  /** What the time-stamping authority does with a request. */
  datatype Tsa = StampError | StampRejected | Stamped(stamp: string)

  datatype Request = Request(invoice: string, payload: seq<Byte>, checkedAt: int, appendedAt: int, tsa: Tsa)

  datatype SealResult = Sealed(packet: Packet) | RetentionExceeded(months: nat) | TsaFailed | TsaDenied

  datatype PacketCheck =
    | Valid
    | CrossTenant
    | PayloadHashMismatch
    | BadPublicKey
    | BadSignatureEncoding
    | BadHashEncoding
    | BadSignature
    | ChainFault(fault: VerifyResult)

  datatype Service<!Key> = Service(
    tenant: string, key: Key, policy: Policy, jurisdiction: string, chain: seq<ChainEntry>)

  function Months<Key>(s: Service<Key>): Uint32 {
    EffectiveMonths(s.policy, s.tenant, s.jurisdiction)
  }

  /** The chain after a seal, whatever became of the seal itself. */
  function AfterSeal<Key>(x: Crypto<Key>, s: Service<Key>, q: Request): Service<Key> {
    if WithinRetention(s.chain, Months(s), q.checkedAt)
    then s.(chain := Appended(x.hash, s.chain, q.payload, q.appendedAt))
    else s
  }

  function SealOutcome<Key>(x: Crypto<Key>, s: Service<Key>, q: Request): SealResult {
    if !WithinRetention(s.chain, Months(s), q.checkedAt) then RetentionExceeded(Months(s))
    else match q.tsa
      case StampError => TsaFailed
      case StampRejected => TsaDenied
      case Stamped(stamp) => Sealed(PacketFor(x, s, q, stamp))
  }

  function PacketFor<Key>(x: Crypto<Key>, s: Service<Key>, q: Request, stamp: string): Packet {
    Packet(s.tenant, q.invoice, x.serialize(q.payload), Hex(x.hash(x.serialize(q.payload))),
           Hex(x.sign(s.key, x.hash(x.serialize(q.payload)))), Hex(x.publicKey(s.key)), stamp, |s.chain| + 1)
  }

  /** `EvidenceService::verify` */
  ghost function CheckPacket<Key>(x: Crypto<Key>, s: Service<Key>, p: Packet): PacketCheck {
    match CheckContents(x, s.tenant, p)
    case Valid => if Verdict(x.hash, s.chain) == Intact then Valid else ChainFault(Verdict(x.hash, s.chain))
    case fault => fault
  }

  /** The checks that look at the packet alone. */
  function CheckContents<Key>(x: Crypto<Key>, tenant: string, p: Packet): PacketCheck {
    if p.tenant != tenant then CrossTenant
    else if Hex(x.hash(p.payloadJson)) != p.hashHex then PayloadHashMismatch
    else
      match (Unhex(p.publicKeyHex), Unhex(p.signatureHex), Unhex(p.hashHex))
      case (Some(key), signature, raw) =>
        if |key| != 32 || !x.validKey(key) then BadPublicKey
        else if signature.None? || |signature.value| != 64 then BadSignatureEncoding
        else if raw.None? then BadHashEncoding
        else if !x.checkSignature(key, raw.value, signature.value) then BadSignature
        else Valid
      case _ => BadPublicKey
  }

  class EvidenceService<Key(==)> {
    const crypto: Crypto<Key>
    const tenant: string
    const key: Key
    const policy: Policy
    const jurisdiction: string
    var chain: HashChain

    ghost predicate Valid()
      reads this
    {
      chain.hash == crypto.hash
    }

    ghost function Now(): Service<Key>
      reads this, chain
    {
      Service(tenant, key, policy, jurisdiction, chain.entries)
    }

    constructor (crypto: Crypto<Key>, tenant: string, key: Key, policy: Policy)
      ensures Valid() && fresh(chain) && this.crypto == crypto
      ensures Now() == Service(tenant, key, policy, "EU", [])
    {
      this.crypto, this.tenant, this.key, this.policy, this.jurisdiction := crypto, tenant, key, policy, "EU";
      chain := new HashChain(crypto.hash);
    }

    method RestoreChain(restored: HashChain)
      requires restored.hash == crypto.hash
      modifies this
      ensures Valid() && chain == restored && Now() == old(Now()).(chain := restored.entries)
    {
      chain := restored;
    }

    /** Serialize, hash and sign; check retention; append; ask for a time stamp. The
        append has happened by the time the authority is asked. */
    method Seal(q: Request) returns (r: SealResult)
      requires Valid() && |chain.entries| < MAX_LENGTH
      modifies chain
      ensures Valid() && chain == old(chain)
      ensures Now() == AfterSeal(crypto, old(Now()), q) && r == SealOutcome(crypto, old(Now()), q)
    {
      var payloadJson := crypto.serialize(q.payload);
      var digest := crypto.hash(payloadJson);
      var signatureHex := Hex(crypto.sign(key, digest));
      var months := EffectiveMonths(policy, tenant, jurisdiction);
      if !WithinRetention(chain.entries, months, q.checkedAt) {
        return RetentionExceeded(months);
      }
      var _ := chain.AppendWithTimestamp(q.payload, q.appendedAt);
      match q.tsa
      case StampError => return TsaFailed;
      case StampRejected => return TsaDenied;
      case Stamped(stamp) =>
        return Sealed(Packet(tenant, q.invoice, payloadJson, Hex(digest), signatureHex,
                             Hex(crypto.publicKey(key)), stamp, |chain.entries|));
    }

    method Verify(p: Packet) returns (r: PacketCheck)
      requires Valid()
      ensures r == CheckPacket(crypto, Now(), p)
    {
      r := CheckContents(crypto, tenant, p);
      if r == PacketCheck.Valid {
        var verdict := chain.Verify();
        if verdict != Intact {
          r := ChainFault(verdict);
        }
      }
    }
  }

  // ---- Whole runs of a service ----

  /** The service after the requests, sealed one after another. */
  function Run<Key>(x: Crypto<Key>, s: Service<Key>, qs: seq<Request>): Service<Key>
    decreases qs
  {
    if qs == [] then s else Run(x, AfterSeal(x, s, qs[0]), qs[1..])
  }

  /** A retention failure leaves the chain alone; every other outcome, a failed time stamp
      included, leaves it exactly one entry longer; a packet records that length. */
  lemma SealEffect<Key>(x: Crypto<Key>, s: Service<Key>, q: Request)
    ensures SealOutcome(x, s, q).RetentionExceeded? ==> AfterSeal(x, s, q) == s
    ensures !SealOutcome(x, s, q).RetentionExceeded? ==>
              AfterSeal(x, s, q).chain[..|s.chain|] == s.chain && |AfterSeal(x, s, q).chain| == |s.chain| + 1
    ensures SealOutcome(x, s, q).Sealed? ==> SealOutcome(x, s, q).packet.chainLength == |AfterSeal(x, s, q).chain|
  {
  }

  /** Which outcome a seal has. */
  lemma SealOutcomeExactly<Key>(x: Crypto<Key>, s: Service<Key>, q: Request)
    ensures SealOutcome(x, s, q).RetentionExceeded? <==> !WithinRetention(s.chain, Months(s), q.checkedAt)
    ensures SealOutcome(x, s, q).RetentionExceeded? ==> SealOutcome(x, s, q).months == Months(s)
    ensures WithinRetention(s.chain, Months(s), q.checkedAt) ==>
              && (SealOutcome(x, s, q) == TsaFailed <==> q.tsa == StampError)
              && (SealOutcome(x, s, q) == TsaDenied <==> q.tsa == StampRejected)
  {
  }

  /** Running keeps the service's identity, its history and the chain's form. */
  lemma {:induction false} RunExtends<Key>(x: Crypto<Key>, s: Service<Key>, qs: seq<Request>)
    requires Built(x.hash, s.chain)
    ensures var s' := Run(x, s, qs);
            && s' == s.(chain := s'.chain) && Built(x.hash, s'.chain)
            && s.chain <= s'.chain && |s'.chain| <= |s.chain| + |qs|
    decreases qs
  {
    if qs != [] {
      var s1 := AfterSeal(x, s, qs[0]);
      AppendBuilt(x.hash, s.chain, qs[0].payload, qs[0].appendedAt);
      RunExtends(x, s1, qs[1..]);
    }
  }

  /** Every part of a sealed packet checks, for ever, under its own service. */
  lemma SealedContentsValid<Key(!new)>(x: Crypto<Key>, s: Service<Key>, q: Request, stamp: string)
    requires Ideal(x)
    ensures CheckContents(x, s.tenant, PacketFor(x, s, q, stamp)) == Valid
  {
    var digest := x.hash(x.serialize(q.payload));
    HexRoundTrip(digest);
    HexRoundTrip(x.sign(s.key, digest));
    HexRoundTrip(x.publicKey(s.key));
  }

  /** The packets ever sealed still verify at every later point of any run of seals that
      succeed or fail, exactly as long as no hash inside the chain is all zeros; and the
      recorded length still points at the entry with the packet's payload. */
  lemma SealedPacketsVerify<Key(!new)>(x: Crypto<Key>, s: Service<Key>, q: Request, later: seq<Request>)
    requires Ideal(x) && Built(x.hash, s.chain) && SealOutcome(x, s, q).Sealed?
    ensures var p := SealOutcome(x, s, q).packet;
            var s' := Run(x, AfterSeal(x, s, q), later);
            && (CheckPacket(x, s', p) == Valid <==> NoZeroInside(s'.chain))
            && 0 < p.chainLength <= |s'.chain|
            && s'.chain[p.chainLength - 1].payload == q.payload
            && p.payloadJson == x.serialize(s'.chain[p.chainLength - 1].payload)
            && p.tenant == s.tenant && p.invoice == q.invoice && q.tsa == Stamped(p.stamp)
            && p.publicKeyHex == Hex(x.publicKey(s.key))
  {
    var s1 := AfterSeal(x, s, q);
    AppendBuilt(x.hash, s.chain, q.payload, q.appendedAt);
    RunExtends(x, s1, later);
    var s' := Run(x, s1, later);
    SealedContentsValid(x, s, q, q.tsa.stamp);
    BuiltVerifies(x.hash, s'.chain);
    assert s'.chain[|s.chain|] == s1.chain[|s.chain|];
  }

  // ---- What an accepted packet shows, and what it does not ----

  /** A key and a signature, in hexadecimal, that are well-formed and sign the digest. */
  predicate Signed<Key>(x: Crypto<Key>, keyHex: seq<Byte>, signatureHex: seq<Byte>, digest: seq<Byte>) {
    match (Unhex(keyHex), Unhex(signatureHex))
    case (Some(key), Some(signature)) =>
      |key| == 32 && x.validKey(key) && |signature| == 64 && x.checkSignature(key, digest, signature)
    case _ => false
  }

  /** Exactly which packets a service accepts. Of its chain it asks only that the chain
      verifies by itself: the packet's chain length, invoice and time stamp are not looked
      at, its payload is not looked up, and its key need not be the service's. */
  lemma AcceptedExactly<Key>(x: Crypto<Key>, s: Service<Key>, p: Packet)
    ensures CheckPacket(x, s, p) == Valid <==>
            && p.tenant == s.tenant && p.hashHex == Hex(x.hash(p.payloadJson))
            && Signed(x, p.publicKeyHex, p.signatureHex, x.hash(p.payloadJson))
            && Verdict(x.hash, s.chain) == Intact
  {
    HexRoundTrip(x.hash(p.payloadJson));
  }

  /** And why it rejects the others: the first of the checks that fails. */
  lemma RejectedExactly<Key>(x: Crypto<Key>, s: Service<Key>, p: Packet)
    ensures var r, digest := CheckPacket(x, s, p), x.hash(p.payloadJson);
            var key, signature := Unhex(p.publicKeyHex), Unhex(p.signatureHex);
            var goodKey := key.Some? && |key.value| == 32 && x.validKey(key.value);
            var goodSignature := signature.Some? && |signature.value| == 64;
            && (r == CrossTenant <==> p.tenant != s.tenant)
            && (p.tenant == s.tenant ==> (r == PayloadHashMismatch <==> p.hashHex != Hex(digest)))
            && (p.tenant == s.tenant && p.hashHex == Hex(digest) ==>
                && (r == BadPublicKey <==> !goodKey)
                && (r == BadSignatureEncoding <==> goodKey && !goodSignature)
                && (r == BadSignature <==>
                    goodKey && goodSignature && !x.checkSignature(key.value, digest, signature.value)))
            && (r.ChainFault? ==> r.fault == Verdict(x.hash, s.chain) != Intact)
            && r != BadHashEncoding
  {
    HexRoundTrip(x.hash(p.payloadJson));
  }

  /** So a packet made with any other key, for a payload that was never sealed, is accepted
      exactly when a sealed one is. */
  lemma ForeignPacketAccepted<Key(!new)>(
      x: Crypto<Key>, s: Service<Key>, foreign: Key, payloadJson: seq<Byte>, invoice: string, stamp: string, n: nat)
    requires Ideal(x)
    ensures var digest := x.hash(payloadJson);
            var p := Packet(s.tenant, invoice, payloadJson, Hex(digest), Hex(x.sign(foreign, digest)),
                            Hex(x.publicKey(foreign)), stamp, n);
            CheckPacket(x, s, p) == Valid <==> Verdict(x.hash, s.chain) == Intact
  {
    var digest := x.hash(payloadJson);
    var p := Packet(s.tenant, invoice, payloadJson, Hex(digest), Hex(x.sign(foreign, digest)),
                    Hex(x.publicKey(foreign)), stamp, n);
    HexRoundTrip(x.sign(foreign, digest));
    HexRoundTrip(x.publicKey(foreign));
    AcceptedExactly(x, s, p);
  }

  /** Retention failure is absorbing: with a clock that does not go back, every later seal
      fails the same way and the chain never grows, until it is replaced. */
  lemma {:induction false} RetentionAbsorbing<Key>(x: Crypto<Key>, s: Service<Key>, q: Request, later: seq<Request>)
    requires SealOutcome(x, s, q).RetentionExceeded? && 0 <= q.checkedAt <= I64_MAX
    requires 0 <= s.chain[|s.chain| - 1].createdAtMs <= I64_MAX
    requires forall i :: 0 <= i < |later| ==> q.checkedAt <= later[i].checkedAt <= I64_MAX
    ensures Run(x, s, later) == s
    ensures forall i :: 0 <= i < |later| ==>
              SealOutcome(x, Run(x, s, later[..i]), later[i]) == SealOutcome(x, s, q)
  {
    RunStuck(x, s, q, later);
    forall i | 0 <= i < |later|
      ensures SealOutcome(x, Run(x, s, later[..i]), later[i]) == SealOutcome(x, s, q)
    {
      RunStuck(x, s, q, later[..i]);
      ExceededStays(s.chain, Months(s), q.checkedAt, later[i].checkedAt);
    }
  }

  lemma {:induction false} RunStuck<Key>(x: Crypto<Key>, s: Service<Key>, q: Request, later: seq<Request>)
    requires SealOutcome(x, s, q).RetentionExceeded? && 0 <= q.checkedAt <= I64_MAX
    requires 0 <= s.chain[|s.chain| - 1].createdAtMs <= I64_MAX
    requires forall i :: 0 <= i < |later| ==> q.checkedAt <= later[i].checkedAt <= I64_MAX
    ensures Run(x, s, later) == s
    decreases later
  {
    if later != [] {
      ExceededStays(s.chain, Months(s), q.checkedAt, later[0].checkedAt);
      RunStuck(x, s, q, later[1..]);
    }
  }
}
