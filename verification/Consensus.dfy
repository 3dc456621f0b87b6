/** The BAAAR kill-switch: the five-condition gate, the weighted consensus around it, and
    how far an adversarial part of the votes can move the verdict. Floats are reals. */
module Consensus {
  const RISK_SCORE_HALT: real := 0.85
  const COHERENCE_FLOOR: real := 0.3
  const MAX_DEBATE_ROUNDS: nat := 5

  datatype FindingKind = SecretLeak | PriceAnomaly | PhantomVendor | MathFraud | Duplicate | Other(tag: string)
  datatype Finding = Finding(kind: FindingKind, description: string)
  datatype FraudAssessment = FraudAssessment(
    riskScore: real, findings: seq<Finding>, coherenceScore: real, debateRounds: nat, explicitHalt: bool)
  datatype Reason =
    RiskScoreExceeded | SecretLeakDetected | CoherenceTooLow | MaxDebateRoundsReached | ExplicitHaltRequested
  datatype Outcome = Approve | Halt(reason: Reason)

  datatype Role =
    Extractor | PoMatcher | FraudAuditor | GaapClassifier | ProvenanceSigner
    | AuditWatchdog | RegressionTester | DemoNarrator
  datatype Vote = Vote(role: Role, confidence: real)

  /** `BaaarV2Gate`: roles without a weight have no opinion. */
  datatype Gate = Gate(weights: map<Role, real>, threshold: real)

  // ---- The first gate ----

  /** Each reason stands for exactly one condition. */
  predicate Triggers(a: FraudAssessment, r: Reason) {
    match r
    case RiskScoreExceeded => a.riskScore > 0.85
    case SecretLeakDetected => exists f :: f in a.findings && f.kind == SecretLeak
    case CoherenceTooLow => a.coherenceScore < 0.3
    case MaxDebateRoundsReached => a.debateRounds >= 5
    case ExplicitHaltRequested => a.explicitHalt
  }

  function Priority(r: Reason): nat {
    match r
    case RiskScoreExceeded => 0
    case SecretLeakDetected => 1
    case CoherenceTooLow => 2
    case MaxDebateRoundsReached => 3
    case ExplicitHaltRequested => 4
  }

  /** `BaaarGate::check`: halts exactly when some condition holds, naming the first. */
  function Check(a: FraudAssessment): (o: Outcome)
    ensures o == Approve <==> forall r :: !Triggers(a, r)
    ensures o.Halt? ==> Triggers(a, o.reason) && forall r :: Triggers(a, r) ==> Priority(o.reason) <= Priority(r)
  {
    if a.riskScore > RISK_SCORE_HALT then
      assert Triggers(a, RiskScoreExceeded);
      Halt(RiskScoreExceeded)
    else if exists f :: f in a.findings && f.kind == SecretLeak then
      assert Triggers(a, SecretLeakDetected);
      Halt(SecretLeakDetected)
    else if a.coherenceScore < COHERENCE_FLOOR then
      assert Triggers(a, CoherenceTooLow);
      Halt(CoherenceTooLow)
    else if a.debateRounds >= MAX_DEBATE_ROUNDS then
      assert Triggers(a, MaxDebateRoundsReached);
      Halt(MaxDebateRoundsReached)
    else if a.explicitHalt then
      assert Triggers(a, ExplicitHaltRequested);
      Halt(ExplicitHaltRequested)
    else
      Approve
  }

  // ---- The weighted consensus ----

  function Clamp(c: real): (r: real)
    ensures 0.0 <= r <= 1.0
  {
    if c < 0.0 then 0.0 else if c > 1.0 then 1.0 else c
  }

  /** Clamping keeps what is between 0 and 1 and otherwise gives the end it is beyond. */
  lemma ClampExact(c: real)
    ensures 0.0 <= c <= 1.0 ==> Clamp(c) == c
    ensures (c < 0.0 ==> Clamp(c) == 0.0) && (c > 1.0 ==> Clamp(c) == 1.0)
  {
  }

  function WeightOf(g: Gate, r: Role): real {
    if r in g.weights then g.weights[r] else 0.0
  }

  function Total(f: Vote -> real, votes: seq<Vote>): real {
    if votes == [] then 0.0 else Total(f, votes[..|votes| - 1]) + f(votes[|votes| - 1])
  }

  function ByWeight(g: Gate): Vote -> real {
    (v: Vote) => WeightOf(g, v.role)
  }

  function Scaled(w: real, c: real): real {
    w * c
  }

  lemma ScaledWithin(w: real, c: real)
    requires w >= 0.0 && 0.0 <= c <= 1.0
    ensures 0.0 <= Scaled(w, c) <= w
  {
    assert w * (1.0 - c) >= 0.0;
  }

  lemma ScaledMonotone(w: real, c: real, d: real)
    requires w >= 0.0 && c <= d
    ensures Scaled(w, c) <= Scaled(w, d)
  {
    assert w * (d - c) >= 0.0;
  }

  lemma ScaledSum(w: real, x: real, c: real)
    ensures Scaled(w + x, c) == Scaled(w, c) + Scaled(x, c)
  {
  }

  lemma ScaledEnds(w: real)
    ensures Scaled(w, Clamp(0.0)) == 0.0 && Scaled(w, Clamp(1.0)) == w
  {
  }

  function ByOpinion(g: Gate): Vote -> real {
    (v: Vote) => Scaled(WeightOf(g, v.role), Clamp(v.confidence))
  }

  /** The weighted average reaches the threshold; without any weight it does not. */
  predicate Agreed(g: Gate, votes: seq<Vote>) {
    var total := Total(ByWeight(g), votes);
    total != 0.0 && Total(ByOpinion(g), votes) / total >= g.threshold
  }

  /** What `check_sac` decides, apart from how it gets there. */
  function Verdict(g: Gate, a: FraudAssessment, votes: seq<Vote>): Outcome {
    if Check(a) != Approve then Check(a) else if Agreed(g, votes) then Approve else Halt(CoherenceTooLow)
  }

  /** `check_sac` */
  method CheckSac(g: Gate, a: FraudAssessment, votes: seq<Vote>) returns (o: Outcome)
    ensures o == Verdict(g, a, votes)
    ensures Check(a) != Approve ==> o == Check(a)
    ensures o == Approve <==> Check(a) == Approve && Agreed(g, votes)
    ensures Check(a) == Approve && !Agreed(g, votes) ==> o == Halt(CoherenceTooLow)
  {
    var first := Check(a);
    if first.Halt? {
      return first;
    }
    if votes == [] {
      return Halt(CoherenceTooLow);
    }
    var weightedSum, weightTotal := 0.0, 0.0;
    for i := 0 to |votes|
      invariant weightedSum == Total(ByOpinion(g), votes[..i])
      invariant weightTotal == Total(ByWeight(g), votes[..i])
    {
      var v := votes[i];
      assert votes[..i + 1][..i] == votes[..i];
      if v.role in g.weights {
        var c := Clamp(v.confidence);
        weightedSum := weightedSum + g.weights[v.role] * c;
        weightTotal := weightTotal + g.weights[v.role];
      }
    }
    assert votes[..|votes|] == votes;
    if weightTotal == 0.0 {
      return Halt(CoherenceTooLow);
    }
    if weightedSum / weightTotal < g.threshold {
      return Halt(CoherenceTooLow);
    }
    return Approve;
  }

  // ---- Order does not matter ----

  lemma {:induction false} TotalAppend(f: Vote -> real, a: seq<Vote>, b: seq<Vote>)
    ensures Total(f, a + b) == Total(f, a) + Total(f, b)
  {
    if b == [] {
      assert a + b == a;
    } else {
      assert (a + b)[..|a + b| - 1] == a + b[..|b| - 1];
      TotalAppend(f, a, b[..|b| - 1]);
    }
  }

  lemma {:induction false} TotalReorders(f: Vote -> real, a: seq<Vote>, b: seq<Vote>)
    requires multiset(a) == multiset(b)
    ensures Total(f, a) == Total(f, b)
  {
    if a == [] {
      assert |multiset(b)| == 0;
    } else {
      var last, a' := a[|a| - 1], a[..|a| - 1];
      assert a == a' + [last];
      assert last in multiset(b);
      var k :| 0 <= k < |b| && b[k] == last;
      BagWithout(b, k);
      TotalReorders(f, a', b[..k] + b[k + 1..]);
      TotalWithout(f, b, k);
    }
  }

  lemma BagWithout(b: seq<Vote>, k: nat)
    requires k < |b|
    ensures multiset(b[..k] + b[k + 1..]) == multiset(b) - multiset{b[k]}
  {
    assert b == b[..k] + [b[k]] + b[k + 1..];
  }

  lemma TotalWithout(f: Vote -> real, b: seq<Vote>, k: nat)
    requires k < |b|
    ensures Total(f, b) == Total(f, b[..k] + b[k + 1..]) + f(b[k])
  {
    var front, rest := b[..k + 1], b[k + 1..];
    assert b == front + rest;
    TotalAppend(f, front, rest);
    TotalAppend(f, b[..k], rest);
    TotalNext(f, b, k);
  }

  lemma TotalNext(f: Vote -> real, b: seq<Vote>, k: nat)
    requires k < |b|
    ensures Total(f, b[..k + 1]) == Total(f, b[..k]) + f(b[k])
  {
    assert b[..k + 1][..k] == b[..k];
  }

  lemma AgreedReorders(g: Gate, votes: seq<Vote>, reordered: seq<Vote>)
    requires multiset(votes) == multiset(reordered)
    ensures Agreed(g, votes) == Agreed(g, reordered)
  {
    TotalReorders(ByWeight(g), votes, reordered);
    TotalReorders(ByOpinion(g), votes, reordered);
  }

  lemma VerdictReorders(g: Gate, a: FraudAssessment, votes: seq<Vote>, reordered: seq<Vote>)
    requires multiset(votes) == multiset(reordered)
    ensures Verdict(g, a, votes) == Verdict(g, a, reordered)
  {
    AgreedReorders(g, votes, reordered);
  }

  // ---- More confidence never turns an approval into a halt ----

  ghost predicate NonNegative(g: Gate) {
    forall r :: r in g.weights ==> g.weights[r] >= 0.0
  }

  ghost predicate SameRoles(votes: seq<Vote>, others: seq<Vote>) {
    |votes| == |others| && forall i :: 0 <= i < |votes| ==> votes[i].role == others[i].role
  }

  lemma {:induction false} WeightByRole(g: Gate, votes: seq<Vote>, others: seq<Vote>)
    requires SameRoles(votes, others)
    ensures Total(ByWeight(g), votes) == Total(ByWeight(g), others)
  {
    if votes != [] {
      WeightByRole(g, votes[..|votes| - 1], others[..|others| - 1]);
    }
  }

  lemma {:induction false} WeightNonNegative(g: Gate, votes: seq<Vote>)
    requires NonNegative(g)
    ensures Total(ByWeight(g), votes) >= 0.0
  {
    if votes != [] {
      WeightNonNegative(g, votes[..|votes| - 1]);
    }
  }

  lemma ProductMonotone(w: real, x: real, y: real)
    requires w >= 0.0 && x <= y
    ensures w * x <= w * y
  {
    assert w * (y - x) >= 0.0;
  }

  /** The same roles vote in the same order, each at least as sure once clamped. */
  ghost predicate AtLeastAsSure(votes: seq<Vote>, surer: seq<Vote>) {
    && SameRoles(votes, surer)
    && forall i :: 0 <= i < |votes| ==> Clamp(votes[i].confidence) <= Clamp(surer[i].confidence)
  }

  lemma {:induction false} OpinionMonotone(g: Gate, votes: seq<Vote>, surer: seq<Vote>)
    requires NonNegative(g) && AtLeastAsSure(votes, surer)
    ensures Total(ByOpinion(g), votes) <= Total(ByOpinion(g), surer)
  {
    if votes != [] {
      var n := |votes| - 1;
      OpinionMonotone(g, votes[..n], surer[..n]);
      OneOpinionMonotone(g, votes[n], surer[n]);
    }
  }

  lemma OneOpinionMonotone(g: Gate, v: Vote, surer: Vote)
    requires NonNegative(g) && v.role == surer.role && Clamp(v.confidence) <= Clamp(surer.confidence)
    ensures ByOpinion(g)(v) <= ByOpinion(g)(surer)
  {
    ScaledMonotone(WeightOf(g, v.role), Clamp(v.confidence), Clamp(surer.confidence));
  }

  lemma ScaledOrder(x: real, y: real, n: real)
    requires n > 0.0
    ensures x * n >= y * n <==> x >= y
  {
    if x >= y {
      ProductMonotone(n, y, x);
    } else {
      assert (y - x) * n > 0.0;
    }
  }

  lemma QuotientAtLeast(x: real, n: real, t: real)
    requires n > 0.0
    ensures x / n >= t <==> x >= t * n
  {
    var q := x / n;
    assert q * n == x;
    ScaledOrder(q, t, n);
  }

  /** The threshold without the division. */
  predicate Reaches(g: Gate, opinion: real, total: real) {
    total > 0.0 && opinion >= g.threshold * total
  }

  lemma AgreedIff(g: Gate, votes: seq<Vote>)
    requires NonNegative(g)
    ensures Agreed(g, votes) <==> Reaches(g, Total(ByOpinion(g), votes), Total(ByWeight(g), votes))
  {
    WeightNonNegative(g, votes);
    var total := Total(ByWeight(g), votes);
    if total > 0.0 {
      QuotientAtLeast(Total(ByOpinion(g), votes), total, g.threshold);
    }
  }

  lemma AgreedMonotone(g: Gate, votes: seq<Vote>, surer: seq<Vote>)
    requires NonNegative(g) && AtLeastAsSure(votes, surer) && Agreed(g, votes)
    ensures Agreed(g, surer)
  {
    AgreedIff(g, votes);
    AgreedIff(g, surer);
    WeightByRole(g, votes, surer);
    OpinionMonotone(g, votes, surer);
  }

  lemma VerdictMonotone(g: Gate, a: FraudAssessment, votes: seq<Vote>, surer: seq<Vote>)
    requires NonNegative(g) && SameRoles(votes, surer)
    requires forall i :: 0 <= i < |votes| ==> votes[i].confidence <= surer[i].confidence
    ensures Verdict(g, a, votes) == Approve ==> Verdict(g, a, surer) == Approve
  {
    if Agreed(g, votes) {
      AgreedMonotone(g, votes, surer);
    }
  }

  // ---- What an adversarial part of the votes can do ----

  /** Every vote of these roles at one confidence. */
  function Unanimous(roles: seq<Role>, c: real): (votes: seq<Vote>)
    ensures |votes| == |roles|
  {
    seq(|roles|, i requires 0 <= i < |roles| => Vote(roles[i], c))
  }

  ghost predicate CastBy(votes: seq<Vote>, roles: seq<Role>) {
    SameRoles(votes, Unanimous(roles, 0.0))
  }

  /** A list of votes that holds the honest ones and one from each faulty role, in any order. */
  ghost predicate Mixes(list: seq<Vote>, honest: seq<Vote>, faulty: seq<Role>) {
    exists adversarial :: CastBy(adversarial, faulty) && multiset(list) == multiset(honest + adversarial)
  }

  ghost predicate AlwaysApproves(g: Gate, a: FraudAssessment, honest: seq<Vote>, faulty: seq<Role>) {
    forall list :: Mixes(list, honest, faulty) ==> Verdict(g, a, list) == Approve
  }

  ghost predicate NeverApproves(g: Gate, a: FraudAssessment, honest: seq<Vote>, faulty: seq<Role>) {
    forall list :: Mixes(list, honest, faulty) ==> Verdict(g, a, list) != Approve
  }

  function FaultyWeight(g: Gate, faulty: seq<Role>): real {
    Total(ByWeight(g), Unanimous(faulty, 0.0))
  }

  function AllWeight(g: Gate, honest: seq<Vote>, faulty: seq<Role>): real {
    Total(ByWeight(g), honest) + FaultyWeight(g, faulty)
  }

  function Quotient(x: real, n: real): real {
    if n == 0.0 then 0.0 else x / n
  }

  /** The fraction of the weight in faulty hands. */
  function Fraction(g: Gate, honest: seq<Vote>, faulty: seq<Role>): real {
    Quotient(FaultyWeight(g, faulty), AllWeight(g, honest, faulty))
  }

  /** The average of the honest votes. */
  function Mean(g: Gate, honest: seq<Vote>): real {
    Quotient(Total(ByOpinion(g), honest), Total(ByWeight(g), honest))
  }

  /** What the honest part of the weight contributes, when a fraction is faulty. */
  function HonestShare(fraction: real, mean: real): real {
    (1.0 - fraction) * mean
  }

  lemma {:induction false} OpinionWithinWeight(g: Gate, votes: seq<Vote>)
    requires NonNegative(g)
    ensures 0.0 <= Total(ByOpinion(g), votes) <= Total(ByWeight(g), votes)
  {
    if votes != [] {
      var v := votes[|votes| - 1];
      OpinionWithinWeight(g, votes[..|votes| - 1]);
      OneWithinWeight(g, v);
    }
  }

  lemma OneWithinWeight(g: Gate, v: Vote)
    requires NonNegative(g)
    ensures 0.0 <= ByOpinion(g)(v) <= ByWeight(g)(v)
  {
    ScaledWithin(WeightOf(g, v.role), Clamp(v.confidence));
  }

  lemma {:induction false} UnanimousOpinion(g: Gate, roles: seq<Role>, c: real)
    ensures Total(ByWeight(g), Unanimous(roles, c)) == FaultyWeight(g, roles)
    ensures Total(ByOpinion(g), Unanimous(roles, c)) == Scaled(FaultyWeight(g, roles), Clamp(c))
  {
    if roles != [] {
      var fewer, w := roles[..|roles| - 1], WeightOf(g, roles[|roles| - 1]);
      UnanimousOpinion(g, fewer, c);
      assert Unanimous(roles, c)[..|fewer|] == Unanimous(fewer, c);
      assert Unanimous(roles, 0.0)[..|fewer|] == Unanimous(fewer, 0.0);
      assert FaultyWeight(g, roles) == FaultyWeight(g, fewer) + w;
      ScaledSum(FaultyWeight(g, fewer), w, Clamp(c));
    }
  }

  /** The consensus on honest and adversarial votes, by the two opinions. */
  lemma MixedVerdict(g: Gate, honest: seq<Vote>, adversarial: seq<Vote>, faulty: seq<Role>)
    requires NonNegative(g) && CastBy(adversarial, faulty)
    ensures Agreed(g, honest + adversarial) <==>
            Reaches(g, Total(ByOpinion(g), honest) + Total(ByOpinion(g), adversarial), AllWeight(g, honest, faulty))
  {
    AgreedIff(g, honest + adversarial);
    TotalAppend(ByWeight(g), honest, adversarial);
    TotalAppend(ByOpinion(g), honest, adversarial);
    WeightByRole(g, adversarial, Unanimous(faulty, 0.0));
  }

  /** With `h` and `f` the honest and the faulty weight and `o` the honest opinion,
      (1 - a) c is the share o / (h + f). */
  lemma SharesOf(h: real, f: real, o: real)
    requires h + f > 0.0 && (h == 0.0 ==> o == 0.0)
    ensures var a, c := Quotient(f, h + f), Quotient(o, h);
            HonestShare(a, c) * (h + f) == o && (HonestShare(a, c) + a) * (h + f) == o + f
  {
    var a, c, t := Quotient(f, h + f), Quotient(o, h), h + f;
    assert a * t == f;
    assert (1.0 - a) * t == h;
    assert h * c == o;
    Regroup(1.0 - a, c, t);
  }

  lemma Regroup(x: real, y: real, z: real)
    ensures (x * y) * z == (x * z) * y
  {
  }

  lemma ReachesIff(g: Gate, share: real, opinion: real, total: real)
    requires total > 0.0 && share * total == opinion
    ensures Reaches(g, opinion, total) <==> share >= g.threshold
  {
    ScaledOrder(share, g.threshold, total);
  }

  lemma LowestReaches(g: Gate, h: real, f: real, o: real)
    requires h + f > 0.0 && (h == 0.0 ==> o == 0.0)
    ensures Reaches(g, o, h + f) <==> HonestShare(Quotient(f, h + f), Quotient(o, h)) >= g.threshold
  {
    SharesOf(h, f, o);
    ReachesIff(g, HonestShare(Quotient(f, h + f), Quotient(o, h)), o, h + f);
  }

  lemma HighestReaches(g: Gate, h: real, f: real, o: real)
    requires h + f > 0.0 && (h == 0.0 ==> o == 0.0)
    ensures Reaches(g, o + f, h + f) <==>
            HonestShare(Quotient(f, h + f), Quotient(o, h)) + Quotient(f, h + f) >= g.threshold
  {
    SharesOf(h, f, o);
    ReachesIff(g, HonestShare(Quotient(f, h + f), Quotient(o, h)) + Quotient(f, h + f), o + f, h + f);
  }

  lemma MixOf(honest: seq<Vote>, faulty: seq<Role>, c: real)
    ensures Mixes(honest + Unanimous(faulty, c), honest, faulty)
  {
    assert CastBy(Unanimous(faulty, c), faulty);
  }

  lemma UnanimousEnds(g: Gate, roles: seq<Role>)
    ensures Total(ByOpinion(g), Unanimous(roles, 0.0)) == 0.0
    ensures Total(ByOpinion(g), Unanimous(roles, 1.0)) == FaultyWeight(g, roles)
  {
    UnanimousOpinion(g, roles, 0.0);
    UnanimousOpinion(g, roles, 1.0);
    ScaledEnds(FaultyWeight(g, roles));
  }

  lemma LowestVotes(g: Gate, honest: seq<Vote>, faulty: seq<Role>)
    requires NonNegative(g)
    ensures Agreed(g, honest + Unanimous(faulty, 0.0)) <==>
            Reaches(g, Total(ByOpinion(g), honest), AllWeight(g, honest, faulty))
  {
    MixedVerdict(g, honest, Unanimous(faulty, 0.0), faulty);
    UnanimousEnds(g, faulty);
  }

  lemma HighestVotes(g: Gate, honest: seq<Vote>, faulty: seq<Role>)
    requires NonNegative(g)
    ensures Agreed(g, honest + Unanimous(faulty, 1.0)) <==>
            Reaches(g, Total(ByOpinion(g), honest) + FaultyWeight(g, faulty), AllWeight(g, honest, faulty))
  {
    MixedVerdict(g, honest, Unanimous(faulty, 1.0), faulty);
    UnanimousEnds(g, faulty);
  }

  /** Every choice of the faulty lies between the lowest and the highest. */
  lemma AgreedBetween(g: Gate, list: seq<Vote>, honest: seq<Vote>, faulty: seq<Role>)
    requires NonNegative(g) && Mixes(list, honest, faulty)
    ensures Agreed(g, honest + Unanimous(faulty, 0.0)) ==> Agreed(g, list)
    ensures Agreed(g, list) ==> Agreed(g, honest + Unanimous(faulty, 1.0))
  {
    var adversarial :| CastBy(adversarial, faulty) && multiset(list) == multiset(honest + adversarial);
    AgreedReorders(g, list, honest + adversarial);
    if Agreed(g, honest + Unanimous(faulty, 0.0)) {
      AgreedMonotone(g, honest + Unanimous(faulty, 0.0), honest + adversarial);
    }
    if Agreed(g, honest + adversarial) {
      AgreedMonotone(g, honest + adversarial, honest + Unanimous(faulty, 1.0));
    }
  }

  /** Forced approval is the verdict on the lowest votes. */
  lemma LowestDecides(g: Gate, a: FraudAssessment, honest: seq<Vote>, faulty: seq<Role>)
    requires NonNegative(g)
    ensures AlwaysApproves(g, a, honest, faulty) <==>
            Check(a) == Approve && Agreed(g, honest + Unanimous(faulty, 0.0))
  {
    MixOf(honest, faulty, 0.0);
    if Check(a) == Approve && Agreed(g, honest + Unanimous(faulty, 0.0)) {
      forall list | Mixes(list, honest, faulty) ensures Verdict(g, a, list) == Approve {
        AgreedBetween(g, list, honest, faulty);
      }
    }
  }

  /** Forced refusal is the verdict on the highest. */
  lemma HighestDecides(g: Gate, a: FraudAssessment, honest: seq<Vote>, faulty: seq<Role>)
    requires NonNegative(g)
    ensures NeverApproves(g, a, honest, faulty) <==>
            Check(a) != Approve || !Agreed(g, honest + Unanimous(faulty, 1.0))
  {
    MixOf(honest, faulty, 1.0);
    if Check(a) != Approve || !Agreed(g, honest + Unanimous(faulty, 1.0)) {
      forall list | Mixes(list, honest, faulty) ensures Verdict(g, a, list) != Approve {
        AgreedBetween(g, list, honest, faulty);
      }
    }
  }

  /** Whatever the faulty roles say, the case is approved: if and only if the first gate
      approves it and the honest share alone reaches the threshold. */
  lemma ApprovalGuaranteed(g: Gate, a: FraudAssessment, honest: seq<Vote>, faulty: seq<Role>)
    requires NonNegative(g)
    ensures AlwaysApproves(g, a, honest, faulty) <==>
            && Check(a) == Approve && AllWeight(g, honest, faulty) > 0.0
            && HonestShare(Fraction(g, honest, faulty), Mean(g, honest)) >= g.threshold
  {
    LowestDecides(g, a, honest, faulty);
    LowestVotes(g, honest, faulty);
    OpinionWithinWeight(g, honest);
    if AllWeight(g, honest, faulty) > 0.0 {
      LowestReaches(g, Total(ByWeight(g), honest), FaultyWeight(g, faulty), Total(ByOpinion(g), honest));
    }
  }

  /** Whatever the faulty roles say, the case is not approved: if and only if the first
      gate halts, or no vote has weight, or the honest share and all the faulty weight
      together stay below the threshold. */
  lemma HaltGuaranteed(g: Gate, a: FraudAssessment, honest: seq<Vote>, faulty: seq<Role>)
    requires NonNegative(g)
    ensures NeverApproves(g, a, honest, faulty) <==>
            || Check(a) != Approve || AllWeight(g, honest, faulty) == 0.0
            || HonestShare(Fraction(g, honest, faulty), Mean(g, honest)) + Fraction(g, honest, faulty) < g.threshold
  {
    HighestDecides(g, a, honest, faulty);
    HighestVotes(g, honest, faulty);
    OpinionWithinWeight(g, honest);
    WeightNonNegative(g, Unanimous(faulty, 0.0));
    if AllWeight(g, honest, faulty) > 0.0 {
      HighestReaches(g, Total(ByWeight(g), honest), FaultyWeight(g, faulty), Total(ByOpinion(g), honest));
    }
  }

  // ---- The default weights ----

  /** `BaaarV2Gate::new` */
  function DefaultGate(): (g: Gate)
    ensures NonNegative(g) && g.threshold == 0.5
  {
    Gate(
      map[
        Extractor := 0.5, PoMatcher := 0.5, FraudAuditor := 1.0, GaapClassifier := 0.5,
        ProvenanceSigner := 0.5, AuditWatchdog := 0.5, RegressionTester := 0.5, DemoNarrator := 0.5],
      0.5)
  }

  lemma DefaultRole(r: Role)
    ensures WeightOf(DefaultGate(), r) == if r == FraudAuditor then 1.0 else 0.5
  {
    match r {
      case Extractor =>
      case PoMatcher =>
      case FraudAuditor =>
      case GaapClassifier =>
      case ProvenanceSigner =>
      case AuditWatchdog =>
      case RegressionTester =>
      case DemoNarrator =>
    }
  }

  /** Votes counted with the fraud auditor's twice. */
  function Ballots(roles: seq<Role>): nat {
    |roles| + multiset(roles)[FraudAuditor]
  }

  lemma {:induction false} DefaultWeight(roles: seq<Role>)
    ensures FaultyWeight(DefaultGate(), roles) == 0.5 * Ballots(roles) as real
  {
    if roles != [] {
      var fewer, r := roles[..|roles| - 1], roles[|roles| - 1];
      DefaultWeight(fewer);
      DefaultRole(r);
      assert roles == fewer + [r];
      assert Ballots(roles) == Ballots(fewer) + if r == FraudAuditor then 2 else 1;
      assert Unanimous(roles, 0.0)[..|fewer|] == Unanimous(fewer, 0.0);
    }
  }

  lemma HalfOf(x: real, h: real)
    requires x >= 0.0 && h > 0.0
    ensures x / (h + x) < 0.5 <==> x < h
    ensures 1.0 - x / (h + x) >= 0.5 <==> x <= h
  {
    var t, a := h + x, x / (h + x);
    assert a * t == x;
    var y := a + a - 1.0;
    assert y * t == a * t + a * t - t;
    assert y * t == x - h;
    SignOfProduct(y, t);
  }

  lemma SignOfProduct(x: real, n: real)
    requires n > 0.0
    ensures x * n < 0.0 <==> x < 0.0
    ensures x * n > 0.0 <==> x > 0.0
  {
  }

  lemma UnanimousMean(g: Gate, honest: seq<Role>, c: real)
    requires FaultyWeight(g, honest) > 0.0 && 0.0 <= c <= 1.0
    ensures Mean(g, Unanimous(honest, c)) == c
  {
    UnanimousOpinion(g, honest, c);
    ClampExact(c);
    CancelWeight(FaultyWeight(g, honest), c);
  }

  lemma UnanimousTotal(g: Gate, honest: seq<Role>, faulty: seq<Role>, c: real)
    ensures AllWeight(g, Unanimous(honest, c), faulty) == FaultyWeight(g, honest) + FaultyWeight(g, faulty)
  {
    UnanimousOpinion(g, honest, c);
  }

  /** The weights and the average when the honest roles are unanimous. */
  lemma UnanimousWeights(honest: seq<Role>, faulty: seq<Role>, c: real)
    requires honest != [] && 0.0 <= c <= 1.0
    ensures var g, votes := DefaultGate(), Unanimous(honest, c);
            && AllWeight(g, votes, faulty) == 0.5 * Ballots(honest) as real + 0.5 * Ballots(faulty) as real
            && Mean(g, votes) == c
  {
    var g := DefaultGate();
    DefaultWeight(honest);
    DefaultWeight(faulty);
    UnanimousTotal(g, honest, faulty, c);
    UnanimousMean(g, honest, c);
  }

  lemma UnanimousFraction(honest: seq<Role>, faulty: seq<Role>, c: real)
    requires honest != [] && 0.0 <= c <= 1.0
    ensures var a := Fraction(DefaultGate(), Unanimous(honest, c), faulty);
            (a < 0.5 <==> Ballots(faulty) < Ballots(honest)) && (1.0 - a >= 0.5 <==> Ballots(faulty) <= Ballots(honest))
  {
    UnanimousWeights(honest, faulty, c);
    DefaultWeight(faulty);
    HalfOf(0.5 * Ballots(faulty) as real, 0.5 * Ballots(honest) as real);
  }

  lemma CancelWeight(w: real, c: real)
    requires w > 0.0
    ensures w * c / w == c
  {
  }

  /** With default weights and the honest roles unanimous, the faulty ones cannot force an
      approval if and only if they hold fewer ballots than the honest, and cannot force a
      halt if and only if they hold no more. */
  lemma DefaultTolerance(a: FraudAssessment, honest: seq<Role>, faulty: seq<Role>)
    requires Check(a) == Approve && honest != []
    ensures NeverApproves(DefaultGate(), a, Unanimous(honest, 0.0), faulty) <==> Ballots(faulty) < Ballots(honest)
    ensures AlwaysApproves(DefaultGate(), a, Unanimous(honest, 1.0), faulty) <==> Ballots(faulty) <= Ballots(honest)
  {
    var g := DefaultGate();
    UnanimousWeights(honest, faulty, 0.0);
    UnanimousWeights(honest, faulty, 1.0);
    UnanimousFraction(honest, faulty, 0.0);
    UnanimousFraction(honest, faulty, 1.0);
    HaltGuaranteed(g, a, Unanimous(honest, 0.0), faulty);
    ApprovalGuaranteed(g, a, Unanimous(honest, 1.0), faulty);
  }

  /** Two faulty agents out of five, all of different roles: they cannot overturn a
      unanimous refusal exactly when the fraud auditor is not one of them, although they
      can never overturn a unanimous approval. */
  lemma TwoOfFive(a: FraudAssessment, honest: seq<Role>, faulty: seq<Role>)
    requires Check(a) == Approve && |honest| == 3 && |faulty| == 2
    requires forall r :: multiset(honest + faulty)[r] <= 1
    ensures NeverApproves(DefaultGate(), a, Unanimous(honest, 0.0), faulty) <==> FraudAuditor !in faulty
    ensures AlwaysApproves(DefaultGate(), a, Unanimous(honest, 1.0), faulty)
  {
    DefaultTolerance(a, honest, faulty);
    assert multiset(honest + faulty) == multiset(honest) + multiset(faulty);
    assert multiset(honest + faulty)[FraudAuditor] <= 1;
  }

  /** The auditor and one other approve what three honest agents refuse. */
  lemma RefusalOverturned(a: FraudAssessment)
    requires Check(a) == Approve
    ensures Verdict(DefaultGate(), a, Unanimous([Extractor, PoMatcher, GaapClassifier], 0.0)
                    + Unanimous([FraudAuditor, ProvenanceSigner], 1.0)) == Approve
  {
    var honest, faulty := [Extractor, PoMatcher, GaapClassifier], [FraudAuditor, ProvenanceSigner];
    var g, refusals, best := DefaultGate(), Unanimous(honest, 0.0), Unanimous(faulty, 1.0);
    DefaultWeight(honest);
    DefaultWeight(faulty);
    UnanimousOpinion(g, honest, 0.0);
    UnanimousOpinion(g, faulty, 1.0);
    MixedVerdict(g, refusals, best, faulty);
  }
}
