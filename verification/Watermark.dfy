/** The Kirchenbauer watermark detector of the Go SDK: Newton square root, green list,
    z-test. Floats are reals; `uint32` arithmetic wraps modulo 2^32. */
module Watermark {
  import opened Bytes
  import opened Division

  const MULTIPLIER: nat := 0x9E3779B1

  datatype Config = Config(key: Bytes32, gamma: real, threshold: real, vocabSize: Uint32)

  // ---- Newton square root ----

  function Pow4(n: nat): (p: real)
    ensures p >= 1.0
  {
    if n == 0 then 1.0 else 4.0 * Pow4(n - 1)
  }

  /** How far above `x` the square of the computed root can be. */
  function Residual(x: real): real {
    (x / 4.0 - 1.0) * (x / 4.0 - 1.0) / Pow4(31)
  }

  /** 4^31 written out. */
  lemma Pow4Of31()
    ensures Pow4(31) == 4611686018427387904.0
  {
    assert Pow4(8) == 65536.0;
    assert Pow4(16) == 65536.0 * Pow4(8);
    assert Pow4(24) == 65536.0 * Pow4(16);
    assert Pow4(31) == 16384.0 * Pow4(24);
  }

  /** One step from at or above the root stays there, does not move up, and leaves at
      most a quarter of the residual. */
  lemma NewtonStep(x: real, z: real)
    requires x > 0.0 && z > 0.0 && z * z >= x
    ensures var z' := (z + x / z) / 2.0;
            0.0 < z' <= z && 0.0 <= z' * z' - x <= (z * z - x) / 4.0
  {
    var w := x / z;
    assert z * w == x;
    QuarterGap(z, w);
  }

  lemma QuarterGap(z: real, w: real)
    requires z > 0.0 && w > 0.0 && z * z >= z * w
    ensures var m := (z + w) / 2.0;
            0.0 < m <= z && 0.0 <= m * m - z * w <= (z * z - z * w) / 4.0
  {
    if z < w {
      MulLess(z, z, w);
    }
    var m := (z + w) / 2.0;
    assert m * m - z * w == (z - w) * (z - w) / 4.0;
    assert (z - w) * w >= 0.0;
    assert (z - w) * (z - w) == (z * z - z * w) - (z - w) * w;
    assert (z - w) * (z - w) >= 0.0;
  }

  lemma MulLess(k: real, a: real, b: real)
    requires k > 0.0 && a < b
    ensures k * a < k * b
  {
    assert k * (b - a) > 0.0;
  }

  /** What holds after `i` steps from x/2. */
  ghost predicate AfterSteps(x: real, z: real, i: nat) {
    z > 0.0 &&
    if i == 0 then z == x / 2.0
    else 0.0 <= z * z - x <= (x / 4.0 - 1.0) * (x / 4.0 - 1.0) / Pow4(i - 1)
  }

  lemma NextStep(x: real, z: real, i: nat)
    requires x > 0.0 && AfterSteps(x, z, i)
    ensures AfterSteps(x, (z + x / z) / 2.0, i + 1)
  {
    var first := (x / 4.0 - 1.0) * (x / 4.0 - 1.0);
    if i == 0 {
      var h := x / 2.0;
      assert x / h == 2.0 by { assert (2.0 * h) / h == 2.0; }
      var z' := x / 4.0 + 1.0;
      assert z' * z' - x == first;
    } else {
      NewtonStep(x, z);
      QuarterOf(first, Pow4(i - 1));
    }
  }

  lemma QuarterOf(a: real, p: real)
    requires p >= 1.0
    ensures a / p / 4.0 == a / (4.0 * p)
  {
    var q := a / p;
    assert q * p == a;
    assert (q / 4.0) * (4.0 * p) == a;
  }

  /** `sqrt`: 32 Newton steps from x/2. */
  method Sqrt(x: real) returns (z: real)
    ensures x <= 0.0 ==> z == 0.0
    ensures x > 0.0 ==> NearRoot(z, x)
    ensures x > 0.0 ==>
              z > 0.0 && 0.0 <= z * z - x <= (x / 4.0 - 1.0) * (x / 4.0 - 1.0) / 4611686018427387904.0
  {
    Pow4Of31();
    if x <= 0.0 {
      return 0.0;
    }
    z := x / 2.0;
    for i := 0 to 32
      invariant AfterSteps(x, z, i)
    {
      NextStep(x, z, i);
      z := (z + x / z) / 2.0;
    }
  }

  // ---- Green list ----

  function Le32(n: Uint32): (b: seq<Byte>)
    ensures |b| == 4
  {
    [n % 256, n / 256 % 256, n / 65536 % 256, n / 16777216]
  }

  function FromLe32(b: seq<Byte>): (n: Uint32)
    requires |b| >= 4
  {
    var b0: int, b1: int, b2: int, b3: int := b[0], b[1], b[2], b[3];
    b0 + 256 * b1 + 65536 * b2 + 16777216 * b3
  }

  /** The 40-byte buffer that is hashed: key, position, four zero bytes. */
  function PrngInput(key: Bytes32, position: Uint32): seq<Byte> {
    key + Le32(position) + [0, 0, 0, 0]
  }

  /** The layout of the buffer, byte by byte. */
  lemma PrngInputLayout(key: Bytes32, position: Uint32)
    ensures var b := PrngInput(key, position);
            && |b| == 40 && b[..32] == key && b[36..] == [0, 0, 0, 0]
            && SpelledLe(position, b[32], b[33], b[34], b[35])
  {
    Le32RoundTrip(position);
  }

  /** Only the first four bytes of the digest are used, least significant first. */
  lemma SeedBytes(hash: seq<Byte> -> Bytes32, cfg: Config, position: Uint32)
    ensures var d := hash(PrngInput(cfg.key, position));
            SpelledLe(Seed(hash, cfg, position), d[0], d[1], d[2], d[3])
  {
  }

  /** The four bytes of a number, least significant first. */
  predicate SpelledLe(n: Uint32, b0: nat, b1: nat, b2: nat, b3: nat) {
    n == b0 + 0x100 * b1 + 0x10000 * b2 + 0x1000000 * b3
  }

  /** Distinct positions hash distinct buffers. */
  lemma PrngInputInjective(key: Bytes32, p: Uint32, q: Uint32)
    requires PrngInput(key, p) == PrngInput(key, q)
    ensures p == q
  {
    assert Le32(p) == PrngInput(key, p)[32..36];
    assert Le32(q) == PrngInput(key, q)[32..36];
    Le32RoundTrip(p);
    Le32RoundTrip(q);
  }

  /** The buffer is never the 36 bytes that the comment describes: it has four zeros more. */
  lemma PrngInputPadded(key: Bytes32, p: Uint32, q: Uint32)
    ensures PrngInput(key, p) != key + Le32(q)
  {
    assert |PrngInput(key, p)| == 40 && |key + Le32(q)| == 36;
  }

  lemma Le32RoundTrip(n: Uint32)
    ensures FromLe32(Le32(n)) == n
  {
    assert n / 256 == 256 * (n / 65536) + n / 256 % 256;
    assert n / 65536 == 256 * (n / 16777216) + n / 65536 % 256;
  }

  function Seed(hash: seq<Byte> -> Bytes32, cfg: Config, position: Uint32): Uint32 {
    FromLe32(hash(PrngInput(cfg.key, position)))
  }

  /** max(1, floor(gamma * vocabSize)), never more than the vocabulary. */
  function GreenSize(cfg: Config): (n: nat)
    requires cfg.vocabSize > 0 && 0.0 < cfg.gamma < 1.0
    ensures 1 <= n <= cfg.vocabSize
  {
    GreenShare(cfg.gamma, cfg.vocabSize);
    AtLeastOneFloor(cfg.gamma * cfg.vocabSize as real)
  }

  /** The share of the vocabulary, rounded down, and at least one. */
  lemma GreenSizeExact(cfg: Config)
    requires Checked(cfg)
    ensures var share := cfg.gamma * cfg.vocabSize as real;
            GreenSize(cfg) == if share < 1.0 then 1 else share.Floor
  {
    FloorExact(cfg.gamma * cfg.vocabSize as real);
  }

  lemma FloorExact(x: real)
    ensures AtLeastOneFloor(x) == if x < 1.0 then 1 else x.Floor
  {
  }

  lemma GreenShare(gamma: real, v: nat)
    requires 0.0 < gamma < 1.0 && v > 0
    ensures 1 <= AtLeastOneFloor(gamma * v as real) <= v
  {
    var r := v as real;
    ProperFraction(gamma, r);
    assert AtLeastOneFloor(gamma * r) as real < r + 1.0;
  }

  function AtLeastOneFloor(x: real): (n: nat)
    ensures n >= 1 && if x < 1.0 then n == 1 else n as real <= x < n as real + 1.0
  {
    if x.Floor < 1 then 1 else x.Floor
  }

  lemma ProperFraction(a: real, v: real)
    requires 0.0 < a < 1.0 && v > 0.0
    ensures 0.0 < a * v < v
  {
    assert (1.0 - a) * v > 0.0;
  }

  function GreenEntry(seed: Uint32, i: nat, vocabSize: Uint32): (g: Uint32)
    requires vocabSize > 0
    ensures g < vocabSize
  {
    (seed + i * MULTIPLIER % TWO32) % TWO32 % vocabSize
  }

  /** `greenListForPosition`, called only on a checked configuration. */
  method GreenListForPosition(hash: seq<Byte> -> Bytes32, cfg: Config, position: Uint32)
    returns (out: array<Uint32>)
    requires cfg.vocabSize > 0 && 0.0 < cfg.gamma < 1.0
    ensures fresh(out) && out.Length == GreenSize(cfg)
    ensures out[..] == GreenSeq(Seed(hash, cfg, position), GreenSize(cfg), cfg.vocabSize)
  {
    var greenSize := GreenSize(cfg);
    var seed := FromLe32(hash(PrngInput(cfg.key, position)));
    out := new Uint32[greenSize];
    for i := 0 to greenSize
      invariant forall j :: 0 <= j < i ==> out[j] == GreenEntry(seed, j, cfg.vocabSize)
    {
      out[i] := (seed + i * MULTIPLIER % TWO32) % TWO32 % cfg.vocabSize;
    }
  }

  function Pow2(k: nat): (p: nat)
    ensures p > 0
  {
    if k == 0 then 1 else 2 * Pow2(k - 1)
  }

  lemma {:induction false} Pow2Split(k: nat, n: nat)
    requires k <= n
    ensures Pow2(n) == Pow2(k) * Pow2(n - k)
  {
    if k < n {
      Pow2Split(k, n - 1);
      assert Pow2(k) * (2 * Pow2(n - k - 1)) == 2 * (Pow2(k) * Pow2(n - k - 1));
    }
  }

  /** A power of two that divides `d` times an odd number divides `d`. */
  lemma {:induction false} OddCancels(k: nat, d: nat, m: nat, q: nat) returns (r: nat)
    requires m % 2 == 1 && d * m == Pow2(k) * q
    ensures d == Pow2(k) * r
  {
    if k == 0 {
      r := d;
    } else {
      var h := m / 2;
      assert d * m == 2 * (d * h) + d;
      var p := Pow2(k - 1);
      assert Pow2(k) * q == 2 * (p * q);
      var half := d / 2;
      assert d == 2 * half;
      assert 2 * (half * m) == d * m;
      r := OddCancels(k - 1, half, m, q);
      assert Pow2(k) * r == 2 * (p * r);
    }
  }

  /** With a power-of-two vocabulary, no two of the first `vocabSize` entries collide:
      the size divides 2^32 and the multiplier is odd. */
  lemma GreenEntriesDistinct(seed: Uint32, k: nat, i: nat, j: nat)
    requires k < 32 && Pow2(k) < TWO32 && i < j < Pow2(k)
    ensures GreenEntry(seed, i, Pow2(k)) != GreenEntry(seed, j, Pow2(k))
  {
    var v := Pow2(k);
    Pow2Split(k, 32);
    Pow2Of32();
    EntryMod(seed, i, v, Pow2(32 - k));
    EntryMod(seed, j, v, Pow2(32 - k));
    OddStrideDistinct(seed, MULTIPLIER, k, i, j);
  }

  lemma Pow2Of32()
    ensures Pow2(32) == TWO32
  {
    assert Pow2(8) == 256;
    Pow2Split(8, 16);
    Pow2Split(16, 32);
  }

  /** Steps of odd size from any start visit each residue of a power of two once. */
  lemma OddStrideDistinct(start: nat, m: nat, k: nat, i: nat, j: nat)
    requires m % 2 == 1 && i < j < Pow2(k)
    ensures (start + i * m) % Pow2(k) != (start + j * m) % Pow2(k)
  {
    var v := Pow2(k);
    var x, y := start + i * m, start + j * m;
    if x % v == y % v {
      Gap(i, j, m);
      var q := SameResidue(x, y, v);
      var r := OddCancels(k, j - i, m, q);
      if r >= 1 { AtLeastOnce(v, r); }
    }
  }

  lemma Gap(i: nat, j: nat, m: nat)
    requires i < j
    ensures j * m - i * m == (j - i) * m >= 0
  {
  }

  lemma SameResidue(x: nat, y: nat, v: nat) returns (q: nat)
    requires v > 0 && x <= y && x % v == y % v
    ensures y - x == v * q
  {
    var a, b := x / v, y / v;
    assert x == v * a + x % v && y == v * b + y % v;
    if b < a { AtLeastOnce(v, a - b); }
    q := b - a;
  }

  /** An entry is the unwrapped sum modulo any size that divides 2^32. */
  lemma EntryMod(seed: Uint32, i: nat, v: Uint32, q: nat)
    requires v > 0 && q > 0 && v * q == TWO32
    ensures GreenEntry(seed, i, v) == (seed + i * MULTIPLIER) % v
  {
    var p := i * MULTIPLIER;
    ModOfMod(seed + p % TWO32, v, q);
    var a, r := p / TWO32, p % TWO32;
    assert p == TWO32 * a + r;
    assert TWO32 * a == v * (q * a);
    SameRemainder(seed + r, v, q * a);
  }

  function GreenSeq(seed: Uint32, n: nat, v: Uint32): seq<Uint32>
    requires v > 0
  {
    seq(n, i requires 0 <= i => GreenEntry(seed, i, v))
  }

  lemma AllDistinct(seed: Uint32, k: nat, list: seq<Uint32>)
    requires k < 32 && Pow2(k) < TWO32 && |list| <= Pow2(k) && list == GreenSeq(seed, |list|, Pow2(k))
    ensures forall i, j :: 0 <= i < j < |list| ==> list[i] != list[j]
  {
    forall i, j | 0 <= i < j < |list| ensures list[i] != list[j] {
      GreenEntriesDistinct(seed, k, i, j);
    }
  }

  /** So the green set has exactly max(1, floor(gamma * V)) members. */
  lemma GreenListCardinality(seed: Uint32, cfg: Config, k: nat)
    requires 0.0 < cfg.gamma < 1.0 && k < 32 && cfg.vocabSize == Pow2(k)
    ensures var list := GreenSeq(seed, GreenSize(cfg), cfg.vocabSize);
            var share := cfg.gamma * cfg.vocabSize as real;
            |set g | g in list| == if share < 1.0 then 1 else share.Floor
  {
    var list := GreenSeq(seed, GreenSize(cfg), cfg.vocabSize);
    AllDistinct(seed, k, list);
    DistinctCardinality(list);
    GreenSizeExact(cfg);
  }

  lemma {:induction false} DistinctCardinality(s: seq<int>)
    requires forall i, j :: 0 <= i < j < |s| ==> s[i] != s[j]
    ensures |set x | x in s| == |s|
  {
    if s != [] {
      var t := s[..|s| - 1];
      DistinctCardinality(t);
      assert s == t + [s[|s| - 1]];
      assert (set x | x in s) == (set x | x in t) + {s[|s| - 1]};
    }
  }

  /** The wrapping sum that the entries come from: the seed, then one multiplier more each time. */
  function Stride(seed: Uint32, i: nat): Uint32 {
    if i == 0 then seed else (Stride(seed, i - 1) + 0x9E3779B1) % 0x1_0000_0000
  }

  lemma {:induction false} StrideIs(seed: Uint32, i: nat)
    ensures Stride(seed, i) == (seed + i * MULTIPLIER) % TWO32
  {
    if i > 0 {
      StrideIs(seed, i - 1);
      var p := seed + (i - 1) * MULTIPLIER;
      assert seed + i * MULTIPLIER == p + MULTIPLIER;
      WrapAdd(p, MULTIPLIER);
    }
  }

  lemma WrapAdd(p: nat, m: nat)
    ensures (p % TWO32 + m) % TWO32 == (p + m) % TWO32
  {
    var q, r := p / TWO32, p % TWO32;
    assert p + m == TWO32 * q + (r + m);
    SameRemainder(r + m, TWO32, q);
  }

  /** An entry of the green list is the wrapping sum of a seed and multipliers, reduced to
      the vocabulary. */
  lemma GreenEntryIsStride(seed: Uint32, i: nat, v: Uint32)
    requires v > 0
    ensures GreenEntry(seed, i, v) == Stride(seed, i) % v
  {
    StrideIs(seed, i);
    WrapAdd(i * MULTIPLIER, seed);
  }

  /** Which tokens count as green, from the configuration and the hash alone. */
  lemma GreenExactly(hash: seq<Byte> -> Bytes32, cfg: Config, tokens: seq<Uint32>, i: nat)
    requires Checked(cfg)
    ensures i in GreenPositions(hash, cfg, tokens) <==>
            i < |tokens| && OnStride(Seed(hash, cfg, i % 0x1_0000_0000), GreenSize(cfg), cfg.vocabSize, tokens[i])
  {
    if i < |tokens| {
      OnListIffOnStride(Seed(hash, cfg, i % TWO32), GreenSize(cfg), cfg.vocabSize, tokens[i]);
    }
  }

  /** One of the first `n` wrapping sums, reduced to the vocabulary, is the token. */
  ghost predicate OnStride(seed: Uint32, n: nat, v: Uint32, token: Uint32)
    requires v > 0
  {
    exists k: nat :: k < n && Stride(seed, k) % v == token
  }

  lemma OnListIffOnStride(seed: Uint32, n: nat, v: Uint32, token: Uint32)
    requires v > 0
    ensures token < v && token in GreenSeq(seed, n, v) <==> OnStride(seed, n, v, token)
  {
    var list := GreenSeq(seed, n, v);
    if token in list {
      var k: nat :| k < n && list[k] == token;
      GreenEntryIsStride(seed, k, v);
      assert Stride(seed, k) % v == token;
    }
    if k: nat :| k < n && Stride(seed, k) % v == token {
      GreenEntryIsStride(seed, k, v);
      assert list[k] == token;
    }
  }

  /** The hypothesis is not idle: with a vocabulary of three, wrapping makes entries collide. */
  lemma GreenEntriesCanCollide()
    ensures GreenEntry(0xFFFF_FFFF, 0, 3) == GreenEntry(0xFFFF_FFFF, 1, 3)
  {
  }

  // ---- Detection ----

  datatype Detection =
    | BadVocabSize
    | BadGamma
    | BadThreshold
    | Stats(detected: bool, zScore: real, greenCount: nat, totalCount: nat)

  /** Token `i` is in the vocabulary and on the green list of its position. */
  ghost predicate IsGreen(hash: seq<Byte> -> Bytes32, cfg: Config, tokens: seq<Uint32>, i: nat)
    requires cfg.vocabSize > 0 && 0.0 < cfg.gamma < 1.0 && i < |tokens|
  {
    tokens[i] < cfg.vocabSize && tokens[i] in GreenSeq(Seed(hash, cfg, i % TWO32), GreenSize(cfg), cfg.vocabSize)
  }

  ghost predicate Checked(cfg: Config) {
    cfg.vocabSize > 0 && 0.0 < cfg.gamma < 1.0
  }

  ghost function GreenPositions(hash: seq<Byte> -> Bytes32, cfg: Config, tokens: seq<Uint32>): set<nat>
    requires Checked(cfg)
  {
    set i: nat | i < |tokens| && IsGreen(hash, cfg, tokens, i)
  }

  /** How far the green count is above its expectation under no watermark. */
  function Excess(g: nat, n: nat, gamma: real): real {
    g as real - n as real * gamma
  }

  /** The variance of the green count under no watermark. */
  function Variance(n: nat, gamma: real): (v: real)
    ensures n > 0 && 0.0 < gamma < 1.0 ==> v > 0.0
  {
    if n > 0 && 0.0 < gamma < 1.0 then
      MulLess(n as real, 0.0, gamma);
      MulLess(n as real * gamma, 0.0, 1.0 - gamma);
      n as real * gamma * (1.0 - gamma)
    else n as real * gamma * (1.0 - gamma)
  }

  /** `z` is the excess divided by a root of the variance, as close as `Sqrt` gets. */
  ghost predicate IsZScore(z: real, excess: real, variance: real) {
    exists root :: NearRoot(root, variance) && z * root == excess
  }

  predicate NearRoot(root: real, x: real) {
    root > 0.0 && 0.0 <= root * root - x <= Residual(x)
  }

  /** More than `t` deviations above expectation, squared so that no root appears. */
  predicate Exceeds(excess: real, t: real, variance: real) {
    excess > 0.0 && excess * excess > t * t * variance
  }

  /** The test and its slack, written out. */
  lemma ExceedsMeans(g: nat, n: nat, gamma: real, t: real, slack: real)
    ensures Exceeds(Excess(g, n, gamma), t, Variance(n, gamma) + slack) <==>
            var excess := g as real - gamma * n as real;
            excess > 0.0 && excess * excess > t * t * (gamma * (1.0 - gamma) * n as real + slack)
    ensures var v := gamma * (1.0 - gamma) * n as real;
            Residual(Variance(n, gamma)) == (v / 4.0 - 1.0) * (v / 4.0 - 1.0) / 4611686018427387904.0
  {
    Pow4Of31();
    assert n as real * gamma * (1.0 - gamma) == gamma * (1.0 - gamma) * n as real;
  }

  /** `DetectWatermark`: detection is sound, and complete up to the residual of the root. */
  method DetectWatermark(hash: seq<Byte> -> Bytes32, tokens: seq<Uint32>, cfg: Config) returns (r: Detection)
    ensures r.BadVocabSize? <==> cfg.vocabSize == 0
    ensures r.BadGamma? <==> cfg.vocabSize != 0 && !(0.0 < cfg.gamma < 1.0)
    ensures r.BadThreshold? <==> cfg.vocabSize != 0 && 0.0 < cfg.gamma < 1.0 && cfg.threshold <= 0.0
    ensures r.Stats? ==> r.totalCount == |tokens|
    ensures r.Stats? ==> r.greenCount == |GreenPositions(hash, cfg, tokens)|
    ensures r.Stats? ==> r.detected == (r.zScore > cfg.threshold)
    ensures r.Stats? && tokens == [] ==> r.zScore == 0.0
    ensures r.Stats? && tokens != [] ==>
              IsZScore(r.zScore, Excess(r.greenCount, |tokens|, cfg.gamma), Variance(|tokens|, cfg.gamma))
    ensures r.Stats? && r.detected ==>
              Exceeds(Excess(r.greenCount, |tokens|, cfg.gamma), cfg.threshold, Variance(|tokens|, cfg.gamma))
    ensures r.Stats? && tokens != [] ==>
              var v := Variance(|tokens|, cfg.gamma);
              Exceeds(Excess(r.greenCount, |tokens|, cfg.gamma), cfg.threshold, v + Residual(v)) ==> r.detected
  {
    if cfg.vocabSize == 0 {
      return BadVocabSize;
    }
    if cfg.gamma <= 0.0 || cfg.gamma >= 1.0 {
      return BadGamma;
    }
    if cfg.threshold <= 0.0 {
      return BadThreshold;
    }
    var n := |tokens|;
    if n == 0 {
      assert GreenPositions(hash, cfg, tokens) == {};
      return Stats(false, 0.0, 0, 0);
    }
    var greenCount := CountGreen(hash, tokens, cfg);
    var z := ZScore(greenCount, n, cfg.gamma, cfg.threshold);
    r := Stats(z > cfg.threshold, z, greenCount, n);
  }

  /** The z statistic; the variance is positive whenever there are tokens. */
  method ZScore(greenCount: nat, n: nat, gamma: real, ghost t: real) returns (z: real)
    requires n > 0 && 0.0 < gamma < 1.0 && t > 0.0
    ensures IsZScore(z, Excess(greenCount, n, gamma), Variance(n, gamma))
    ensures z > t ==> Exceeds(Excess(greenCount, n, gamma), t, Variance(n, gamma))
    ensures var v := Variance(n, gamma); Exceeds(Excess(greenCount, n, gamma), t, v + Residual(v)) ==> z > t
  {
    var excess := Excess(greenCount, n, gamma);
    var variance := Variance(n, gamma);
    z := 0.0;
    if variance > 0.0 {
      var root := Sqrt(variance);
      z := excess / root;
      ZScoreWitness(excess, variance, root);
      ZTest(excess, variance, Residual(variance), root, t);
    }
  }

  lemma ZScoreWitness(excess: real, variance: real, root: real)
    requires NearRoot(root, variance)
    ensures IsZScore(excess / root, excess, variance)
  {
    var z := excess / root;
    assert z * root == excess;
  }

  lemma ZTest(excess: real, variance: real, slack: real, root: real, t: real)
    requires variance > 0.0 && t > 0.0 && root > 0.0 && 0.0 <= root * root - variance <= slack
    ensures excess / root > t ==> Exceeds(excess, t, variance)
    ensures Exceeds(excess, t, variance + slack) ==> excess / root > t
  {
    var z := excess / root;
    assert z * root == excess;
    assert t * t > 0.0;
    assert excess * excess == (z * z) * (root * root);
    if z > t {
      assert z * root > 0.0;
      MulLess(z, t, z);
      MulLess(t, t, z);
      MulLess(root * root, t * t, z * z);
      assert t * t * (root * root) >= t * t * variance;
    } else if excess > 0.0 {
      assert z > 0.0;
      assert z * z <= t * t by { assert z * (t - z) >= 0.0; assert t * (t - z) >= 0.0; }
      assert (t * t - z * z) * (root * root) >= 0.0;
      assert t * t * (variance + slack - root * root) >= 0.0;
    }
  }

  /** Looks the token up on the list of its own position. */
  method OnGreenList(hash: seq<Byte> -> Bytes32, cfg: Config, tokens: seq<Uint32>, i: nat) returns (found: bool)
    requires Checked(cfg) && i < |tokens|
    ensures found == IsGreen(hash, cfg, tokens, i)
  {
    if tokens[i] >= cfg.vocabSize {
      return false;
    }
    var list := GreenListForPosition(hash, cfg, i % TWO32);
    ghost var green := list[..];
    for k := 0 to list.Length
      invariant tokens[i] !in green[..k]
    {
      assert green[..k + 1] == green[..k] + [list[k]];
      if list[k] == tokens[i] {
        assert green[k] == tokens[i];
        return true;
      }
    }
    assert green[..list.Length] == green;
    return false;
  }

  /** The counting loop. */
  method CountGreen(hash: seq<Byte> -> Bytes32, tokens: seq<Uint32>, cfg: Config) returns (greenCount: nat)
    requires Checked(cfg)
    ensures greenCount == |GreenPositions(hash, cfg, tokens)|
  {
    greenCount := 0;
    ghost var green: set<nat> := {};
    for i := 0 to |tokens|
      invariant greenCount == |green|
      invariant forall j: nat :: j in green <==> j < i && IsGreen(hash, cfg, tokens, j)
    {
      var found := OnGreenList(hash, cfg, tokens, i);
      if found {
        greenCount := greenCount + 1;
        green := green + {i};
      }
    }
    assert green == GreenPositions(hash, cfg, tokens);
  }
}
