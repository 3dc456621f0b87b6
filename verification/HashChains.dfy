/** The append-only BLAKE3 hash chain. Text is its UTF-8 bytes; the hash function is a
    parameter of the chain. */
module HashChains {
  import opened Bytes

  datatype ChainEntry = ChainEntry(
    sequence: nat, payload: seq<Byte>, hash: seq<Byte>, prevHash: seq<Byte>, createdAtMs: int)

  datatype VerifyResult =
    | Intact
    | InvalidGenesis(sequence: nat)
    | BrokenChain(sequence: nat)
    | HashMismatch(sequence: nat)

  /** `"0".repeat(64)` */
  function ZeroHash(): (z: seq<Byte>)
    ensures |z| == 64 && forall i :: 0 <= i < 64 ==> z[i] == '0' as int
  {
    seq(64, _ => 48)
  }

  const ZERO: seq<Byte> := ZeroHash()

  /** A `Vec` holds at most isize::MAX bytes, so its length is far below 2^63. */
  const MAX_LENGTH: nat := 0x8000_0000_0000_0000

  const WORD: nat := 8

  /** What is hashed: eight big-endian bytes, the previous hash, the payload. */
  function Encode(sequence: nat, prevHash: seq<Byte>, payload: seq<Byte>): seq<Byte> {
    BigEndian(sequence, WORD) + prevHash + payload
  }

  /** The layout of what is hashed. */
  lemma EncodeLayout(sequence: nat, prevHash: seq<Byte>, payload: seq<Byte>)
    requires sequence < TWO64
    ensures var b := Encode(sequence, prevHash, payload);
            && |b| == 8 + |prevHash| + |payload| && FromBigEndian(b[..8]) == sequence
            && b[8..8 + |prevHash|] == prevHash && b[8 + |prevHash|..] == payload
  {
    Pow256Of8();
    BigEndianValue(sequence, 8);
    assert Encode(sequence, prevHash, payload)[..8] == BigEndian(sequence, 8);
  }

  /** `compute_entry_hash` */
  function EntryHash(hash: seq<Byte> -> Bytes32, sequence: nat, prevHash: seq<Byte>, payload: seq<Byte>): (h: seq<Byte>)
    ensures |h| == 64
  {
    Hex(hash(Encode(sequence, prevHash, payload)))
  }

  /** What the entry at index `i` must carry as its previous hash. */
  function PrevOf(c: seq<ChainEntry>, i: nat): seq<Byte>
    requires i <= |c|
  {
    if i == 0 then ZERO else c[i - 1].hash
  }

  function NextEntry(hash: seq<Byte> -> Bytes32, n: nat, prev: seq<Byte>, payload: seq<Byte>, at: int): ChainEntry {
    ChainEntry(n, payload, EntryHash(hash, n, prev, payload), prev, at)
  }

  function Appended(hash: seq<Byte> -> Bytes32, c: seq<ChainEntry>, payload: seq<Byte>, at: int): seq<ChainEntry> {
    c + [NextEntry(hash, |c|, PrevOf(c, |c|), payload, at)]
  }

  /** What `verify` finds wrong with one entry. The carried previous hash is compared
      only for an entry that claims to be the genesis. */
  function Fault(hash: seq<Byte> -> Bytes32, carried: seq<Byte>, e: ChainEntry): VerifyResult {
    if e.sequence == 0 && e.prevHash != carried then InvalidGenesis(e.sequence)
    else if e.sequence > 0 && e.prevHash == ZERO then BrokenChain(e.sequence)
    else if EntryHash(hash, e.sequence, e.prevHash, e.payload) != e.hash then HashMismatch(e.sequence)
    else Intact
  }

  function FaultAt(hash: seq<Byte> -> Bytes32, c: seq<ChainEntry>, i: nat): VerifyResult
    requires i < |c|
  {
    Fault(hash, PrevOf(c, i), c[i])
  }

  /** The verdict on a chain: the fault of its first faulty entry. */
  ghost function Verdict(hash: seq<Byte> -> Bytes32, c: seq<ChainEntry>): VerifyResult {
    First(Faults(hash, c), 0)
  }

  ghost function Faults(hash: seq<Byte> -> Bytes32, c: seq<ChainEntry>): (f: seq<VerifyResult>)
    ensures |f| == |c|
  {
    seq(|c|, i requires 0 <= i < |c| => FaultAt(hash, c, i))
  }

  function First(f: seq<VerifyResult>, n: nat): VerifyResult
    requires n <= |f|
    decreases |f| - n
  {
    if n == |f| then Intact else if f[n] != Intact then f[n] else First(f, n + 1)
  }

  /** The verdict is that of entry `k` when every entry before it is in order. */
  lemma {:induction false} FirstAt(f: seq<VerifyResult>, n: nat, k: nat)
    requires n <= k < |f| && f[k] != Intact && forall i :: n <= i < k ==> f[i] == Intact
    ensures First(f, n) == f[k]
    decreases k - n
  {
    if n < k {
      FirstAt(f, n + 1, k);
    }
  }

  lemma {:induction false} FirstIntact(f: seq<VerifyResult>, n: nat)
    requires n <= |f|
    ensures First(f, n) == Intact <==> forall i :: n <= i < |f| ==> f[i] == Intact
    decreases |f| - n
  {
    if n < |f| {
      FirstIntact(f, n + 1);
    }
  }

  /** What the reported fault says: all entries before some entry are in order, and that
      entry is a genesis with a wrong previous hash, a later entry with the all-zero one, or
      else one whose hash is not the hash of its contents. */
  lemma VerdictMeans(hash: seq<Byte> -> Bytes32, c: seq<ChainEntry>) returns (k: nat)
    ensures k <= |c| && (Verdict(hash, c) == Intact <==> k == |c|)
    ensures forall i :: 0 <= i < k ==> FaultAt(hash, c, i) == Intact
    ensures k < |c| ==>
              var e := c[k];
              match Verdict(hash, c)
              case Intact => false
              case InvalidGenesis(n) => n == e.sequence == 0 && e.prevHash != PrevOf(c, k)
              case BrokenChain(n) => n == e.sequence > 0 && e.prevHash == ZERO
              case HashMismatch(n) =>
                && n == e.sequence && e.hash != EntryHash(hash, n, e.prevHash, e.payload)
                && if n == 0 then e.prevHash == PrevOf(c, k) else e.prevHash != ZERO
  {
    FirstIntact(Faults(hash, c), 0);
    if Verdict(hash, c) == Intact {
      k := |c|;
      assert forall i :: 0 <= i < k ==> FaultAt(hash, c, i) == Faults(hash, c)[i];
    } else {
      k := FirstFaulty(Faults(hash, c), 0);
      FirstAt(Faults(hash, c), 0, k);
      assert forall i :: 0 <= i < k ==> FaultAt(hash, c, i) == Faults(hash, c)[i];
    }
  }

  lemma {:induction false} FirstFaulty(f: seq<VerifyResult>, n: nat) returns (k: nat)
    requires n <= |f| && First(f, n) != Intact
    ensures n <= k < |f| && f[k] != Intact && forall i :: n <= i < k ==> f[i] == Intact
    decreases |f| - n
  {
    if f[n] != Intact {
      k := n;
    } else {
      k := FirstFaulty(f, n + 1);
    }
  }

  class HashChain {
    const hash: seq<Byte> -> Bytes32
    var entries: seq<ChainEntry>

    constructor (hash: seq<Byte> -> Bytes32)
      ensures this.hash == hash && entries == []
    {
      this.hash := hash;
      entries := [];
    }

    method AppendWithTimestamp(payload: seq<Byte>, createdAtMs: int) returns (e: ChainEntry)
      requires |entries| < MAX_LENGTH
      modifies this`entries
      ensures entries == Appended(hash, old(entries), payload, createdAtMs)
      ensures e == entries[|entries| - 1] && entries == old(entries) + [e]
      ensures e.sequence == old(|entries|) && e.payload == payload && e.createdAtMs == createdAtMs
      ensures e.prevHash == if old(entries) == [] then ZERO else old(entries[|entries| - 1].hash)
    {
      var sequence := |entries|;
      var prevHash := if entries == [] then ZERO else entries[|entries| - 1].hash;
      e := ChainEntry(sequence, payload, EntryHash(hash, sequence, prevHash, payload), prevHash, createdAtMs);
      entries := entries + [e];
    }

    method Verify() returns (r: VerifyResult)
      ensures r == Verdict(hash, entries)
    {
      var prevHash := ZERO;
      for i := 0 to |entries|
        invariant prevHash == PrevOf(entries, i)
        invariant Verdict(hash, entries) == First(Faults(hash, entries), i)
      {
        var e := entries[i];
        assert Faults(hash, entries)[i] == Fault(hash, prevHash, e);
        if e.sequence == 0 && e.prevHash != prevHash {
          return InvalidGenesis(e.sequence);
        }
        if e.sequence > 0 && e.prevHash == ZERO {
          return BrokenChain(e.sequence);
        }
        var recomputed := EntryHash(hash, e.sequence, e.prevHash, e.payload);
        if recomputed != e.hash {
          return HashMismatch(e.sequence);
        }
        prevHash := e.hash;
      }
      return Intact;
    }
  }

  // ---- Chains built by appending ----

  /** Numbered, linked and correctly hashed throughout. */
  ghost predicate Built(hash: seq<Byte> -> Bytes32, c: seq<ChainEntry>) {
    forall i :: 0 <= i < |c| ==> BuiltAt(hash, c, i)
  }

  ghost predicate BuiltAt(hash: seq<Byte> -> Bytes32, c: seq<ChainEntry>, i: nat)
    requires i < |c|
  {
    c[i].sequence == i && c[i].prevHash == PrevOf(c, i)
    && c[i].hash == EntryHash(hash, i, c[i].prevHash, c[i].payload)
  }

  /** The chain that appending the given payloads, one after another, produces. */
  ghost function Replay(hash: seq<Byte> -> Bytes32, items: seq<ChainEntry>): seq<ChainEntry> {
    if items == [] then []
    else
      Appended(hash, Replay(hash, items[..|items| - 1]), items[|items| - 1].payload, items[|items| - 1].createdAtMs)
  }

  lemma AppendBuilt(hash: seq<Byte> -> Bytes32, c: seq<ChainEntry>, payload: seq<Byte>, at: int)
    requires Built(hash, c)
    ensures Built(hash, Appended(hash, c, payload, at))
  {
    var c' := Appended(hash, c, payload, at);
    forall i | 0 <= i < |c'| ensures BuiltAt(hash, c', i) {
      if i < |c| {
        assert BuiltAt(hash, c, i);
      }
    }
  }

  lemma {:induction false} ReplayBuilt(hash: seq<Byte> -> Bytes32, items: seq<ChainEntry>)
    ensures Built(hash, Replay(hash, items))
  {
    if items != [] {
      var front, last := items[..|items| - 1], items[|items| - 1];
      ReplayBuilt(hash, front);
      AppendBuilt(hash, Replay(hash, front), last.payload, last.createdAtMs);
    }
  }

  lemma LastAppended(hash: seq<Byte> -> Bytes32, c: seq<ChainEntry>)
    requires c != [] && BuiltAt(hash, c, |c| - 1)
    ensures c == Appended(hash, c[..|c| - 1], c[|c| - 1].payload, c[|c| - 1].createdAtMs)
  {
    var n := |c| - 1;
    assert c == c[..n] + [c[n]];
    assert PrevOf(c[..n], n) == PrevOf(c, n);
    assert c[n] == NextEntry(hash, n, PrevOf(c, n), c[n].payload, c[n].createdAtMs);
  }

  lemma {:induction false} BuiltReplays(hash: seq<Byte> -> Bytes32, c: seq<ChainEntry>)
    requires Built(hash, c)
    ensures c == Replay(hash, c)
  {
    if c != [] {
      BuiltPrefix(hash, c, |c| - 1);
      BuiltReplays(hash, c[..|c| - 1]);
      assert BuiltAt(hash, c, |c| - 1);
      LastAppended(hash, c);
    }
  }

  /** Built chains are exactly the ones that appending produces. */
  lemma BuiltIffReplayed(hash: seq<Byte> -> Bytes32, c: seq<ChainEntry>)
    ensures Built(hash, c) <==> exists items :: c == Replay(hash, items)
  {
    if Built(hash, c) {
      BuiltReplays(hash, c);
    }
    if items :| c == Replay(hash, items) {
      ReplayBuilt(hash, items);
    }
  }

  /** No entry but the last has the all-zero hash. */
  predicate NoZeroInside(c: seq<ChainEntry>) {
    forall i :: 0 <= i < |c| - 1 ==> c[i].hash != ZERO
  }

  lemma BuiltFault(hash: seq<Byte> -> Bytes32, c: seq<ChainEntry>, i: nat)
    requires Built(hash, c) && i < |c|
    ensures FaultAt(hash, c, i) == if i > 0 && c[i - 1].hash == ZERO then BrokenChain(i) else Intact
  {
    assert BuiltAt(hash, c, i);
  }

  /** A chain built by appending verifies if and only if no entry before the last hashes
      to the all-zero string. */
  lemma BuiltVerifies(hash: seq<Byte> -> Bytes32, c: seq<ChainEntry>)
    requires Built(hash, c)
    ensures Verdict(hash, c) == Intact <==> NoZeroInside(c)
  {
    FirstIntact(Faults(hash, c), 0);
    forall i | 0 <= i < |c| ensures FaultAt(hash, c, i) == Intact <==> (i > 0 ==> c[i - 1].hash != ZERO) {
      BuiltFault(hash, c, i);
    }
    if Verdict(hash, c) == Intact {
      forall i | 0 <= i < |c| - 1 ensures c[i].hash != ZERO {
        assert Faults(hash, c)[i + 1] == Intact;
      }
    }
  }

  // ---- Tampering ----

  /** The same chain but for some payloads (and time stamps, which are not hashed). */
  ghost predicate OnlyPayloadsDiffer(c: seq<ChainEntry>, d: seq<ChainEntry>) {
    |c| == |d| && forall i :: 0 <= i < |c| ==>
      c[i].sequence == d[i].sequence && c[i].prevHash == d[i].prevHash && c[i].hash == d[i].hash
  }

  lemma EncodePayload(sequence: nat, prevHash: seq<Byte>, p: seq<Byte>, q: seq<Byte>)
    requires Encode(sequence, prevHash, p) == Encode(sequence, prevHash, q)
    ensures p == q
  {
    assert p == Encode(sequence, prevHash, p)[8 + |prevHash|..];
    assert q == Encode(sequence, prevHash, q)[8 + |prevHash|..];
  }

  /** Whatever set of payloads was altered, `verify` reports the first altered entry, or
      the hash function has a collision there. */
  lemma AlteredPayloadsDetected(hash: seq<Byte> -> Bytes32, c: seq<ChainEntry>, d: seq<ChainEntry>, k: nat)
    requires Built(hash, c) && NoZeroInside(c) && OnlyPayloadsDiffer(c, d)
    requires k < |c| && c[k].payload != d[k].payload
    requires forall i :: 0 <= i < k ==> c[i].payload == d[i].payload
    ensures Verdict(hash, d) == HashMismatch(k)
         || Collision(hash, Encode(k, PrevOf(c, k), c[k].payload), Encode(k, PrevOf(c, k), d[k].payload))
  {
    forall i | 0 <= i < k ensures FaultAt(hash, d, i) == Intact {
      BuiltFault(hash, c, i);
      assert FaultAt(hash, d, i) == FaultAt(hash, c, i);
    }
    BuiltFault(hash, c, k);
    assert BuiltAt(hash, c, k);
    PayloadHashed(hash, k, PrevOf(c, k), c[k].payload, d[k].payload);
    if EntryHash(hash, k, PrevOf(c, k), c[k].payload) != EntryHash(hash, k, PrevOf(c, k), d[k].payload) {
      assert FaultAt(hash, d, k) == HashMismatch(k);
      FirstAt(Faults(hash, d), 0, k);
    }
  }

  /** Different payloads in one place give different entry hashes, unless the hash collides. */
  lemma PayloadHashed(hash: seq<Byte> -> Bytes32, n: nat, prev: seq<Byte>, p: seq<Byte>, q: seq<Byte>)
    requires p != q
    ensures EntryHash(hash, n, prev, p) != EntryHash(hash, n, prev, q)
         || Collision(hash, Encode(n, prev, p), Encode(n, prev, q))
  {
    var x, y := Encode(n, prev, p), Encode(n, prev, q);
    if x == y {
      EncodePayload(n, prev, p, q);
    }
    if Hex(hash(x)) == Hex(hash(y)) {
      HexInjective(hash(x), hash(y));
    }
  }

  predicate SameEntry(e: ChainEntry, f: ChainEntry) {
    e.sequence == f.sequence && e.prevHash == f.prevHash && e.payload == f.payload && e.hash == f.hash
  }

  /** Same numbers, links, payloads and hashes throughout. */
  predicate SameHistory(c: seq<ChainEntry>, d: seq<ChainEntry>) {
    |c| == |d| && forall i :: 0 <= i < |c| ==> SameEntry(c[i], d[i])
  }

  lemma EncodeInjective(m: nat, p: seq<Byte>, x: seq<Byte>, n: nat, q: seq<Byte>, y: seq<Byte>)
    requires m < TWO64 && n < TWO64 && |p| == |q| && Encode(m, p, x) == Encode(n, q, y)
    ensures m == n && p == q && x == y
  {
    var a, b := Encode(m, p, x), Encode(n, q, y);
    assert a[..8] == BigEndian(m, 8) && b[..8] == BigEndian(n, 8);
    Pow256Of8();
    BigEndianInjective(m, n, 8);
    assert a[8..8 + |p|] == p && b[8..8 + |q|] == q;
    EncodePayload(m, p, x, y);
  }

  /** What is hashed for an entry. */
  function Encoded(e: ChainEntry): seq<Byte> {
    Encode(e.sequence, e.prevHash, e.payload)
  }

  /** Two entries that are hashed alike though they differ. */
  function Colliding(hash: seq<Byte> -> Bytes32): (ChainEntry, ChainEntry) -> bool {
    (e, f) => Collision(hash, Encoded(e), Encoded(f))
  }

  /** An entry of one chain and an entry of the other collide. */
  ghost predicate Collide(pair: (ChainEntry, ChainEntry) -> bool, c: seq<ChainEntry>, d: seq<ChainEntry>) {
    exists i, j :: 0 <= i < |c| && 0 <= j < |d| && pair(c[i], d[j])
  }

  lemma BuiltPrefix(hash: seq<Byte> -> Bytes32, c: seq<ChainEntry>, n: nat)
    requires Built(hash, c) && n <= |c|
    ensures Built(hash, c[..n])
  {
    forall i | 0 <= i < n ensures BuiltAt(hash, c[..n], i) {
      assert BuiltAt(hash, c, i);
    }
  }

  /** Numbered in order and each carrying the hash before it: no hash is computed to see this. */
  predicate Linked(c: seq<ChainEntry>) {
    forall i :: 0 <= i < |c| ==> LinkedAt(c, i)
  }

  predicate LinkedAt(c: seq<ChainEntry>, i: nat)
    requires i < |c|
  {
    c[i].sequence == i && c[i].prevHash == PrevOf(c, i)
  }

  /** Entries with one hash are the same entry in the same place, unless they collide. */
  lemma HashedAlike(hash: seq<Byte> -> Bytes32, c: seq<ChainEntry>, i: nat, d: seq<ChainEntry>, j: nat)
    requires i < |c| <= MAX_LENGTH && BuiltAt(hash, c, i) && j < |d| <= MAX_LENGTH && BuiltAt(hash, d, j)
    requires |c[i].prevHash| == |d[j].prevHash|
    ensures Agree(Colliding(hash), c, i, d, j)
  {
    var x, y := Encoded(c[i]), Encoded(d[j]);
    if Hex(hash(x)) == Hex(hash(y)) {
      HexInjective(hash(x), hash(y));
    }
    if x == y {
      EncodeInjective(i, c[i].prevHash, c[i].payload, j, d[j].prevHash, d[j].payload);
    }
  }

  predicate Agree(pair: (ChainEntry, ChainEntry) -> bool, c: seq<ChainEntry>, i: nat, d: seq<ChainEntry>, j: nat)
    requires i < |c| && j < |d|
  {
    c[i].hash == d[j].hash ==> pair(c[i], d[j]) || (i == j && SameEntry(c[i], d[j]))
  }

  lemma BuiltLinks(hash: seq<Byte> -> Bytes32, c: seq<ChainEntry>)
    requires Built(hash, c)
    ensures Linked(c) && forall i :: 0 <= i < |c| ==> |c[i].prevHash| == 64
  {
    forall i | 0 <= i < |c|
      ensures LinkedAt(c, i) && |c[i].prevHash| == 64
    {
      assert BuiltAt(hash, c, i);
      assert i > 0 ==> BuiltAt(hash, c, i - 1);
    }
  }

  /** Down the links of two chains, entry by entry, as long as equal hashes mean agreement. */
  lemma {:induction false} LinksAgree(
      pair: (ChainEntry, ChainEntry) -> bool, c: seq<ChainEntry>, d: seq<ChainEntry>, i: nat, j: nat)
    requires Linked(c) && Linked(d) && i < |c| && j < |d| && c[i].hash == d[j].hash
    requires forall m, n :: 0 <= m < |c| && 0 <= n < |d| ==> Agree(pair, c, m, d, n)
    ensures Collide(pair, c, d) || (i == j && forall m :: 0 <= m <= i ==> SameEntry(c[m], d[m]))
    decreases i
  {
    assert Agree(pair, c, i, d, j) && LinkedAt(c, i) && LinkedAt(d, j);
    if !pair(c[i], d[j]) && i > 0 {
      LinksAgree(pair, c, d, i - 1, i - 1);
    }
  }

  /** The tip determines the whole history: two built chains with the same latest hash
      are the same, or two of their own entries exhibit a collision. */
  lemma TipDeterminesHistory(hash: seq<Byte> -> Bytes32, c: seq<ChainEntry>, d: seq<ChainEntry>)
    requires Built(hash, c) && Built(hash, d) && 0 < |c| <= MAX_LENGTH && 0 < |d| <= MAX_LENGTH
    requires c[|c| - 1].hash == d[|d| - 1].hash
    ensures SameHistory(c, d) || Collide(Colliding(hash), c, d)
  {
    BuiltLinks(hash, c);
    BuiltLinks(hash, d);
    forall m, n | 0 <= m < |c| && 0 <= n < |d| ensures Agree(Colliding(hash), c, m, d, n) {
      HashedAlike(hash, c, m, d, n);
    }
    LinksAgree(Colliding(hash), c, d, |c| - 1, |d| - 1);
  }

  /** What an accepting `verify` leaves to be checked: an accepted chain is one that
      appending produced if and only if it is linked. */
  lemma AcceptedAndLinked(hash: seq<Byte> -> Bytes32, c: seq<ChainEntry>)
    ensures Verdict(hash, c) == Intact && Linked(c) <==> Built(hash, c) && NoZeroInside(c)
  {
    FirstIntact(Faults(hash, c), 0);
    if Verdict(hash, c) == Intact && Linked(c) {
      forall i | 0 <= i < |c| ensures BuiltAt(hash, c, i) {
        LinkedFault(hash, c, i);
      }
    }
    if Built(hash, c) {
      BuiltVerifies(hash, c);
      BuiltLinks(hash, c);
    }
  }

  lemma LinkedFault(hash: seq<Byte> -> Bytes32, c: seq<ChainEntry>, i: nat)
    requires Linked(c) && i < |c| && Faults(hash, c)[i] == Intact
    ensures BuiltAt(hash, c, i)
  {
    assert FaultAt(hash, c, i) == Intact && LinkedAt(c, i);
  }

  /** The only use `verify` makes of an entry's place. */
  predicate GenesisInPlace(c: seq<ChainEntry>, i: nat)
    requires i < |c|
  {
    c[i].sequence == 0 ==> c[i].prevHash == PrevOf(c, i)
  }

  /** So entries of an accepted chain may be dropped, repeated and moved about at will:
      the outcome is accepted if and only if every entry numbered 0 fits where it stands. */
  lemma RearrangedAccepted(hash: seq<Byte> -> Bytes32, c: seq<ChainEntry>, d: seq<ChainEntry>)
    requires Verdict(hash, c) == Intact && forall j :: 0 <= j < |d| ==> d[j] in c
    ensures Verdict(hash, d) == Intact <==> forall j :: 0 <= j < |d| ==> GenesisInPlace(d, j)
  {
    FirstIntact(Faults(hash, c), 0);
    FirstIntact(Faults(hash, d), 0);
    forall j | 0 <= j < |d| ensures Faults(hash, d)[j] == Intact <==> GenesisInPlace(d, j) {
      var i :| 0 <= i < |c| && c[i] == d[j];
      assert Faults(hash, c)[i] == Intact;
      MovedFault(hash, c, i, d, j);
    }
  }

  lemma MovedFault(hash: seq<Byte> -> Bytes32, c: seq<ChainEntry>, i: nat, d: seq<ChainEntry>, j: nat)
    requires i < |c| && j < |d| && c[i] == d[j] && FaultAt(hash, c, i) == Intact
    ensures FaultAt(hash, d, j) == Intact <==> GenesisInPlace(d, j)
  {
  }

  /** In particular nobody notices that an entry after the first has been cut out. */
  lemma DroppedEntryUnnoticed(hash: seq<Byte> -> Bytes32, c: seq<ChainEntry>, k: nat)
    requires Verdict(hash, c) == Intact && 0 < k < |c|
    requires forall i :: 0 < i < |c| ==> c[i].sequence != 0
    ensures Verdict(hash, c[..k] + c[k + 1..]) == Intact
  {
    var d := c[..k] + c[k + 1..];
    forall j | 0 <= j < |d| ensures d[j] in c && (j > 0 ==> d[j].sequence != 0) {
      assert d[j] == if j < k then c[j] else c[j + 1];
    }
    FirstIntact(Faults(hash, c), 0);
    assert Faults(hash, c)[0] == Intact;
    assert GenesisInPlace(d, 0);
    RearrangedAccepted(hash, c, d);
  }

  /** Linkage is a fact about appending, not something `verify` establishes: a second
      entry with any previous hash but the all-zero one is accepted. */
  lemma UnlinkedEntryAccepted(hash: seq<Byte> -> Bytes32, p: seq<Byte>, q: seq<Byte>, stray: seq<Byte>)
    requires stray != ZERO
    ensures var c := Appended(hash, [], p, 0) + [ChainEntry(1, q, EntryHash(hash, 1, stray, q), stray, 0)];
            Verdict(hash, c) == Intact && (stray != c[0].hash ==> !Built(hash, c))
  {
    var c := Appended(hash, [], p, 0) + [ChainEntry(1, q, EntryHash(hash, 1, stray, q), stray, 0)];
    assert FaultAt(hash, c, 0) == Intact && FaultAt(hash, c, 1) == Intact;
    FirstIntact(Faults(hash, c), 0);
    if stray != c[0].hash {
      assert !BuiltAt(hash, c, 1);
    }
  }
}
