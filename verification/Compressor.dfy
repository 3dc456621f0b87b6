/** The prompt compressor: chunk, keep forced words and the longest of the others, join. */
module Compressor {
  import opened Division
  import opened Text
  import opened Words

  datatype Config = Config(rate: real, forceTokens: seq<char>, chunkSize: nat)

  predicate Forced(w: string, force: seq<char>) {
    exists i :: 0 <= i < |w| && w[i] in force
  }

  function ByteLength(w: string): nat {
    |Utf8(w)|
  }

  function Clamp(rate: real): (r: real)
    ensures 0.0 <= r <= 1.0 && (0.0 <= rate <= 1.0 ==> r == rate)
  {
    if rate < 0.0 then 0.0 else if rate > 1.0 then 1.0 else rate
  }

  lemma ClampBeyond(rate: real)
    ensures (rate < 0.0 ==> Clamp(rate) == 0.0) && (rate > 1.0 ==> Clamp(rate) == 1.0)
  {
  }

  /** `f32::round` on a non-negative number: half away from zero. */
  function Round(x: real): (n: nat)
    requires x >= 0.0
    ensures -0.5 < n as real - x <= 0.5
  {
    (x + 0.5).Floor
  }

  lemma RoundMonotone(x: real, y: real)
    requires 0.0 <= x <= y
    ensures Round(x) <= Round(y)
  {
  }

  /** How many of `n` unforced words stay. */
  function KeepCount(rate: real, n: nat): (k: nat)
    ensures k <= n
    ensures -0.5 < k as real - (1.0 - Clamp(rate)) * n as real <= 0.5
  {
    var x := (1.0 - Clamp(rate)) * n as real;
    Share(1.0 - Clamp(rate), n as real);
    Round(x)
  }

  lemma Share(a: real, x: real)
    requires 0.0 <= a <= 1.0 && x >= 0.0
    ensures 0.0 <= a * x <= x
  {
    assert (1.0 - a) * x >= 0.0;
  }

  lemma ScaleMonotone(a: real, b: real, x: real)
    requires a <= b && x >= 0.0
    ensures a * x <= b * x
  {
    assert (b - a) * x >= 0.0;
  }

  lemma KeepCountMonotone(low: real, high: real, n: nat)
    requires low <= high
    ensures KeepCount(high, n) <= KeepCount(low, n)
  {
    var a, b, x := 1.0 - Clamp(high), 1.0 - Clamp(low), n as real;
    Share(a, x);
    Share(b, x);
    ScaleMonotone(a, b, x);
    RoundMonotone(a * x, b * x);
  }

  // ---- The order in which unforced words are kept ----

  /** Longer first, and of equal length the earlier one. */
  predicate Better(ws: seq<string>, i: nat, j: nat)
    requires i < |ws| && j < |ws|
  {
    ByteLength(ws[i]) > ByteLength(ws[j]) || (ByteLength(ws[i]) == ByteLength(ws[j]) && i < j)
  }

  function Unforced(ws: seq<string>, force: seq<char>): set<nat> {
    set i: nat | i < |ws| && !Forced(ws[i], force)
  }

  /** How many unforced words beat word `i`. */
  function Rank(ws: seq<string>, force: seq<char>, i: nat): nat
    requires i < |ws|
  {
    |Beaters(ws, force, i)|
  }

  function Beaters(ws: seq<string>, force: seq<char>, i: nat): set<nat>
    requires i < |ws|
  {
    set j: nat | j in Unforced(ws, force) && Better(ws, j, i)
  }

  /** The unforced words that fewer than `k` others beat. */
  function Top(ws: seq<string>, force: seq<char>, k: nat): set<nat> {
    set i: nat | i in Unforced(ws, force) && Rank(ws, force, i) < k
  }

  predicate InBounds(ws: seq<string>, ps: seq<nat>) {
    forall a :: 0 <= a < |ps| ==> ps[a] < |ws|
  }

  /** Positions, best first, each once. */
  ghost predicate Ranked(ws: seq<string>, ps: seq<nat>) {
    InBounds(ws, ps) && forall a, b :: 0 <= a < b < |ps| ==> Better(ws, ps[a], ps[b])
  }

  /** Insertion into ranked positions; stands for one step of `sort_by`. */
  function InsertRanked(ws: seq<string>, ps: seq<nat>, i: nat): (r: seq<nat>)
    requires i < |ws| && InBounds(ws, ps)
    ensures |r| == |ps| + 1 && InBounds(ws, r)
    ensures forall p :: p in r <==> p in ps || p == i
  {
    if ps == [] then [i]
    else if Better(ws, i, ps[0]) then [i] + ps
    else [ps[0]] + InsertRanked(ws, ps[1..], i)
  }

  lemma {:induction false} InsertKeepsRanked(ws: seq<string>, ps: seq<nat>, i: nat)
    requires i < |ws| && Ranked(ws, ps) && i !in ps
    ensures Ranked(ws, InsertRanked(ws, ps, i))
  {
    if ps != [] && !Better(ws, i, ps[0]) {
      InsertKeepsRanked(ws, ps[1..], i);
      var r := InsertRanked(ws, ps[1..], i);
      forall a | 0 <= a < |r| ensures r[a] < |ws| && Better(ws, ps[0], r[a]) {
        assert r[a] in r;
        assert r[a] == i || r[a] in ps[1..];
      }
    }
  }

  function Elements(ps: seq<nat>): set<nat> {
    set p | p in ps
  }

  lemma {:induction false} RankedDistinct(ws: seq<string>, ps: seq<nat>)
    requires Ranked(ws, ps)
    ensures |Elements(ps)| == |ps|
  {
    if ps != [] {
      var n := |ps| - 1;
      RankedDistinct(ws, ps[..n]);
      assert ps == ps[..n] + [ps[n]];
      assert Elements(ps) == Elements(ps[..n]) + {ps[n]};
      assert forall a :: 0 <= a < n ==> Better(ws, ps[a], ps[n]);
    }
  }

  /** In a full ranking, a word's index is its rank. */
  lemma IndexIsRank(ws: seq<string>, force: seq<char>, ps: seq<nat>, a: nat)
    requires Ranked(ws, ps) && Elements(ps) == Unforced(ws, force) && a < |ps|
    ensures ps[a] < |ws| && Rank(ws, force, ps[a]) == a
  {
    var front := ps[..a];
    forall j: nat ensures j in Beaters(ws, force, ps[a]) <==> j in Elements(front) {
      if j in Beaters(ws, force, ps[a]) {
        assert j in Elements(ps);
        var b :| 0 <= b < |ps| && ps[b] == j;
        assert b < a && front[b] == j;
      }
      if j in Elements(front) {
        var b :| 0 <= b < a && front[b] == j;
        assert j in Elements(ps);
      }
    }
    assert Beaters(ws, force, ps[a]) == Elements(front);
    RankedDistinct(ws, front);
  }

  /** Taking the first `k` of a full ranking takes exactly the top `k`. */
  lemma TakeIsTop(ws: seq<string>, force: seq<char>, ps: seq<nat>, k: nat)
    requires Ranked(ws, ps) && Elements(ps) == Unforced(ws, force) && k <= |ps|
    ensures Elements(ps[..k]) == Top(ws, force, k) && |Top(ws, force, k)| == k
  {
    forall i: nat ensures i in Elements(ps[..k]) <==> i in Top(ws, force, k) {
      if i in Elements(ps[..k]) {
        var a :| 0 <= a < k && ps[..k][a] == i;
        assert i in Elements(ps);
        IndexIsRank(ws, force, ps, a);
      }
      if i in Top(ws, force, k) {
        assert i in Elements(ps);
        var a :| 0 <= a < |ps| && ps[a] == i;
        IndexIsRank(ws, force, ps, a);
        assert ps[..k][a] == i;
      }
    }
    RankedDistinct(ws, ps[..k]);
  }

  lemma {:induction false} RankingExists(ws: seq<string>, s: set<nat>)
    requires forall i :: i in s ==> i < |ws|
    ensures exists ps :: Ranked(ws, ps) && Elements(ps) == s
  {
    if s == {} {
      assert Ranked(ws, []) && Elements([]) == s;
    } else {
      var i :| i in s;
      RankingExists(ws, s - {i});
      var ps :| Ranked(ws, ps) && Elements(ps) == s - {i};
      assert forall p :: p in ps <==> p in Elements(ps);
      InsertKeepsRanked(ws, ps, i);
      assert Elements(InsertRanked(ws, ps, i)) == s;
    }
  }

  /** The top `k` has `k` members. */
  lemma TopSize(ws: seq<string>, force: seq<char>, k: nat)
    requires k <= |Unforced(ws, force)|
    ensures |Top(ws, force, k)| == k
  {
    RankingExists(ws, Unforced(ws, force));
    var ps :| Ranked(ws, ps) && Elements(ps) == Unforced(ws, force);
    RankedDistinct(ws, ps);
    TakeIsTop(ws, force, ps, k);
  }

  /** It is the only choice of `k` unforced words in which every kept word beats every
      dropped one. */
  lemma TopUnique(ws: seq<string>, force: seq<char>, k: nat, s: set<nat>)
    requires s <= Unforced(ws, force) && |s| == k
    requires forall i, j :: i in s && j in Unforced(ws, force) - s ==> Better(ws, i, j)
    ensures s == Top(ws, force, k)
  {
    SubsetSize(s, Unforced(ws, force));
    TopSize(ws, force, k);
    forall i | i in s ensures i in Top(ws, force, k) {
      assert i !in Beaters(ws, force, i);
      forall j | j in Beaters(ws, force, i) ensures j in s - {i} {
        assert j in s || j in Unforced(ws, force) - s;
      }
      SubsetSize(Beaters(ws, force, i), s - {i});
    }
    SubsetEqual(s, Top(ws, force, k));
  }

  lemma {:induction false} SubsetSize(a: set<nat>, b: set<nat>)
    requires a <= b
    ensures |a| <= |b|
  {
    if a != {} {
      var x :| x in a;
      SubsetSize(a - {x}, b - {x});
    }
  }

  lemma SubsetEqual(a: set<nat>, b: set<nat>)
    requires a <= b && |a| == |b|
    ensures a == b
  {
    forall x | x in b ensures x in a {
      if x !in a {
        SubsetSize(a, b - {x});
      }
    }
  }

  // ---- Selecting within one chunk ----

  /** The words at the given positions, from `i` on. */
  function Pick(ws: seq<string>, keep: set<nat>, i: nat): seq<string>
    requires i <= |ws|
    decreases |ws| - i
  {
    if i == |ws| then [] else if i in keep then [ws[i]] + Pick(ws, keep, i + 1) else Pick(ws, keep, i + 1)
  }

  function ForcedAt(ws: seq<string>, force: seq<char>): set<nat> {
    set i: nat | i < |ws| && Forced(ws[i], force)
  }

  function KeptAt(ws: seq<string>, rate: real, force: seq<char>): set<nat> {
    ForcedAt(ws, force) + Top(ws, force, KeepCount(rate, |Unforced(ws, force)|))
  }

  /** What `select_words_to_keep` returns. */
  function Kept(ws: seq<string>, rate: real, force: seq<char>): seq<string> {
    Pick(ws, KeptAt(ws, rate, force), 0)
  }

  /** Splits positions into forced and unforced, the latter ranked. */
  method Partition(ws: seq<string>, force: seq<char>) returns (forced: seq<nat>, others: seq<nat>)
    ensures Elements(forced) == ForcedAt(ws, force)
    ensures Ranked(ws, others) && Elements(others) == Unforced(ws, force)
  {
    forced, others := [], [];
    for i := 0 to |ws|
      invariant forall p: nat :: p in forced <==> p < i && Forced(ws[p], force)
      invariant forall p: nat :: p in others <==> p < i && !Forced(ws[p], force)
      invariant Ranked(ws, others)
    {
      if Forced(ws[i], force) {
        forced := forced + [i];
      } else {
        InsertKeepsRanked(ws, others, i);
        others := InsertRanked(ws, others, i);
      }
    }
  }

  /** `select_words_to_keep` */
  method SelectWordsToKeep(ws: seq<string>, rate: real, force: seq<char>) returns (kept: seq<string>)
    ensures kept == Kept(ws, rate, force)
  {
    if ws == [] {
      return [];
    }
    var forced, others := Partition(ws, force);
    RankedDistinct(ws, others);
    var keepCount := KeepCount(rate, |others|);
    TakeIsTop(ws, force, others, keepCount);
    kept := PickInOrder(ws, forced, others[..keepCount], KeptAt(ws, rate, force));
  }

  /** Walks the document in order and keeps the selected positions. */
  method PickInOrder(ws: seq<string>, forced: seq<nat>, top: seq<nat>, ghost keep: set<nat>)
    returns (kept: seq<string>)
    requires Elements(forced) + Elements(top) == keep
    ensures kept == Pick(ws, keep, 0)
  {
    kept := [];
    for i := 0 to |ws|
      invariant kept + Pick(ws, keep, i) == Pick(ws, keep, 0)
    {
      assert i in keep <==> i in Elements(forced) || i in Elements(top);
      if i in forced || i in top {
        kept := kept + [ws[i]];
      }
    }
  }

  lemma {:induction false} PickSubsequence(ws: seq<string>, keep: set<nat>, i: nat)
    requires i <= |ws|
    ensures Subsequence(Pick(ws, keep, i), ws[i..])
    decreases |ws| - i
  {
    if i < |ws| {
      PickSubsequence(ws, keep, i + 1);
      assert ws[i..][1..] == ws[i + 1..];
    }
  }

  lemma {:induction false} PickNested(ws: seq<string>, fewer: set<nat>, more: set<nat>, i: nat)
    requires i <= |ws| && fewer <= more
    ensures Subsequence(Pick(ws, fewer, i), Pick(ws, more, i))
    decreases |ws| - i
  {
    if i < |ws| {
      PickNested(ws, fewer, more, i + 1);
      var a, b := Pick(ws, fewer, i + 1), Pick(ws, more, i + 1);
      assert ([ws[i]] + b)[1..] == b && ([ws[i]] + a)[1..] == a;
    }
  }

  function ForcedOnly(ws: seq<string>, force: seq<char>): seq<string> {
    if ws == [] then []
    else if Forced(ws[0], force) then [ws[0]] + ForcedOnly(ws[1..], force)
    else ForcedOnly(ws[1..], force)
  }

  lemma {:induction false} ForcedOnlyAppend(a: seq<string>, b: seq<string>, force: seq<char>)
    ensures ForcedOnly(a + b, force) == ForcedOnly(a, force) + ForcedOnly(b, force)
  {
    if a == [] {
      assert a + b == b;
    } else {
      assert (a + b)[1..] == a[1..] + b;
      ForcedOnlyAppend(a[1..], b, force);
    }
  }

  lemma {:induction false} PickKeepsForced(ws: seq<string>, force: seq<char>, keep: set<nat>, i: nat)
    requires i <= |ws| && ForcedAt(ws, force) <= keep
    ensures ForcedOnly(Pick(ws, keep, i), force) == ForcedOnly(ws[i..], force)
    decreases |ws| - i
  {
    if i < |ws| {
      PickKeepsForced(ws, force, keep, i + 1);
      assert ws[i..][1..] == ws[i + 1..];
      var rest := Pick(ws, keep, i + 1);
      if i in keep {
        assert ([ws[i]] + rest)[1..] == rest;
      }
    }
  }

  function From(keep: set<nat>, i: nat): set<nat> {
    set j | j in keep && i <= j
  }

  lemma {:induction false} PickSize(ws: seq<string>, keep: set<nat>, i: nat)
    requires i <= |ws| && forall j :: j in keep ==> j < |ws|
    ensures |Pick(ws, keep, i)| == |From(keep, i)|
    decreases |ws| - i
  {
    if i == |ws| {
      assert From(keep, i) == {};
    } else {
      PickSize(ws, keep, i + 1);
      if i in keep {
        assert From(keep, i) == From(keep, i + 1) + {i};
        assert i !in From(keep, i + 1);
      } else {
        assert From(keep, i) == From(keep, i + 1);
      }
    }
  }

  /** The number of words kept from one chunk. */
  lemma KeptSize(ws: seq<string>, rate: real, force: seq<char>)
    ensures |Kept(ws, rate, force)| == |ForcedAt(ws, force)| + KeepCount(rate, |Unforced(ws, force)|)
    ensures |ForcedAt(ws, force)| + |Unforced(ws, force)| == |ws|
  {
    var k := KeepCount(rate, |Unforced(ws, force)|);
    var keep := KeptAt(ws, rate, force);
    TopSize(ws, force, k);
    PickSize(ws, keep, 0);
    assert From(keep, 0) == keep;
    assert ForcedAt(ws, force) !! Top(ws, force, k);
    PositionsSplit(ws, force);
  }

  lemma {:induction false} PositionsSplit(ws: seq<string>, force: seq<char>)
    ensures |ForcedAt(ws, force)| + |Unforced(ws, force)| == |ws|
  {
    if ws == [] {
      assert ForcedAt(ws, force) == {} && Unforced(ws, force) == {};
    } else {
      var n, front := |ws| - 1, ws[..|ws| - 1];
      PositionsSplit(front, force);
      if Forced(ws[n], force) {
        assert ForcedAt(ws, force) == ForcedAt(front, force) + {n} && Unforced(ws, force) == Unforced(front, force);
      } else {
        assert ForcedAt(ws, force) == ForcedAt(front, force) && Unforced(ws, force) == Unforced(front, force) + {n};
      }
    }
  }

  /** A word with a force character is kept; of the others, whatever is kept is longer
      than, or as long as and before, whatever is dropped. */
  lemma KeptBeatsDropped(ws: seq<string>, rate: real, force: seq<char>, i: nat, j: nat)
    requires i < |ws| && j < |ws|
    requires i in KeptAt(ws, rate, force) && j !in KeptAt(ws, rate, force)
    ensures forall c :: c in ws[j] ==> c !in force
    ensures || (exists c :: c in ws[i] && c in force)
            || |Utf8(ws[i])| > |Utf8(ws[j])| || (|Utf8(ws[i])| == |Utf8(ws[j])| && i < j)
  {
    assert !Forced(ws[j], force);
    if Forced(ws[i], force) {
      var k :| 0 <= k < |ws[i]| && ws[i][k] in force;
      assert ws[i][k] in ws[i];
    } else if !Better(ws, i, j) {
      forall b | b in Beaters(ws, force, j) ensures b in Beaters(ws, force, i) {
      }
      SubsetSize(Beaters(ws, force, j), Beaters(ws, force, i));
    }
  }

  /** The kept words stand in the output in document order: word `i` comes after exactly
      the kept words before it. */
  lemma {:induction false} PickAt(ws: seq<string>, keep: set<nat>, n: nat, i: nat)
    requires n <= i < |ws| && i in keep
    ensures var before := set j | j in keep && n <= j < i;
            |before| < |Pick(ws, keep, n)| && Pick(ws, keep, n)[|before|] == ws[i]
    decreases |ws| - n
  {
    var before := set j | j in keep && n <= j < i;
    if n == i {
      assert before == {};
    } else {
      PickAt(ws, keep, n + 1, i);
      var later := set j | j in keep && n + 1 <= j < i;
      if n in keep {
        assert before == later + {n};
      } else {
        assert before == later;
      }
    }
  }

  /** A higher rate keeps a subset of the positions. */
  lemma KeptNested(ws: seq<string>, low: real, high: real, force: seq<char>)
    requires low <= high
    ensures KeptAt(ws, high, force) <= KeptAt(ws, low, force)
  {
    KeepCountMonotone(low, high, |Unforced(ws, force)|);
  }

  // ---- Chunks ----

  /** `slice::chunks` on a non-empty slice. */
  function Chunks<T>(ws: seq<T>, size: nat): seq<seq<T>>
    requires size > 0
  {
    if |ws| <= size then [ws] else [ws[..size]] + Chunks(ws[size..], size)
  }

  lemma {:induction false} ChunksConcat<T>(ws: seq<T>, size: nat)
    requires size > 0
    ensures Concat(Chunks(ws, size)) == ws
  {
    if |ws| <= size {
      assert [ws][1..] == [];
    } else {
      ChunksConcat(ws[size..], size);
      assert ([ws[..size]] + Chunks(ws[size..], size))[1..] == Chunks(ws[size..], size);
      assert ws == ws[..size] + ws[size..];
    }
  }

  /** How many chunks `n` words make: none is empty but the only one of no words. */
  function ChunkCount(n: nat, size: nat): nat {
    if size == 0 || n == 0 then 1 else (n + size - 1) / size
  }

  lemma OneMoreChunk(n: nat, size: nat)
    requires n > size > 0
    ensures ChunkCount(n, size) == 1 + ChunkCount(n - size, size)
  {
    var m := n - 1;
    var q, r := m / size, m % size;
    assert m + size == size * (q + 1) + r;
    UniqueQuotient(m + size, size, q + 1, r);
  }

  lemma {:induction false} ChunksCounted<T>(ws: seq<T>, size: nat)
    requires size > 0
    ensures |Chunks(ws, size)| == ChunkCount(|ws|, size)
    decreases |ws|
  {
    if |ws| > size {
      OneMoreChunk(|ws|, size);
      ChunksCounted(ws[size..], size);
    } else if |ws| > 0 {
      UniqueQuotient(|ws| + size - 1, size, 1, |ws| - 1);
    }
  }

  /** Where chunk `i` starts, a multiple of the size, and where it ends. */
  function Start(i: nat, size: nat): nat {
    if i == 0 then 0 else Start(i - 1, size) + size
  }

  function End(i: nat, size: nat, n: nat): nat {
    if Start(i, size) + size < n then Start(i, size) + size else n
  }

  lemma {:induction false} StartIsMultiple(i: nat, size: nat)
    ensures Start(i, size) == i * size
  {
    if i > 0 {
      StartIsMultiple(i - 1, size);
    }
  }

  /** Chunk `i` of these is the words from its start on: full, except perhaps for the last. */
  ghost predicate ChunkHolds<T>(cs: seq<seq<T>>, ws: seq<T>, size: nat, i: nat)
    requires i < |cs|
  {
    && Start(i, size) <= |ws| && cs[i] == ws[Start(i, size)..End(i, size, |ws|)]
    && (i + 1 < |cs| ==> |cs[i]| == size)
  }

  lemma {:induction false} ChunkAt<T>(ws: seq<T>, size: nat, i: nat)
    requires size > 0 && i < |Chunks(ws, size)|
    ensures ChunkHolds(Chunks(ws, size), ws, size, i)
    decreases |ws|
  {
    if |ws| <= size {
      assert ws[0..|ws|] == ws;
    } else if i > 0 {
      ChunkAt(ws[size..], size, i - 1);
      SliceOfTail(ws, size, Start(i - 1, size), End(i - 1, size, |ws| - size));
    }
  }

  lemma SliceOfTail<T>(ws: seq<T>, n: nat, a: nat, b: nat)
    requires n <= |ws| && a <= b <= |ws| - n
    ensures ws[n..][a..b] == ws[a + n..b + n]
  {
  }

  lemma ChunkOfWords(ws: seq<string>, size: nat, i: nat)
    requires size > 0 && i < |Chunks(ws, size)| && forall j :: 0 <= j < |ws| ==> IsWord(ws[j])
    ensures Split(Join(Chunks(ws, size)[i])) == Chunks(ws, size)[i]
  {
    ChunkAt(ws, size, i);
    SplitOfJoinedWords(Chunks(ws, size)[i]);
  }

  function JoinEach(cs: seq<seq<string>>): (parts: seq<string>)
    ensures |parts| == |cs| && forall i :: 0 <= i < |cs| ==> parts[i] == Join(cs[i])
  {
    seq(|cs|, i requires 0 <= i < |cs| => Join(cs[i]))
  }

  /** `chunk_by_words` */
  function ChunkByWords(text: string, size: nat): seq<string> {
    if size == 0 then [text]
    else if Split(text) == [] then [""]
    else if |Split(text)| <= size then [text]
    else JoinEach(Chunks(Split(text), size))
  }

  /** The words of the chunks are the chunks of the words, in the short cuts too. */
  lemma ChunkWords(text: string, size: nat)
    requires size > 0
    ensures SplitEach(ChunkByWords(text, size)) == Chunks(Split(text), size)
  {
    var parts, cs := ChunkByWords(text, size), Chunks(Split(text), size);
    if |Split(text)| <= size {
      assert Split("") == [];
    } else {
      forall i | 0 <= i < |cs| ensures SplitEach(parts)[i] == cs[i] {
        ChunkOfWords(Split(text), size, i);
      }
    }
  }

  /** Chunking neither loses, adds nor moves a word. */
  lemma ChunkingRoundTrip(text: string, size: nat)
    ensures Concat(SplitEach(ChunkByWords(text, size))) == Split(text)
  {
    if size > 0 {
      ChunkWords(text, size);
      ChunksConcat(Split(text), size);
    } else {
      assert SplitEach([text])[1..] == [];
    }
  }

  /** With a positive size there are max(1, ceil(n / size)) chunks, and chunk `i` holds the
      words from i * size up to the next multiple or the end: only the last can be short. */
  lemma ChunksOfText(text: string, size: nat)
    ensures |ChunkByWords(text, size)| == ChunkCount(|Split(text)|, size)
    ensures size > 0 ==> forall i :: 0 <= i < |ChunkByWords(text, size)| ==>
              ChunkHolds(SplitEach(ChunkByWords(text, size)), Split(text), size, i)
  {
    if size > 0 {
      ChunkWords(text, size);
      ChunksCounted(Split(text), size);
      forall i | 0 <= i < |ChunkByWords(text, size)|
        ensures ChunkHolds(SplitEach(ChunkByWords(text, size)), Split(text), size, i)
      {
        ChunkAt(Split(text), size, i);
      }
    }
  }

  // ---- The whole text ----

  function KeptEach(cs: seq<seq<string>>, rate: real, force: seq<char>): (r: seq<seq<string>>)
    ensures |r| == |cs| && forall i :: 0 <= i < |cs| ==> r[i] == Kept(cs[i], rate, force)
  {
    seq(|cs|, i requires 0 <= i < |cs| => Kept(cs[i], rate, force))
  }

  /** The words of the chunks of a text. */
  function WordChunks(text: string, cfg: Config): seq<seq<string>> {
    SplitEach(ChunkByWords(text, cfg.chunkSize))
  }

  function Compressed(text: string, cfg: Config): string {
    if text == "" then "" else Join(JoinEach(KeptEach(WordChunks(text, cfg), cfg.rate, cfg.forceTokens)))
  }

  lemma ChunkPart(chunks: seq<string>, cfg: Config, i: nat)
    requires i < |chunks|
    ensures var parts := JoinEach(KeptEach(SplitEach(chunks), cfg.rate, cfg.forceTokens));
            parts[..i + 1] == parts[..i] + [Join(Kept(Split(chunks[i]), cfg.rate, cfg.forceTokens))]
  {
  }

  /** `compress_text` */
  method CompressText(text: string, cfg: Config) returns (out: string)
    ensures out == Compressed(text, cfg)
  {
    if text == "" {
      return "";
    }
    var chunks := ChunkByWords(text, cfg.chunkSize);
    var parts: seq<string> := [];
    ghost var expected := JoinEach(KeptEach(SplitEach(chunks), cfg.rate, cfg.forceTokens));
    for i := 0 to |chunks|
      invariant parts == expected[..i]
    {
      var ws := Split(chunks[i]);
      var kept := SelectWordsToKeep(ws, cfg.rate, cfg.forceTokens);
      ChunkPart(chunks, cfg, i);
      parts := parts + [Join(kept)];
    }
    assert parts == expected;
    out := Join(parts);
  }

  lemma {:induction false} PickWords(ws: seq<string>, keep: set<nat>, i: nat)
    requires i <= |ws| && forall j :: 0 <= j < |ws| ==> IsWord(ws[j])
    ensures forall j :: 0 <= j < |Pick(ws, keep, i)| ==> IsWord(Pick(ws, keep, i)[j])
    decreases |ws| - i
  {
    if i < |ws| {
      PickWords(ws, keep, i + 1);
    }
  }

  /** The words of the output are the kept words of the chunks, in order. */
  lemma CompressedWords(text: string, cfg: Config)
    ensures Split(Compressed(text, cfg)) == Concat(KeptEach(WordChunks(text, cfg), cfg.rate, cfg.forceTokens))
  {
    var cs := WordChunks(text, cfg);
    var kept := KeptEach(cs, cfg.rate, cfg.forceTokens);
    var parts := JoinEach(kept);
    forall i | 0 <= i < |kept| ensures Split(parts[i]) == kept[i] {
      PickWords(cs[i], KeptAt(cs[i], cfg.rate, cfg.forceTokens), 0);
      SplitOfJoinedWords(kept[i]);
    }
    assert SplitEach(parts) == kept;
    SplitOfJoin(parts);
    if text == "" {
      EmptyKept(text, cfg);
    }
  }

  lemma EmptyKept(text: string, cfg: Config)
    requires text == ""
    ensures Concat(KeptEach(WordChunks(text, cfg), cfg.rate, cfg.forceTokens)) == []
  {
    var kept := KeptEach(WordChunks(text, cfg), cfg.rate, cfg.forceTokens);
    assert ChunkByWords(text, cfg.chunkSize) == [""];
    assert Split("") == [];
    assert kept == [[]] && kept[1..] == [];
  }

  lemma {:induction false} EachSubsequence(cs: seq<seq<string>>, rate: real, force: seq<char>)
    ensures Subsequence(Concat(KeptEach(cs, rate, force)), Concat(cs))
    ensures ForcedOnly(Concat(KeptEach(cs, rate, force)), force) == ForcedOnly(Concat(cs), force)
  {
    if cs != [] {
      var keep := KeptAt(cs[0], rate, force);
      assert KeptEach(cs, rate, force)[1..] == KeptEach(cs[1..], rate, force);
      EachSubsequence(cs[1..], rate, force);
      PickSubsequence(cs[0], keep, 0);
      PickKeepsForced(cs[0], force, keep, 0);
      assert cs[0][0..] == cs[0];
      SubsequenceAppend(Kept(cs[0], rate, force), cs[0], Concat(KeptEach(cs[1..], rate, force)), Concat(cs[1..]));
      ForcedOnlyAppend(Kept(cs[0], rate, force), Concat(KeptEach(cs[1..], rate, force)), force);
      ForcedOnlyAppend(cs[0], Concat(cs[1..]), force);
    }
  }

  /** Compression only leaves words out, and leaves out no forced one: the forced words of
      the output are those of the input, all of them and in order. */
  lemma CompressionKeepsOrder(text: string, cfg: Config)
    ensures Subsequence(Split(Compressed(text, cfg)), Split(text))
    ensures ForcedOnly(Split(Compressed(text, cfg)), cfg.forceTokens) == ForcedOnly(Split(text), cfg.forceTokens)
  {
    CompressedWords(text, cfg);
    ChunkingRoundTrip(text, cfg.chunkSize);
    EachSubsequence(WordChunks(text, cfg), cfg.rate, cfg.forceTokens);
  }

  lemma {:induction false} EachNested(cs: seq<seq<string>>, low: real, high: real, force: seq<char>)
    requires low <= high
    ensures Subsequence(Concat(KeptEach(cs, high, force)), Concat(KeptEach(cs, low, force)))
  {
    if cs != [] {
      assert KeptEach(cs, low, force)[1..] == KeptEach(cs[1..], low, force);
      assert KeptEach(cs, high, force)[1..] == KeptEach(cs[1..], high, force);
      EachNested(cs[1..], low, high, force);
      KeptNested(cs[0], low, high, force);
      PickNested(cs[0], KeptAt(cs[0], high, force), KeptAt(cs[0], low, force), 0);
      SubsequenceAppend(Kept(cs[0], high, force), Kept(cs[0], low, force),
                        Concat(KeptEach(cs[1..], high, force)), Concat(KeptEach(cs[1..], low, force)));
    }
  }

  /** A higher rate keeps a subsequence of what a lower rate keeps. */
  lemma CompressionNested(text: string, cfg: Config, high: real)
    requires cfg.rate <= high
    ensures Subsequence(Split(Compressed(text, cfg.(rate := high))), Split(Compressed(text, cfg)))
  {
    CompressedWords(text, cfg);
    CompressedWords(text, cfg.(rate := high));
    EachNested(WordChunks(text, cfg), cfg.rate, high, cfg.forceTokens);
  }

  // ---- How much is kept ----

  /** What the rate asks for: the forced words and the share of the others. */
  function Target(ws: seq<string>, rate: real, force: seq<char>): real {
    Wanted(|ForcedOnly(ws, force)|, |ws| - |ForcedOnly(ws, force)|, rate)
  }

  function Wanted(forced: nat, others: int, rate: real): real {
    forced as real + (1.0 - Clamp(rate)) * others as real
  }

  lemma CountNear(kept: nat, forced: nat, others: nat, all: nat, rate: real)
    requires forced + others == all && kept == forced + KeepCount(rate, others)
    ensures Near(kept as real, Wanted(forced, all - forced, rate), 0.5)
  {
  }

  lemma WantedSum(f: nat, m: int, g: nat, n: int, rate: real)
    ensures Wanted(f + g, m + n, rate) == Wanted(f, m, rate) + Wanted(g, n, rate)
  {
    var r := 1.0 - Clamp(rate);
    assert r * (m + n) as real == r * m as real + r * n as real;
  }

  predicate Near(x: real, y: real, d: real) {
    -d <= x - y <= d
  }

  lemma {:induction false} ForcedOnlySize(ws: seq<string>, force: seq<char>)
    ensures |ForcedOnly(ws, force)| == |ForcedAt(ws, force)|
  {
    if ws == [] {
      assert ForcedAt(ws, force) == {};
    } else {
      var n, front := |ws| - 1, ws[..|ws| - 1];
      assert ws == front + [ws[n]];
      ForcedOnlyAppend(front, [ws[n]], force);
      assert [ws[n]][1..] == [];
      ForcedOnlySize(front, force);
      if Forced(ws[n], force) {
        assert ForcedAt(ws, force) == ForcedAt(front, force) + {n};
      } else {
        assert ForcedAt(ws, force) == ForcedAt(front, force);
      }
    }
  }

  lemma ChunkNearTarget(ws: seq<string>, rate: real, force: seq<char>)
    ensures Near(|Kept(ws, rate, force)| as real, Target(ws, rate, force), 0.5)
  {
    KeptSize(ws, rate, force);
    ForcedOnlySize(ws, force);
    CountNear(|Kept(ws, rate, force)|, |ForcedAt(ws, force)|, |Unforced(ws, force)|, |ws|, rate);
  }

  lemma TargetAppend(a: seq<string>, b: seq<string>, rate: real, force: seq<char>)
    ensures Target(a + b, rate, force) == Target(a, rate, force) + Target(b, rate, force)
  {
    ForcedOnlyAppend(a, b, force);
    var f, g := |ForcedOnly(a, force)|, |ForcedOnly(b, force)|;
    WantedSum(f, |a| - f, g, |b| - g, rate);
  }

  lemma {:induction false} EachNearTarget(cs: seq<seq<string>>, rate: real, force: seq<char>)
    ensures Near(|Concat(KeptEach(cs, rate, force))| as real, Target(Concat(cs), rate, force), |cs| as real / 2.0)
  {
    if cs != [] {
      assert KeptEach(cs, rate, force)[1..] == KeptEach(cs[1..], rate, force);
      EachNearTarget(cs[1..], rate, force);
      ChunkNearTarget(cs[0], rate, force);
      TargetAppend(cs[0], Concat(cs[1..]), rate, force);
    }
  }

  /** The output's word count is within half a word per chunk of what the rate asks for. */
  lemma CompressionSize(text: string, cfg: Config)
    ensures Near(|Split(Compressed(text, cfg))| as real, Target(Split(text), cfg.rate, cfg.forceTokens),
                 ChunkCount(|Split(text)|, cfg.chunkSize) as real / 2.0)
  {
    ChunksOfText(text, cfg.chunkSize);
    CompressedWords(text, cfg);
    ChunkingRoundTrip(text, cfg.chunkSize);
    EachNearTarget(WordChunks(text, cfg), cfg.rate, cfg.forceTokens);
  }
}
