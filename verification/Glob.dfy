/** The anchored allow-list matcher: a greedy left-to-right loop over the star-free parts
    of the pattern, against a declarative glob. */
module Glob {
  import opened Wrappers

  // ---- What a glob means ----

  /** `*` stands for any run of characters, every other character for itself, and the
      pattern must account for the whole text. */
  ghost predicate Matches(p: string, t: string)
    decreases |p|
  {
    if p == "" then t == ""
    else
      var front, c := p[..|p| - 1], p[|p| - 1];
      if c == '*' then exists k :: 0 <= k <= |t| && Matches(front, t[..k])
      else t != "" && t[|t| - 1] == c && Matches(front, t[..|t| - 1])
  }

  // ---- The matcher ----

  predicate OccursAt(t: string, part: string, i: int) {
    0 <= i && i + |part| <= |t| && t[i..i + |part|] == part
  }

  /** `str::find` from `from` on: the leftmost occurrence. */
  function FindFrom(t: string, part: string, from: nat): (r: Option<nat>)
    requires from <= |t|
    ensures r.Some? ==> from <= r.value && OccursAt(t, part, r.value)
    ensures r.Some? ==> forall i :: from <= i < r.value ==> !OccursAt(t, part, i)
    ensures r.None? ==> forall i :: from <= i ==> !OccursAt(t, part, i)
    decreases |t| - from
  {
    if OccursAt(t, part, from) then Some(from)
    else if from == |t| then None
    else FindFrom(t, part, from + 1)
  }

  /** `pattern.split('*')`: one piece more than there are stars. */
  function SplitStar(p: string): (pieces: seq<string>)
    ensures |pieces| > 0
  {
    if p == "" then [""]
    else
      var front, c := SplitStar(p[..|p| - 1]), p[|p| - 1];
      if c == '*' then front + [""]
      else front[..|front| - 1] + [front[|front| - 1] + [c]]
  }

  /** `.filter(|p| !p.is_empty())` */
  function NonEmpty(pieces: seq<string>): (r: seq<string>)
    ensures forall i :: 0 <= i < |r| ==> r[i] != ""
  {
    if pieces == [] then []
    else
      var front, last := NonEmpty(pieces[..|pieces| - 1]), pieces[|pieces| - 1];
      if last == "" then front else front + [last]
  }

  function Parts(p: string): seq<string> {
    NonEmpty(SplitStar(p))
  }

  predicate Starred(p: string) {
    '*' in p
  }

  predicate AnchoredStart(p: string) {
    p == "" || p[0] != '*'
  }

  predicate AnchoredEnd(p: string) {
    p == "" || p[|p| - 1] != '*'
  }

  /** The three kinds of pattern: plain text, ending in a star, and starred before the end. */
  lemma PatternKinds(p: string, q: string)
    ensures Starred(p + "*") && !AnchoredEnd(p + "*")
    ensures q != "" && '*' !in q ==> !Starred(q) && Starred(p + "*" + q) && AnchoredEnd(p + "*" + q)
  {
    assert (p + "*")[|p|] == '*';
    assert (p + "*" + q)[|p|] == '*';
    if q != "" && '*' !in q {
      var s := p + "*" + q;
      assert s[|s| - 1] == q[|q| - 1] && q[|q| - 1] in q;
    }
  }

  /** `glob_match` */
  method GlobMatch(pattern: string, text: string) returns (ok: bool)
    ensures !Starred(pattern) ==> (ok <==> exists i :: OccursAt(text, pattern, i))
    ensures Starred(pattern) && !AnchoredEnd(pattern) ==> (ok <==> Matches(pattern, text))
    ensures Starred(pattern) && AnchoredEnd(pattern) ==> (ok <==> MatchesNoPrefix(pattern, text))
  {
    if !Starred(pattern) {
      return FindFrom(text, pattern, 0).Some?;
    }
    var anchoredStart := AnchoredStart(pattern);
    var anchoredEnd := AnchoredEnd(pattern);
    var parts := Parts(pattern);
    PartsEmpty(pattern);
    if |parts| == 0 {
      MatchesByParts(pattern, text, |text|);
      assert Ends(parts, anchoredStart, text, 0);
      assert text[..|text|] == text;
      return true;
    }
    var cursor: nat := 0;
    for i := 0 to |parts|
      invariant cursor <= |text| && LeastEnd(parts[..i], anchoredStart, text, cursor)
    {
      var found := FindFrom(text, parts[i], cursor);
      NextPart(parts[..i], parts[i], anchoredStart, text, cursor, found);
      assert parts[..i + 1] == parts[..i] + [parts[i]];
      if found.None? || (i == 0 && anchoredStart && found.value != 0) {
        NoPlacement(parts, i + 1, anchoredStart, text);
        NotMatched(pattern, text);
        return false;
      }
      cursor := found.value + |parts[i]|;
    }
    assert parts[..|parts|] == parts;
    MatchedTo(pattern, text, cursor);
    return !(anchoredEnd && cursor != |text|);
  }

  /** The whole text matches and no proper prefix of it does. */
  ghost predicate MatchesNoPrefix(p: string, t: string) {
    Matches(p, t) && forall m :: 0 <= m < |t| ==> !Matches(p, t[..m])
  }

  /** What an allow-list entry permits, exactly: any text that contains it if it has no
      star; a full match if it ends in a star; and otherwise a full match none of whose
      proper prefixes matches as well. */
  ghost predicate Permits(p: string, t: string) {
    if !Starred(p) then exists i :: OccursAt(t, p, i)
    else if AnchoredEnd(p) then MatchesNoPrefix(p, t)
    else Matches(p, t)
  }

  /** `Config::is_allowed` */
  method IsAllowed(allowList: seq<string>, command: string) returns (allowed: bool)
    ensures allowed <==> exists p :: p in allowList && Permits(p, command)
  {
    for n := 0 to |allowList|
      invariant forall j :: 0 <= j < n ==> !Permits(allowList[j], command)
    {
      var ok := GlobMatch(allowList[n], command);
      if ok {
        assert allowList[n] in allowList;
        return true;
      }
    }
    return false;
  }

  // ---- Placing the parts ----

  /** The parts can be placed in order, without overlap, the last one ending at `m`; an
      anchored first part sits at the very start. */
  ghost predicate Ends(parts: seq<string>, anchored: bool, t: string, m: nat)
    decreases |parts|, 0
  {
    if parts == [] then anchored ==> m == 0
    else
      var front, last := parts[..|parts| - 1], parts[|parts| - 1];
      && OccursAt(t, last, m - |last|)
      && if anchored && front == [] then m == |last| else EndsBy(front, anchored, t, m - |last|)
  }

  /** The parts can be placed so that the last one ends at `n` or earlier. */
  ghost predicate EndsBy(parts: seq<string>, anchored: bool, t: string, n: int)
    decreases |parts|, 1
  {
    exists k: nat :: k <= n && Ends(parts, anchored, t, k)
  }

  /** `m` is where the parts can end, and they cannot end any earlier. */
  ghost predicate LeastEnd(parts: seq<string>, anchored: bool, t: string, m: nat) {
    Ends(parts, anchored, t, m) && forall k: nat :: Ends(parts, anchored, t, k) ==> m <= k
  }

  ghost predicate NeverEnds(parts: seq<string>, anchored: bool, t: string) {
    forall k: nat :: !Ends(parts, anchored, t, k)
  }

  /** No placement of one more part ends before that part's place after `cursor`. */
  lemma LaterEnds(front: seq<string>, part: string, anchored: bool, t: string, cursor: nat, k: nat)
    requires LeastEnd(front, anchored, t, cursor) && Ends(front + [part], anchored, t, k)
    ensures cursor <= k - |part| && OccursAt(t, part, k - |part|) && (anchored && front == [] ==> k == |part|)
  {
    assert (front + [part])[..|front|] == front;
    if front == [] {
      assert Ends(front, anchored, t, 0);
    }
    if !(anchored && front == []) {
      var _ := EndsByWitness(front, anchored, t, k - |part|);
    }
  }

  lemma {:induction false} EndsByWitness(parts: seq<string>, anchored: bool, t: string, n: int) returns (k: nat)
    requires EndsBy(parts, anchored, t, n)
    ensures k <= n && Ends(parts, anchored, t, k)
  {
    k :| k <= n && Ends(parts, anchored, t, k);
  }

  /** The exchange argument: after the earliest placement of the earlier parts, the
      leftmost occurrence of the next one gives its earliest placement too. */
  lemma NextPart(front: seq<string>, part: string, anchored: bool, t: string, cursor: nat, found: Option<nat>)
    requires cursor <= |t| && LeastEnd(front, anchored, t, cursor) && found == FindFrom(t, part, cursor)
    ensures if found.None? || (front == [] && anchored && found.value != 0)
            then NeverEnds(front + [part], anchored, t)
            else LeastEnd(front + [part], anchored, t, found.value + |part|)
  {
    assert (front + [part])[..|front|] == front;
    forall k: nat | Ends(front + [part], anchored, t, k)
      ensures found.Some? && found.value + |part| <= k && !(front == [] && anchored && found.value != 0)
    {
      LaterEnds(front, part, anchored, t, cursor, k);
    }
  }

  /** Parts that cannot be placed cannot be placed with more of them. */
  lemma {:induction false} NoPlacement(parts: seq<string>, n: nat, anchored: bool, t: string)
    requires 0 < n <= |parts| && NeverEnds(parts[..n], anchored, t)
    ensures NeverEnds(parts, anchored, t)
    decreases |parts| - n
  {
    if n == |parts| {
      assert parts[..n] == parts;
    } else {
      assert parts[..n + 1][..n] == parts[..n];
      var more := parts[..n + 1];
      forall k: nat ensures !Ends(more, anchored, t, k) {
        if Ends(more, anchored, t, k) {
          var _ := EndsByWitness(parts[..n], anchored, t, k - |parts[n]|);
        }
      }
      NoPlacement(parts, n + 1, anchored, t);
    }
  }

  // ---- From the pattern's characters to its parts ----

  lemma PartsSnoc(p: string, c: char)
    ensures c == '*' ==> Parts(p + [c]) == Parts(p)
    ensures c != '*' && (p == "" || p[|p| - 1] == '*') ==> Parts(p + [c]) == Parts(p) + [[c]]
    ensures c != '*' && p != "" && p[|p| - 1] != '*' ==>
              Parts(p) != [] && Parts(p + [c]) == Parts(p)[..|Parts(p)| - 1] + [Parts(p)[|Parts(p)| - 1] + [c]]
  {
    var pieces := SplitStar(p);
    var n := |pieces| - 1;
    assert (p + [c])[..|p|] == p;
    LastPiece(p);
    if c == '*' {
      assert (pieces + [""])[..|pieces|] == pieces;
    } else {
      assert SplitStar(p + [c]) == pieces[..n] + [pieces[n] + [c]];
      assert (pieces[..n] + [pieces[n] + [c]])[..n] == pieces[..n];
      assert pieces[n] == "" ==> pieces[n] + [c] == [c];
    }
  }

  lemma LastPiece(p: string)
    ensures SplitStar(p)[|SplitStar(p)| - 1] == "" <==> p == "" || p[|p| - 1] == '*'
  {
  }

  lemma {:induction false} PartsEmpty(p: string)
    ensures Parts(p) == [] <==> forall i :: 0 <= i < |p| ==> p[i] == '*'
  {
    if p == "" {
      assert SplitStar(p) == [""];
    } else {
      var q, c := p[..|p| - 1], p[|p| - 1];
      assert p == q + [c];
      PartsEmpty(q);
      PartsSnoc(q, c);
      assert forall i :: 0 <= i < |q| ==> q[i] == p[i];
    }
  }

  lemma OccursSnoc(t: string, w: string, c: char, i: int)
    ensures OccursAt(t, w + [c], i) <==> OccursAt(t, w, i) && i + |w| < |t| && t[i + |w|] == c
  {
    if 0 <= i && i + |w| < |t| {
      var u := t[i..i + |w| + 1];
      assert u == t[i..i + |w|] + [t[i + |w|]];
      assert u[..|w|] == t[i..i + |w|] && (w + [c])[..|w|] == w && (w + [c])[|w|] == c;
    }
  }

  /** A character after a star starts a new part. */
  lemma EndsNewPart(parts: seq<string>, c: char, anchored: bool, t: string, m: nat)
    ensures Ends(parts + [[c]], anchored, t, m) <==>
              && 0 < m <= |t| && t[m - 1] == c
              && if anchored && parts == [] then m == 1 else EndsBy(parts, anchored, t, m - 1)
  {
    var whole := parts + [[c]];
    assert whole[..|whole| - 1] == parts && whole[|whole| - 1] == [c];
    assert "" + [c] == [c];
    OccursSnoc(t, "", c, m - 1);
    assert 0 < m <= |t| ==> t[m - 1..m - 1] == "";
    assert OccursAt(t, [c], m - 1) <==> 0 < m <= |t| && t[m - 1] == c;
  }

  /** A character after another one extends the last part. */
  lemma EndsLongerPart(front: seq<string>, w: string, c: char, anchored: bool, t: string, m: nat)
    ensures Ends(front + [w + [c]], anchored, t, m) <==>
              0 < m <= |t| && t[m - 1] == c && Ends(front + [w], anchored, t, m - 1)
  {
    assert (front + [w + [c]])[..|front|] == front && (front + [w])[..|front|] == front;
    OccursSnoc(t, w, c, m - |w| - 1);
  }

  /** A prefix of the text matches exactly when the parts can be placed in it: ending at
      its end, or anywhere before it if the pattern ends in a star. */
  ghost predicate PlacedWithin(p: string, t: string, m: nat) {
    if p != "" && p[|p| - 1] == '*' then EndsBy(Parts(p), AnchoredStart(p), t, m)
    else Ends(Parts(p), AnchoredStart(p), t, m)
  }

  lemma {:induction false} MatchesByParts(p: string, t: string, m: nat)
    requires m <= |t|
    ensures Matches(p, t[..m]) <==> PlacedWithin(p, t, m)
    decreases |p|
  {
    if p == "" {
      PartsEmpty(p);
    } else {
      var q, c := p[..|p| - 1], p[|p| - 1];
      assert p == q + [c];
      if c == '*' {
        forall k | 0 <= k <= m ensures Matches(q, t[..m][..k]) <==> PlacedWithin(q, t, k) {
          assert t[..m][..k] == t[..k];
          MatchesByParts(q, t, k);
        }
        StarPlaced(q, t, m);
      } else {
        CharPlaced(q, c, t, m);
        if m > 0 {
          assert t[..m][..m - 1] == t[..m - 1];
          MatchesByParts(q, t, m - 1);
        }
      }
    }
  }

  lemma StarPlaced(q: string, t: string, m: nat)
    requires m <= |t|
    ensures PlacedWithin(q + "*", t, m) <==> exists k :: 0 <= k <= m && PlacedWithin(q, t, k)
  {
    var p := q + "*";
    PartsSnoc(q, '*');
    PartsEmpty(q);
    if q == "" {
      assert Ends(Parts(p), AnchoredStart(p), t, 0) && Ends(Parts(q), AnchoredStart(q), t, 0);
      assert PlacedWithin(q, t, 0);
    } else {
      assert AnchoredStart(p) == AnchoredStart(q);
      forall k | 0 <= k <= m ensures PlacedWithin(q, t, k) ==> EndsBy(Parts(q), AnchoredStart(q), t, k) {}
      if EndsBy(Parts(q), AnchoredStart(q), t, m) {
        var k := EndsByWitness(Parts(q), AnchoredStart(q), t, m);
        assert PlacedWithin(q, t, k);
      }
    }
  }

  lemma CharPlaced(q: string, c: char, t: string, m: nat)
    requires m <= |t| && c != '*'
    ensures PlacedWithin(q + [c], t, m) <==> m > 0 && t[m - 1] == c && PlacedWithin(q, t, m - 1)
  {
    var p := q + [c];
    PartsSnoc(q, c);
    PartsEmpty(q);
    if q != "" {
      assert p[0] == q[0];
    }
    if q == "" || q[|q| - 1] == '*' {
      EndsNewPart(Parts(q), c, AnchoredStart(p), t, m);
      if q == "" {
        assert Parts(q) == [];
      } else {
        assert AnchoredStart(p) == AnchoredStart(q) && !(AnchoredStart(q) && Parts(q) == []);
      }
    } else {
      var n := |Parts(q)| - 1;
      EndsLongerPart(Parts(q)[..n], Parts(q)[n], c, AnchoredStart(p), t, m);
      assert Parts(q)[..n] + [Parts(q)[n]] == Parts(q);
    }
  }

  lemma NotMatched(p: string, t: string)
    requires Starred(p) && NeverEnds(Parts(p), AnchoredStart(p), t)
    ensures !Matches(p, t)
  {
    assert t[..|t|] == t;
    MatchesByParts(p, t, |t|);
    if EndsBy(Parts(p), AnchoredStart(p), t, |t|) {
      var _ := EndsByWitness(Parts(p), AnchoredStart(p), t, |t|);
    }
  }

  /** What the earliest end of the parts says about the whole text. */
  lemma MatchedTo(p: string, t: string, m: nat)
    requires Starred(p) && m <= |t| && LeastEnd(Parts(p), AnchoredStart(p), t, m)
    ensures !AnchoredEnd(p) ==> Matches(p, t)
    ensures AnchoredEnd(p) ==> (m == |t| <==> MatchesNoPrefix(p, t))
  {
    assert t[..|t|] == t;
    forall k | 0 <= k <= |t|
      ensures AnchoredEnd(p) ==> (Matches(p, t[..k]) <==> Ends(Parts(p), AnchoredStart(p), t, k))
    {
      MatchesByParts(p, t, k);
    }
    MatchesByParts(p, t, |t|);
  }

  /** The greedy loop is incomplete on patterns that do not end in a star: here it stops at
      the first `a` and finds text left over. */
  lemma GreedyMissesMatch()
    ensures Matches("*a", "aba") && !MatchesNoPrefix("*a", "aba")
  {
    assert "*a"[..1] == "*" && "*"[..0] == "" && "aba"[..2] == "ab" && "aba"[..1] == "a" && "a"[..0] == "";
    assert "ab"[..0] == "" && Matches("", "");
    assert Matches("*", "ab");
    assert Matches("*", "") by { assert ""[..0] == ""; }
    assert Matches("*a", "a");
  }
}
