/** Splitting text at white space, and joining words with single spaces. */
module Words {
  import opened Text

  /** `str::split_whitespace` */
  function Split(text: string): (ws: seq<string>)
    ensures forall i :: 0 <= i < |ws| ==> IsWord(ws[i])
    decreases |text|
  {
    if text == "" then []
    else if IsSpace(text[0]) then Split(text[1..])
    else [text[..TokenRun(text)]] + Split(text[TokenRun(text)..])
  }

  predicate IsWord(w: string) {
    w != "" && SpaceFree(w)
  }

  /** `join(" ")` */
  function Join(parts: seq<string>): string {
    if parts == [] then "" else if |parts| == 1 then parts[0] else parts[0] + (" " + Join(parts[1..]))
  }

  function Concat<T>(ss: seq<seq<T>>): seq<T> {
    if ss == [] then [] else ss[0] + Concat(ss[1..])
  }

  function SplitEach(parts: seq<string>): (r: seq<seq<string>>)
    ensures |r| == |parts| && forall i :: 0 <= i < |parts| ==> r[i] == Split(parts[i])
  {
    seq(|parts|, i requires 0 <= i < |parts| => Split(parts[i]))
  }

  /** Joining is determined by its parts: a single word is itself, and two lists of words
      are joined by one space. */
  lemma {:induction false} JoinAppend(a: seq<string>, b: seq<string>)
    requires a != [] && b != []
    ensures Join(a + b) == Join(a) + (" " + Join(b))
  {
    assert (a + b)[1..] == a[1..] + b;
    if |a| == 1 {
      assert a[1..] + b == b;
    } else {
      JoinAppend(a[1..], b);
      assert a[0] + (" " + (Join(a[1..]) + (" " + Join(b)))) == (a[0] + (" " + Join(a[1..]))) + (" " + Join(b));
    }
  }

  /** White space in the text separates the words on its two sides. */
  lemma {:induction false} SplitAtSpace(a: string, b: string)
    ensures Split(a + (" " + b)) == Split(a) + Split(b)
    decreases |a|
  {
    var s := a + (" " + b);
    if a == "" {
      assert s[1..] == b;
    } else if IsSpace(a[0]) {
      assert s[1..] == a[1..] + (" " + b);
      SplitAtSpace(a[1..], b);
    } else {
      SplitFirst(a, " " + b);
      SplitAtSpace(a[TokenRun(a)..], b);
    }
  }

  lemma SplitFirst(a: string, rest: string)
    requires a != "" && !IsSpace(a[0]) && rest != "" && IsSpace(rest[0])
    ensures Split(a + rest) == [a[..TokenRun(a)]] + Split(a[TokenRun(a)..] + rest)
  {
    SameToken(a, rest);
    CutAppended(a, rest, TokenRun(a));
    assert (a + rest)[0] == a[0];
  }

  /** The words of joined parts are the words of the parts, in order. */
  lemma {:induction false} SplitOfJoin(parts: seq<string>)
    ensures Split(Join(parts)) == Concat(SplitEach(parts))
  {
    if |parts| == 1 {
      assert SplitEach(parts)[1..] == [];
    } else if parts != [] {
      SplitAtSpace(parts[0], Join(parts[1..]));
      SplitOfJoin(parts[1..]);
      assert SplitEach(parts)[1..] == SplitEach(parts[1..]);
    }
  }

  /** Joining words and splitting again gives the words back. */
  lemma {:induction false} SplitOfJoinedWords(ws: seq<string>)
    requires forall i :: 0 <= i < |ws| ==> IsWord(ws[i])
    ensures Split(Join(ws)) == ws
  {
    if |ws| == 1 {
      SplitWord(ws[0]);
    } else if ws != [] {
      SplitAtSpace(ws[0], Join(ws[1..]));
      SplitWord(ws[0]);
      SplitOfJoinedWords(ws[1..]);
    }
  }

  lemma SplitWord(w: string)
    requires IsWord(w)
    ensures Split(w) == [w]
  {
    assert w + "" == w;
    TokenRunOf(w, "");
    assert w[..|w|] == w && w[|w|..] == "";
  }

  // ---- Subsequences ----

  /** `xs` is `ys` with some elements left out. */
  ghost predicate Subsequence<T>(xs: seq<T>, ys: seq<T>)
    decreases |ys|
  {
    xs == [] || (ys != [] && ((xs[0] == ys[0] && Subsequence(xs[1..], ys[1..])) || Subsequence(xs, ys[1..])))
  }

  lemma {:induction false} SubsequenceAppend<T>(a: seq<T>, b: seq<T>, c: seq<T>, d: seq<T>)
    requires Subsequence(a, b) && Subsequence(c, d)
    ensures Subsequence(a + c, b + d)
    decreases |b|
  {
    if b == [] {
      assert a + c == c && b + d == d;
    } else {
      assert (b + d)[1..] == b[1..] + d && (b + d)[0] == b[0];
      if a != [] && a[0] == b[0] && Subsequence(a[1..], b[1..]) {
        assert (a + c)[1..] == a[1..] + c && (a + c)[0] == a[0];
        SubsequenceAppend(a[1..], b[1..], c, d);
      } else {
        SubsequenceAppend(a, b[1..], c, d);
      }
    }
  }
}
