/** Walking the white-space separated tokens of a text: white space is copied, tokens are
    replaced, and a flag is passed from each token to the next. */
module TokenWalk {
  import opened Text

  datatype Masked = Masked(text: string, awaiting: bool)

  type Mask = (string, bool) -> Masked

  function Walk(mask: Mask, text: string, awaiting: bool): Masked
    decreases |text|
  {
    if text == "" then Masked("", awaiting)
    else if IsSpace(text[0]) then Then([text[0]], Walk(mask, text[1..], awaiting))
    else
      var n := TokenRun(text);
      var m := mask(text[..n], awaiting);
      Then(m.text, Walk(mask, text[n..], m.awaiting))
  }

  function Then(front: string, r: Masked): Masked {
    Masked(front + r.text, r.awaiting)
  }

  lemma ThenThen(a: string, b: string, r: Masked)
    ensures Then(a, Then(b, r)) == Then(a + b, r)
  {
    assert a + (b + r.text) == (a + b) + r.text;
  }

  lemma {:induction false} WalkSpaces(mask: Mask, w: string, rest: string, awaiting: bool)
    requires AllSpace(w)
    ensures Walk(mask, w + rest, awaiting) == Then(w, Walk(mask, rest, awaiting))
  {
    if w == "" {
      assert w + rest == rest;
      assert w + Walk(mask, rest, awaiting).text == Walk(mask, rest, awaiting).text;
    } else {
      assert (w + rest)[1..] == w[1..] + rest;
      WalkSpaces(mask, w[1..], rest, awaiting);
      ThenThen([w[0]], w[1..], Walk(mask, rest, awaiting));
      assert w == [w[0]] + w[1..];
    }
  }

  /** The loop of `redact_secrets`. */
  method WalkTokens(mask: Mask, text: string) returns (out: string)
    ensures out == Walk(mask, text, false).text
  {
    out := "";
    var rest := text;
    var awaiting := false;
    assert Then("", Walk(mask, text, false)).text == Walk(mask, text, false).text;
    while rest != ""
      invariant Walk(mask, text, false).text == Then(out, Walk(mask, rest, awaiting)).text
      decreases |rest|
    {
      var spaces := SpaceRun(rest);
      if spaces > 0 {
        WalkSpaces(mask, rest[..spaces], rest[spaces..], awaiting);
        assert rest == rest[..spaces] + rest[spaces..];
        ThenThen(out, rest[..spaces], Walk(mask, rest[spaces..], awaiting));
        out := out + rest[..spaces];
        rest := rest[spaces..];
        if rest == "" {
          break;
        }
      }
      var end := TokenRun(rest);
      var m := mask(rest[..end], awaiting);
      ThenThen(out, m.text, Walk(mask, rest[end..], m.awaiting));
      out := out + m.text;
      awaiting := m.awaiting;
      rest := rest[end..];
    }
  }

  /** Text may be cut in two anywhere but inside a token; the second half starts in the
      state the first one left. */
  lemma {:induction false} WalkAppend(mask: Mask, pre: string, rest: string, awaiting: bool)
    requires pre == "" || rest == "" || IsSpace(pre[|pre| - 1]) || IsSpace(rest[0])
    ensures var r := Walk(mask, pre, awaiting); Walk(mask, pre + rest, awaiting) == Then(r.text, Walk(mask, rest, r.awaiting))
    decreases |pre|
  {
    if pre == "" {
      assert pre + rest == rest;
      assert "" + Walk(mask, rest, awaiting).text == Walk(mask, rest, awaiting).text;
    } else {
      var first := FirstPiece(mask, pre, rest, awaiting);
      var n := first.0;
      WalkAppend(mask, pre[n..], rest, first.1.awaiting);
      var r := Walk(mask, pre[n..], first.1.awaiting);
      ThenThen(first.1.text, r.text, Walk(mask, rest, r.awaiting));
    }
  }

  /** The walk begins alike on `pre` and on `pre + rest`: with `n` characters that become
      the text of the result. */
  lemma FirstPiece(mask: Mask, pre: string, rest: string, awaiting: bool) returns (first: (nat, Masked))
    requires pre != "" && (rest == "" || IsSpace(pre[|pre| - 1]) || IsSpace(rest[0]))
    ensures 0 < first.0 <= |pre|
    ensures Walk(mask, pre, awaiting) == Then(first.1.text, Walk(mask, pre[first.0..], first.1.awaiting))
    ensures Walk(mask, pre + rest, awaiting) == Then(first.1.text, Walk(mask, pre[first.0..] + rest, first.1.awaiting))
  {
    if IsSpace(pre[0]) {
      assert (pre + rest)[1..] == pre[1..] + rest;
      first := (1, Masked([pre[0]], awaiting));
    } else {
      var n := TokenRun(pre);
      SameToken(pre, rest);
      CutAppended(pre, rest, n);
      first := (n, mask(pre[..n], awaiting));
    }
  }

  /** Replacing one token by another that is masked alike changes nothing else. */
  lemma {:induction false} WalkSwapsToken(mask: Mask, pre: string, t: string, u: string, post: string, awaiting: bool)
    requires pre == "" || IsSpace(pre[|pre| - 1])
    requires post == "" || IsSpace(post[0])
    requires t != "" && u != "" && SpaceFree(t) && SpaceFree(u)
    requires var f := Walk(mask, pre, awaiting).awaiting; mask(t, f) == mask(u, f)
    ensures Walk(mask, pre + t + post, awaiting) == Walk(mask, pre + u + post, awaiting)
  {
    WalkAround(mask, pre, t, post, awaiting);
    WalkAround(mask, pre, u, post, awaiting);
  }

  lemma WalkAround(mask: Mask, pre: string, t: string, post: string, awaiting: bool)
    requires (pre == "" || IsSpace(pre[|pre| - 1])) && (post == "" || IsSpace(post[0])) && t != "" && SpaceFree(t)
    ensures var r := Walk(mask, pre, awaiting);
            var m := mask(t, r.awaiting);
            Walk(mask, pre + t + post, awaiting) == Then(r.text, Then(m.text, Walk(mask, post, m.awaiting)))
  {
    assert pre + t + post == pre + (t + post);
    WalkAppend(mask, pre, t + post, awaiting);
    WalkOneToken(mask, t, post, Walk(mask, pre, awaiting).awaiting);
  }

  lemma {:induction false} WalkOneToken(mask: Mask, t: string, post: string, awaiting: bool)
    requires t != "" && SpaceFree(t) && (post == "" || IsSpace(post[0]))
    ensures Walk(mask, t + post, awaiting) == Then(mask(t, awaiting).text, Walk(mask, post, mask(t, awaiting).awaiting))
  {
    TokenRunOf(t, post);
    assert (t + post)[..|t|] == t && (t + post)[|t|..] == post && (t + post)[0] == t[0];
  }
}
