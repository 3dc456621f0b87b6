/** Masking one token of a command line. Which names are secret is a parameter here. */
module TokenMask {
  import opened Ascii
  import opened Text
  import opened TokenWalk
  import opened Wrappers

  predicate IsQuote(c: char) {
    c == '"' || c == '\''
  }

  datatype Quoted = Quoted(open: string, body: string, close: string)

  /** `strip_quotes`: at most one quote off each end, independently. */
  function StripQuotes(token: string): Quoted {
    var lead := if token != "" && IsQuote(token[0]) then 1 else 0;
    var end := if |token| > lead && IsQuote(token[|token| - 1]) then |token| - 1 else |token|;
    CutAt(token, lead, end)
  }

  function CutAt(token: string, lead: nat, end: nat): Quoted
    requires lead <= end <= |token|
  {
    Quoted(token[..lead], token[lead..end], token[end..])
  }

  const AUTHORIZATION := "authorization:"

  predicate IsHeader(body: string) {
    |body| >= 14 && LowerAll(body[..14]) == AUTHORIZATION
  }

  /** `mask_authorization`, on a body that starts the header. */
  function MaskHeader(body: string, awaiting: bool): Masked
    requires IsHeader(body)
  {
    var head, tail := body[..14], body[14..][SpaceRun(body[14..])..];
    if tail == "" then Masked(head + " ", true)
    else if StartsWith(tail, "Bearer ") || StartsWith(tail, "bearer ") then Masked(head + " Bearer ***", awaiting)
    else Masked(head + " ***", awaiting)
  }

  /** `mask_password_flag` */
  function MaskPasswordFlag(body: string): Option<string> {
    if StartsWith(body, "--password=") && |body| > 11 then Some("--password=***")
    else if StartsWith(body, "-p") && |body| > 2 && body[2] != '-' then Some("-p***")
    else None
  }

  /** `str::find` of a character, or the length. */
  function IndexOf(s: string, c: char): (i: nat)
    ensures i <= |s| && (i < |s| ==> s[i] == c) && forall j :: 0 <= j < i ==> s[j] != c
  {
    if s == "" || s[0] == c then 0 else 1 + IndexOf(s[1..], c)
  }

  /** What follows the last white space of a name. */
  function BareName(name: string): (r: string)
    ensures EndsWith(name, r)
    ensures SpaceFree(name) ==> r == name
  {
    if SpaceFree(name) then name else BareName(name[1..])
  }

  /** `mask_secret_assignment` */
  function MaskSecretAssignment(secret: string -> bool, body: string): Option<string> {
    var eq := IndexOf(body, '=');
    if eq == |body| || eq == 0 || eq + 1 == |body| then None
    else if secret(BareName(body[..eq])) then Some(body[..eq] + "=***")
    else None
  }

  /** `mask_token`, between the quotes. */
  function MaskBody(secret: string -> bool, body: string, awaiting: bool): Masked {
    if IsHeader(body) then MaskHeader(body, awaiting)
    else if awaiting then
      if LowerAll(body) == "bearer" then Masked(body, true) else Masked("***", false)
    else
      match MaskPasswordFlag(body)
      case Some(t) => Masked(t, false)
      case None =>
        match MaskSecretAssignment(secret, body)
        case Some(t) => Masked(t, false)
        case None => Masked(body, false)
  }

  function MaskToken(secret: string -> bool, token: string, awaiting: bool): Masked {
    var q := StripQuotes(token);
    var m := MaskBody(secret, q.body, awaiting);
    Masked(q.open + m.text + q.close, m.awaiting)
  }

  // ---- Noninterference ----

  /** The places a secret value can stand in a token: what is before it and after it. */
  datatype Place =
    | Assignment(before: string, after: string)        // NAME=value
    | QuotedAssignment(before: string, after: string)  // NAME="value"
    | HeaderToken(before: string, after: string)       // Authorization:value
    | HeaderValue(before: string, after: string)       // value, while a header value is awaited
    | ShortFlag(before: string, after: string)         // -pvalue

  function Token(p: Place, value: string): string {
    p.before + value + p.after
  }

  predicate QuoteFree(s: string) {
    forall i :: 0 <= i < |s| ==> !IsQuote(s[i])
  }

  predicate OptionalQuote(s: string) {
    s == "" || (|s| == 1 && IsQuote(s[0]))
  }

  function WithoutQuote(s: string): string {
    if s != "" && IsQuote(s[0]) then s[1..] else s
  }

  /** The redactor is meant to hide `value` here: it is a plain value, the token around it
      has the shape the redactor looks for, and the flag is up where it must be. */
  predicate Hidden(secret: string -> bool, p: Place, value: string, awaiting: bool) {
    && value != "" && QuoteFree(value) && SpaceFree(value) && SpaceFree(p.before) && OptionalQuote(p.after)
    && match p
       case Assignment(before, _) => NamesSecret(secret, before)
       case QuotedAssignment(before, _) =>
         before != "" && IsQuote(before[|before| - 1]) && NamesSecret(secret, before[..|before| - 1])
       case HeaderToken(before, _) => |WithoutQuote(before)| == 14 && IsHeader(WithoutQuote(before))
       case HeaderValue(before, _) =>
         OptionalQuote(before) && awaiting && LowerAll(value) != "bearer" && !IsHeader(value)
       case ShortFlag(before, _) => WithoutQuote(before) == "-p" && value[0] != '-'
  }

  /** A secret-shaped name, after an optional quote, and its equals sign. */
  predicate NamesSecret(secret: string -> bool, before: string) {
    && |before| > 1 && before[|before| - 1] == '='
    && '=' !in before[..|before| - 1]
    && secret(WithoutQuote(before[..|before| - 1]))
  }

  lemma StripAround(before: string, value: string, after: string)
    requires value != "" && QuoteFree(value) && OptionalQuote(after)
    ensures var open := before[..|before| - |WithoutQuote(before)|];
            StripQuotes(before + value + after) == Quoted(open, WithoutQuote(before) + value, after)
  {
    OuterChars(before, value, after);
    var lead := |before| - |WithoutQuote(before)|;
    StripCuts(before + value + after, lead, |before| + |value|);
    Slices(before, value, after, lead);
  }

  lemma StripCuts(token: string, lead: nat, end: nat)
    requires lead <= 1 && lead < end && |token| - 1 <= end <= |token|
    requires (lead == 1 <==> IsQuote(token[0])) && (end < |token| <==> IsQuote(token[|token| - 1]))
    ensures StripQuotes(token) == CutAt(token, lead, end)
  {
  }

  lemma OuterChars(before: string, value: string, after: string)
    requires value != "" && QuoteFree(value) && OptionalQuote(after)
    ensures var token := before + value + after;
            && (IsQuote(token[0]) <==> WithoutQuote(before) != before)
            && (IsQuote(token[|token| - 1]) <==> after != "")
  {
    var token := before + value + after;
    assert token[0] == if before == "" then value[0] else before[0];
    assert token[|token| - 1] == if after == "" then value[|value| - 1] else after[0];
  }

  lemma Slices(before: string, value: string, after: string, lead: nat)
    requires lead <= |before|
    ensures CutAt(before + value + after, lead, |before| + |value|) == Quoted(before[..lead], before[lead..] + value, after)
  {
  }

  /** Two bodies that are masked alike make two tokens that are masked alike. */
  lemma MaskAround(secret: string -> bool, before: string, v: string, w: string, after: string, awaiting: bool)
    requires v != "" && QuoteFree(v) && w != "" && QuoteFree(w) && OptionalQuote(after)
    requires MaskBody(secret, WithoutQuote(before) + v, awaiting) == MaskBody(secret, WithoutQuote(before) + w, awaiting)
    ensures MaskToken(secret, before + v + after, awaiting) == MaskToken(secret, before + w + after, awaiting)
  {
    StripAround(before, v, after);
    StripAround(before, w, after);
  }

  /** A name and an equals sign decide whether a body is a header. */
  lemma HeaderByName(name: string, value: string)
    requires '=' !in name
    ensures IsHeader(name + "=" + value) <==> IsHeader(name)
  {
    var body := name + "=" + value;
    if |name| >= 14 {
      assert body[..14] == name[..14];
    } else if |body| >= 14 {
      assert body[..14][|name|] == '=';
      assert LowerAll(body[..14])[|name|] == Lower('=') == '=';
      assert AUTHORIZATION[|name|] != '=';
    }
  }

  lemma HeaderMask(head: string, rest: string, awaiting: bool)
    requires |head| == 14 && IsHeader(head) && rest != "" && SpaceFree(rest)
    ensures IsHeader(head + rest) && MaskHeader(head + rest, awaiting) == Masked(head + " ***", awaiting)
  {
    var body := head + rest;
    assert body[..14] == head && head[..14] == head && body[14..] == rest;
    assert SpaceRun(rest) == 0;
    assert rest[0..] == rest;
    assert "Bearer "[6] == ' ' && "bearer "[6] == ' ';
  }

  /** What becomes of `NAME=value`: the value does not occur in it. */
  function AssignmentMask(name: string, awaiting: bool): Masked {
    if IsHeader(name) then Masked(name[..14] + " ***", awaiting)
    else if awaiting then Masked("***", false)
    else if name == "--password" then Masked("--password=***", false)
    else if StartsWith(name, "-p") && |name| > 2 && name[2] != '-' then Masked("-p***", false)
    else Masked(name + "=***", false)
  }

  lemma FirstEquals(name: string, value: string)
    requires '=' !in name
    ensures IndexOf(name + "=" + value, '=') == |name|
  {
    var body := name + "=" + value;
    assert body[|name|] == '=';
    assert forall i :: 0 <= i < |name| ==> body[i] == name[i];
    assert forall i :: 0 <= i < |name| ==> name[i] in name;
  }

  lemma PasswordFlagByName(name: string, value: string)
    requires '=' !in name && |name| >= 3 && value != ""
    ensures MaskPasswordFlag(name + "=" + value)
         == if name == "--password" then Some("--password=***")
            else if StartsWith(name, "-p") && name[2] != '-' then Some("-p***") else None
  {
    var body := name + "=" + value;
    assert body[0] == name[0] && body[1] == name[1] && body[2] == name[2];
    assert name == "--password" ==> body == "--password=" + value;
    if StartsWith(body, "--password=") {
      FirstEquals(name, value);
      assert body[10] == '=';
      assert |name| <= 10;
      assert body[|name|] == "--password="[|name|];
      assert |name| == 10;
      assert name == body[..10] == "--password";
    }
  }

  /** No secret name is shorter than three characters. */
  ghost predicate LongNames(secret: string -> bool) {
    forall n :: secret(n) ==> |n| >= 3
  }

  lemma HeaderAssignmentMasked(secret: string -> bool, name: string, value: string, awaiting: bool)
    requires '=' !in name && IsHeader(name) && SpaceFree(name) && value != "" && SpaceFree(value)
    ensures MaskBody(secret, name + "=" + value, awaiting) == AssignmentMask(name, awaiting)
  {
    HeaderByName(name, value);
    var head, rest := name[..14], name[14..] + "=" + value;
    assert head[..14] == head && name + "=" + value == head + rest;
    HeaderMask(head, rest, awaiting);
  }

  lemma AssignmentMasked(secret: string -> bool, name: string, value: string, awaiting: bool)
    requires '=' !in name && SpaceFree(name) && LongNames(secret) && secret(name) && value != "" && SpaceFree(value)
    ensures MaskBody(secret, name + "=" + value, awaiting) == AssignmentMask(name, awaiting)
  {
    HeaderByName(name, value);
    var body := name + "=" + value;
    if IsHeader(name) {
      HeaderAssignmentMasked(secret, name, value, awaiting);
    } else if awaiting {
      assert LowerAll(body)[|name|] == '=' && '=' !in "bearer";
    } else {
      PasswordFlagByName(name, value);
      FirstEquals(name, value);
      assert body[..|name|] == name;
    }
  }

  lemma ShortFlagMasked(secret: string -> bool, value: string, awaiting: bool)
    requires value != "" && value[0] != '-'
    ensures MaskBody(secret, "-p" + value, awaiting) == if awaiting then Masked("***", false) else Masked("-p***", false)
  {
    var body := "-p" + value;
    assert body[0] == '-' && body[1] == 'p' && body[2] == value[0];
    assert |body| >= 14 ==> LowerAll(body[..14])[0] == '-';
    assert LowerAll(body)[0] == '-';
    assert body[..2] == "-p";
  }

  lemma AssignmentsAlike(secret: string -> bool, before: string, v: string, w: string, awaiting: bool)
    requires LongNames(secret) && NamesSecret(secret, before) && SpaceFree(before)
    requires v != "" && SpaceFree(v) && w != "" && SpaceFree(w)
    ensures MaskBody(secret, WithoutQuote(before) + v, awaiting) == MaskBody(secret, WithoutQuote(before) + w, awaiting)
  {
    AssignmentName(before);
    var name := WithoutQuote(before[..|before| - 1]);
    AssignmentMasked(secret, name, v, awaiting);
    AssignmentMasked(secret, name, w, awaiting);
  }

  lemma QuotedAssignmentsAlike(secret: string -> bool, before: string, v: string, w: string, awaiting: bool)
    requires before != "" && IsQuote(before[|before| - 1]) && NamesSecret(secret, before[..|before| - 1])
    requires LongNames(secret) && SpaceFree(before) && v != "" && SpaceFree(v) && w != "" && SpaceFree(w)
    ensures MaskBody(secret, WithoutQuote(before) + v, awaiting) == MaskBody(secret, WithoutQuote(before) + w, awaiting)
  {
    var n := |before| - 1;
    var quote := [before[n]];
    QuoteJoinsValue(before, n, quote, v);
    QuoteJoinsValue(before, n, quote, w);
    AssignmentsAlike(secret, before[..n], quote + v, quote + w, awaiting);
  }

  lemma QuoteJoinsValue(before: string, n: nat, quote: string, v: string)
    requires 0 < n < |before| && before[n..] == quote && SpaceFree(before) && SpaceFree(v)
    ensures WithoutQuote(before) + v == WithoutQuote(before[..n]) + (quote + v)
    ensures SpaceFree(before[..n]) && SpaceFree(quote + v)
  {
    assert before == before[..n] + quote;
    assert forall i :: 0 <= i < |quote| ==> quote[i] == before[n + i];
  }

  lemma HeadersAlike(secret: string -> bool, head: string, v: string, w: string, awaiting: bool)
    requires |head| == 14 && IsHeader(head) && v != "" && SpaceFree(v) && w != "" && SpaceFree(w)
    ensures MaskBody(secret, head + v, awaiting) == MaskBody(secret, head + w, awaiting)
  {
    HeaderMask(head, v, awaiting);
    HeaderMask(head, w, awaiting);
  }

  lemma HeaderValuesAlike(secret: string -> bool, v: string, w: string)
    requires LowerAll(v) != "bearer" && !IsHeader(v) && LowerAll(w) != "bearer" && !IsHeader(w)
    ensures MaskBody(secret, v, true) == MaskBody(secret, w, true)
  {
  }

  /** Two secrets in the same place are masked alike, with the same state afterwards. */
  lemma SecretsMaskedAlike(secret: string -> bool, p: Place, v: string, w: string, awaiting: bool)
    requires LongNames(secret) && Hidden(secret, p, v, awaiting) && Hidden(secret, p, w, awaiting)
    ensures MaskToken(secret, Token(p, v), awaiting) == MaskToken(secret, Token(p, w), awaiting)
  {
    var inner := WithoutQuote(p.before);
    if p.Assignment? {
      AssignmentsAlike(secret, p.before, v, w, awaiting);
    } else if p.QuotedAssignment? {
      QuotedAssignmentsAlike(secret, p.before, v, w, awaiting);
    } else if p.HeaderToken? {
      HeadersAlike(secret, inner, v, w, awaiting);
    } else if p.HeaderValue? {
      assert inner + v == v && inner + w == w;
      HeaderValuesAlike(secret, v, w);
    } else {
      ShortFlagMasked(secret, v, awaiting);
      ShortFlagMasked(secret, w, awaiting);
    }
    MaskAround(secret, p.before, v, w, p.after, awaiting);
  }

  lemma AssignmentName(before: string)
    requires |before| > 1 && before[|before| - 1] == '=' && '=' !in before[..|before| - 1] && SpaceFree(before)
    ensures var name := WithoutQuote(before[..|before| - 1]);
            WithoutQuote(before) == name + "=" && '=' !in name && SpaceFree(name)
  {
    var n := |before| - 1;
    assert before[..n][0] == before[0];
    assert before == before[..n] + "=";
  }

  lemma TokenPlain(secret: string -> bool, p: Place, v: string, awaiting: bool)
    requires Hidden(secret, p, v, awaiting)
    ensures Token(p, v) != "" && SpaceFree(Token(p, v))
  {
    SpaceFreeConcat(p.before, v, p.after);
  }

  lemma SpaceFreeConcat(a: string, b: string, c: string)
    requires SpaceFree(a) && SpaceFree(b) && OptionalQuote(c)
    ensures SpaceFree(a + b + c)
  {
  }

  // ---- What is not hidden ----

  /** A password flag with its value attached. */
  predicate PasswordShaped(body: string) {
    (StartsWith(body, "--password=") && |body| > 11) || (StartsWith(body, "-p") && |body| > 2 && body[2] != '-')
  }

  /** `NAME=value` with a secret-shaped name and a value. */
  predicate AssignsSecret(secret: string -> bool, body: string) {
    var eq := IndexOf(body, '=');
    0 < eq < |body| - 1 && secret(BareName(body[..eq]))
  }

  const MASKED_LONG := "--password=***"
  const MASKED_SHORT := "-p***"

  /** Nothing in the body has a shape the masker looks for, or its value is already `***`. */
  predicate Untouched(secret: string -> bool, body: string) {
    && !IsHeader(body)
    && (PasswordShaped(body) ==> body == MASKED_LONG || body == MASKED_SHORT)
    && (!PasswordShaped(body) && AssignsSecret(secret, body) ==> body[IndexOf(body, '=') + 1..] == "***")
  }

  lemma PasswordFlagCopied(body: string)
    ensures MaskPasswordFlag(body).Some? <==> PasswordShaped(body)
    ensures MaskPasswordFlag(body) == Some(body) <==> PasswordShaped(body) && (body == MASKED_LONG || body == MASKED_SHORT)
  {
    assert MASKED_LONG[..11] == "--password=";
    assert body == MASKED_SHORT ==> body[1] == 'p';
    assert StartsWith(body, "--password=") ==> body[1] == "--password="[1];
  }

  lemma AssignmentCopied(secret: string -> bool, body: string)
    ensures MaskSecretAssignment(secret, body).Some? <==> AssignsSecret(secret, body)
    ensures MaskSecretAssignment(secret, body) == Some(body) <==>
            AssignsSecret(secret, body) && body[IndexOf(body, '=') + 1..] == "***"
  {
    var eq := IndexOf(body, '=');
    if AssignsSecret(secret, body) {
      var name, value := body[..eq] + "=", body[eq + 1..];
      assert body == name + value;
      assert body[..eq] + "=***" == name + "***";
      SameTail(name, value, "***");
    }
  }

  lemma SameTail(front: string, x: string, y: string)
    ensures front + x == front + y <==> x == y
  {
    assert (front + x)[|front|..] == x && (front + y)[|front|..] == y;
  }

  lemma BodyCopied(secret: string -> bool, body: string)
    requires SpaceFree(body)
    ensures MaskBody(secret, body, false).text == body <==> Untouched(secret, body)
    ensures Untouched(secret, body) ==> MaskBody(secret, body, false) == Masked(body, false)
  {
    if IsHeader(body) {
      assert MaskHeader(body, false).text[14] == ' ';
    } else {
      PasswordFlagCopied(body);
      AssignmentCopied(secret, body);
    }
  }

  lemma StripQuotesSplits(t: string)
    ensures var q := StripQuotes(t); t == q.open + q.body + q.close && (SpaceFree(t) ==> SpaceFree(q.body))
  {
  }

  lemma SameMiddle(open: string, x: string, y: string, close: string)
    ensures open + x + close == open + y + close <==> x == y
  {
    if open + x + close == open + y + close {
      var s := open + x + close;
      assert x == s[|open|..|s| - |close|] && y == (open + y + close)[|open|..|s| - |close|];
    }
  }

  /** A token is copied out if and only if, between its quotes, it has none of the shapes
      the masker looks for or is already masked. */
  lemma TokenCopied(secret: string -> bool, t: string)
    requires SpaceFree(t)
    ensures MaskToken(secret, t, false).text == t <==> Untouched(secret, StripQuotes(t).body)
    ensures Untouched(secret, StripQuotes(t).body) ==> MaskToken(secret, t, false) == Masked(t, false)
  {
    var q := StripQuotes(t);
    StripQuotesSplits(t);
    BodyCopied(secret, q.body);
    SameMiddle(q.open, MaskBody(secret, q.body, false).text, q.body, q.close);
  }

  /** The whole story of `-p`: its value is hidden if it does not begin with a dash, and
      otherwise the token is treated as an assignment, if it looks like a secret one. */
  lemma ShortFlagExposed(secret: string -> bool, flag: string, value: string)
    requires flag == "-p" && value != "" && QuoteFree(value)
    ensures MaskToken(secret, flag + value, false) ==
            if value[0] != '-' then Masked("-p***", false)
            else match MaskSecretAssignment(secret, flag + value)
                 case Some(masked) => Masked(masked, false)
                 case None => Masked(flag + value, false)
  {
    UnquotedToken(secret, flag, value, false);
    if value[0] != '-' {
      ShortFlagMasked(secret, value, false);
    } else {
      DashedValue(secret, flag, value);
    }
  }

  lemma UnquotedToken(secret: string -> bool, flag: string, value: string, awaiting: bool)
    requires (flag == "" || !IsQuote(flag[0])) && value != "" && QuoteFree(value)
    ensures MaskToken(secret, flag + value, awaiting) == MaskBody(secret, flag + value, awaiting)
  {
    var body := flag + value;
    assert body + "" == body && flag[..0] == "";
    StripAround(flag, value, "");
    var m := MaskBody(secret, body, awaiting);
    assert "" + m.text + "" == m.text;
  }

  lemma DashedValue(secret: string -> bool, flag: string, value: string)
    requires flag == "-p" && value != "" && value[0] == '-'
    ensures MaskBody(secret, flag + value, false) ==
            match MaskSecretAssignment(secret, flag + value)
            case Some(masked) => Masked(masked, false)
            case None => Masked(flag + value, false)
  {
    var body := flag + value;
    assert body[0] == '-' && body[1] == 'p' && body[2] == '-';
    assert |body| >= 14 ==> LowerAll(body[..14])[0] == '-';
    assert body[1] != "--password="[1];
  }

  /** A dash does not always expose the value: `-p-KEY=value` is caught as an assignment. */
  lemma DashedAssignmentMasked(secret: string -> bool, name: string, value: string)
    requires |name| > 2 && StartsWith(name, "-p") && name[2] == '-' && '=' !in name && SpaceFree(name)
    requires LongNames(secret) && secret(name) && value != "" && QuoteFree(value) && SpaceFree(value)
    ensures MaskToken(secret, name + "=" + value, false) == Masked(name + "=***", false)
  {
    var front := name + "=";
    assert front[0] == name[0] == '-';
    UnquotedToken(secret, front, value, false);
    AssignmentMasked(secret, name, value, false);
    assert name[1] == 'p' && (|name| >= 14 ==> LowerAll(name[..14])[0] == '-');
  }
}
