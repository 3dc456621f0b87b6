/** The audit log's secret redactor and the record it writes. */
module Redaction {
  import opened Ascii
  import opened Bytes
  import opened SecretNames
  import opened Text
  import opened TokenMask
  import opened TokenWalk
  import opened Wrappers

  function Masker(secret: string -> bool): Mask {
    (token, awaiting) => MaskToken(secret, token, awaiting)
  }

  /** The redacted text, and the state after it. */
  function RedactWith(secret: string -> bool, text: string, awaiting: bool): Masked {
    Walk(Masker(secret), text, awaiting)
  }

  function Redact(text: string): string {
    RedactWith(IsSecretName, text, false).text
  }

  /** `redact_secrets` */
  method RedactSecrets(text: string) returns (out: string)
    ensures out == Redact(text)
  {
    out := WalkTokens(Masker(IsSecretName), text);
  }

  // ---- Noninterference ----

  /** A command: what precedes the secret's token, where the secret stands in it, what follows. */
  datatype Context = Context(pre: string, place: Place, post: string)

  function Fill(c: Context, value: string): string {
    c.pre + Token(c.place, value) + c.post
  }

  /** The token stands by itself, and the redactor is meant to hide `value` in it. */
  predicate Fits(secret: string -> bool, c: Context, value: string, awaiting: bool) {
    && (c.pre == "" || IsSpace(c.pre[|c.pre| - 1])) && (c.post == "" || IsSpace(c.post[0]))
    && Hidden(secret, c.place, value, RedactWith(secret, c.pre, awaiting).awaiting)
  }

  lemma TokensAlike(secret: string -> bool, p: Place, v: string, w: string, awaiting: bool)
    requires LongNames(secret) && Hidden(secret, p, v, awaiting) && Hidden(secret, p, w, awaiting)
    ensures Token(p, v) != "" && Token(p, w) != "" && SpaceFree(Token(p, v)) && SpaceFree(Token(p, w))
    ensures Masker(secret)(Token(p, v), awaiting) == Masker(secret)(Token(p, w), awaiting)
  {
    SecretsMaskedAlike(secret, p, v, w, awaiting);
    TokenPlain(secret, p, v, awaiting);
    TokenPlain(secret, p, w, awaiting);
  }

  /** Two commands that differ only in one secret value are redacted to the same text and
      leave the same state for whatever follows. */
  lemma RedactionHides(secret: string -> bool, c: Context, v: string, w: string, awaiting: bool)
    requires LongNames(secret) && Fits(secret, c, v, awaiting) && Fits(secret, c, w, awaiting)
    ensures RedactWith(secret, Fill(c, v), awaiting) == RedactWith(secret, Fill(c, w), awaiting)
  {
    TokensAlike(secret, c.place, v, w, RedactWith(secret, c.pre, awaiting).awaiting);
    WalkSwapsToken(Masker(secret), c.pre, Token(c.place, v), Token(c.place, w), c.post, awaiting);
  }

  lemma SecretNamesLong()
    ensures LongNames(IsSecretName)
  {
    forall n | IsSecretName(n) ensures |n| >= 3 {
      SecretNameLength(n);
    }
  }

  /** `--password=value` is one of the places: the flag is itself a secret-shaped name. */
  lemma PasswordFlagHides(flag: string, value: string, awaiting: bool)
    requires flag == "--password" && value != "" && QuoteFree(value) && SpaceFree(value)
    ensures Hidden(IsSecretName, Assignment(flag + "=", ""), value, awaiting)
  {
    PasswordFlagPlain(flag);
    PasswordFlagIsSecret(flag);
    assert (flag + "=")[..10] == flag;
  }

  lemma CommandsRedactedAlike(c: Context, v: string, w: string)
    requires Fits(IsSecretName, c, v, false) && Fits(IsSecretName, c, w, false)
    ensures Redact(Fill(c, v)) == Redact(Fill(c, w))
  {
    SecretNamesLong();
    RedactionHides(IsSecretName, c, v, w, false);
  }

  // ---- What the documented forms become ----

  lemma LongFlagName(name: string, value: string)
    requires '=' !in name && StartsWith(name + "=" + value, "--password=")
    ensures name == "--password"
  {
    var body := name + "=" + value;
    FirstEquals(name, value);
    assert body[10] == '=';
    assert body[|name|] == "--password="[|name|];
    assert name == body[..10] == "--password";
  }

  lemma NotShortFlag(name: string, value: string)
    requires '=' !in name && !StartsWith(name, "-p")
    ensures !StartsWith(name + "=" + value, "-p")
  {
    var body := name + "=" + value;
    assert body[|name|] == '=' && "-p"[0] == '-' && "-p"[1] == 'p';
    assert |name| >= 2 ==> body[0] == name[0] && body[1] == name[1];
  }

  lemma OrdinaryBody(secret: string -> bool, name: string, value: string)
    requires '=' !in name && SpaceFree(name) && !IsHeader(name) && !StartsWith(name, "-p")
    requires !secret(name) && name != "--password" && value != "" && SpaceFree(value)
    ensures Untouched(secret, name + "=" + value)
  {
    var body := name + "=" + value;
    HeaderByName(name, value);
    FirstEquals(name, value);
    NotShortFlag(name, value);
    assert body[..|name|] == name;
    if StartsWith(body, "--password=") {
      LongFlagName(name, value);
      assert false;
    }
  }

  /** The forms of `NAME=value` that are not a header or a short flag. */
  predicate Assigns(name: string, value: string) {
    && '=' !in name && SpaceFree(name) && (name == "" || !IsQuote(name[0]))
    && !IsHeader(name) && !StartsWith(name, "-p")
    && value != "" && QuoteFree(value) && SpaceFree(value)
  }

  lemma SecretBody(secret: string -> bool, name: string, value: string)
    requires Assigns(name, value) && LongNames(secret) && secret(name)
    ensures MaskBody(secret, name + "=" + value, false).text == name + "=" + "***"
  {
    AssignmentMasked(secret, name, value, false);
    assert name + "=***" == name + "=" + "***";
  }

  lemma AssignmentBecomes(secret: string -> bool, name: string, value: string)
    requires Assigns(name, value) && LongNames(secret) && (name == "--password" ==> secret(name))
    ensures RedactWith(secret, name + "=" + value, false).text == name + "=" + if secret(name) then "***" else value
  {
    var front := name + "=";
    assert front[0] == if name == "" then '=' else name[0];
    SpaceFreeConcat3(name, value);
    OneToken(secret, front + value, false);
    UnquotedToken(secret, front, value, false);
    if secret(name) {
      SecretBody(secret, name, value);
    } else {
      OrdinaryBody(secret, name, value);
      BodyCopied(secret, front + value);
    }
  }

  /** `NAME=value` becomes `NAME=***` if and only if the name is secret-shaped, and is
      copied otherwise; a name that starts the header or the short flag is another matter. */
  lemma AssignmentRedacted(name: string, value: string)
    requires Assigns(name, value)
    ensures Redact(name + "=" + value) == name + "=" + if SecretShaped(name) then "***" else value
  {
    if name == "--password" {
      PasswordFlagIsSecret(name);
    }
    SecretNamesExactly(name);
    SecretNamesLong();
    AssignmentBecomes(IsSecretName, name, value);
  }

  lemma SpaceFreeConcat3(name: string, value: string)
    requires SpaceFree(name) && SpaceFree(value)
    ensures SpaceFree(name + "=" + value)
  {
  }

  /** `-pvalue` becomes `-p***`. */
  lemma ShortFlagRedacted(flag: string, value: string)
    requires flag == "-p" && value != "" && value[0] != '-' && QuoteFree(value) && SpaceFree(value)
    ensures Redact(flag + value) == "-p***"
  {
    assert SpaceFree(flag + value);
    OneToken(IsSecretName, flag + value, false);
    ShortFlagExposed(IsSecretName, flag, value);
  }

  /** `Authorization:value` becomes `Authorization: ***`, in any case. */
  lemma HeaderRedacted(head: string, value: string)
    requires |head| == 14 && IsHeader(head) && SpaceFree(head) && !IsQuote(head[0])
    requires value != "" && QuoteFree(value) && SpaceFree(value)
    ensures Redact(head + value) == head + " ***"
  {
    assert SpaceFree(head + value);
    OneToken(IsSecretName, head + value, false);
    UnquotedToken(IsSecretName, head, value, false);
    HeaderMask(head, value, false);
  }

  /** A token that is neither `Bearer` nor a header, while a header value is awaited. */
  lemma AwaitedMasked(value: string)
    requires value != "" && QuoteFree(value) && LowerAll(value) != "bearer" && !IsHeader(value)
    ensures MaskToken(IsSecretName, value, true) == Masked("***", false)
  {
    assert "" + value == value;
    UnquotedToken(IsSecretName, "", value, true);
  }

  lemma HeaderAlone(head: string)
    requires |head| == 14 && IsHeader(head) && QuoteFree(head)
    ensures MaskToken(IsSecretName, head, false) == Masked(head + " ", true)
  {
    assert "" + head == head && head[..14] == head && head[14..] == "";
    UnquotedToken(IsSecretName, "", head, false);
  }

  lemma BearerCopied(bearer: string)
    requires LowerAll(bearer) == "bearer" && QuoteFree(bearer)
    ensures MaskToken(IsSecretName, bearer, true) == Masked(bearer, true)
  {
    assert |bearer| == |LowerAll(bearer)| == 6;
    assert "" + bearer == bearer;
    UnquotedToken(IsSecretName, "", bearer, true);
  }

  lemma TokenAndSpace(token: string, space: string, rest: string, awaiting: bool)
    requires token != "" && SpaceFree(token) && space != "" && AllSpace(space)
    ensures var m := MaskToken(IsSecretName, token, awaiting);
            RedactWith(IsSecretName, token + (space + rest), awaiting)
            == Then(m.text + space, RedactWith(IsSecretName, rest, m.awaiting))
  {
    var mask := Masker(IsSecretName);
    var m := mask(token, awaiting);
    assert (space + rest)[0] == space[0];
    WalkOneToken(mask, token, space + rest, awaiting);
    WalkSpaces(mask, space, rest, m.awaiting);
    ThenThen(m.text, space, Walk(mask, rest, m.awaiting));
  }

  /** `Authorization: value`: all that is left of the value is `***`. */
  lemma SpacedHeaderRedacted(head: string, space: string, value: string)
    requires |head| == 14 && IsHeader(head) && SpaceFree(head) && QuoteFree(head) && space != "" && AllSpace(space)
    requires value != "" && QuoteFree(value) && SpaceFree(value) && LowerAll(value) != "bearer" && !IsHeader(value)
    ensures Redact(head + (space + value)) == head + " " + space + "***"
  {
    TokenAndSpace(head, space, value, false);
    HeaderAlone(head);
    OneToken(IsSecretName, value, true);
    AwaitedMasked(value);
  }

  /** `Authorization: Bearer value` likewise. */
  lemma BearerRedacted(head: string, space: string, bearer: string, gap: string, value: string)
    requires |head| == 14 && IsHeader(head) && SpaceFree(head) && QuoteFree(head) && space != "" && AllSpace(space)
    requires LowerAll(bearer) == "bearer" && SpaceFree(bearer) && QuoteFree(bearer) && gap != "" && AllSpace(gap)
    requires value != "" && QuoteFree(value) && SpaceFree(value) && LowerAll(value) != "bearer" && !IsHeader(value)
    ensures Redact(head + (space + (bearer + (gap + value)))) == head + " " + space + (bearer + gap + "***")
  {
    TokenAndSpace(head, space, bearer + (gap + value), false);
    HeaderAlone(head);
    assert |bearer| == |LowerAll(bearer)| == 6;
    TokenAndSpace(bearer, gap, value, true);
    BearerCopied(bearer);
    OneToken(IsSecretName, value, true);
    AwaitedMasked(value);
  }

  lemma HeaderSpelled()
    ensures IsHeader("Authorization:") && SpaceFree("Authorization:") && QuoteFree("Authorization:")
    ensures LowerAll("Bearer") == "bearer" && SpaceFree("Bearer") && QuoteFree("Bearer")
  {
  }

  // ---- The documented header forms are hidden places ----

  /** A token and the white space after it. */
  datatype Spaced = Spaced(token: string, space: string)

  function TextOf(ps: seq<Spaced>): string {
    if ps == [] then "" else ps[0].token + (ps[0].space + TextOf(ps[1..]))
  }

  predicate WellSpaced(p: Spaced) {
    p.token != "" && SpaceFree(p.token) && p.space != "" && AllSpace(p.space)
  }

  /** `Authorization:`, in any case, with or without a quote at either end. */
  predicate IsAuthorization(token: string) {
    |StripQuotes(token).body| == 14 && IsHeader(StripQuotes(token).body)
  }

  predicate IsBearer(token: string) {
    LowerAll(StripQuotes(token).body) == "bearer"
  }

  lemma HeaderRaises(secret: string -> bool, token: string, awaiting: bool)
    requires IsAuthorization(token)
    ensures MaskToken(secret, token, awaiting).awaiting
  {
    var body := StripQuotes(token).body;
    assert body[14..] == "";
  }

  lemma BearerKeeps(secret: string -> bool, token: string)
    requires IsBearer(token)
    ensures MaskToken(secret, token, true).awaiting
  {
    assert |StripQuotes(token).body| == |LowerAll(StripQuotes(token).body)| == 6;
  }

  lemma PieceStep(secret: string -> bool, p: Spaced, rest: string, awaiting: bool)
    requires WellSpaced(p)
    ensures RedactWith(secret, p.token + (p.space + rest), awaiting).awaiting
         == RedactWith(secret, rest, MaskToken(secret, p.token, awaiting).awaiting).awaiting
  {
    var mask := Masker(secret);
    assert (p.space + rest)[0] == p.space[0];
    WalkOneToken(mask, p.token, p.space + rest, awaiting);
    WalkSpaces(mask, p.space, rest, mask(p.token, awaiting).awaiting);
  }

  lemma {:induction false} BearersKeep(secret: string -> bool, ps: seq<Spaced>)
    requires forall i :: 0 <= i < |ps| ==> WellSpaced(ps[i]) && IsBearer(ps[i].token)
    ensures RedactWith(secret, TextOf(ps), true).awaiting
  {
    if ps != [] {
      PieceStep(secret, ps[0], TextOf(ps[1..]), true);
      BearerKeeps(secret, ps[0].token);
      BearersKeep(secret, ps[1..]);
    }
  }

  lemma {:induction false} TextOfEnds(ps: seq<Spaced>)
    requires ps != [] && forall i :: 0 <= i < |ps| ==> WellSpaced(ps[i])
    ensures TextOf(ps) != "" && IsSpace(TextOf(ps)[|TextOf(ps)| - 1])
  {
    var p, rest := ps[0], TextOf(ps[1..]);
    var text := p.token + (p.space + rest);
    if |ps| > 1 {
      TextOfEnds(ps[1..]);
      assert text[|text| - 1] == rest[|rest| - 1];
    } else {
      assert text[|text| - 1] == p.space[|p.space| - 1];
    }
  }

  lemma FlagAfter(secret: string -> bool, pre: string, rest: string, awaiting: bool)
    requires pre == "" || IsSpace(pre[|pre| - 1])
    ensures RedactWith(secret, pre + rest, awaiting).awaiting
         == RedactWith(secret, rest, RedactWith(secret, pre, awaiting).awaiting).awaiting
  {
    WalkAppend(Masker(secret), pre, rest, awaiting);
  }

  /** An `Authorization:` token and any number of `Bearer` tokens. */
  predicate IsAuthorizationHeader(ps: seq<Spaced>) {
    && ps != [] && (forall i :: 0 <= i < |ps| ==> WellSpaced(ps[i]))
    && IsAuthorization(ps[0].token) && (forall i :: 0 < i < |ps| ==> IsBearer(ps[i].token))
  }

  lemma HeaderRaisesFlag(secret: string -> bool, pre: string, ps: seq<Spaced>, awaiting: bool)
    requires (pre == "" || IsSpace(pre[|pre| - 1])) && IsAuthorizationHeader(ps)
    ensures RedactWith(secret, pre + TextOf(ps), awaiting).awaiting
  {
    FlagAfter(secret, pre, TextOf(ps), awaiting);
    var f := RedactWith(secret, pre, awaiting).awaiting;
    PieceStep(secret, ps[0], TextOf(ps[1..]), f);
    HeaderRaises(secret, ps[0].token, f);
    BearersKeep(secret, ps[1..]);
  }

  /** After the header's name and any number of `Bearer` keywords, wherever in a command,
      the next token is masked: `Authorization: <token>` and `Authorization: Bearer <token>`
      are places in which a value is hidden. */
  lemma BearerTokenHidden(
      secret: string -> bool, pre: string, ps: seq<Spaced>, place: Place, post: string, value: string, awaiting: bool)
    requires (pre == "" || IsSpace(pre[|pre| - 1])) && IsAuthorizationHeader(ps)
    requires place.HeaderValue? && Hidden(secret, place, value, true) && (post == "" || IsSpace(post[0]))
    ensures Fits(secret, Context(pre + TextOf(ps), place, post), value, awaiting)
  {
    HeaderRaisesFlag(secret, pre, ps, awaiting);
    TextOfEnds(ps);
    LastOfAppended(pre, TextOf(ps));
  }

  lemma LastOfAppended(pre: string, text: string)
    requires text != ""
    ensures (pre + text)[|pre + text| - 1] == text[|text| - 1]
  {
  }

  // ---- A password after a space is not ----

  lemma PasswordFlagPlain(flag: string)
    requires flag == "--password"
    ensures SpaceFree(flag) && QuoteFree(flag) && '=' !in flag && !IsHeader(flag) && !("-p" <= flag)
  {
    assert flag[1] != "-p"[1];
  }

  lemma LongFlagCopied(secret: string -> bool, flag: string)
    requires flag == "--password"
    ensures MaskToken(secret, flag, false) == Masked(flag, false)
  {
    PasswordFlagPlain(flag);
    UnquotedToken(secret, flag[..1], flag[1..], false);
    assert flag[..1] + flag[1..] == flag;
    assert IndexOf(flag, '=') == |flag|;
    BodyCopied(secret, flag);
  }

  /** The flag alone is copied and leaves no state, so what follows it is treated like
      any other text, although the documentation lists this form. */
  lemma SpacedPasswordExposed(secret: string -> bool, flag: string, rest: string)
    requires flag == "--password"
    ensures RedactWith(secret, flag + " " + rest, false) == Then(flag + " ", RedactWith(secret, rest, false))
  {
    PasswordFlagPlain(flag);
    LongFlagCopied(secret, flag);
    var mask := Masker(secret);
    assert flag + " " + rest == flag + (" " + rest);
    WalkOneToken(mask, flag, " " + rest, false);
    WalkSpaces(mask, " ", rest, false);
    ThenThen(flag, " ", Walk(mask, rest, false));
  }

  lemma OneToken(secret: string -> bool, v: string, awaiting: bool)
    requires v != "" && SpaceFree(v)
    ensures RedactWith(secret, v, awaiting) == MaskToken(secret, v, awaiting)
  {
    var m := MaskToken(secret, v, awaiting);
    WalkOneToken(Masker(secret), v, "", awaiting);
    assert v + "" == v && m.text + "" == m.text;
  }

  /** So a password after a space is written out in full if and only if the token it is
      would be copied by itself. */
  lemma SpacedPasswordCopied(secret: string -> bool, flag: string, value: string)
    requires flag == "--password" && value != "" && SpaceFree(value)
    ensures RedactWith(secret, flag + " " + value, false) == Then(flag + " ", MaskToken(secret, value, false))
    ensures RedactWith(secret, flag + " " + value, false).text == flag + " " + value
       <==> Untouched(secret, StripQuotes(value).body)
  {
    SpacedPasswordExposed(secret, flag, value);
    OneToken(secret, value, false);
    TokenCopied(secret, value);
    SameTail(flag + " ", MaskToken(secret, value, false).text, value);
  }

  /** Two plain passwords are told apart in the log. */
  lemma SpacedPasswordsDiffer(secret: string -> bool, flag: string, v: string, w: string)
    requires flag == "--password" && v != w && v != "" && w != "" && SpaceFree(v) && SpaceFree(w)
    requires Untouched(secret, StripQuotes(v).body) && Untouched(secret, StripQuotes(w).body)
    ensures RedactWith(secret, flag + " " + v, false).text != RedactWith(secret, flag + " " + w, false).text
  {
    SpacedPasswordCopied(secret, flag, v);
    SpacedPasswordCopied(secret, flag, w);
    SameTail(flag + " ", v, w);
  }

  /** A value without quotes, equals sign, header or short flag is such a one, whatever
      names are secret. */
  lemma PlainValueUntouched(secret: string -> bool, v: string)
    requires v != "" && QuoteFree(v) && '=' !in v && !IsHeader(v) && !("-p" <= v)
    ensures Untouched(secret, StripQuotes(v).body)
  {
    assert StripQuotes(v).body == v[0..|v|] == v;
    assert IndexOf(v, '=') == |v|;
    assert |v| > 10 ==> v[10] in v;
  }

  // ---- Truncation ----

  const MAX_COMMAND_BYTES: nat := 512

  /** `truncate_bytes`: back off to a character boundary. */
  method TruncateBytes(b: seq<Byte>, max: nat) returns (r: seq<Byte>)
    ensures r == Truncated(b, max)
  {
    if |b| <= max {
      return b;
    }
    var end := max;
    while end > 0 && !Boundary(b, end)
      invariant 0 <= end <= max
      invariant LastBoundary(b, max) == LastBoundary(b, end)
    {
      end := end - 1;
    }
    return b[..end];
  }

  function LastBoundary(b: seq<Byte>, i: nat): (j: nat)
    ensures j <= i && Boundary(b, j)
    ensures forall k :: j < k <= i ==> !Boundary(b, k)
  {
    if i == 0 || Boundary(b, i) then i else LastBoundary(b, i - 1)
  }

  function Truncated(b: seq<Byte>, max: nat): seq<Byte> {
    if |b| <= max then b else b[..LastBoundary(b, max)]
  }

  /** Truncating encoded text leaves the encoding of a prefix of it, at most `max` bytes
      long and at most three bytes short of that when it cuts. */
  lemma TruncationIsPrefix(s: string, max: nat)
    ensures exists k :: 0 <= k <= |s| && Truncated(Utf8(s), max) == Utf8(s[..k])
    ensures |Truncated(Utf8(s), max)| <= max || Truncated(Utf8(s), max) == Utf8(s)
    ensures |Utf8(s)| > max ==> max - 3 <= |Truncated(Utf8(s), max)| <= max
  {
    var b := Utf8(s);
    if |b| <= max {
      assert s[..|s|] == s;
    } else {
      var k := BoundaryIsPrefix(s, LastBoundary(b, max));
      BoundaryNear(s, max);
      var j: nat :| max - 3 <= j <= max && Boundary(b, j);
    }
  }

  // ---- The record ----

  datatype AuditConfig = AuditConfig(enabled: bool, path: Option<string>, includeCommand: bool)

  datatype AuditRecord<T> = AuditRecord(
    timestamp: nat, event: string, decision: string, ruleId: Option<string>, category: Option<string>,
    surface: Option<string>, command: Option<T>)

  /** What `record` appends to the log, if anything: the command only on request, then
      redacted and only after that truncated. */
  function Written(cfg: AuditConfig, rec: AuditRecord<string>): Option<AuditRecord<seq<Byte>>> {
    if !cfg.enabled || cfg.path.None? then None
    else
      var command :=
        if cfg.includeCommand && rec.command.Some?
        then Some(Truncated(Utf8(Redact(rec.command.value)), MAX_COMMAND_BYTES)) else None;
      Some(AuditRecord(rec.timestamp, rec.event, rec.decision, rec.ruleId, rec.category, rec.surface, command))
  }

  /** A record is written if and only if the log is on and has a path; all its fields are
      those given, and the command is there only if asked for. */
  lemma RecordWritten(cfg: AuditConfig, rec: AuditRecord<string>)
    ensures Written(cfg, rec).Some? <==> cfg.enabled && cfg.path.Some?
    ensures Written(cfg, rec).Some? ==>
              var w := Written(cfg, rec).value;
              && (w.timestamp, w.event, w.decision) == (rec.timestamp, rec.event, rec.decision)
              && (w.ruleId, w.category, w.surface) == (rec.ruleId, rec.category, rec.surface)
              && (w.command.Some? <==> cfg.includeCommand && rec.command.Some?)
  {
  }

  /** The log never tells two values of a hidden secret apart. */
  lemma RecordHides(cfg: AuditConfig, rec: AuditRecord<string>, c: Context, v: string, w: string)
    requires Fits(IsSecretName, c, v, false) && Fits(IsSecretName, c, w, false)
    ensures Written(cfg, rec.(command := Some(Fill(c, v)))) == Written(cfg, rec.(command := Some(Fill(c, w))))
  {
    CommandsRedactedAlike(c, v, w);
  }

  /** A written command is short, and is text. */
  lemma RecordBounded(cfg: AuditConfig, rec: AuditRecord<string>)
    requires Written(cfg, rec).Some? && Written(cfg, rec).value.command.Some?
    ensures cfg.includeCommand && rec.command.Some?
    ensures var c := Written(cfg, rec).value.command.value;
            |c| <= 512 && (|c| < 509 ==> c == Utf8(Redact(rec.command.value))) && exists k :: 0 <= k <= |Redact(rec.command.value)| && c == Utf8(Redact(rec.command.value)[..k])
  {
    TruncationIsPrefix(Redact(rec.command.value), MAX_COMMAND_BYTES);
  }
}
