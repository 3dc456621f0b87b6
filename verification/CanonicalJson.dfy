/** The canonical JSON printer of the Go SDK and a reference parser for the text it
    prints. Text is a sequence of code points; its UTF-8 encoding is not modelled. */
module CanonicalJson {
  import opened Ascii
  import opened KeyOrder

  /** A decoded JSON value. A number is the token that `json.Marshal` prints for it. */
  datatype Json =
    | Null
    | Bool(b: bool)
    | Num(token: string)
    | Str(s: string)
    | Arr(items: seq<Json>)
    | Obj(fields: map<string, Json>)

  /** The characters of a number (section 6 of RFC 8259); none of them is a delimiter. */
  predicate NumChar(c: char) {
    '0' <= c <= '9' || c in {'+', '-', '.', 'e', 'E'}
  }

  predicate NumToken(t: string) {
    t != "" && forall i :: 0 <= i < |t| ==> NumChar(t[i])
  }

  /** Every number in the value is a number token. */
  predicate WellFormed(v: Json)
    decreases v
  {
    match v
    case Num(t) => NumToken(t)
    case Arr(items) => forall i :: 0 <= i < |items| ==> WellFormed(items[i])
    case Obj(m) => forall k :: k in m ==> WellFormed(m[k])
    case _ => true
  }

  // ---- Strings, as `json.Marshal` writes them (section 7 of RFC 8259) ----

  /** Code points that Go's encoder writes as a `\u` escape: the control characters
      without a short form, the HTML characters and the two line separators. */
  predicate EscapedByCode(c: char) {
    c < ' ' || c in {'<', '>', '&', '\U{2028}', '\U{2029}'}
  }

  function EscapeChar(c: char): (s: string)
    ensures s != "" && s[0] != '"'
  {
    if c == '"' then ['\\', '"']
    else if c == '\\' then ['\\', '\\']
    else if c == '\n' then ['\\', 'n']
    else if c == '\r' then ['\\', 'r']
    else if c == '\t' then ['\\', 't']
    else if EscapedByCode(c) then
      var n := c as int;
      ['\\', 'u', HexDigit(n / 4096 % 16), HexDigit(n / 256 % 16), HexDigit(n / 16 % 16), HexDigit(n % 16)]
    else [c]
  }

  function EscapeAll(s: string): string {
    if s == "" then "" else EscapeChar(s[0]) + EscapeAll(s[1..])
  }

  function Quote(s: string): string {
    "\"" + EscapeAll(s) + "\""
  }

  // ---- The canonical form ----

  /** The one text a value is printed as. */
  ghost function Canon(v: Json): string
    decreases v, 1, 0
  {
    match v
    case Null => "null"
    case Bool(b) => if b then "true" else "false"
    case Num(t) => t
    case Str(s) => Quote(s)
    case Arr(_) => "[" + ItemsFrom(v, 0) + "]"
    case Obj(m) => "{" + FieldsFrom(v, SortedKeys(m.Keys), 0) + "}"
  }

  /** Every member or item but the first has a comma in front of it. */
  function Comma(i: nat): string {
    if i > 0 then "," else ""
  }

  ghost function ItemsFrom(v: Json, i: nat): string
    requires v.Arr? && i <= |v.items|
    decreases v, 0, |v.items| - i
  {
    if i == |v.items| then ""
    else Comma(i) + (Canon(v.items[i]) + ItemsFrom(v, i + 1))
  }

  ghost function FieldsFrom(v: Json, keys: seq<string>, i: nat): string
    requires v.Obj? && i <= |keys| && forall k :: k in keys ==> k in v.fields
    decreases v, 0, |keys| - i
  {
    if i == |keys| then ""
    else Comma(i) + (Quote(keys[i]) + (":" + (Canon(v.fields[keys[i]]) + FieldsFrom(v, keys, i + 1))))
  }

  /** Ranges over a map's keys, in no particular order. */
  method DrawKeys(m: map<string, Json>) returns (keys: seq<string>)
    ensures Distinct(keys) && Elements(keys) == m.Keys
  {
    keys := [];
    var left := m.Keys;
    while left != {}
      invariant Distinct(keys) && Elements(keys) !! left && Elements(keys) + left == m.Keys
      decreases left
    {
      var k :| k in left;
      assert k !in Elements(keys);
      assert Elements(keys + [k]) == Elements(keys) + {k};
      keys := keys + [k];
      left := left - {k};
    }
  }

  /** Whatever order the keys were drawn in, sorting them gives the canonical order. */
  lemma DrawnThenSorted(keys: seq<string>, s: set<string>)
    requires Distinct(keys) && Elements(keys) == s
    ensures SortStrings(keys) == SortedKeys(s)
  {
    SortStringsSorts(keys);
    assert Elements(SortStrings(keys)) == s;
    SortedUnique(SortStrings(keys), SortedKeys(s));
  }

  lemma Assoc(a: string, b: string, c: string)
    ensures a + (b + c) == (a + b) + c
  {
  }

  lemma FieldStep(v: Json, keys: seq<string>, i: nat, out: string)
    requires v.Obj? && i < |keys| && forall k :: k in keys ==> k in v.fields
    ensures out + FieldsFrom(v, keys, i)
              == (out + Comma(i) + Quote(keys[i]) + ":" + Canon(v.fields[keys[i]])) + FieldsFrom(v, keys, i + 1)
  {
    var q, c, tail := Quote(keys[i]), Canon(v.fields[keys[i]]), FieldsFrom(v, keys, i + 1);
    Assoc(out, Comma(i), q + (":" + (c + tail)));
    Assoc(out + Comma(i), q, ":" + (c + tail));
    Assoc(out + Comma(i) + q, ":", c + tail);
    Assoc(out + Comma(i) + q + ":", c, tail);
  }

  lemma ItemStep(v: Json, i: nat, out: string)
    requires v.Arr? && i < |v.items|
    ensures out + ItemsFrom(v, i) == (out + Comma(i) + Canon(v.items[i])) + ItemsFrom(v, i + 1)
  {
    var c, tail := Canon(v.items[i]), ItemsFrom(v, i + 1);
    Assoc(out, Comma(i), c + tail);
    Assoc(out + Comma(i), c, tail);
  }

  /** `canonicalMarshal`, on the values a decoder produces; it cannot fail on those. */
  method CanonicalMarshal(v: Json) returns (out: string)
    ensures out == Canon(v)
    decreases v, 1
  {
    match v
    case Obj(_) => out := MarshalObject(v);
    case Arr(_) => out := MarshalArray(v);
    case Null => out := "null";
    case Bool(b) => out := if b then "true" else "false";
    case Num(t) => out := t;
    case Str(s) => out := Quote(s);
  }

  method MarshalObject(v: Json) returns (out: string)
    requires v.Obj?
    ensures out == Canon(v)
    decreases v, 0
  {
    var keys := DrawKeys(v.fields);
    DrawnThenSorted(keys, v.fields.Keys);
    keys := SortStrings(keys);
    assert forall k :: k in keys <==> k in Elements(keys);
    out := "{";
    for i := 0 to |keys|
      invariant out + FieldsFrom(v, keys, i) == "{" + FieldsFrom(v, keys, 0)
    {
      FieldStep(v, keys, i, out);
      if i > 0 {
        out := out + ",";
      } else {
        assert out + "" == out;
      }
      out := out + Quote(keys[i]);
      out := out + ":";
      var child := CanonicalMarshal(v.fields[keys[i]]);
      out := out + child;
    }
    assert out + "" == out;
    out := out + "}";
  }

  method MarshalArray(v: Json) returns (out: string)
    requires v.Arr?
    ensures out == Canon(v)
    decreases v, 0
  {
    out := "[";
    for i := 0 to |v.items|
      invariant out + ItemsFrom(v, i) == "[" + ItemsFrom(v, 0)
    {
      ItemStep(v, i, out);
      if i > 0 {
        out := out + ",";
      } else {
        assert out + "" == out;
      }
      var child := CanonicalMarshal(v.items[i]);
      out := out + child;
    }
    assert out + "" == out;
    out := out + "]";
  }

  // ---- What is printed, said without the printer ----

  /** The parts, with commas between them. */
  function Commas(parts: seq<string>): string {
    if parts == [] then "" else if |parts| == 1 then parts[0] else parts[0] + ("," + Commas(parts[1..]))
  }

  ghost function Member(m: map<string, Json>, k: string): string
    requires k in m
  {
    Quote(k) + (":" + Canon(m[k]))
  }

  ghost function Members(m: map<string, Json>, keys: seq<string>): (parts: seq<string>)
    requires forall k :: k in keys ==> k in m
    ensures |parts| == |keys|
  {
    seq(|keys|, i requires 0 <= i < |keys| => Member(m, keys[i]))
  }

  ghost function Items(items: seq<Json>): (parts: seq<string>)
    ensures |parts| == |items|
  {
    seq(|items|, i requires 0 <= i < |items| => Canon(items[i]))
  }

  lemma CommasStep(parts: seq<string>, i: nat)
    requires i < |parts|
    ensures Commas(parts[i..]) == parts[i] + if i + 1 < |parts| then "," + Commas(parts[i + 1..]) else ""
  {
    assert parts[i..][1..] == parts[i + 1..];
  }

  lemma {:induction false} FieldsAreCommas(v: Json, keys: seq<string>, i: nat)
    requires v.Obj? && i < |keys| && forall k :: k in keys ==> k in v.fields
    ensures FieldsFrom(v, keys, i) == Comma(i) + Commas(Members(v.fields, keys)[i..])
    decreases |keys| - i
  {
    CommasStep(Members(v.fields, keys), i);
    var q, c, rest := Quote(keys[i]), Canon(v.fields[keys[i]]), FieldsFrom(v, keys, i + 1);
    if i + 1 < |keys| {
      FieldsAreCommas(v, keys, i + 1);
    }
    Assoc(q, ":" + c, rest);
    Assoc(":", c, rest);
  }

  lemma {:induction false} ItemsAreCommas(v: Json, i: nat)
    requires v.Arr? && i < |v.items|
    ensures ItemsFrom(v, i) == Comma(i) + Commas(Items(v.items)[i..])
    decreases |v.items| - i
  {
    CommasStep(Items(v.items), i);
    if i + 1 < |v.items| {
      ItemsAreCommas(v, i + 1);
    }
  }

  /** An object is printed as its members in braces, with commas between them, in
      increasing order of the code points of their keys. */
  lemma ObjectPrinted(m: map<string, Json>, keys: seq<string>)
    requires forall k :: k in keys <==> k in m
    requires forall i, j :: 0 <= i < j < |keys| ==> Precedes(keys[i], keys[j])
    ensures Canon(Obj(m)) == "{" + Commas(Members(m, keys)) + "}"
  {
    IncreasingIsSorted(keys, m.Keys);
    if keys != [] {
      FieldsAreCommas(Obj(m), keys, 0);
      assert Members(m, keys)[0..] == Members(m, keys);
      assert Comma(0) + Commas(Members(m, keys)) == Commas(Members(m, keys));
    }
  }

  /** An array is printed as its items in brackets, with commas between them. */
  lemma ArrayPrinted(items: seq<Json>)
    ensures Canon(Arr(items)) == "[" + Commas(Items(items)) + "]"
  {
    if items != [] {
      ItemsAreCommas(Arr(items), 0);
      assert Items(items)[0..] == Items(items);
      assert Comma(0) + Commas(Items(items)) == Commas(Items(items));
    }
  }

  /** Which characters of a string are escaped, and in which of the two forms. */
  lemma EscapedExactly(c: char)
    ensures EscapeChar(c) == [c] <==> ' ' <= c && c !in {'"', '\\', '<', '>', '&', '\U{2028}', '\U{2029}'}
    ensures |EscapeChar(c)| == 2 <==> c in {'"', '\\', '\n', '\r', '\t'}
    ensures |EscapeChar(c)| in {1, 2, 6}
    ensures |EscapeChar(c)| == 6 ==> EscapeChar(c)[..2] == ['\\', 'u']
    ensures EscapeChar('<') == ['\\', 'u', '0', '0', '3', 'c']
  {
  }

  // ---- A recursive-descent parser for JSON without white space ----

  datatype Parsed<+T> = Fail | Ok(value: T, rest: string)

  function ParseString(s: string): (r: Parsed<string>)
    ensures r.Ok? ==> |r.rest| < |s|
  {
    if s == "" || s[0] < ' ' then Fail
    else if s[0] == '"' then Ok("", s[1..])
    else
      match ParseChar(s)
      case Fail => Fail
      case Ok(c, rest) =>
        match ParseString(rest)
        case Fail => Fail
        case Ok(tail, rest') => Ok([c] + tail, rest')
  }

  function ParseChar(s: string): (r: Parsed<char>)
    requires s != ""
    ensures r.Ok? ==> |r.rest| < |s|
  {
    if s[0] != '\\' then Ok(s[0], s[1..])
    else if |s| < 2 then Fail
    else match s[1]
      case '"' => Ok('"', s[2..])
      case '\\' => Ok('\\', s[2..])
      case '/' => Ok('/', s[2..])
      case 'b' => Ok('\U{0008}', s[2..])
      case 'f' => Ok('\U{000C}', s[2..])
      case 'n' => Ok('\n', s[2..])
      case 'r' => Ok('\r', s[2..])
      case 't' => Ok('\t', s[2..])
      case 'u' =>
        if |s| < 6 || !IsHex(s[2]) || !IsHex(s[3]) || !IsHex(s[4]) || !IsHex(s[5]) then Fail
        else
          var n := 4096 * HexValue(s[2]) + 256 * HexValue(s[3]) + 16 * HexValue(s[4]) + HexValue(s[5]);
          if 0xD800 <= n < 0xE000 then Fail else Ok(n as char, s[6..])
      case _ => Fail
  }

  /** Length of the longest run of number characters at the front. */
  function NumRun(s: string): (n: nat)
    ensures n <= |s|
    ensures forall i :: 0 <= i < n ==> NumChar(s[i])
    ensures n < |s| ==> !NumChar(s[n])
  {
    if s == "" || !NumChar(s[0]) then 0 else 1 + NumRun(s[1..])
  }

  function ParseValue(s: string): (r: Parsed<Json>)
    ensures r.Ok? ==> |r.rest| < |s|
    decreases |s|, 0
  {
    if s == "" then Fail
    else if s[0] == '"' then
      match ParseString(s[1..])
      case Fail => Fail
      case Ok(t, rest) => Ok(Str(t), rest)
    else if s[0] == '{' then
      if |s| > 1 && s[1] == '}' then Ok(Obj(map[]), s[2..]) else ParseMembers(s[1..], map[])
    else if s[0] == '[' then
      if |s| > 1 && s[1] == ']' then Ok(Arr([]), s[2..]) else ParseElements(s[1..], [])
    else if "null" <= s then Ok(Null, s[4..])
    else if "true" <= s then Ok(Bool(true), s[4..])
    else if "false" <= s then Ok(Bool(false), s[5..])
    else
      var n := NumRun(s);
      if n == 0 then Fail else Ok(Num(s[..n]), s[n..])
  }

  function ParseMembers(s: string, acc: map<string, Json>): (r: Parsed<Json>)
    ensures r.Ok? ==> |r.rest| < |s|
    decreases |s|, 1
  {
    if s == "" || s[0] != '"' then Fail else
    match ParseString(s[1..])
    case Fail => Fail
    case Ok(k, colon) =>
      if colon == "" || colon[0] != ':' then Fail else
      match ParseValue(colon[1..])
      case Fail => Fail
      case Ok(v, rest) =>
        if rest == "" then Fail
        else if rest[0] == '}' then Ok(Obj(acc[k := v]), rest[1..])
        else if rest[0] == ',' then ParseMembers(rest[1..], acc[k := v])
        else Fail
  }

  function ParseElements(s: string, acc: seq<Json>): (r: Parsed<Json>)
    ensures r.Ok? ==> |r.rest| < |s|
    decreases |s|, 1
  {
    match ParseValue(s)
    case Fail => Fail
    case Ok(v, rest) =>
      if rest == "" then Fail
      else if rest[0] == ']' then Ok(Arr(acc + [v]), rest[1..])
      else if rest[0] == ',' then ParseElements(rest[1..], acc + [v])
      else Fail
  }

  // ---- Printing, then parsing ----

  /** What may follow a printed value: nothing, or a character that cannot continue a number. */
  predicate Delimited(rest: string) {
    rest == "" || !NumChar(rest[0])
  }

  lemma ParseEscapedChar(c: char, rest: string)
    ensures ParseChar(EscapeChar(c) + rest) == Ok(c, rest)
  {
    var s := EscapeChar(c) + rest;
    if |EscapeChar(c)| == 1 {
      assert s[1..] == rest;
    } else if |EscapeChar(c)| == 2 {
      assert s[2..] == rest;
    } else {
      assert s[6..] == rest;
      HexDigits(c as int);
    }
  }

  lemma HexDigits(n: nat)
    requires n < 65536
    ensures 4096 * (n / 4096 % 16) + 256 * (n / 256 % 16) + 16 * (n / 16 % 16) + n % 16 == n
  {
    assert n / 256 == 16 * (n / 4096) + n / 256 % 16;
    assert n / 16 == 16 * (n / 256) + n / 16 % 16;
  }

  lemma {:induction false} ParseQuoted(t: string, rest: string)
    ensures ParseString(EscapeAll(t) + ("\"" + rest)) == Ok(t, rest)
  {
    if t == "" {
      assert EscapeAll(t) + ("\"" + rest) == "\"" + rest;
    } else {
      var tail := EscapeAll(t[1..]) + ("\"" + rest);
      Assoc(EscapeChar(t[0]), EscapeAll(t[1..]), "\"" + rest);
      var s := EscapeChar(t[0]) + tail;
      assert s[0] == EscapeChar(t[0])[0];
      EscapedStart(t[0]);
      ParseEscapedChar(t[0], tail);
      ParseQuoted(t[1..], rest);
      assert [t[0]] + t[1..] == t;
    }
  }

  lemma EscapedStart(c: char)
    ensures EscapeChar(c)[0] >= ' '
  {
  }

  lemma {:induction false} NumRunOf(t: string, rest: string)
    requires (forall i :: 0 <= i < |t| ==> NumChar(t[i])) && Delimited(rest)
    ensures NumRun(t + rest) == |t|
  {
    assert forall i :: 0 <= i < |t| ==> (t + rest)[i] == t[i];
    assert rest != "" ==> (t + rest)[|t|] == rest[0];
  }

  /** The text of a value never begins with a closing bracket. */
  lemma CanonStart(v: Json)
    requires WellFormed(v)
    ensures Canon(v) != "" && Canon(v)[0] != ']' && Canon(v)[0] != '}'
  {
  }

  /** Round trip: the parser recovers the value and leaves exactly what followed it. */
  lemma {:induction false} ParseCanon(v: Json, rest: string)
    requires WellFormed(v) && Delimited(rest)
    ensures ParseValue(Canon(v) + rest) == Ok(v, rest)
    decreases v, 2, 0
  {
    match v
    case Arr(_) => ParseArray(v, rest);
    case Obj(_) => ParseObject(v, rest);
    case _ => ParseScalar(v, rest);
  }

  lemma ParseScalar(v: Json, rest: string)
    requires WellFormed(v) && Delimited(rest) && !v.Arr? && !v.Obj?
    ensures ParseValue(Canon(v) + rest) == Ok(v, rest)
  {
    var s := Canon(v) + rest;
    match v
    case Null => assert s[..4] == "null" && s[4..] == rest;
    case Bool(b) =>
      if b { assert s[..4] == "true" && s[4..] == rest; } else { assert s[..5] == "false" && s[5..] == rest; }
    case Num(t) => ParseNumber(t, rest);
    case Str(t) => ParseText(t, rest);
  }

  lemma ParseNumber(t: string, rest: string)
    requires WellFormed(Num(t)) && Delimited(rest)
    ensures ParseValue(t + rest) == Ok(Num(t), rest)
  {
    var s := t + rest;
    NumRunOf(t, rest);
    assert s[0] == t[0] && s[..|t|] == t && s[|t|..] == rest;
    ParseDigits(s);
  }

  lemma ParseDigits(s: string)
    requires s != "" && NumChar(s[0])
    ensures ParseValue(s) == Ok(Num(s[..NumRun(s)]), s[NumRun(s)..])
  {
    NotKeyword(s);
    assert NumRun(s) > 0;
  }

  lemma NotKeyword(s: string)
    requires s != "" && NumChar(s[0])
    ensures !("null" <= s) && !("true" <= s) && !("false" <= s)
  {
    assert "null"[0] == 'n' && "true"[0] == 't' && "false"[0] == 'f';
  }

  lemma ParseText(t: string, rest: string)
    ensures ParseValue(Quote(t) + rest) == Ok(Str(t), rest)
  {
    AfterQuote(t, rest);
    ParseQuoted(t, rest);
  }

  lemma AfterQuote(t: string, rest: string)
    ensures (Quote(t) + rest)[0] == '"' && (Quote(t) + rest)[1..] == EscapeAll(t) + ("\"" + rest)
  {
  }

  lemma {:induction false} ParseArray(v: Json, rest: string)
    requires WellFormed(v) && v.Arr?
    ensures ParseValue(Canon(v) + rest) == Ok(v, rest)
    decreases v, 1, 0
  {
    var s := Canon(v) + rest;
    assert s[1..] == ItemsFrom(v, 0) + ("]" + rest);
    if |v.items| == 0 {
      assert s[1..] == "]" + rest;
      assert s[2..] == rest;
    } else {
      ItemTail(v, 0, rest);
      assert s[1..] == ItemText(v, 0, rest);
      CanonStart(v.items[0]);
      assert s[1] == s[1..][0] == Canon(v.items[0])[0];
      assert v.items[..0] == [];
      ParseItems(v, 0, rest);
    }
  }

  lemma ObjectText(v: Json, rest: string)
    requires v.Obj?
    ensures Canon(v) + rest == "{" + (FieldsFrom(v, SortedKeys(v.fields.Keys), 0) + ("}" + rest))
  {
    var fields := FieldsFrom(v, SortedKeys(v.fields.Keys), 0);
    Assoc("{", fields, "}");
    Assoc("{" + fields, "}", rest);
    Assoc("{", fields, "}" + rest);
  }

  lemma {:induction false} ParseObject(v: Json, rest: string)
    requires WellFormed(v) && v.Obj?
    ensures ParseValue(Canon(v) + rest) == Ok(v, rest)
    decreases v, 1, 0
  {
    var keys := SortedKeys(v.fields.Keys);
    assert forall k :: k in keys <==> k in Elements(keys);
    var body := FieldsFrom(v, keys, 0) + ("}" + rest);
    ObjectText(v, rest);
    ParseBrace(body);
    if |keys| == 0 {
      ElementsEmpty(keys);
      assert v.fields == map[];
      assert body == "}" + rest && body[1..] == rest;
    } else {
      FirstField(v, keys, rest);
      ParseFields(v, keys, 0, rest);
    }
  }

  lemma FirstField(v: Json, keys: seq<string>, rest: string)
    requires v.Obj? && keys != [] && forall k :: k in keys ==> k in v.fields
    ensures FieldsFrom(v, keys, 0) + ("}" + rest) == FieldText(v, keys, 0, rest) && FieldText(v, keys, 0, rest)[0] == '"'
    ensures Restrict(v.fields, keys[..0]) == map[]
  {
    FieldTail(v, keys, 0, rest);
    assert FieldText(v, keys, 0, rest)[0] == Quote(keys[0])[0] == '"';
    assert Comma(0) + FieldText(v, keys, 0, rest) == FieldText(v, keys, 0, rest);
  }

  lemma ParseBrace(body: string)
    requires body != ""
    ensures ParseValue("{" + body) == if body[0] == '}' then Ok(Obj(map[]), body[1..]) else ParseMembers(body, map[])
  {
    var s := "{" + body;
    assert s[1..] == body && s[2..] == body[1..];
  }

  /** The remaining items, without the comma in front of them, and what follows. */
  ghost function ItemText(v: Json, i: nat, rest: string): string
    requires v.Arr? && i < |v.items|
  {
    Canon(v.items[i]) + (ItemsFrom(v, i + 1) + ("]" + rest))
  }

  lemma ItemTail(v: Json, i: nat, rest: string)
    requires v.Arr? && i < |v.items|
    ensures ItemsFrom(v, i) + ("]" + rest) == Comma(i) + ItemText(v, i, rest)
  {
    var c, tail := Canon(v.items[i]), ItemsFrom(v, i + 1);
    Assoc(Comma(i), c + tail, "]" + rest);
    Assoc(c, tail, "]" + rest);
  }

  lemma {:induction false} ParseItems(v: Json, i: nat, rest: string)
    requires v.Arr? && WellFormed(v) && i < |v.items|
    ensures ParseElements(ItemText(v, i, rest), v.items[..i]) == Ok(v, rest)
    decreases v, 0, |v.items| - i
  {
    var after := ItemsFrom(v, i + 1) + ("]" + rest);
    assert v.items[..i] + [v.items[i]] == v.items[..i + 1];
    if i + 1 < |v.items| {
      ItemTail(v, i + 1, rest);
      ParseCanon(v.items[i], after);
      ParseItems(v, i + 1, rest);
      assert after[1..] == ItemText(v, i + 1, rest);
    } else {
      assert after == "]" + rest && after[1..] == rest;
      ParseCanon(v.items[i], after);
      assert v.items[..i + 1] == v.items;
    }
  }

  ghost function Restrict(m: map<string, Json>, keys: seq<string>): map<string, Json> {
    map k | k in m && k in keys :: m[k]
  }

  /** The remaining members, without the comma in front of them, and what follows. */
  ghost function FieldText(v: Json, keys: seq<string>, i: nat, rest: string): string
    requires v.Obj? && i < |keys| && forall k :: k in keys ==> k in v.fields
  {
    Quote(keys[i]) + (":" + (Canon(v.fields[keys[i]]) + (FieldsFrom(v, keys, i + 1) + ("}" + rest))))
  }

  lemma FieldTail(v: Json, keys: seq<string>, i: nat, rest: string)
    requires v.Obj? && i < |keys| && forall k :: k in keys ==> k in v.fields
    ensures FieldsFrom(v, keys, i) + ("}" + rest) == Comma(i) + FieldText(v, keys, i, rest)
  {
    var q, c, tail := Quote(keys[i]), Canon(v.fields[keys[i]]), FieldsFrom(v, keys, i + 1);
    Assoc(Comma(i), q + (":" + (c + tail)), "}" + rest);
    Assoc(q, ":" + (c + tail), "}" + rest);
    Assoc(":", c + tail, "}" + rest);
    Assoc(c, tail, "}" + rest);
  }

  lemma RestrictNext(m: map<string, Json>, keys: seq<string>, i: nat)
    requires i < |keys| && keys[i] in m
    ensures Restrict(m, keys[..i])[keys[i] := m[keys[i]]] == Restrict(m, keys[..i + 1])
  {
    assert keys[..i + 1] == keys[..i] + [keys[i]];
  }

  lemma {:induction false} ParseFields(v: Json, keys: seq<string>, i: nat, rest: string)
    requires v.Obj? && WellFormed(v) && i < |keys| && Elements(keys) == v.fields.Keys
    requires forall k :: k in keys ==> k in v.fields
    ensures ParseMembers(FieldText(v, keys, i, rest), Restrict(v.fields, keys[..i])) == Ok(v, rest)
    decreases v, 0, |keys| - i
  {
    var k := keys[i];
    var after := FieldsFrom(v, keys, i + 1) + ("}" + rest);
    if i + 1 < |keys| {
      FieldTail(v, keys, i + 1, rest);
    }
    ParseCanon(v.fields[k], after);
    ParseMember(k, v.fields[k], after, Restrict(v.fields, keys[..i]));
    RestrictNext(v.fields, keys, i);
    if i + 1 < |keys| {
      ParseFields(v, keys, i + 1, rest);
      assert after[1..] == FieldText(v, keys, i + 1, rest);
    } else {
      assert after == "}" + rest && after[1..] == rest;
      assert keys[..i + 1] == keys;
      assert Restrict(v.fields, keys) == v.fields;
    }
  }

  /** One member: the parser reads its name and value and then looks at what follows. */
  lemma ParseMember(k: string, v: Json, after: string, acc: map<string, Json>)
    requires after != "" && after[0] in {',', '}'} && ParseValue(Canon(v) + after) == Ok(v, after)
    ensures ParseMembers(Quote(k) + (":" + (Canon(v) + after)), acc)
              == if after[0] == ',' then ParseMembers(after[1..], acc[k := v]) else Ok(Obj(acc[k := v]), after[1..])
  {
    var colon := ":" + (Canon(v) + after);
    var s := Quote(k) + colon;
    AfterQuote(k, colon);
    ParseQuoted(k, colon);
    assert colon[1..] == Canon(v) + after;
    MemberStep(s, k, colon, v, after, acc);
  }

  lemma MemberStep(s: string, k: string, colon: string, v: Json, after: string, acc: map<string, Json>)
    requires s != "" && s[0] == '"' && ParseString(s[1..]) == Ok(k, colon)
    requires colon != "" && colon[0] == ':' && ParseValue(colon[1..]) == Ok(v, after)
    requires after != "" && after[0] in {',', '}'}
    ensures ParseMembers(s, acc)
         == if after[0] == ',' then ParseMembers(after[1..], acc[k := v]) else Ok(Obj(acc[k := v]), after[1..])
  {
  }

  /** Two distinct values never share canonical text, nor is one text a prefix of the
      other followed by a delimiter. */
  lemma CanonInjective(a: Json, b: Json, rest: string)
    requires WellFormed(a) && WellFormed(b) && Delimited(rest)
    requires Canon(a) + rest == Canon(b)
    ensures a == b && rest == ""
  {
    ParseCanon(a, rest);
    ParseCanon(b, "");
    assert Canon(b) + "" == Canon(b);
  }
}
