/** Unicode white space and the UTF-8 encoding (section 3 of RFC 3629). */
module Text {
  import opened Bytes

  /** The White_Space property, as `char::is_whitespace` tests it. */
  predicate IsSpace(c: char) {
    var n := c as int;
    9 <= n <= 13 || n == 0x20 || n == 0x85 || n == 0xA0 || n == 0x1680 || 0x2000 <= n <= 0x200A
    || n == 0x2028 || n == 0x2029 || n == 0x202F || n == 0x205F || n == 0x3000
  }

  /** The 25 characters, one by one. */
  lemma SpacesExactly(c: char)
    ensures IsSpace(c) <==> c in {
      '\U{9}', '\n', '\U{B}', '\U{C}', '\r', ' ', '\U{85}', '\U{A0}', '\U{1680}',
      '\U{2000}', '\U{2001}', '\U{2002}', '\U{2003}', '\U{2004}', '\U{2005}', '\U{2006}',
      '\U{2007}', '\U{2008}', '\U{2009}', '\U{200A}',
      '\U{2028}', '\U{2029}', '\U{202F}', '\U{205F}', '\U{3000}'}
  {
  }

  predicate SpaceFree(s: string) {
    forall i :: 0 <= i < |s| ==> !IsSpace(s[i])
  }

  predicate AllSpace(s: string) {
    forall i :: 0 <= i < |s| ==> IsSpace(s[i])
  }

  /** Length of the leading run of white space. */
  function SpaceRun(s: string): (n: nat)
    ensures n <= |s| && AllSpace(s[..n]) && (n < |s| ==> !IsSpace(s[n]))
  {
    if s == "" || !IsSpace(s[0]) then 0
    else
      assert s[..1 + SpaceRun(s[1..])] == [s[0]] + s[1..][..SpaceRun(s[1..])];
      1 + SpaceRun(s[1..])
  }

  /** Length of the leading run of anything else. */
  function TokenRun(s: string): (n: nat)
    ensures n <= |s| && SpaceFree(s[..n]) && (n < |s| ==> IsSpace(s[n]))
    ensures s != "" && !IsSpace(s[0]) ==> n > 0
  {
    if s == "" || IsSpace(s[0]) then 0
    else
      assert s[..1 + TokenRun(s[1..])] == [s[0]] + s[1..][..TokenRun(s[1..])];
      1 + TokenRun(s[1..])
  }

  /** A token in front of white space, or of nothing, is recovered whole. */
  lemma TokenRunOf(token: string, rest: string)
    requires SpaceFree(token) && (rest == "" || IsSpace(rest[0]))
    ensures TokenRun(token + rest) == |token|
  {
    var s, n := token + rest, TokenRun(token + rest);
    assert forall i :: 0 <= i < |token| ==> s[i] == token[i];
    assert forall i :: 0 <= i < n ==> s[i] == s[..n][i];
    assert rest != "" ==> s[|token|] == rest[0];
  }

  lemma {:induction false} SameToken(pre: string, rest: string)
    requires pre != "" && (rest == "" || IsSpace(pre[|pre| - 1]) || IsSpace(rest[0]))
    ensures TokenRun(pre + rest) == TokenRun(pre)
  {
    var n := TokenRun(pre);
    var tail := pre[n..] + rest;
    assert pre + rest == pre[..n] + tail;
    if n == |pre| {
      assert pre[..n] == pre && tail == rest;
    } else {
      assert tail[0] == pre[n];
    }
    TokenRunOf(pre[..n], tail);
  }

  lemma CutAppended(a: string, rest: string, n: nat)
    requires n <= |a|
    ensures (a + rest)[..n] == a[..n] && (a + rest)[n..] == a[n..] + rest
  {
  }

  // ---- UTF-8 ----

  function Utf8Char(c: char): (b: seq<Byte>)
    ensures 1 <= |b| <= 4 && !Continuation(b[0])
    ensures forall i :: 1 <= i < |b| ==> Continuation(b[i])
  {
    var n := c as int;
    if n < 0x80 then [n]
    else if n < 0x800 then [0xC0 + n / 0x40, 0x80 + n % 0x40]
    else if n < 0x10000 then [0xE0 + n / 0x1000, 0x80 + n / 0x40 % 0x40, 0x80 + n % 0x40]
    else [0xF0 + n / 0x40000, 0x80 + n / 0x1000 % 0x40, 0x80 + n / 0x40 % 0x40, 0x80 + n % 0x40]
  }

  /** The bytes are the shortest form of the code point (the table in section 3 of RFC 3629). */
  predicate Decodes(b: seq<Byte>, n: int) {
    match |b|
    case 1 => n < 0x80 && n == b[0]
    case 2 => 0x80 <= n < 0x800 && n - 0x40 * Bits(b[0], 0xC0) == Bits(b[1], 0x80)
    case 3 => 0x800 <= n < 0x10000 && n - 0x1000 * Bits(b[0], 0xE0) - 0x40 * Bits(b[1], 0x80) == Bits(b[2], 0x80)
    case 4 =>
      0x10000 <= n
      && n - 0x40000 * Bits(b[0], 0xF0) - 0x1000 * Bits(b[1], 0x80) - 0x40 * Bits(b[2], 0x80) == Bits(b[3], 0x80)
    case _ => false
  }

  function Bits(b: Byte, mark: int): int {
    b - mark
  }

  lemma SixBits(n: nat)
    ensures n == 0x40 * (n / 0x40) + n % 0x40
    ensures n / 0x40 == 0x40 * (n / 0x1000) + n / 0x40 % 0x40
    ensures n / 0x1000 == 0x40 * (n / 0x40000) + n / 0x1000 % 0x40
  {
  }

  lemma Utf8CharDecodes(c: char)
    ensures Decodes(Utf8Char(c), c as int)
  {
    SixBits(c as int);
  }

  predicate Continuation(b: Byte) {
    0x80 <= b < 0xC0
  }

  function Utf8(s: string): seq<Byte> {
    if s == "" then [] else Utf8Char(s[0]) + Utf8(s[1..])
  }

  /** `str::is_char_boundary` */
  predicate Boundary(b: seq<Byte>, i: nat) {
    i == 0 || i == |b| || (i < |b| && !Continuation(b[i]))
  }

  /** The boundaries of encoded text are exactly the ends of encoded prefixes. */
  lemma {:induction false} BoundaryIsPrefix(s: string, i: nat) returns (k: nat)
    requires i <= |Utf8(s)| && Boundary(Utf8(s), i)
    ensures k <= |s| && Utf8(s)[..i] == Utf8(s[..k])
  {
    if i == 0 {
      k := 0;
    } else {
      var c, rest := Utf8Char(s[0]), Utf8(s[1..]);
      assert forall m :: 0 <= m < |c| ==> Utf8(s)[m] == c[m];
      var j := i - |c|;
      assert j < |rest| ==> Utf8(s)[i] == rest[j];
      var n := BoundaryIsPrefix(s[1..], j);
      k := n + 1;
      assert s[..k][0] == s[0] && s[..k][1..] == s[1..][..n];
      assert Utf8(s)[..i] == c + rest[..j];
    }
  }

  /** Some boundary lies among any four consecutive positions. */
  lemma {:induction false} BoundaryNear(s: string, i: nat)
    requires i <= |Utf8(s)|
    ensures exists j: nat :: i - 3 <= j <= i && Boundary(Utf8(s), j)
  {
    if s == "" || i < |Utf8Char(s[0])| {
      assert Boundary(Utf8(s), 0);
    } else {
      var c, rest := Utf8Char(s[0]), Utf8(s[1..]);
      BoundaryNear(s[1..], i - |c|);
      var j: nat :| i - |c| - 3 <= j <= i - |c| && Boundary(rest, j);
      if j == 0 {
        assert rest != [] ==> Utf8(s)[|c|] == rest[0] && !Continuation(rest[0]) by {
          if rest != [] {
            assert rest[0] == Utf8Char(s[1])[0];
          }
        }
      } else if j < |rest| {
        assert Utf8(s)[j + |c|] == rest[j];
      }
      assert Boundary(Utf8(s), j + |c|);
    }
  }
}
