/** Escaping of log messages as JSON strings, section 7 of RFC 8259. */
module Json {
  import opened Bytes
  import opened Buffers

  const QUOTE: byte := 34
  const BACKSLASH: byte := 92

  // The letter of a two-byte escape, if the byte has one.
  function Letter(c: byte): (letter: byte)
  {
    if c == QUOTE then QUOTE
    else if c == BACKSLASH then BACKSLASH
    else if c == 8 then 98        // \b
    else if c == 12 then 102      // \f
    else if c == 10 then 110      // \n
    else if c == 13 then 114      // \r
    else if c == 9 then 116       // \t
    else 0
  }

  function HexDigit(n: nat): byte
    requires n < 16
  {
    if n < 10 then 48 + n else 87 + n
  }

  // The escaped form of one byte.
  function Escape(c: byte): (e: bytes)
    ensures e != []
  {
    if Letter(c) != 0 then [BACKSLASH, Letter(c)]
    else if c < 0x20 then [BACKSLASH, 117, 48, 48, HexDigit(c / 16), HexDigit(c % 16)]   // \u00XX
    else [c]
  }

  function EscapeAll(s: bytes): bytes {
    if s == [] then [] else Escape(s[0]) + EscapeAll(s[1..])
  }

  // Unescaping, written from the grammar of strings rather than from Escape.
  function HexValue(d: byte): int {
    if 48 <= d <= 57 then d - 48 else if 97 <= d <= 102 then d - 87 else if 65 <= d <= 70 then d - 55 else -1
  }

  // The character that stands for a backslash and this letter; 0 if there is no such escape.
  function Meaning(letter: byte): byte {
    if letter == 34 || letter == 92 || letter == 47 then letter
    else if letter == 98 then 8
    else if letter == 102 then 12
    else if letter == 110 then 10
    else if letter == 114 then 13
    else if letter == 116 then 9
    else 0
  }

  // The code of four hexadecimal digits; -1 if they are not.
  function HexCode(b: bytes): int
    requires |b| == 4
  {
    if HexValue(b[0]) < 0 || HexValue(b[1]) < 0 || HexValue(b[2]) < 0 || HexValue(b[3]) < 0 then -1
    else 4096 * HexValue(b[0]) + 256 * HexValue(b[1]) + 16 * HexValue(b[2]) + HexValue(b[3])
  }

  // The bytes of a character in UTF-8, section 3 of RFC 3629.
  function Utf8(code: nat): bytes
    requires code < 0x1_0000
  {
    if code < 0x80 then [code]
    else if code < 0x800 then [0xC0 + code / 64, 0x80 + code % 64]
    else [0xE0 + code / 4096, 0x80 + code / 64 % 64, 0x80 + code % 64]
  }

  // The halves of surrogate pairs; the escaper writes none, and this reader takes none.
  predicate IsHalf(code: int) { 0xD800 <= code < 0xE000 }

  datatype Text = Text(bytes: bytes) | Malformed

  function Before(c: bytes, t: Text): Text {
    match t
    case Text(b) => Text(c + b)
    case Malformed => Malformed
  }

  function Unescape(b: bytes): Text
    decreases |b|
  {
    if b == [] then Text([])
    else if b[0] < 0x20 || b[0] == 34 then Malformed
    else if b[0] != 92 then Before([b[0]], Unescape(b[1..]))
    else if |b| < 2 then Malformed
    else if b[1] == 117 then
      if |b| < 6 || HexCode(b[2..6]) < 0 || IsHalf(HexCode(b[2..6])) then Malformed
      else Before(Utf8(HexCode(b[2..6])), Unescape(b[6..]))
    else if Meaning(b[1]) == 0 then Malformed
    else Before([Meaning(b[1])], Unescape(b[2..]))
  }

  lemma UnescapeOne(c: byte, rest: bytes)
    ensures Unescape(Escape(c) + rest) == Before([c], Unescape(rest))
  {
    var e := Escape(c);
    var b := e + rest;
    assert b[|e|..] == rest;
    if Letter(c) == 0 && c < 0x20 {
      assert b[2..6] == [48, 48, HexDigit(c / 16), HexDigit(c % 16)];
      assert HexCode(b[2..6]) == c;
    }
  }

  // Escaping loses nothing.
  lemma {:induction false} EscapeIsLossless(s: bytes)
    ensures Unescape(EscapeAll(s)) == Text(s)
  {
    if s != [] {
      EscapeIsLossless(s[1..]);
      UnescapeOne(s[0], EscapeAll(s[1..]));
      assert [s[0]] + s[1..] == s;
    }
  }

  // Where what is written for byte i begins in the output.
  function Begins(s: bytes, i: nat): nat
    requires i <= |s|
  {
    if i == 0 then 0 else |Escape(s[0])| + Begins(s[1..], i - 1)
  }

  lemma PartBehindFirst(first: bytes, rest: bytes, p: nat, b: bytes)
    requires PartAt(rest, p, b)
    ensures PartAt(first + rest, |first| + p, b)
  {
    assert (first + rest)[|first| + p..|first| + p + |b|] == rest[p..p + |b|];
  }

  lemma {:induction false} FormAt(s: bytes, i: nat)
    requires i < |s|
    ensures PartAt(EscapeAll(s), Begins(s, i), Escape(s[i]))
    ensures Begins(s, i + 1) == Begins(s, i) + |Escape(s[i])|
    decreases i
  {
    if i > 0 {
      FormAt(s[1..], i - 1);
      PartBehindFirst(Escape(s[0]), EscapeAll(s[1..]), Begins(s[1..], i - 1), Escape(s[i]));
    }
  }

  lemma {:induction false} AllWritten(s: bytes)
    ensures Begins(s, |s|) == |EscapeAll(s)|
  {
    if s != [] {
      AllWritten(s[1..]);
    }
  }

  // What is written for a byte: two characters for a quote, a backslash and five control characters, six
  // with lower-case digits for the other control characters, and the byte as it is for every other one.
  predicate WrittenAs(c: byte, e: bytes) {
    if c == 34 then e == [92, 34]
    else if c == 92 then e == [92, 92]
    else if c == 8 then e == [92, 98]
    else if c == 9 then e == [92, 116]
    else if c == 10 then e == [92, 110]
    else if c == 12 then e == [92, 102]
    else if c == 13 then e == [92, 114]
    else if c < 32 then
      && |e| == 6 && e[..4] == [92, 117, 48, 48] && e[4] == 48 + c / 16
      && e[5] == [48, 49, 50, 51, 52, 53, 54, 55, 56, 57, 97, 98, 99, 100, 101, 102][c % 16]
    else e == [c]
  }

  lemma EscapeWritten(c: byte)
    ensures WrittenAs(c, Escape(c))
  {
  }

  // The output is, byte after byte of the input, what is written for each.
  lemma EachIsWritten(s: bytes, i: nat) returns (e: bytes)
    requires i < |s|
    ensures WrittenAs(s[i], e) && PartAt(EscapeAll(s), Begins(s, i), e) && Begins(s, i + 1) == Begins(s, i) + |e|
    ensures Begins(s, 0) == 0 && Begins(s, |s|) == |EscapeAll(s)|
  {
    e := Escape(s[i]);
    EscapeWritten(s[i]);
    FormAt(s, i);
    AllWritten(s);
  }

  // The number of backslashes directly before position i.
  function BackslashesBefore(b: bytes, i: nat): nat
    requires i <= |b|
  {
    if i == 0 || b[i - 1] != BACKSLASH then 0 else 1 + BackslashesBefore(b, i - 1)
  }

  // Behind an escape the next byte is not escaped: an even number of backslashes ends there.
  lemma {:induction false} RunBehind(a: bytes, b: bytes, i: nat)
    requires i <= |b| && BackslashesBefore(a, |a|) % 2 == 0
    ensures BackslashesBefore(a + b, |a| + i) % 2 == BackslashesBefore(b, i) % 2
  {
    if i > 0 {
      assert (a + b)[|a| + i - 1] == b[i - 1];
      RunBehind(a, b, i - 1);
    } else {
      RunWithin(a, b, |a|);
    }
  }

  lemma {:induction false} RunWithin(a: bytes, b: bytes, i: nat)
    requires i <= |a|
    ensures BackslashesBefore(a + b, i) == BackslashesBefore(a, i)
  {
    if i > 0 {
      RunWithin(a, b, i - 1);
    }
  }

  // An escape ends in an even number of backslashes, and a quote in it has one before it.
  lemma EscapeRuns(c: byte)
    ensures BackslashesBefore(Escape(c), |Escape(c)|) % 2 == 0
    ensures forall i :: 0 <= i < |Escape(c)| ==> Escape(c)[i] >= 0x20
    ensures forall i :: 0 <= i < |Escape(c)| && Escape(c)[i] == QUOTE ==> BackslashesBefore(Escape(c), i) == 1
  {
    var e := Escape(c);
    assert BackslashesBefore(e, 0) == 0;
    if Letter(c) != 0 {
      assert BackslashesBefore(e, 1) == 1;
      assert BackslashesBefore(e, 2) == if Letter(c) == BACKSLASH then 2 else 0;
    } else if c < 0x20 {
      assert e[5] == HexDigit(c % 16) != BACKSLASH;
    }
  }

  // The output contains no raw control byte, and every quote in it is escaped: an odd number of
  // backslashes is directly before it.
  lemma {:induction false} NoRawBytes(s: bytes, i: nat)
    requires i < |EscapeAll(s)|
    ensures EscapeAll(s)[i] >= 0x20
    ensures EscapeAll(s)[i] == QUOTE ==> BackslashesBefore(EscapeAll(s), i) % 2 == 1
    decreases |s|
  {
    var e, rest := Escape(s[0]), EscapeAll(s[1..]);
    EscapeRuns(s[0]);
    if i >= |e| {
      NoRawBytes(s[1..], i - |e|);
      RunBehind(e, rest, i - |e|);
      assert (e + rest)[i] == rest[i - |e|];
    } else {
      RunWithin(e, rest, i);
      assert (e + rest)[i] == e[i];
    }
  }

  lemma AppendEscape(done: bytes, s: bytes)
    requires s != []
    ensures done + EscapeAll(s) == done + Escape(s[0]) + EscapeAll(s[1..])
  {
  }

  // The first loop of json_escape_string.
  method EscapedLength(s: bytes) returns (n: nat)
    ensures n == |EscapeAll(s)|
  {
    n := 0;
    ghost var rest := s;
    for i := 0 to |s|
      invariant rest == s[i..] && n + |EscapeAll(rest)| == |EscapeAll(s)|
    {
      var c := s[i];
      if c == QUOTE || c == BACKSLASH || c == 8 || c == 12 || c == 10 || c == 13 || c == 9 {
        n := n + 2;
      } else if c < 0x20 {
        n := n + 6;
      } else {
        n := n + 1;
      }
      rest := rest[1..];
    }
  }

  // What the second loop writes for one byte.
  method WriteEscape(escaped: array<byte>, j: nat, c: byte) returns (j': nat)
    requires j + |Escape(c)| <= escaped.Length
    modifies escaped
    ensures j' == j + |Escape(c)| && escaped[..j'] == old(escaped[..j]) + Escape(c)
  {
    if c == QUOTE || c == BACKSLASH || c == 8 || c == 12 || c == 10 || c == 13 || c == 9 {
      escaped[j], escaped[j + 1] := BACKSLASH, Letter(c);
      j' := j + 2;
    } else if c < 0x20 {
      escaped[j], escaped[j + 1], escaped[j + 2] := BACKSLASH, 117, 48;
      escaped[j + 3], escaped[j + 4], escaped[j + 5] := 48, HexDigit(c / 16), HexDigit(c % 16);
      j' := j + 6;
    } else {
      escaped[j] := c;
      j' := j + 1;
    }
    assert escaped[..j] == old(escaped[..j]);
    assert escaped[j..j'] == Escape(c);
    assert escaped[..j'] == escaped[..j] + escaped[j..j'];
  }

  // json_escape_string: the second loop fills exactly the length that the first has computed, and one
  // more byte takes the NUL.
  method EscapeString(s: bytes) returns (escaped: array<byte>)
    requires 0 !in s
    ensures fresh(escaped) && escaped[..] == EscapeAll(s) + [0]
  {
    var length := EscapedLength(s);
    escaped := new byte[length + 1];
    var j: nat := 0;
    ghost var rest, done := s, [];
    assert [] + EscapeAll(s) == EscapeAll(s);
    for i := 0 to |s|
      invariant rest == s[i..] && done + EscapeAll(rest) == EscapeAll(s)
      invariant |done| == j <= length && escaped[..j] == done
    {
      AppendEscape(done, rest);
      j := WriteEscape(escaped, j, s[i]);
      done, rest := done + Escape(s[i]), rest[1..];
    }
    assert done + [] == done;
    escaped[j] := 0;
  }
}
