/** C text conventions shared by the monitor's modules: fixed-width integers,
    NUL-terminated strings, the character classes of <ctype.h>, the decimal and
    hexadecimal conversions of printf, and the number parsing of atoi and of
    scanf's "%u". */
module CText {

  newtype byte = x: int | 0 <= x < 0x100
  newtype uint16 = x: int | 0 <= x < 0x1_0000
  newtype uint32 = x: int | 0 <= x < 0x1_0000_0000
  newtype uint64 = x: int | 0 <= x < 0x1_0000_0000_0000_0000

  datatype Option<+T> = None | Some(value: T)

  const NUL: char := 0 as char

  /** The C string a character buffer holds: everything before the first NUL. */
  function CStr(s: seq<char>): (r: string)
    ensures |r| <= |s| && r == s[..|r|]
    ensures NUL !in r
    ensures |r| < |s| ==> s[|r|] == NUL
  {
    if |s| == 0 then []
    else if s[0] == NUL then []
    else [s[0]] + CStr(s[1..])
  }

  /** A string without a NUL is its own C string. */
  lemma {:induction false} CStrOfPlain(s: string)
    requires NUL !in s
    ensures CStr(s) == s
  {
    if |s| > 0 {
      CStrOfPlain(s[1..]);
    }
  }

  /** The C string of a buffer holding a followed by b: all of a and then b's C
      string when a holds no NUL, a's C string otherwise. */
  lemma {:induction false} CStrAppend(a: seq<char>, b: seq<char>)
    ensures NUL !in a ==> CStr(a + b) == a + CStr(b)
    ensures NUL in a ==> CStr(a + b) == CStr(a)
  {
    if |a| == 0 {
      assert a + b == b;
    } else if a[0] != NUL {
      assert (a + b)[1..] == a[1..] + b;
      CStrAppend(a[1..], b);
      assert a == [a[0]] + a[1..];
    }
  }

  /** isspace() in the C locale. */
  predicate IsSpace(c: char) {
    c == ' ' || c == '\t' || c == '\n' || c == '\r' || c == 11 as char || c == 12 as char
  }

  /** isdigit(). */
  predicate IsDigit(c: char) {
    '0' <= c <= '9'
  }

  predicate AllDigits(s: string) {
    forall i :: 0 <= i < |s| ==> IsDigit(s[i])
  }

  function DigitChar(d: nat): (c: char)
    requires d < 10
    ensures IsDigit(c)
  {
    ('0' as int + d) as char
  }

  function DigitValue(c: char): (d: nat)
    requires IsDigit(c)
    ensures d < 10 && DigitChar(d) == c
  {
    c as int - '0' as int
  }

  /** The number a run of decimal digits denotes. */
  function DigitsValue(s: string): nat
    requires AllDigits(s)
  {
    if |s| == 0 then 0
    else DigitsValue(s[..|s| - 1]) * 10 + DigitValue(s[|s| - 1])
  }

  /** printf "%u": the decimal digits of a natural number, without leading zeros. */
  function Decimal(n: nat): (r: string)
    ensures |r| > 0 && AllDigits(r)
    ensures r[0] == '0' ==> n == 0
  {
    if n < 10 then [DigitChar(n)]
    else Decimal(n / 10) + [DigitChar(n % 10)]
  }

  /** Printing a number in decimal and reading the digits back gives the number. */
  lemma {:induction false} DecimalRoundTrip(n: nat)
    ensures DigitsValue(Decimal(n)) == n
  {
    if n >= 10 {
      var s := Decimal(n);
      assert s[..|s| - 1] == Decimal(n / 10);
      DecimalRoundTrip(n / 10);
    }
  }

  /** 10 to the power k. */
  function Pow10(k: nat): nat {
    if k == 0 then 1 else 10 * Pow10(k - 1)
  }

  /** A number below 10^k prints in at most k digits. */
  lemma {:induction false} DecimalLength(n: nat, k: nat)
    requires k > 0 && n < Pow10(k)
    ensures |Decimal(n)| <= k
  {
    if n >= 10 {
      DecimalLength(n / 10, k - 1);
    }
  }

  /** What snprintf leaves in a buffer of `size` bytes: the text cut to size - 1
      characters, the last byte being the terminating NUL. */
  function Snprintf(s: string, size: nat): (r: string)
    requires size > 0
    ensures |r| < size && |r| <= |s| && r == s[..|r|]
    ensures |s| < size ==> r == s
  {
    if |s| < size then s else s[..size - 1]
  }

  /** printf "%d". */
  function SignedDecimal(i: int): (r: string)
    ensures |r| > 0
    ensures (r[0] == '-') == (i < 0)
  {
    if i < 0 then "-" + Decimal(-i) else Decimal(i)
  }

  /** printf "%02lu": at least two digits, zero-padded on the left. */
  function Pad2(n: nat): (r: string)
    ensures |r| >= 2 && AllDigits(r)
    ensures DigitsValue(r) == n
  {
    DecimalRoundTrip(n);
    if n < 10 then
      var r := "0" + Decimal(n);
      assert r[..|r| - 1] == "0";
      assert DigitsValue("0") == 0 by { assert "0"[..0] == ""; }
      r
    else Decimal(n)
  }

  /** isxdigit() restricted to the lower-case digits printf "%x" produces. */
  predicate IsHexDigit(c: char) {
    ('0' <= c <= '9') || ('a' <= c <= 'f')
  }

  predicate AllHex(s: string) {
    forall i :: 0 <= i < |s| ==> IsHexDigit(s[i])
  }

  function HexDigitValue(c: char): (d: nat)
    requires IsHexDigit(c)
    ensures d < 16
  {
    if IsDigit(c) then DigitValue(c) else c as int - 'a' as int + 10
  }

  /** The hexadecimal digit printf writes for a nibble, which reads back as it. */
  function HexDigit(d: nat): (c: char)
    requires d < 16
    ensures IsHexDigit(c) && HexDigitValue(c) == d
  {
    if d < 10 then DigitChar(d) else ('a' as int + d - 10) as char
  }

  /** The number a run of hexadecimal digits denotes, most significant first. */
  function HexValue(s: string): nat
    requires AllHex(s)
  {
    if |s| == 0 then 0
    else HexValue(s[..|s| - 1]) * 16 + HexDigitValue(s[|s| - 1])
  }

  /** printf "%02x": two lower-case hexadecimal digits that read back as the byte. */
  function Hex2(b: byte): (r: string)
    ensures |r| == 2 && AllHex(r)
    ensures HexValue(r) == b as nat
  {
    var hi, lo := HexDigit(b as nat / 16), HexDigit(b as nat % 16);
    var r := [hi, lo];
    assert r[..1] == [hi] && [hi][..0] == [];
    assert HexValue([hi]) == HexDigitValue(hi);
    r
  }

  /** The longest prefix of s whose characters all satisfy p. */
  function TakeWhile(s: string, p: char -> bool): (r: string)
    ensures |r| <= |s| && r == s[..|r|]
    ensures forall i :: 0 <= i < |r| ==> p(r[i])
    ensures |r| < |s| ==> !p(s[|r|])
  {
    if |s| == 0 || !p(s[0]) then [] else [s[0]] + TakeWhile(s[1..], p)
  }

  /** The prefix ends before a character that fails p, whatever follows it. */
  lemma TakeWhileStop(s: string, y: string, p: char -> bool)
    requires |y| > 0 && !p(y[0])
    ensures TakeWhile(s + y, p) == TakeWhile(s, p)
  {
    var r := TakeWhile(s, p);
    if |r| == |s| {
      assert r == s;
      TakeWhileRun(s, y, p);
    } else {
      TakeWhileCut(s, |r|, p);
      TakeWhileCut(s + y, |r|, p);
      assert (s + y)[..|r|] == s[..|r|];
    }
  }

  /** strrchr: the position of the last c in s, if any. */
  function StrRChr(s: string, c: char): (r: Option<nat>)
    ensures r.Some? ==> r.value < |s| && s[r.value] == c
    ensures r.Some? ==> forall j :: r.value < j < |s| ==> s[j] != c
    ensures r.None? <==> c !in s
  {
    if |s| == 0 then None
    else if s[|s| - 1] == c then Some(|s| - 1)
    else
      var r := StrRChr(s[..|s| - 1], c);
      assert s == s[..|s| - 1] + [s[|s| - 1]];
      r
  }

  /** Cutting s at a character that stops p keeps the run TakeWhile finds. */
  lemma {:induction false} TakeWhileCut(s: string, k: nat, p: char -> bool)
    requires k < |s| && !p(s[k])
    ensures TakeWhile(s[..k], p) == TakeWhile(s, p)
  {
    if k > 0 && p(s[0]) {
      assert s[..k][1..] == s[1..][..k - 1];
      TakeWhileCut(s[1..], k - 1, p);
    }
  }

  /** The text after any leading white space. */
  function SkipSpace(s: string): (r: string)
    ensures |r| <= |s|
    ensures |r| > 0 ==> !IsSpace(r[0])
  {
    if |s| > 0 && IsSpace(s[0]) then SkipSpace(s[1..]) else s
  }

  /** What SkipSpace leaves is a suffix of its input, after nothing but blanks. */
  lemma {:induction false} SkipSpaceSuffix(s: string)
    ensures SkipSpace(s) == s[|s| - |SkipSpace(s)|..]
    ensures forall i :: 0 <= i < |s| - |SkipSpace(s)| ==> IsSpace(s[i])
  {
    if |s| > 0 && IsSpace(s[0]) {
      SkipSpaceSuffix(s[1..]);
      assert s[1..][|s| - 1 - |SkipSpace(s)|..] == s[|s| - |SkipSpace(s)|..];
    }
  }

  /** atoi(): optional white space, an optional sign, then as many digits as follow;
      0 when no digit follows. The result is the mathematical value; atoi's behaviour on
      values outside the int range is undefined in C and is not modelled. */
  function Atoi(s: string): int {
    var t := SkipSpace(s);
    if |t| > 0 && (t[0] == '-' || t[0] == '+') then
      var n: int := DigitsValue(TakeWhile(t[1..], IsDigit));
      if t[0] == '-' then -n else n
    else DigitsValue(TakeWhile(t, IsDigit))
  }

  /** Conversion of an int to uint16_t by assignment: reduction modulo 2^16. */
  function ToUint16(i: int): uint16 {
    (i % 0x1_0000) as uint16
  }

  /** Each character as the byte a C char holds (the low eight bits). */
  function Bytes(s: string): (b: seq<byte>)
    ensures |b| == |s|
    ensures forall i :: 0 <= i < |s| ==> b[i] as int == s[i] as int % 0x100
  {
    seq(|s|, i requires 0 <= i < |s| => (s[i] as int % 0x100) as byte)
  }

  /** Each byte as the character of the same code. */
  function Text(b: seq<byte>): (s: string)
    ensures |s| == |b|
    ensures forall i :: 0 <= i < |b| ==> s[i] as int == b[i] as int
  {
    seq(|b|, i requires 0 <= i < |b| => b[i] as int as char)
  }

  predicate IsByteText(s: string) {
    forall i :: 0 <= i < |s| ==> s[i] as int < 0x100
  }

  /** Text that fits in bytes survives the round trip through the wire. */
  lemma TextOfBytes(s: string)
    requires IsByteText(s)
    ensures Text(Bytes(s)) == s
  {
    var r := Text(Bytes(s));
    assert forall i :: 0 <= i < |s| ==> r[i] == s[i];
  }

  /** Byte text sent ahead of more bytes reads back as itself, then the rest. */
  lemma TextOfBytesThen(s: string, b: seq<byte>)
    requires IsByteText(s)
    ensures Text(Bytes(s) + b) == s + Text(b)
  {
    TextOfBytes(s);
    assert Text(Bytes(s) + b) == Text(Bytes(s)) + Text(b);
  }

  /** TakeWhile stops exactly at the end of a run that satisfies p. */
  lemma {:induction false} TakeWhileRun(a: string, b: string, p: char -> bool)
    requires forall i :: 0 <= i < |a| ==> p(a[i])
    requires |b| == 0 || !p(b[0])
    ensures TakeWhile(a + b, p) == a
  {
    if |a| > 0 {
      assert (a + b)[1..] == a[1..] + b;
      TakeWhileRun(a[1..], b, p);
    } else {
      assert a + b == b;
    }
  }

  /** Skipping white space before a non-space character skips exactly the blanks. */
  lemma SkipOneSpace(s: string)
    requires |s| > 0 && !IsSpace(s[0])
    ensures SkipSpace(" " + s) == s
  {
    assert (" " + s)[1..] == s;
  }

  /** The words ws with the separator c between each two. */
  function Join(ws: seq<string>, c: char): (r: string)
    ensures |ws| == 1 ==> r == ws[0]
  {
    if |ws| == 0 then ""
    else if |ws| == 1 then ws[0]
    else Join(ws[..|ws| - 1], c) + [c] + ws[|ws| - 1]
  }

  /** The pieces of s between the occurrences of c (empty pieces kept). */
  function Split(s: string, c: char): seq<string>
    decreases |s|
  {
    match StrRChr(s, c)
    case None => [s]
    case Some(k) => Split(s[..k], c) + [s[k + 1..]]
  }

  /** Joining words that do not contain the separator and splitting at it gives the
      words back. */
  lemma {:induction false} JoinSplits(ws: seq<string>, c: char)
    requires |ws| > 0 && forall i :: 0 <= i < |ws| ==> c !in ws[i]
    ensures Split(Join(ws, c), c) == ws
  {
    if |ws| > 1 {
      var init := ws[..|ws| - 1];
      var last := ws[|ws| - 1];
      JoinSplits(init, c);
      LastSeparator(Join(init, c), c, last);
      assert init + [last] == ws;
    }
  }

  /** The last separator of s + [c] + w, for a piece w without one, is the one
      before w. */
  lemma LastSeparator(s: string, c: char, w: string)
    requires c !in w
    ensures Split(s + [c] + w, c) == Split(s, c) + [w]
  {
    var x := s + [c] + w;
    assert x[..|s|] == s && x[|s| + 1..] == w && x[|s|] == c;
    forall j | |s| < j < |x| ensures x[j] != c {
      assert x[j] == w[j - |s| - 1];
    }
    assert StrRChr(x, c) == Some(|s|);
  }
}
