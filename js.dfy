/** The parts of the JavaScript runtime the service leans on: null-or-value,
    truthiness of strings, String.prototype.trim / split / join / replace,
    parseInt, bytes and their UTF-8 encoding. */
module Js {

  datatype Option<+T> = None | Some(value: T)

  datatype Result<+T, +E> = Ok(value: T) | Err(error: E)

  type Byte = b: int | 0 <= b < 256

  /** A JavaScript string value that may be null or undefined (None) is truthy
      exactly when it is present and not the empty string. */
  predicate Truthy(s: Option<string>) {
    s.Some? && s.value != ""
  }

  /** WhiteSpace and LineTerminator code points (ECMAScript 12.2 and 12.3),
      the characters trim() removes and parseInt skips. */
  predicate IsWhitespace(c: char) {
    c == '\t' || c == '\n' || c == '\U{000B}' || c == '\U{000C}' || c == '\r' || c == ' '
    || c == '\U{00A0}' || c == '\U{1680}' || ('\U{2000}' <= c <= '\U{200A}')
    || c == '\U{2028}' || c == '\U{2029}' || c == '\U{202F}' || c == '\U{205F}'
    || c == '\U{3000}' || c == '\U{FEFF}'
  }

  function TrimStart(s: string): (r: string)
    ensures |r| <= |s| && r == s[|s| - |r|..]
    ensures forall i | 0 <= i < |s| - |r| :: IsWhitespace(s[i])
    ensures r == "" || !IsWhitespace(r[0])
  {
    if s != [] && IsWhitespace(s[0]) then TrimStart(s[1..]) else s
  }

  function TrimEnd(s: string): (r: string)
    ensures |r| <= |s| && r == s[..|r|]
    ensures forall i | |r| <= i < |s| :: IsWhitespace(s[i])
    ensures r == "" || !IsWhitespace(r[|r| - 1])
  {
    if s != [] && IsWhitespace(s[|s| - 1]) then TrimEnd(s[..|s| - 1]) else s
  }

  /** r occurs in s starting at position lo. */
  predicate InfixAt(r: string, s: string, lo: int) {
    0 <= lo && lo + |r| <= |s| && s[lo..lo + |r|] == r
  }

  /** String.prototype.trim: a substring of s that neither starts nor ends with
      whitespace, and everything dropped on either side is whitespace. */
  function Trim(s: string): (r: string)
    ensures exists lo :: && InfixAt(r, s, lo)
                         && (forall i | 0 <= i < lo :: IsWhitespace(s[i]))
                         && (forall i | lo + |r| <= i < |s| :: IsWhitespace(s[i]))
    ensures r == "" || (!IsWhitespace(r[0]) && !IsWhitespace(r[|r| - 1]))
  {
    var t := TrimStart(s);
    var r := TrimEnd(t);
    TrimmedInfix(s, t, r);
    if r != "" then
      assert t[0] == r[0];
      r
    else r
  }

  /** Cutting whitespace off the front of s (giving t) and then off the end
      of t (giving r) leaves r inside s with only whitespace around it. */
  lemma TrimmedInfix(s: string, t: string, r: string)
    requires |t| <= |s| && t == s[|s| - |t|..]
    requires forall i | 0 <= i < |s| - |t| :: IsWhitespace(s[i])
    requires |r| <= |t| && r == t[..|r|]
    requires forall i | |r| <= i < |t| :: IsWhitespace(t[i])
    ensures exists lo :: && InfixAt(r, s, lo)
                         && (forall i | 0 <= i < lo :: IsWhitespace(s[i]))
                         && (forall i | lo + |r| <= i < |s| :: IsWhitespace(s[i]))
  {
    var lo := |s| - |t|;
    PrefixOfSuffix(s, t, r);
    forall i | lo + |r| <= i < |s| ensures IsWhitespace(s[i]) {
      assert s[i] == t[i - lo];
    }
  }

  /** A prefix r of a suffix t of s occurs in s where t starts. */
  lemma PrefixOfSuffix(s: string, t: string, r: string)
    requires |t| <= |s| && t == s[|s| - |t|..]
    requires |r| <= |t| && r == t[..|r|]
    ensures InfixAt(r, s, |s| - |t|)
  {
    assert s[|s| - |t|..|s| - |t| + |r|] == r;
  }

  /** A string that neither starts nor ends with whitespace is its own trim. */
  lemma TrimUnchanged(s: string)
    requires s != [] ==> !IsWhitespace(s[0]) && !IsWhitespace(s[|s| - 1])
    ensures Trim(s) == s
  {
    assert TrimStart(s) == s;
    assert TrimEnd(s) == s;
  }

  /** Index of the first occurrence of c in s, or |s| when there is none. */
  function FirstIndex(s: string, c: char): (r: nat)
    ensures r <= |s|
    ensures r < |s| ==> s[r] == c
    ensures forall k | 0 <= k < r :: s[k] != c
  {
    if s == [] then 0
    else if s[0] == c then 0
    else 1 + FirstIndex(s[1..], c)
  }

  /** Array.prototype.join with a one-character separator. */
  function Join(parts: seq<string>, sep: char): string
  {
    if parts == [] then ""
    else if |parts| == 1 then parts[0]
    else parts[0] + [sep] + Join(parts[1..], sep)
  }

  /** String.prototype.split with a one-character separator: never empty, no
      piece contains the separator, and joining the pieces gives s back. */
  function Split(s: string, sep: char): (parts: seq<string>)
    ensures |parts| >= 1
    ensures forall i | 0 <= i < |parts| :: sep !in parts[i]
    ensures Join(parts, sep) == s
    decreases |s|
  {
    var i := FirstIndex(s, sep);
    if i == |s| then
      [s]
    else
      var rest := Split(s[i + 1..], sep);
      assert s == s[..i] + [sep] + s[i + 1..];
      [s[..i]] + rest
  }

  /** The other direction of the split/join round trip. */
  lemma {:induction false} SplitJoin(parts: seq<string>, sep: char)
    requires |parts| >= 1
    requires forall i | 0 <= i < |parts| :: sep !in parts[i]
    ensures Split(Join(parts, sep), sep) == parts
  {
    if |parts| == 1 {
      assert FirstIndex(parts[0], sep) == |parts[0]|;
    } else {
      var s := Join(parts, sep);
      assert s == parts[0] + [sep] + Join(parts[1..], sep);
      var i := FirstIndex(s, sep);
      assert s[|parts[0]|] == sep;
      assert forall k | 0 <= k < |parts[0]| :: s[k] == parts[0][k];
      assert i == |parts[0]|;
      assert s[..i] == parts[0];
      assert s[i + 1..] == Join(parts[1..], sep);
      SplitJoin(parts[1..], sep);
    }
  }

  /** What `parts.shift()` and `parts.join(sep)` give after a split: the text
      before the first separator, and everything after it (empty when there is
      no separator). */
  lemma {:induction false} SplitHeadRest(s: string, sep: char)
    ensures Split(s, sep)[0] == s[..FirstIndex(s, sep)]
    ensures Join(Split(s, sep)[1..], sep) ==
            if FirstIndex(s, sep) < |s| then s[FirstIndex(s, sep) + 1..] else ""
  {
    var i := FirstIndex(s, sep);
    if i < |s| {
      var rest := Split(s[i + 1..], sep);
      assert Split(s, sep) == [s[..i]] + rest;
      assert Split(s, sep)[1..] == rest;
    } else {
      assert s[..i] == s;
    }
  }

  /** Whether pat occurs in s at position i. */
  predicate OccursAt(s: string, pat: string, i: nat) {
    i + |pat| <= |s| && s[i..i + |pat|] == pat
  }

  function IndexOf(s: string, pat: string, from: nat): (r: Option<nat>)
    requires from <= |s|
    ensures r.Some? ==> from <= r.value && OccursAt(s, pat, r.value)
    ensures forall k | from <= k && (r.None? || k < r.value) :: !OccursAt(s, pat, k)
    decreases |s| - from
  {
    if OccursAt(s, pat, from) then Some(from)
    else if from == |s| then None
    else IndexOf(s, pat, from + 1)
  }

  /** String.prototype.replace with a string pattern: only the first
      occurrence, wherever it is, is replaced. */
  function ReplaceFirst(s: string, pat: string, rep: string): string
  {
    match IndexOf(s, pat, 0)
    case None => s
    case Some(i) => s[..i] + rep + s[i + |pat|..]
  }

  /** Only the first occurrence is replaced, and a string without one is
      left as it is. */
  lemma ReplaceFirstSpec(s: string, pat: string, rep: string)
    ensures (forall k | 0 <= k <= |s| :: !OccursAt(s, pat, k)) ==> ReplaceFirst(s, pat, rep) == s
    ensures forall i | 0 <= i <= |s| && OccursAt(s, pat, i)
              && (forall k | 0 <= k < i :: !OccursAt(s, pat, k)) ::
              ReplaceFirst(s, pat, rep) == s[..i] + rep + s[i + |pat|..]
  {
  }

  /** ASCII-only lower-casing of one character, which is the case folding
      a non-unicode /i regular expression applies to the Latin letters. */
  function LowerAsciiChar(c: char): char {
    if 'A' <= c <= 'Z' then (c as int + 32) as char else c
  }

  // ---- parseInt ----

  function DigitValue(c: char): (d: Option<nat>)
    ensures d.Some? ==> d.value < 36
  {
    if '0' <= c <= '9' then Some(c as int - '0' as int)
    else if 'a' <= c <= 'z' then Some(c as int - 'a' as int + 10)
    else if 'A' <= c <= 'Z' then Some(c as int - 'A' as int + 10)
    else None
  }

  predicate IsDigit(c: char, radix: nat) {
    DigitValue(c).Some? && DigitValue(c).value < radix
  }

  /** Length of the longest prefix of s made of digits of the radix. */
  function DigitPrefix(s: string, radix: nat): (n: nat)
    ensures n <= |s|
    ensures forall k | 0 <= k < n :: IsDigit(s[k], radix)
    ensures n < |s| ==> !IsDigit(s[n], radix)
  {
    if s != [] && IsDigit(s[0], radix) then 1 + DigitPrefix(s[1..], radix) else 0
  }

  /** The value of a run of digits, most significant first (a character
      that is not a digit counts as 0; parseInt only passes digits). */
  function DigitsValue(ds: string, radix: nat): nat
  {
    if ds == [] then 0
    else
      var d := DigitValue(ds[|ds| - 1]);
      DigitsValue(ds[..|ds| - 1], radix) * radix + (if d.Some? then d.value else 0)
  }

  /** parseInt(s) with no radix argument (ECMAScript 19.2.5): leading
      whitespace, an optional sign, then the unsigned part; None stands for
      NaN. The float rounding of very long digit runs is not modelled. */
  function ParseInt(s: string): Option<int>
  {
    var t := TrimStart(s);
    if |t| > 0 && (t[0] == '-' || t[0] == '+') then
      match ParseUnsigned(t[1..])
      case None => None
      case Some(m) => Some(if t[0] == '-' then -(m as int) else m as int)
    else
      match ParseUnsigned(t)
      case None => None
      case Some(m) => Some(m as int)
  }

  /** The unsigned part of parseInt: a 0x/0X prefix selects radix 16, then the
      longest run of digits of the radix is read; no digit at all is NaN. */
  function ParseUnsigned(u: string): Option<nat>
  {
    var hex := |u| >= 2 && u[0] == '0' && (u[1] == 'x' || u[1] == 'X');
    var radix := if hex then 16 else 10;
    var v := if hex then u[2..] else u;
    var n := DigitPrefix(v, radix);
    if n == 0 then None else Some(DigitsValue(v[..n], radix))
  }

  /** Number.prototype.toString() of a non-negative integer. */
  function Decimal(n: nat): (r: string)
    ensures |r| >= 1
    ensures forall k | 0 <= k < |r| :: '0' <= r[k] <= '9'
    ensures r[0] == '0' ==> n == 0
  {
    var d := ['0' + (n % 10) as char];
    if n < 10 then d else Decimal(n / 10) + d
  }

  lemma {:induction false} DecimalValue(n: nat)
    ensures forall k | 0 <= k < |Decimal(n)| :: IsDigit(Decimal(n)[k], 10)
    ensures DigitsValue(Decimal(n), 10) == n
  {
    var r := Decimal(n);
    assert forall k | 0 <= k < |r| :: DigitValue(r[k]).Some? && DigitValue(r[k]).value < 10;
    if n >= 10 {
      DecimalValue(n / 10);
      assert r[..|r| - 1] == Decimal(n / 10);
    }
  }

  /** parseInt reads back the decimal rendering of any non-negative id. */
  lemma ParseIntDecimal(n: nat)
    ensures ParseInt(Decimal(n)) == Some(n)
  {
    DigitsUntrimmed(Decimal(n));
    ParseUnsignedDecimal(n);
  }

  /** A string that starts with a digit has no leading whitespace. */
  lemma DigitsUntrimmed(d: string)
    requires d != [] && '0' <= d[0] <= '9'
    ensures TrimStart(d) == d
    ensures !(d[0] == '-' || d[0] == '+')
  {
    assert !IsWhitespace(d[0]);
  }

  lemma ParseUnsignedDecimal(n: nat)
    ensures ParseUnsigned(Decimal(n)) == Some(n)
  {
    var d := Decimal(n);
    if |d| >= 2 {
      assert d[0] != '0';
    }
    DecimalValue(n);
    DigitPrefixAll(d, 10);
    assert d[..|d|] == d;
  }

  lemma {:induction false} DigitPrefixAll(s: string, radix: nat)
    requires forall k | 0 <= k < |s| :: IsDigit(s[k], radix)
    ensures DigitPrefix(s, radix) == |s|
  {
    if s != [] {
      DigitPrefixAll(s[1..], radix);
    }
  }

  /** A query string that does not start (after whitespace and a sign) with a
      digit parses to NaN. */
  lemma ParseIntNaN(s: string)
    requires var t := TrimStart(s);
             var u := if |t| > 0 && (t[0] == '-' || t[0] == '+') then t[1..] else t;
             u == "" || (!IsDigit(u[0], 10) && u[0] != '0')
    ensures ParseInt(s).None?
  {
    var t := TrimStart(s);
    if |t| > 0 && (t[0] == '-' || t[0] == '+') {
      ParseUnsignedNaN(t[1..]);
    } else {
      ParseUnsignedNaN(t);
    }
  }

  /** No digit (and no "0x") in front: NaN. */
  lemma ParseUnsignedNaN(u: string)
    requires u == "" || (!IsDigit(u[0], 10) && u[0] != '0')
    ensures ParseUnsigned(u).None?
  {
    if u != "" {
      assert DigitPrefix(u, 10) == 0;
    }
  }

  // ---- UTF-8, as Buffer.from(string) encodes ----

  function Utf8Char(c: char): (b: seq<Byte>)
    ensures 1 <= |b| <= 4
    ensures |b| == 1 <==> c as int < 0x80
  {
    var n := c as int;
    if n < 0x80 then [n]
    else if n < 0x800 then [0xC0 + n / 64, 0x80 + n % 64]
    else if n < 0x10000 then [0xE0 + n / 4096, 0x80 + (n / 64) % 64, 0x80 + n % 64]
    else [0xF0 + n / 262144, 0x80 + (n / 4096) % 64, 0x80 + (n / 64) % 64, 0x80 + n % 64]
  }

  function Utf8(s: string): (b: seq<Byte>)
    ensures |s| <= |b|
    ensures (forall i | 0 <= i < |s| :: s[i] as int < 0x80) ==> |b| == |s|
  {
    if s == [] then [] else Utf8Char(s[0]) + Utf8(s[1..])
  }

  predicate IsContinuation(b: Byte) {
    0x80 <= b < 0xC0
  }

  /** How many continuation bytes follow the leading byte b0 in a well-formed
      sequence (Table 3-7 of the Unicode Standard), and the range allowed for
      the first of them; None for a byte that cannot start a sequence. */
  function LeadShape(b0: Byte): Option<(nat, Byte, Byte)>
  {
    if 0xC2 <= b0 < 0xE0 then Some((1, 0x80, 0xBF))
    else if b0 == 0xE0 then Some((2, 0xA0, 0xBF))
    else if b0 == 0xED then Some((2, 0x80, 0x9F))
    else if 0xE1 <= b0 < 0xF0 then Some((2, 0x80, 0xBF))
    else if b0 == 0xF0 then Some((3, 0x90, 0xBF))
    else if b0 == 0xF4 then Some((3, 0x80, 0x8F))
    else if 0xF1 <= b0 < 0xF4 then Some((3, 0x80, 0xBF))
    else None
  }

  /** The number of acceptable continuation bytes after b[0], up to need. */
  function AcceptedTail(b: seq<Byte>, need: nat, lo: Byte, hi: Byte): (k: nat)
    requires b != []
    ensures k <= need && k < |b|
    ensures forall i | 1 <= i <= k :: IsContinuation(b[i])
    ensures k >= 1 ==> lo <= b[1] <= hi
  {
    if need == 0 || |b| < 2 || !(lo <= b[1] <= hi && IsContinuation(b[1])) then 0
    else if need == 1 || |b| < 3 || !IsContinuation(b[2]) then 1
    else if need == 2 || |b| < 4 || !IsContinuation(b[3]) then 2
    else 3
  }

  /** Buffer.prototype.toString('utf8') on the first code point of b: a
      well-formed sequence decodes to its scalar value; otherwise the maximal
      prefix of a well-formed sequence (at least one byte) becomes one U+FFFD,
      as the WHATWG UTF-8 decoder does. Returns the character and the number of
      bytes consumed. */
  function DecodeFirst(b: seq<Byte>): (r: (char, nat))
    requires b != []
    ensures 1 <= r.1 <= |b|
  {
    var b0: int := b[0];
    if b0 < 0x80 then (b0 as char, 1)
    else match LeadShape(b[0])
      case None => ('\U{FFFD}', 1)
      case Some((need, lo, hi)) =>
        var k := AcceptedTail(b, need, lo, hi);
        if k < need then ('\U{FFFD}', 1 + k)
        else if need == 1 then
          var v: int := (b0 - 0xC0) * 64 + (b[1] as int - 0x80);
          (v as char, 2)
        else if need == 2 then
          var v: int := (b0 - 0xE0) * 4096 + (b[1] as int - 0x80) * 64 + (b[2] as int - 0x80);
          assert b0 == 0xE0 ==> v >= 0x800;
          assert b0 == 0xED ==> v < 0xD800;
          (v as char, 3)
        else
          var v: int := (b0 - 0xF0) * 262144 + (b[1] as int - 0x80) * 4096
                        + (b[2] as int - 0x80) * 64 + (b[3] as int - 0x80);
          (v as char, 4)
  }

  /** Buffer.prototype.toString('utf8'). */
  function Utf8Decode(b: seq<Byte>): string
    decreases |b|
  {
    if b == [] then ""
    else
      var r := DecodeFirst(b);
      [r.0] + Utf8Decode(b[r.1..])
  }

  lemma Utf8CharDecodes(c: char, rest: seq<Byte>)
    ensures DecodeFirst(Utf8Char(c) + rest) == (c, |Utf8Char(c)|)
  {
    var n := c as int;
    if n < 0x80 {
    } else if n < 0x800 {
      Utf8TwoDecodes(c, rest);
    } else if n < 0x10000 {
      Utf8ThreeDecodes(c, rest);
    } else {
      Utf8FourDecodes(c, rest);
    }
  }

  lemma Utf8TwoDecodes(c: char, rest: seq<Byte>)
    requires 0x80 <= c as int < 0x800
    ensures DecodeFirst(Utf8Char(c) + rest) == (c, 2)
  {
    var n := c as int;
    var b := Utf8Char(c) + rest;
    var b0, b1 := n / 64, n % 64;
    assert n == b0 * 64 + b1;
    assert b[0] == 0xC0 + b0 && b[1] == 0x80 + b1;
    assert LeadShape(b[0]) == Some((1, 0x80, 0xBF));
  }

  lemma Utf8ThreeDecodes(c: char, rest: seq<Byte>)
    requires 0x800 <= c as int < 0x10000
    ensures DecodeFirst(Utf8Char(c) + rest) == (c, 3)
  {
    var n := c as int;
    var b := Utf8Char(c) + rest;
    var b0, b1, b2 := n / 4096, (n / 64) % 64, n % 64;
    assert n / 64 == b0 * 64 + b1;
    assert n == (n / 64) * 64 + b2;
    assert b[0] == 0xE0 + b0 && b[1] == 0x80 + b1 && b[2] == 0x80 + b2;
    assert b0 == 0 ==> b1 >= 0x20;
    assert b0 == 0xD ==> b1 < 0x20;
  }

  lemma Utf8FourDecodes(c: char, rest: seq<Byte>)
    requires 0x10000 <= c as int
    ensures DecodeFirst(Utf8Char(c) + rest) == (c, 4)
  {
    var n := c as int;
    var b := Utf8Char(c) + rest;
    var b0, b1, b2, b3 := n / 262144, (n / 4096) % 64, (n / 64) % 64, n % 64;
    assert n / 4096 == b0 * 64 + b1;
    assert n / 64 == (n / 4096) * 64 + b2;
    assert n == (n / 64) * 64 + b3;
    assert b[0] == 0xF0 + b0 && b[1] == 0x80 + b1 && b[2] == 0x80 + b2 && b[3] == 0x80 + b3;
    assert b0 == 0 ==> b1 >= 0x10;
    assert b0 == 4 ==> b1 < 0x10;
  }

  /** Decoding undoes Buffer.from(string): UTF-8 round-trips every string. */
  lemma {:induction false} Utf8RoundTrip(s: string)
    ensures Utf8Decode(Utf8(s)) == s
  {
    if s != [] {
      var b := Utf8(s);
      assert b == Utf8Char(s[0]) + Utf8(s[1..]);
      Utf8CharDecodes(s[0], Utf8(s[1..]));
      assert b[|Utf8Char(s[0])|..] == Utf8(s[1..]);
      Utf8RoundTrip(s[1..]);
    }
  }

  /** String.prototype.length: the number of UTF-16 code units, two for a
      code point outside the Basic Multilingual Plane. */
  function Utf16Length(s: string): (n: nat)
    ensures |s| <= n <= 2 * |s|
  {
    if s == [] then 0 else (if s[0] as int < 0x10000 then 1 else 2) + Utf16Length(s[1..])
  }

  /** The length of a concatenation is the sum of the lengths, so a string's
      length is the sum over its characters of one or two units. */
  lemma {:induction false} Utf16Append(a: string, b: string)
    ensures Utf16Length(a + b) == Utf16Length(a) + Utf16Length(b)
  {
    if a == [] {
      assert a + b == b;
    } else {
      var unit := if a[0] as int < 0x10000 then 1 else 2;
      assert (a + b)[0] == a[0] && (a + b)[1..] == a[1..] + b;
      assert Utf16Length(a + b) == unit + Utf16Length(a[1..] + b);
      Utf16Append(a[1..], b);
    }
  }

  /** One unit for every character when all lie in the Basic Multilingual
      Plane, two for every character when none does. */
  lemma {:induction false} Utf16Planes(s: string)
    ensures (forall i | 0 <= i < |s| :: s[i] as int < 0x10000) ==> Utf16Length(s) == |s|
    ensures (forall i | 0 <= i < |s| :: s[i] as int >= 0x10000) ==> Utf16Length(s) == 2 * |s|
  {
    if s != [] {
      Utf16Planes(s[1..]);
      assert forall i | 0 <= i < |s| - 1 :: s[1..][i] == s[i + 1];
    }
  }
}
