/**
 * The `util` object of the JavaScript side of the plugin: hex formatting of
 * bytes, a printable-character filter, a UTF-8 encoder and decoder for
 * strings of UTF-16 code units, and a hex-string parser.
 *
 * JavaScript numbers are modelled as integers; the source applies these
 * helpers to integer byte values only.
 */
module NfcUtil {
  import opened Wrappers
  import opened Bits

  /** An element of a Uint8Array, or a byte the encoder emits. */
  type Byte = b: int | 0 <= b < 0x100

  /** One UTF-16 code unit of a JavaScript string (surrogates included). */
  type CodeUnit = c: int | 0 <= c < 0x1_0000

  // ---------------------------------------------------------------------------
  // Hexadecimal digits and Number.prototype.toString(16)
  // ---------------------------------------------------------------------------

  /** The digit toString(16) writes for d: 0-9, then lowercase a-f. */
  function LowerDigit(d: nat): (ch: char)
    requires d < 16
  {
    if d < 10 then ('0' as int + d) as char else ('a' as int + d - 10) as char
  }

  predicate IsHexDigit(ch: char)
  {
    '0' <= ch <= '9' || 'a' <= ch <= 'f' || 'A' <= ch <= 'F'
  }

  /** The value parseInt gives a single hex digit, in either case. */
  function HexDigitValue(ch: char): (v: nat)
    requires IsHexDigit(ch)
    ensures v < 16
  {
    if '0' <= ch <= '9' then ch as int - '0' as int
    else if 'a' <= ch <= 'f' then ch as int - 'a' as int + 10
    else ch as int - 'A' as int + 10
  }

  /** The number a string of hex digits denotes, most significant digit first. */
  function HexValue(s: string): nat
    requires forall i :: 0 <= i < |s| ==> IsHexDigit(s[i])
  {
    if s == [] then 0 else HexValue(s[..|s| - 1]) * 16 + HexDigitValue(s[|s| - 1])
  }

  /** n.toString(16) for an integer n >= 0: the shortest lowercase hex numeral of n. */
  function HexNumeral(n: nat): (s: string)
    ensures 1 <= |s|
    ensures forall i :: 0 <= i < |s| ==> IsHexDigit(s[i]) && !('A' <= s[i] <= 'F')
    ensures HexValue(s) == n
    ensures |s| > 1 ==> s[0] != '0'
    ensures n < 16 <==> |s| == 1
    ensures n < 256 <==> |s| <= 2
  {
    if n < 16 then [LowerDigit(n)]
    else
      var s := HexNumeral(n / 16) + [LowerDigit(n % 16)];
      assert s[..|s| - 1] == HexNumeral(n / 16);
      s
  }

  /** Number.prototype.toString(16) on an integer. */
  function RadixHex(n: int): (s: string)
    ensures |s| >= 1 && (s[0] == '-' <==> n < 0)
    ensures var digits := if n < 0 then s[1..] else s;
      |digits| >= 1 && AllHexDigits(digits) && HexValue(digits) == if n < 0 then -n else n
  {
    if n < 0 then "-" + HexNumeral(-n) else HexNumeral(n)
  }

  /** The two lowercase hex digits that denote a byte. */
  function LowerPair(v: Byte): string
  {
    [LowerDigit(v / 16), LowerDigit(v % 16)]
  }

  /** A byte is written with one digit below 16 and with LowerPair's two digits otherwise. */
  lemma HexNumeralOfByte(v: Byte)
    ensures v < 16 ==> HexNumeral(v) == [LowerDigit(v)]
    ensures 16 <= v ==> HexNumeral(v) == LowerPair(v)
  {
  }

  /** The two digits of LowerPair are lowercase hex digits that denote v. */
  lemma LowerPairIsHex(v: Byte)
    ensures |LowerPair(v)| == 2 && IsHexDigit(LowerPair(v)[0]) && IsHexDigit(LowerPair(v)[1])
    ensures 16 * HexDigitValue(LowerPair(v)[0]) + HexDigitValue(LowerPair(v)[1]) == v
    ensures !('A' <= LowerPair(v)[0] <= 'F') && !('A' <= LowerPair(v)[1] <= 'F')
  {
  }

  // ---------------------------------------------------------------------------
  // util.toHex and util.toPrintable
  // ---------------------------------------------------------------------------

  /**
   * util.toHex: a negative value is shifted up by 256, written in base 16
   * and padded with one leading zero when it has a single digit.
   */
  function ToHex(i: int): (hex: string)
    ensures -256 <= i < 256 ==> hex == LowerPair(i % 256)
    ensures 256 <= i ==> hex == HexNumeral(i) && |hex| >= 3
    ensures i < -256 ==> hex == "-" + HexNumeral(-(i + 256))
  {
    var j := if i < 0 then i + 256 else i;
    ToHexCases(i, j);
    PadOne(RadixHex(j))
  }

  lemma ToHexCases(i: int, j: int)
    requires j == if i < 0 then i + 256 else i
    ensures -256 <= i < 256 ==> PadOne(RadixHex(j)) == LowerPair(i % 256)
    ensures 256 <= i ==> PadOne(RadixHex(j)) == HexNumeral(i) && |HexNumeral(i)| >= 3
    ensures i < -256 ==> PadOne(RadixHex(j)) == "-" + HexNumeral(-(i + 256))
  {
    if -256 <= i < 256 {
      assert i % 256 == j;
      PadOneOfByte(j);
    } else if 256 <= i {
      PadOneOfLarge(j);
    } else {
      PadOneOfNegative(j, -(i + 256));
    }
  }

  /** A one-character numeral gets a leading "0"; longer ones are kept. */
  function PadOne(h: string): (r: string)
    ensures r == h || (|h| == 1 && r == "0" + h)
    ensures h != [] ==> |r| >= 2
  {
    if |h| == 1 then "0" + h else h
  }

  /** Bytes get two digits. */
  lemma PadOneOfByte(j: int)
    requires 0 <= j < 256
    ensures PadOne(RadixHex(j)) == LowerPair(j)
  {
    HexNumeralOfByte(j);
  }

  /** Values of 256 and more keep their three or more digits. */
  lemma PadOneOfLarge(j: int)
    requires 256 <= j
    ensures PadOne(RadixHex(j)) == HexNumeral(j) && |HexNumeral(j)| >= 3
  {
    assert RadixHex(j) == HexNumeral(j);
  }

  /** A negative value keeps its sign, which also makes it too long to pad. */
  lemma PadOneOfNegative(j: int, n: nat)
    requires j < 0 && n == -j
    ensures PadOne(RadixHex(j)) == "-" + HexNumeral(n)
  {
    assert RadixHex(j) == "-" + HexNumeral(n);
  }

  /** util.toPrintable: the character with code i when 0x20 <= i <= 0x7F, otherwise '.'. */
  function ToPrintable(i: int): (s: string)
    ensures |s| == 1 && 0x20 <= s[0] as int <= 0x7F
    ensures s[0] as int == i <==> 0x20 <= i <= 0x7F
    ensures 0x20 <= i <= 0x7F ==> s == [i as char]
    ensures !(0x20 <= i <= 0x7F) ==> s == "."
  {
    // The source writes `i >= 0x20 & i <= 0x7F`: `&` of two booleans is 1
    // exactly when both hold.
    if 0x20 <= i && i <= 0x7F then [i as char] else "."
  }

  // ---------------------------------------------------------------------------
  // util.bytesToHexString and util.arrayBufferToHexString
  // ---------------------------------------------------------------------------

  /** s is the hex of `bytes`: byte k, taken mod 256, is the lowercase pair at 2k and 2k + 1. */
  ghost predicate IsHexOf(s: string, bytes: seq<int>)
  {
    && |s| == 2 * |bytes|
    && forall k :: 0 <= k < |bytes| ==> s[2 * k..2 * k + 2] == LowerPair(bytes[k] % 256)
  }

  /** Two strings that are both the hex of the same bytes are equal. */
  lemma IsHexOfUnique(s: string, t: string, bytes: seq<int>)
    requires IsHexOf(s, bytes) && IsHexOf(t, bytes)
    ensures s == t
  {
    forall i | 0 <= i < |s|
      ensures s[i] == t[i]
    {
      var k := i / 2;
      assert s[2 * k..2 * k + 2] == LowerPair(bytes[k] % 256) == t[2 * k..2 * k + 2];
      assert s[i] == s[2 * k..2 * k + 2][i - 2 * k];
      assert t[i] == t[2 * k..2 * k + 2][i - 2 * k];
    }
  }

  /** The elements of `bytes`, each formatted as toHex formats it, joined in order. */
  function HexJoin(bytes: seq<int>): string
  {
    if bytes == [] then "" else HexJoin(bytes[..|bytes| - 1]) + ToHex(bytes[|bytes| - 1])
  }

  /** Every element lies in -256..255, the range toHex pads to two digits. */
  predicate InHexRange(bytes: seq<int>)
  {
    forall k :: 0 <= k < |bytes| ==> -256 <= bytes[k] < 256
  }

  /** Where the digit pairs of a concatenation of even-length strings come from. */
  lemma PairOfConcat(a: string, b: string, k: nat)
    requires |a| % 2 == 0 && 2 * k + 2 <= |a| + |b|
    ensures 2 * k < |a| ==> (a + b)[2 * k..2 * k + 2] == a[2 * k..2 * k + 2]
    ensures 2 * k >= |a| ==> (a + b)[2 * k..2 * k + 2] == b[2 * k - |a|..2 * k - |a| + 2]
  {
  }

  /** The hex of two byte sequences, concatenated, is the hex of their concatenation. */
  lemma IsHexOfAppend(s: string, bs: seq<int>, t: string, cs: seq<int>)
    requires IsHexOf(s, bs) && IsHexOf(t, cs)
    ensures IsHexOf(s + t, bs + cs)
  {
    var all := bs + cs;
    forall k | 0 <= k < |all|
      ensures (s + t)[2 * k..2 * k + 2] == LowerPair(all[k] % 256)
    {
      PairOfConcat(s, t, k);
      if k < |bs| {
        assert all[k] == bs[k];
        assert s[2 * k..2 * k + 2] == LowerPair(bs[k] % 256);
      } else {
        assert all[k] == cs[k - |bs|];
        assert t[2 * (k - |bs|)..2 * (k - |bs|) + 2] == LowerPair(cs[k - |bs|] % 256);
      }
    }
  }

  lemma {:induction false} HexJoinOfBytes(bytes: seq<int>)
    requires InHexRange(bytes)
    ensures IsHexOf(HexJoin(bytes), bytes)
  {
    if bytes != [] {
      var init, last := bytes[..|bytes| - 1], bytes[|bytes| - 1];
      assert -256 <= last < 256;
      assert bytes == init + [last];
      HexJoinOfBytes(init);
      var t := ToHex(last);
      assert t == LowerPair(last % 256);
      HexJoinSnoc(bytes, init, last, HexJoin(init), t);
      assert HexJoin(bytes) == HexJoin(init) + t;
    }
  }

  /** The inductive step of HexJoinOfBytes: one more element in range. */
  lemma HexJoinSnoc(bytes: seq<int>, init: seq<int>, last: int, h: string, t: string)
    requires bytes == init + [last] && IsHexOf(h, init) && t == LowerPair(last % 256)
    ensures IsHexOf(h + t, bytes)
  {
    IsHexOfPair(last);
    IsHexOfAppend(h, init, t, [last]);
  }

  /**
   * util.bytesToHexString: toHex applied to every element and joined; for
   * signed or unsigned byte values that is two lowercase digits per byte.
   */
  method BytesToHexString(bytes: seq<int>) returns (bytesAsHexString: string)
    ensures bytesAsHexString == HexJoin(bytes)
    ensures InHexRange(bytes) ==> IsHexOf(bytesAsHexString, bytes)
  {
    bytesAsHexString := "";
    for i := 0 to |bytes|
      invariant bytesAsHexString == HexJoin(bytes[..i])
    {
      var dec: int;
      if bytes[i] >= 0 {
        dec := bytes[i];
      } else {
        dec := 256 + bytes[i];
      }
      var hexstring := RadixHex(dec);
      if |hexstring| == 1 {
        hexstring := "0" + hexstring;
      }
      assert hexstring == ToHex(bytes[i]);
      HexJoinStep(bytes, i);
      bytesAsHexString := bytesAsHexString + hexstring;
    }
    assert bytes[..|bytes|] == bytes;
    if InHexRange(bytes) {
      HexJoinOfBytes(bytes);
    }
  }

  /** Joining one more element appends its toHex form. */
  lemma HexJoinStep(bytes: seq<int>, i: nat)
    requires i < |bytes|
    ensures HexJoin(bytes[..i + 1]) == HexJoin(bytes[..i]) + ToHex(bytes[i])
  {
    assert bytes[..i + 1][..i] == bytes[..i];
  }

  /** str.slice(-2): the last two characters, or the whole string when shorter. */
  function LastTwo(s: string): (r: string)
    ensures |r| == if |s| <= 2 then |s| else 2
    ensures s[|s| - |r|..] == r
  {
    if |s| <= 2 then s else s[|s| - 2..]
  }

  /** toHexString inside arrayBufferToHexString: ('0' + (byte & 0xFF).toString(16)).slice(-2). */
  function ByteToHexString(b: Byte): (s: string)
    ensures s == LowerPair(b)
  {
    PaddedByte(b);
    LastTwo("0" + RadixHex(MaskByte(b, 0xFF)))
  }

  lemma PaddedByte(b: Byte)
    ensures LastTwo("0" + RadixHex(MaskByte(b, 0xFF))) == LowerPair(b)
  {
    MaskByteFF(b);
    assert b % 256 == b;
    PadLastTwo(b);
  }

  lemma PadLastTwo(v: Byte)
    ensures LastTwo("0" + RadixHex(v)) == LowerPair(v)
  {
    HexNumeralOfByte(v);
    var t := "0" + HexNumeral(v);
    assert RadixHex(v) == HexNumeral(v);
    if v < 16 {
      assert v / 16 == 0 && v % 16 == v;
      assert |t| == 2 && LastTwo(t) == t;
    } else {
      assert |t| == 3 && LastTwo(t) == t[1..];
    }
  }

  /** util.arrayBufferToHexString: the bytes of the buffer as lowercase hex, two digits each. */
  function ArrayBufferToHexString(buffer: seq<Byte>): (s: string)
    ensures IsHexOf(s, buffer)
  {
    if buffer == [] then ""
    else
      var head, rest := ByteToHexString(buffer[0]), ArrayBufferToHexString(buffer[1..]);
      IsHexOfCons(head, rest, buffer);
      head + rest
  }

  lemma IsHexOfCons(head: string, rest: string, buffer: seq<Byte>)
    requires buffer != [] && head == LowerPair(buffer[0]) && IsHexOf(rest, buffer[1..])
    ensures IsHexOf(head + rest, buffer)
  {
    var x := buffer[0];
    assert x % 256 == x;
    IsHexOfPair(x);
    IsHexOfAppend(head, [buffer[0]], rest, buffer[1..]);
    assert [buffer[0]] + buffer[1..] == buffer;
  }

  lemma IsHexOfPair(x: int)
    ensures IsHexOf(LowerPair(x % 256), [x])
  {
    var p := LowerPair(x % 256);
    assert p[0..2] == p;
  }

  /** On a buffer (elements 0..255) the two hex encoders of util agree. */
  lemma HexEncodersAgree(buffer: seq<Byte>)
    ensures HexJoin(buffer) == ArrayBufferToHexString(buffer)
  {
    HexJoinOfBytes(buffer);
    IsHexOfUnique(HexJoin(buffer), ArrayBufferToHexString(buffer), buffer);
  }

  // ---------------------------------------------------------------------------
  // util.hexStringToArrayBuffer
  // ---------------------------------------------------------------------------

  /** The characters JavaScript's `\s` class matches: WhiteSpace and LineTerminator. */
  predicate IsJsWhitespace(ch: char)
    ensures IsJsWhitespace(ch) ==> !IsHexDigit(ch) && ch != 'x' && ch != '-' && ch != ':'
    ensures ch == ' ' || ch == '\t' || ch == '\n' || ch == '\r' ==> IsJsWhitespace(ch)
  {
    || ch == '\t' || ch == '\n' || ch == '\U{000B}' || ch == '\U{000C}' || ch == '\r' || ch == ' '
    || ch == '\U{00A0}' || ch == '\U{1680}' || '\U{2000}' <= ch <= '\U{200A}'
    || ch == '\U{2028}' || ch == '\U{2029}' || ch == '\U{202F}' || ch == '\U{205F}'
    || ch == '\U{3000}' || ch == '\U{FEFF}'
  }

  /** A character of the class `[\s-:]`: whitespace, dash or colon. */
  predicate IsDelimiter(ch: char)
    ensures IsDelimiter(ch) ==> !IsHexDigit(ch) && ch != 'x'
    ensures ch == '-' || ch == ':' || ch == ' ' ==> IsDelimiter(ch)
  {
    IsJsWhitespace(ch) || ch == '-' || ch == ':'
  }

  /** hexString.replace(/[\s-:]/g, ''): the characters of s that are not delimiters, in order. */
  function RemoveDelimiters(s: string): (r: string)
    ensures |r| <= |s|
    ensures forall ch :: ch in r <==> ch in s && !IsDelimiter(ch)
  {
    if s == [] then []
    else (if IsDelimiter(s[0]) then [] else [s[0]]) + RemoveDelimiters(s[1..])
  }

  /** hexString.replace(/^0x/, ''): one leading "0x" (lowercase x only) is dropped. */
  function RemoveHexPrefix(s: string): (r: string)
    ensures |s| >= 2 && s[..2] == "0x" ==> "0x" + r == s
    ensures !(|s| >= 2 && s[..2] == "0x") ==> r == s
  {
    if |s| >= 2 && s[0] == '0' && s[1] == 'x' then s[2..] else s
  }

  /** The string hexStringToArrayBuffer scans for digit pairs. */
  function Cleaned(hexString: string): (r: string)
    ensures |r| <= |hexString|
    ensures forall ch :: ch in r ==> ch in hexString && !IsDelimiter(ch)
    ensures r == RemoveDelimiters(hexString) || "0x" + r == RemoveDelimiters(hexString)
  {
    RemoveHexPrefix(RemoveDelimiters(hexString))
  }

  /**
   * hexString.match(/[\dA-F]{2}/gi): the successive leftmost matches of two
   * adjacent hex digits, scanning on after each match.
   */
  function HexPairs(s: string): (pairs: seq<string>)
    ensures |pairs| <= |s| / 2
    ensures forall k :: 0 <= k < |pairs| ==> |pairs[k]| == 2 && IsHexDigit(pairs[k][0]) && IsHexDigit(pairs[k][1])
    decreases |s|
  {
    if |s| < 2 then []
    else if IsHexDigit(s[0]) && IsHexDigit(s[1]) then [s[..2]] + HexPairs(s[2..])
    else HexPairs(s[1..])
  }

  /** parseInt(pair, 16) on two hex digits. */
  function ParseHexPair(pair: string): (v: Byte)
    requires |pair| == 2 && IsHexDigit(pair[0]) && IsHexDigit(pair[1])
    ensures v / 16 == HexDigitValue(pair[0]) && v % 16 == HexDigitValue(pair[1])
  {
    16 * HexDigitValue(pair[0]) + HexDigitValue(pair[1])
  }

  /** What `null.map(...)` throws when the pair match finds nothing. */
  const NullPairsError := "TypeError: pairs is null"

  /**
   * util.hexStringToArrayBuffer: strip the delimiters and one leading "0x",
   * then read each matched digit pair as one byte; throws when nothing matched.
   */
  function HexStringToArrayBuffer(hexString: string): (r: Result<seq<Byte>, string>)
    ensures r.Failure? ==> r.error == NullPairsError
    ensures r.Success? ==> 0 < |r.value| <= |hexString| / 2
  {
    var pairs := HexPairs(Cleaned(hexString));
    if pairs == [] then Failure(NullPairsError)
    else Success(seq(|pairs|, k requires 0 <= k < |pairs| => ParseHexPair(pairs[k])))
  }

  /** There is no pair of adjacent hex digits in s. */
  predicate NoAdjacentHexDigits(s: string)
  {
    forall i :: 0 <= i < |s| - 1 ==> !(IsHexDigit(s[i]) && IsHexDigit(s[i + 1]))
  }

  /** The pair match finds nothing exactly when no two hex digits are adjacent. */
  lemma {:induction false} HexPairsEmpty(s: string)
    ensures HexPairs(s) == [] <==> NoAdjacentHexDigits(s)
    decreases |s|
  {
    if |s| >= 2 && !(IsHexDigit(s[0]) && IsHexDigit(s[1])) {
      HexPairsEmpty(s[1..]);
      assert forall i :: 1 <= i < |s| - 1 ==> s[i] == s[1..][i - 1] && s[i + 1] == s[1..][i];
    }
  }

  /** hexStringToArrayBuffer fails exactly when the cleaned string has no two adjacent hex digits. */
  lemma HexStringToArrayBufferFails(hexString: string)
    ensures HexStringToArrayBuffer(hexString).Failure? <==> NoAdjacentHexDigits(Cleaned(hexString))
  {
    HexPairsEmpty(Cleaned(hexString));
  }

  predicate AllHexDigits(s: string)
  {
    forall i :: 0 <= i < |s| ==> IsHexDigit(s[i])
  }

  /** On a string of hex digits the match takes consecutive pairs and drops a trailing odd digit. */
  lemma {:induction false} HexPairsOfDigits(s: string)
    requires AllHexDigits(s)
    ensures |HexPairs(s)| == |s| / 2
    ensures forall k :: 0 <= k < |s| / 2 ==> HexPairs(s)[k] == s[2 * k..2 * k + 2]
    decreases |s|
  {
    if |s| >= 2 {
      var rest := s[2..];
      assert AllHexDigits(rest) by {
        assert forall i :: 0 <= i < |rest| ==> rest[i] == s[i + 2];
      }
      HexPairsOfDigits(rest);
      forall k | 1 <= k < |s| / 2
        ensures HexPairs(s)[k] == s[2 * k..2 * k + 2]
      {
        assert HexPairs(s)[k] == HexPairs(rest)[k - 1];
        assert rest[2 * (k - 1)..2 * (k - 1) + 2] == s[2 * k..2 * k + 2];
      }
    }
  }

  /** A string of delimiter-free characters passes the delimiter filter unchanged. */
  lemma {:induction false} RemoveDelimitersOfPlain(s: string)
    requires forall i :: 0 <= i < |s| ==> !IsDelimiter(s[i])
    ensures RemoveDelimiters(s) == s
  {
    if s != [] {
      RemoveDelimitersOfPlain(s[1..]);
    }
  }

  /**
   * A non-empty string of hex digits of even length converts to one byte per
   * digit pair, in order and in either letter case.
   */
  lemma HexDigitsToArrayBuffer(s: string)
    requires AllHexDigits(s) && |s| % 2 == 0 && |s| > 0
    ensures HexStringToArrayBuffer(s).Success?
    ensures HexStringToArrayBuffer(s).value
         == seq(|s| / 2, k requires 0 <= k < |s| / 2 => 16 * HexDigitValue(s[2 * k]) + HexDigitValue(s[2 * k + 1]))
  {
    CleanedOfDigits(s);
    HexPairsOfDigits(s);
    ParsePairsOfDigits(s, HexPairs(s));
  }

  /** Neither filter changes a string of two or more hex digits. */
  lemma CleanedOfDigits(s: string)
    requires AllHexDigits(s) && |s| >= 2
    ensures Cleaned(s) == s
  {
    forall i | 0 <= i < |s|
      ensures !IsDelimiter(s[i])
    {
      assert IsHexDigit(s[i]);
    }
    RemoveDelimitersOfPlain(s);
    assert s[1] != 'x';
  }

  /** Reading the consecutive digit pairs of s gives one byte per pair. */
  lemma ParsePairsOfDigits(s: string, pairs: seq<string>)
    requires AllHexDigits(s) && |pairs| == |s| / 2
    requires forall k :: 0 <= k < |pairs| ==> |pairs[k]| == 2 && IsHexDigit(pairs[k][0]) && IsHexDigit(pairs[k][1])
    requires forall k :: 0 <= k < |s| / 2 ==> pairs[k] == s[2 * k..2 * k + 2]
    ensures seq(|pairs|, k requires 0 <= k < |pairs| => ParseHexPair(pairs[k]))
         == seq(|s| / 2, k requires 0 <= k < |s| / 2 => 16 * HexDigitValue(s[2 * k]) + HexDigitValue(s[2 * k + 1]))
  {
    forall k | 0 <= k < |pairs|
      ensures ParseHexPair(pairs[k]) == 16 * HexDigitValue(s[2 * k]) + HexDigitValue(s[2 * k + 1])
    {
      assert pairs[k] == s[2 * k..2 * k + 2];
    }
  }

  /** The hex of bytes consists of hex digits, and each pair reads back as its byte. */
  lemma HexOfIsDigits(s: string, bytes: seq<Byte>)
    requires IsHexOf(s, bytes)
    ensures AllHexDigits(s)
    ensures forall k :: 0 <= k < |bytes| ==> 16 * HexDigitValue(s[2 * k]) + HexDigitValue(s[2 * k + 1]) == bytes[k]
  {
    forall k | 0 <= k < |bytes|
      ensures IsHexDigit(s[2 * k]) && IsHexDigit(s[2 * k + 1])
      ensures 16 * HexDigitValue(s[2 * k]) + HexDigitValue(s[2 * k + 1]) == bytes[k]
    {
      PairDigits(s, bytes, k);
    }
    forall i | 0 <= i < |s|
      ensures IsHexDigit(s[i])
    {
      var k := i / 2;
      PairDigits(s, bytes, k);
      assert i == 2 * k || i == 2 * k + 1;
    }
  }

  /** The digit pair at 2k and 2k + 1 of the hex of bytes reads back as byte k. */
  lemma PairDigits(s: string, bytes: seq<Byte>, k: nat)
    requires IsHexOf(s, bytes) && k < |bytes|
    ensures IsHexDigit(s[2 * k]) && IsHexDigit(s[2 * k + 1])
    ensures 16 * HexDigitValue(s[2 * k]) + HexDigitValue(s[2 * k + 1]) == bytes[k]
  {
    var pair := s[2 * k..2 * k + 2];
    assert pair == LowerPair(bytes[k] % 256);
    assert bytes[k] % 256 == bytes[k];
    LowerPairIsHex(bytes[k]);
    assert s[2 * k] == pair[0] && s[2 * k + 1] == pair[1];
  }

  /** Any string that is the hex of a non-empty byte sequence converts back to it. */
  lemma ParseHexOf(s: string, bytes: seq<Byte>)
    requires IsHexOf(s, bytes) && bytes != []
    ensures HexStringToArrayBuffer(s) == Success(bytes)
  {
    HexOfIsDigits(s, bytes);
    HexDigitsToArrayBuffer(s);
    var value := HexStringToArrayBuffer(s).value;
    assert |value| == |bytes|;
    assert forall k :: 0 <= k < |bytes| ==> value[k] == bytes[k];
    assert value == bytes;
  }

  /** hexStringToArrayBuffer inverts arrayBufferToHexString on every non-empty buffer. */
  lemma HexRoundTrip(buffer: seq<Byte>)
    ensures buffer != [] ==> HexStringToArrayBuffer(ArrayBufferToHexString(buffer)) == Success(buffer)
    ensures buffer == [] ==> HexStringToArrayBuffer(ArrayBufferToHexString(buffer)) == Failure(NullPairsError)
  {
    var s := ArrayBufferToHexString(buffer);
    if buffer != [] {
      ParseHexOf(s, buffer);
    } else {
      assert s == "" && Cleaned(s) == "";
    }
  }

  /** The delimiter filter works piecewise: filtering a + b filters a, then b. */
  lemma {:induction false} RemoveDelimitersAppend(a: string, b: string)
    ensures RemoveDelimiters(a + b) == RemoveDelimiters(a) + RemoveDelimiters(b)
  {
    if a == [] {
      assert a + b == b;
    } else {
      RemoveDelimitersAppend(a[1..], b);
      RemoveDelimitersAppendStep(a, b);
    }
  }

  /** The step of RemoveDelimitersAppend: the first character of a, then the rest. */
  lemma RemoveDelimitersAppendStep(a: string, b: string)
    requires a != []
    requires RemoveDelimiters(a[1..] + b) == RemoveDelimiters(a[1..]) + RemoveDelimiters(b)
    ensures RemoveDelimiters(a + b) == RemoveDelimiters(a) + RemoveDelimiters(b)
  {
    var head := if IsDelimiter(a[0]) then [] else [a[0]];
    TailOfAppend(a, b);
    RemoveDelimitersUnfold(a + b, head, a[1..] + b);
    RemoveDelimitersUnfold(a, head, a[1..]);
    ConcatAssoc(head, RemoveDelimiters(a[1..]), RemoveDelimiters(b));
  }

  lemma TailOfAppend(a: string, b: string)
    requires a != []
    ensures (a + b)[0] == a[0] && (a + b)[1..] == a[1..] + b
  { }

  lemma RemoveDelimitersUnfold(s: string, head: string, tail: string)
    requires s != [] && head == (if IsDelimiter(s[0]) then [] else [s[0]]) && tail == s[1..]
    ensures RemoveDelimiters(s) == head + RemoveDelimiters(tail)
  { }

  lemma ConcatAssoc(x: string, y: string, z: string)
    ensures x + (y + z) == (x + y) + z
  { }

  /** A delimiter inserted anywhere is filtered out again. */
  lemma InsertDelimiter(a: string, d: char, b: string)
    requires IsDelimiter(d)
    ensures RemoveDelimiters(a + [d] + b) == RemoveDelimiters(a + b)
  {
    var ad := a + [d];
    RemoveDelimitersAppend(ad, b);
    RemoveDelimitersAppend(a, [d]);
    RemoveDelimitersAppend(a, b);
    assert [d][1..] == [];
    assert RemoveDelimiters([d]) == [];
    assert RemoveDelimiters(ad) == RemoveDelimiters(a);
  }

  /**
   * A string of hex digits converts back to its bytes when delimiters are
   * inserted into it, or when it is written with a leading "0x".
   */
  lemma DelimitedHexParses(t: string, s: string, bytes: seq<Byte>)
    requires IsHexOf(s, bytes) && bytes != []
    requires RemoveDelimiters(t) == s || RemoveDelimiters(t) == "0x" + s
    ensures HexStringToArrayBuffer(t) == Success(bytes)
  {
    HexOfIsDigits(s, bytes);
    CleanedOfDigits(s);
    if RemoveDelimiters(t) == s {
      assert Cleaned(t) == Cleaned(s);
    } else {
      assert ("0x" + s)[..2] == "0x" && ("0x" + s)[2..] == s;
      assert Cleaned(t) == s;
    }
    ParseHexOf(s, bytes);
  }

  /** pos + d, entry by entry. */
  function Shift(pos: seq<nat>, d: nat): (r: seq<nat>)
    ensures |r| == |pos| && forall k :: 0 <= k < |pos| ==> r[k] == pos[k] + d
  {
    seq(|pos|, k requires 0 <= k < |pos| => pos[k] + d)
  }

  /** Where in s the match finds each of its pairs. */
  function PairStarts(s: string): seq<nat>
    decreases |s|
  {
    if |s| < 2 then []
    else if IsHexDigit(s[0]) && IsHexDigit(s[1]) then [0] + Shift(PairStarts(s[2..]), 2)
    else Shift(PairStarts(s[1..]), 1)
  }

  /** pairs[k] is the two characters of s at pos[k], and the positions do not overlap. */
  predicate PairsAt(s: string, pairs: seq<string>, pos: seq<nat>)
  {
    && |pos| == |pairs|
    && (forall k :: 0 <= k < |pos| ==> pos[k] + 2 <= |s| && pairs[k] == s[pos[k]..pos[k] + 2])
    && (forall k :: 0 <= k < |pos| - 1 ==> pos[k] + 2 <= pos[k + 1])
  }

  /** Every two adjacent hex digits of s overlap some matched pair: the match skips none. */
  predicate Covers(s: string, pos: seq<nat>)
  {
    forall j :: 0 <= j < |s| - 1 && IsHexDigit(s[j]) && IsHexDigit(s[j + 1]) ==> Overlaps(pos, j)
  }

  /** Some pair found at pos[k] contains position j. */
  predicate Overlaps(pos: seq<nat>, j: int)
  {
    exists k :: 0 <= k < |pos| && pos[k] <= j <= pos[k] + 1
  }

  /**
   * The pairs are taken from s at increasing, non-overlapping positions, and
   * every two adjacent hex digits of s lie within one of them.
   */
  lemma {:induction false} HexPairsAt(s: string)
    ensures PairsAt(s, HexPairs(s), PairStarts(s))
    ensures Covers(s, PairStarts(s))
    decreases |s|
  {
    if |s| >= 2 {
      var d := if IsHexDigit(s[0]) && IsHexDigit(s[1]) then 2 else 1;
      var rest := s[d..];
      HexPairsAt(rest);
      if d == 2 {
        TakePair(s, HexPairs(rest), PairStarts(rest));
      } else {
        ShiftPairsAt(s, d, HexPairs(rest), PairStarts(rest));
        forall j | 0 <= j < |s| - 1 && IsHexDigit(s[j]) && IsHexDigit(s[j + 1])
          ensures Overlaps(PairStarts(s), j)
        {
          assert j >= 1;
          assert rest[j - 1] == s[j] && rest[j] == s[j + 1];
          assert Overlaps(PairStarts(rest), j - 1);
          var k :| 0 <= k < |PairStarts(rest)| && PairStarts(rest)[k] <= j - 1 <= PairStarts(rest)[k] + 1;
          assert PairStarts(s)[k] == PairStarts(rest)[k] + 1;
        }
      }
    }
  }

  /** Pairs found in s[d..] are found in s d positions further on. */
  lemma ShiftPairsAt(s: string, d: nat, pairs: seq<string>, pos: seq<nat>)
    requires d <= |s| && PairsAt(s[d..], pairs, pos)
    ensures PairsAt(s, pairs, Shift(pos, d))
  {
    var p := Shift(pos, d);
    forall k | 0 <= k < |pos|
      ensures p[k] + 2 <= |s| && pairs[k] == s[p[k]..p[k] + 2]
    {
      assert s[d..][pos[k]..pos[k] + 2] == s[p[k]..p[k] + 2];
    }
  }

  /** The pair at the front of s, then the pairs found in s[2..]. */
  lemma TakePair(s: string, pairs: seq<string>, q: seq<nat>)
    requires |s| >= 2 && IsHexDigit(s[0]) && IsHexDigit(s[1])
    requires PairsAt(s[2..], pairs, q) && Covers(s[2..], q)
    ensures PairsAt(s, [s[..2]] + pairs, [0] + Shift(q, 2))
    ensures Covers(s, [0] + Shift(q, 2))
  {
    ShiftPairsAt(s, 2, pairs, q);
    ConsPairAt(s, pairs, Shift(q, 2));
    CoversTake(s, q);
  }

  /** A pair at position 0 goes in front of pairs found from position 2 on. */
  lemma ConsPairAt(s: string, pairs: seq<string>, p: seq<nat>)
    requires |s| >= 2 && PairsAt(s, pairs, p)
    requires forall k :: 0 <= k < |p| ==> 2 <= p[k]
    ensures PairsAt(s, [s[..2]] + pairs, [0] + p)
  {
    var ps, qs := [0] + p, [s[..2]] + pairs;
    forall k | 0 <= k < |ps|
      ensures ps[k] + 2 <= |s| && qs[k] == s[ps[k]..ps[k] + 2]
    {
      if k > 0 {
        assert ps[k] == p[k - 1] && qs[k] == pairs[k - 1];
      }
    }
    forall k | 0 <= k < |ps| - 1
      ensures ps[k] + 2 <= ps[k + 1]
    {
      if k > 0 {
        assert ps[k] == p[k - 1] && ps[k + 1] == p[k];
      }
    }
  }

  /** Adjacent digits from position 2 on are covered as in s[2..]; those at 0 and 1 by the front pair. */
  lemma CoversTake(s: string, q: seq<nat>)
    requires |s| >= 2 && Covers(s[2..], q)
    ensures Covers(s, [0] + Shift(q, 2))
  {
    var p := [0] + Shift(q, 2);
    forall j | 0 <= j < |s| - 1 && IsHexDigit(s[j]) && IsHexDigit(s[j + 1])
      ensures Overlaps(p, j)
    {
      if j >= 2 {
        assert s[2..][j - 2] == s[j] && s[2..][j - 1] == s[j + 1];
        assert Overlaps(q, j - 2);
        var k :| 0 <= k < |q| && q[k] <= j - 2 <= q[k] + 1;
        assert p[k + 1] == q[k] + 2;
      } else {
        assert p[0] <= j <= p[0] + 1;
      }
    }
  }

  // ---------------------------------------------------------------------------
  // util.stringToBytes
  // ---------------------------------------------------------------------------

  /** How many bytes stringToBytes emits for a code unit: 1, 2 or 3. */
  function Width(c: CodeUnit): (w: nat)
    ensures 1 <= w <= 3
    ensures w == |EncodeUnit(c)|
  {
    if c < 0x80 then 1 else if c < 0x800 then 2 else 3
  }

  function TotalWidth(s: seq<CodeUnit>): nat
  {
    if s == [] then 0 else Width(s[0]) + TotalWidth(s[1..])
  }

  /** The bytes stringToBytes pushes for one code unit. */
  function EncodeUnit(c: CodeUnit): seq<int>
  {
    if c < 128 then [c]
    else if c < 2048 then [Or(ShiftRight(c, 6), 192), Or(And(c, 63), 128)]
    else [Or(ShiftRight(c, 12), 224), Or(And(ShiftRight(c, 6), 63), 128), Or(And(c, 63), 128)]
  }

  /**
   * One byte 0xxxxxxx below 0x80; 110xxxxx 10xxxxxx below 0x800; otherwise
   * 1110xxxx 10xxxxxx 10xxxxxx; the x bits are those of c, high bits first.
   */
  lemma EncodeUnitShape(c: CodeUnit)
    ensures |EncodeUnit(c)| == Width(c)
    ensures c < 0x80 ==> EncodeUnit(c) == [c]
    ensures 0x80 <= c < 0x800 ==> EncodeUnit(c) == [0xC0 + c / 64, 0x80 + c % 64]
    ensures 0x800 <= c ==> EncodeUnit(c) == [0xE0 + c / 4096, 0x80 + (c / 64) % 64, 0x80 + c % 64]
  {
    if 0x80 <= c < 0x800 {
      EncodeUnitShape2(c);
    } else if 0x800 <= c {
      EncodeUnitShape3(c);
    }
  }

  lemma EncodeUnitShape2(c: CodeUnit)
    requires 0x80 <= c < 0x800
    ensures EncodeUnit(c) == [0xC0 + c / 64, 0x80 + c % 64]
  {
    Lead2(c);
    TrailBits(c);
  }

  lemma EncodeUnitShape3(c: CodeUnit)
    requires 0x800 <= c
    ensures EncodeUnit(c) == [0xE0 + c / 4096, 0x80 + (c / 64) % 64, 0x80 + c % 64]
  {
    Lead3(c);
    Shifts(c);
    TrailBits(c / 64);
    TrailBits(c);
  }

  /** (c >> 6) | 192, the lead byte of a two-byte form */
  lemma Lead2(c: CodeUnit)
    requires c < 0x800
    ensures Or(ShiftRight(c, 6), 192) == 0xC0 + c / 64
  {
    Shifts(c);
    assert Pow2(6) == 64;
    OrDisjoint(3, c / 64, 6);
  }

  /** (c >> 12) | 224, the lead byte of a three-byte form */
  lemma Lead3(c: CodeUnit)
    ensures Or(ShiftRight(c, 12), 224) == 0xE0 + c / 4096
  {
    Shifts(c);
    assert Pow2(4) == 16 && Pow2(12) == 4096;
    OrDisjoint(14, c / 4096, 4);
  }

  /** (x & 63) | 128 == 0x80 + x % 64 */
  lemma TrailBits(x: nat)
    ensures Or(And(x, 63), 128) == 0x80 + x % 64
  {
    assert Pow2(6) == 64;
    AndLowMasks(x);
    OrDisjoint(2, x % 64, 6);
  }

  /** The bytes stringToBytes returns for s: each code unit's bytes, in order. */
  function Encode(s: seq<CodeUnit>): (bytes: seq<int>)
    ensures |bytes| == TotalWidth(s)
    ensures |s| <= |bytes| <= 3 * |s|
  {
    if s == [] then []
    else
      EncodeUnitShape(s[0]);
      EncodeUnit(s[0]) + Encode(s[1..])
  }

  lemma {:induction false} EncodeAppend(a: seq<CodeUnit>, b: seq<CodeUnit>)
    ensures Encode(a + b) == Encode(a) + Encode(b)
  {
    if a == [] {
      assert a + b == b;
    } else {
      var ab := a + b;
      assert ab[0] == a[0];
      assert ab[1..] == a[1..] + b;
      EncodeAppend(a[1..], b);
      EncodeCons(ab);
      EncodeCons(a);
      var u := EncodeUnit(a[0]);
      assert u + (Encode(a[1..]) + Encode(b)) == (u + Encode(a[1..])) + Encode(b);
    }
  }

  lemma EncodeCons(s: seq<CodeUnit>)
    requires s != []
    ensures Encode(s) == EncodeUnit(s[0]) + Encode(s[1..])
  {
  }

  lemma EncodeSingle(c: CodeUnit)
    ensures Encode([c]) == EncodeUnit(c)
  {
    assert [c][1..] == [];
    assert EncodeUnit(c) + [] == EncodeUnit(c);
  }

  /** util.stringToBytes: the UTF-8 bytes of each code unit, one, two or three per unit. */
  method StringToBytes(str: seq<CodeUnit>) returns (bytes: seq<int>)
    ensures bytes == Encode(str)
  {
    bytes := [];
    for n := 0 to |str|
      invariant bytes == Encode(str[..n])
    {
      var c := str[n];
      ghost var before := bytes;
      if c < 128 {
        bytes := bytes + [c];
      } else if c > 127 && c < 2048 {
        bytes := bytes + [Or(ShiftRight(c, 6), 192)];
        bytes := bytes + [Or(And(c, 63), 128)];
      } else {
        bytes := bytes + [Or(ShiftRight(c, 12), 224)];
        bytes := bytes + [Or(And(ShiftRight(c, 6), 63), 128)];
        bytes := bytes + [Or(And(c, 63), 128)];
      }
      assert bytes == before + EncodeUnit(c);
      EncodeSingle(c);
      EncodeAppend(str[..n], [c]);
      assert str[..n + 1] == str[..n] + [c];
    }
    assert str[..|str|] == str;
  }

  // ---------------------------------------------------------------------------
  // util.bytesToString
  // ---------------------------------------------------------------------------

  /** What bytesToString throws on a truncated sequence. */
  const TruncatedError := "Un-expected encoding error, UTF-8 stream truncated, or incorrect"

  /** bytes[i] & 0xff, which for every integer is its remainder mod 256 (MaskByteFF). */
  function Octet(x: int): (b: Byte)
    ensures b == MaskByte(x, 0xFF)
    ensures 0 <= x < 256 ==> b == x
    ensures (x - b) % 256 == 0
  {
    MaskByteFF(x);
    x % 256
  }

  /** String.fromCharCode(n): the code unit n mod 2^16. */
  function FromCharCode(n: nat): (u: CodeUnit)
    ensures n < 0x1_0000 ==> u == n
    ensures (n - u) % 0x1_0000 == 0
  {
    n % 0x1_0000
  }

  /** The masked byte-order-mark test on the first three bytes. */
  predicate HasBom(bytes: seq<int>)
  {
    && |bytes| >= 3
    && MaskByte(bytes[0], 0xEF) == 0xEF
    && MaskByte(bytes[1], 0xBB) == 0xBB
    && MaskByte(bytes[2], 0xBF) == 0xBF
  }

  /** How far one decoding step advances for lead byte c: 1, 2 or 3. */
  function LeadWidth(c: Byte): (w: nat)
    ensures 1 <= w <= 3
  {
    if c < 128 then 1 else if c > 191 && c < 224 then 2 else 3
  }

  /** The outcome of decoding, with code units prefixed to successful results only. */
  function PrependAll(p: seq<CodeUnit>, r: Result<seq<CodeUnit>, string>): Result<seq<CodeUnit>, string>
  {
    if r.Success? then Success(p + r.value) else r
  }

  /** The unit a two-byte form decodes to: ((c & 31) << 6) | (c2 & 63). */
  function Unit2(c: Byte, c2: Byte): (u: CodeUnit)
    ensures u == (c % 32) * 64 + c2 % 64
  {
    Unit2Value(c, c2);
    FromCharCode(Or(ShiftLeft(And(c, 31), 6), And(c2, 63)))
  }

  /** The low five bits of c, then the low six bits of c2. */
  lemma Unit2Value(c: Byte, c2: Byte)
    ensures Or(ShiftLeft(And(c, 31), 6), And(c2, 63)) == (c % 32) * 64 + c2 % 64
  {
    AndLowMasks(c);
    AndLowMasks(c2);
    Shifts(c % 32);
    var hi, lo := ShiftLeft(And(c, 31), 6), And(c2, 63);
    assert hi == (c % 32) * 64 && lo == c2 % 64;
    assert Pow2(6) == 64;
    OrOfDisjoint(hi, lo, c % 32, 6, 64);
  }

  /** The unit a three-byte form decodes to: ((c & 15) << 12) | ((c2 & 63) << 6) | (c3 & 63). */
  function Unit3(c: Byte, c2: Byte, c3: Byte): (u: CodeUnit)
    ensures u == (c % 16) * 4096 + (c2 % 64) * 64 + c3 % 64
  {
    Unit3Value(c, c2, c3);
    FromCharCode(Or(Or(ShiftLeft(And(c, 15), 12), ShiftLeft(And(c2, 63), 6)), And(c3, 63)))
  }

  /** The low four bits of c, then the low six bits of c2 and of c3. */
  lemma Unit3Value(c: Byte, c2: Byte, c3: Byte)
    ensures Or(Or(ShiftLeft(And(c, 15), 12), ShiftLeft(And(c2, 63), 6)), And(c3, 63))
         == (c % 16) * 4096 + (c2 % 64) * 64 + c3 % 64
  {
    var hi, lo := Or(ShiftLeft(And(c, 15), 12), ShiftLeft(And(c2, 63), 6)), And(c3, 63);
    Unit3Top(c, c2);
    var top := (c % 16) * 64 + c2 % 64;
    assert hi == top * 64;
    AndLowMasks(c3);
    assert lo == c3 % 64;
    assert Pow2(6) == 64;
    OrOfDisjoint(hi, lo, top, 6, 64);
  }

  /** The two high parts of a three-byte form, placed side by side. */
  lemma Unit3Top(c: Byte, c2: Byte)
    ensures Or(ShiftLeft(And(c, 15), 12), ShiftLeft(And(c2, 63), 6)) == (c % 16) * 4096 + (c2 % 64) * 64
  {
    AndLowMasks(c);
    AndLowMasks(c2);
    Shifts(c % 16);
    Shifts(c2 % 64);
    var hi, lo := ShiftLeft(And(c, 15), 12), ShiftLeft(And(c2, 63), 6);
    assert hi == (c % 16) * 4096 && lo == (c2 % 64) * 64 < 4096;
    assert Pow2(12) == 4096;
    OrOfDisjoint(hi, lo, c % 16, 12, 4096);
  }

  /** The decoding loop of bytesToString, run on the bytes from its start index on. */
  function DecodeUnits(b: seq<int>): (r: Result<seq<CodeUnit>, string>)
    ensures r.Success? ==> |r.value| <= |b| <= 3 * |r.value|
    ensures r.Failure? ==> r.error == TruncatedError
    decreases |b|
  {
    if b == [] then Success([])
    else
      var c := Octet(b[0]);
      if c < 128 then PrependAll([FromCharCode(c)], DecodeUnits(b[1..]))
      else if c > 191 && c < 224 then
        if 1 >= |b| then Failure(TruncatedError)
        else PrependAll([Unit2(c, Octet(b[1]))], DecodeUnits(b[2..]))
      else
        if 2 >= |b| || 1 >= |b| then Failure(TruncatedError)
        else PrependAll([Unit3(c, Octet(b[1]), Octet(b[2]))], DecodeUnits(b[3..]))
  }

  lemma PrependAllNil(r: Result<seq<CodeUnit>, string>)
    ensures PrependAll([], r) == r
  {
    if r.Success? {
      assert [] + r.value == r.value;
    }
  }

  lemma PrependAllPrependAll(p: seq<CodeUnit>, q: seq<CodeUnit>, r: Result<seq<CodeUnit>, string>)
    ensures PrependAll(p, PrependAll(q, r)) == PrependAll(p + q, r)
  {
    if r.Success? {
      assert p + (q + r.value) == (p + q) + r.value;
    }
  }

  /** One step of the decoding loop at index i, stated on the suffix bytes[i..]. */
  lemma DecodeUnitsStep(bytes: seq<int>, i: nat)
    requires i < |bytes|
    ensures var c := Octet(bytes[i]);
      DecodeUnits(bytes[i..]) ==
        if c < 128 then PrependAll([FromCharCode(c)], DecodeUnits(bytes[i + 1..]))
        else if c > 191 && c < 224 then
          if i + 1 >= |bytes| then Failure(TruncatedError)
          else PrependAll([Unit2(c, Octet(bytes[i + 1]))], DecodeUnits(bytes[i + 2..]))
        else
          if i + 2 >= |bytes| || i + 1 >= |bytes| then Failure(TruncatedError)
          else PrependAll([Unit3(c, Octet(bytes[i + 1]), Octet(bytes[i + 2]))], DecodeUnits(bytes[i + 3..]))
  {
    var b := bytes[i..];
    assert b[0] == bytes[i];
    assert b[1..] == bytes[i + 1..];
    if i + 1 < |bytes| {
      assert b[1] == bytes[i + 1];
      assert b[2..] == bytes[i + 2..];
    }
    if i + 2 < |bytes| {
      assert b[2] == bytes[i + 2];
      assert b[3..] == bytes[i + 3..];
    }
  }

  /** The result of bytesToString: decoding starts at index 3 after a BOM, else at 0. */
  function Decode(bytes: seq<int>): (r: Result<seq<CodeUnit>, string>)
    ensures r.Success? ==> |r.value| <= |bytes|
    ensures r.Failure? ==> r.error == TruncatedError
  {
    if HasBom(bytes) then DecodeUnits(bytes[3..]) else DecodeUnits(bytes)
  }

  /** util.bytesToString */
  method BytesToString(bytes: seq<int>) returns (result: Result<seq<CodeUnit>, string>)
    ensures result == Decode(bytes)
  {
    var text: seq<CodeUnit> := [];
    var i := 0;
    if |bytes| >= 3 {
      if MaskByte(bytes[0], 0xEF) == 0xEF && MaskByte(bytes[1], 0xBB) == 0xBB && MaskByte(bytes[2], 0xBF) == 0xBF {
        i := 3;
      }
    }
    assert Decode(bytes) == DecodeUnits(bytes[i..]) by {
      assert bytes[0..] == bytes;
    }
    PrependAllNil(DecodeUnits(bytes[i..]));
    while i < |bytes|
      invariant 0 <= i <= |bytes|
      invariant Decode(bytes) == PrependAll(text, DecodeUnits(bytes[i..]))
      decreases |bytes| - i
    {
      var c := MaskByte(bytes[i], 0xFF);
      MaskByteFF(bytes[i]);
      DecodeUnitsStep(bytes, i);
      if c < 128 {
        PrependAllPrependAll(text, [FromCharCode(c)], DecodeUnits(bytes[i + 1..]));
        text := text + [FromCharCode(c)];
        i := i + 1;
      } else if c > 191 && c < 224 {
        if i + 1 >= |bytes| {
          return Failure(TruncatedError);
        }
        var c2 := MaskByte(bytes[i + 1], 0xFF);
        MaskByteFF(bytes[i + 1]);
        PrependAllPrependAll(text, [Unit2(c, c2)], DecodeUnits(bytes[i + 2..]));
        text := text + [Unit2(c, c2)];
        i := i + 2;
      } else {
        if i + 2 >= |bytes| || i + 1 >= |bytes| {
          return Failure(TruncatedError);
        }
        var c2 := MaskByte(bytes[i + 1], 0xFF);
        var c3 := MaskByte(bytes[i + 2], 0xFF);
        MaskByteFF(bytes[i + 1]);
        MaskByteFF(bytes[i + 2]);
        PrependAllPrependAll(text, [Unit3(c, c2, c3)], DecodeUnits(bytes[i + 3..]));
        text := text + [Unit3(c, c2, c3)];
        i := i + 3;
      }
    }
    assert bytes[i..] == [];
    assert text + [] == text;
    return Success(text);
  }

  // ---------------------------------------------------------------------------
  // Properties of the UTF-8 codec
  // ---------------------------------------------------------------------------

  /** Every value stringToBytes emits is a byte. */
  lemma {:induction false} EncodeIsBytes(s: seq<CodeUnit>)
    ensures forall i :: 0 <= i < |Encode(s)| ==> 0 <= Encode(s)[i] < 0x100
  {
    if s != [] {
      EncodeUnitShape(s[0]);
      EncodeIsBytes(s[1..]);
      var u := EncodeUnit(s[0]);
      assert Encode(s) == u + Encode(s[1..]);
    }
  }

  /** The unit a two-byte form decodes to, as a number. */
  lemma Unit2Of(c: CodeUnit)
    requires 0x80 <= c < 0x800
    ensures Unit2(0xC0 + c / 64, 0x80 + c % 64) == c
  {
    var q, r := c / 64, c % 64;
    var b0, b1 := 0xC0 + q, 0x80 + r;
    AndLowMasks(b0);
    ModUnique(b0, 32, 6, q);
    AndLowMasks(b1);
    ModUnique(b1, 64, 2, r);
    assert Pow2(6) == 64;
    Shifts(q);
    OrDisjoint(q, r, 6);
    assert And(b0, 31) == q && And(b1, 63) == r;
    assert Or(ShiftLeft(And(b0, 31), 6), And(b1, 63)) == c;
    FromCharCodeOfUnit(c);
  }

  /** The unit a three-byte form decodes to, as a number. */
  lemma Unit3Of(c: CodeUnit)
    requires 0x800 <= c
    ensures Unit3(0xE0 + c / 4096, 0x80 + (c / 64) % 64, 0x80 + c % 64) == c
  {
    var hi, mid, lo := c / 4096, (c / 64) % 64, c % 64;
    var b0, b1, b2 := 0xE0 + hi, 0x80 + mid, 0x80 + lo;
    AndLowMasks(b0);
    ModUnique(b0, 16, 14, hi);
    AndLowMasks(b1);
    ModUnique(b1, 64, 2, mid);
    AndLowMasks(b2);
    ModUnique(b2, 64, 2, lo);
    assert Pow2(6) == 64 && Pow2(12) == 4096;
    Shifts(hi);
    Shifts(mid);
    OrDisjoint(hi, mid * 64, 12);
    var top := Or(ShiftLeft(hi, 12), ShiftLeft(mid, 6));
    assert top == hi * 4096 + mid * 64;
    Digits3(c);
    assert top == (c / 64) * Pow2(6);
    OrDisjoint(c / 64, lo, 6);
    assert Or(top, lo) == c;
    assert And(b0, 15) == hi && And(b1, 63) == mid && And(b2, 63) == lo;
    assert Or(Or(ShiftLeft(And(b0, 15), 12), ShiftLeft(And(b1, 63), 6)), And(b2, 63)) == c;
    FromCharCodeOfUnit(c);
  }

  lemma FromCharCodeOfUnit(c: CodeUnit)
    ensures FromCharCode(c) == c
  {
  }

  /** A code unit is its three base-64 digits. */
  lemma Digits3(c: CodeUnit)
    ensures c / 4096 * 4096 + (c / 64) % 64 * 64 == (c / 64) * 64
    ensures c / 64 * 64 + c % 64 == c
  {
    var q := c / 64;
    assert q == (q / 64) * 64 + q % 64;
    assert q / 64 == c / 4096;
  }

  /** Decoding one code unit's bytes followed by anything yields that unit first. */
  lemma DecodeEncodeUnit(c: CodeUnit, rest: seq<int>)
    ensures DecodeUnits(EncodeUnit(c) + rest) == PrependAll([c], DecodeUnits(rest))
  {
    if c < 0x80 {
      var b := [c] + rest;
      assert b[0] == c && b[1..] == rest;
      OctetOfByte(c);
      FromCharCodeOfUnit(c);
      assert HeadUnit(b) == c;
      DecodeHead(b, 1, c, rest);
    } else if c < 0x800 {
      DecodeEncodeUnit2(c, rest);
    } else {
      DecodeEncodeUnit3(c, rest);
    }
  }

  /** A complete form of w bytes at the head of b decodes to c, then decoding goes on. */
  lemma DecodeHead(b: seq<int>, w: nat, c: CodeUnit, rest: seq<int>)
    requires b != [] && LeadWidth(Octet(b[0])) == w <= |b|
    requires HeadUnit(b) == c && b[w..] == rest
    ensures DecodeUnits(b) == PrependAll([c], DecodeUnits(rest))
  {
    DecodeUnitsShape(b);
  }

  lemma DecodeEncodeUnit2(c: CodeUnit, rest: seq<int>)
    requires 0x80 <= c < 0x800
    ensures DecodeUnits(EncodeUnit(c) + rest) == PrependAll([c], DecodeUnits(rest))
  {
    EncodeUnitShape2(c);
    var b0, b1 := 0xC0 + c / 64, 0x80 + c % 64;
    var b := [b0, b1] + rest;
    assert b[0] == b0 && b[1] == b1 && b[2..] == rest;
    HeadUnit2(c, b);
    DecodeHead(b, 2, c, rest);
  }

  lemma HeadUnit2(c: CodeUnit, b: seq<int>)
    requires 0x80 <= c < 0x800
    requires |b| >= 2 && b[0] == 0xC0 + c / 64 && b[1] == 0x80 + c % 64
    ensures LeadWidth(Octet(b[0])) == 2 && HeadUnit(b) == c
  {
    var b0, b1 := b[0], b[1];
    OctetOfByte(b0);
    OctetOfByte(b1);
    Unit2Of(c);
    assert HeadUnit(b) == Unit2(b0, b1);
  }

  lemma DecodeEncodeUnit3(c: CodeUnit, rest: seq<int>)
    requires 0x800 <= c
    ensures DecodeUnits(EncodeUnit(c) + rest) == PrependAll([c], DecodeUnits(rest))
  {
    EncodeUnitShape3(c);
    var b0, b1, b2 := 0xE0 + c / 4096, 0x80 + (c / 64) % 64, 0x80 + c % 64;
    var b := [b0, b1, b2] + rest;
    assert b[0] == b0 && b[1] == b1 && b[2] == b2 && b[3..] == rest;
    HeadUnit3(c, b);
    DecodeHead(b, 3, c, rest);
  }

  lemma HeadUnit3(c: CodeUnit, b: seq<int>)
    requires 0x800 <= c
    requires |b| >= 3 && b[0] == 0xE0 + c / 4096 && b[1] == 0x80 + (c / 64) % 64 && b[2] == 0x80 + c % 64
    ensures LeadWidth(Octet(b[0])) == 3 && HeadUnit(b) == c
  {
    var b0, b1, b2 := b[0], b[1], b[2];
    OctetOfByte(b0);
    OctetOfByte(b1);
    OctetOfByte(b2);
    Unit3Of(c);
    assert HeadUnit(b) == Unit3(b0, b1, b2);
  }

  lemma OctetOfByte(x: int)
    requires 0 <= x < 256
    ensures Octet(x) == x
  {
  }

  /** The lead byte stringToBytes writes for a unit announces exactly that unit's width. */
  lemma LeadWidthOfEncoding(c: CodeUnit)
    ensures LeadWidth(Octet(EncodeUnit(c)[0])) == Width(c)
  {
    EncodeUnitShape(c);
    OctetOfByte(EncodeUnit(c)[0]);
  }

  /** Decoding undoes encoding exactly, when decoding starts at index 0. */
  lemma {:induction false} DecodeUnitsEncode(s: seq<CodeUnit>)
    ensures DecodeUnits(Encode(s)) == Success(s)
  {
    if s != [] {
      DecodeUnitsEncode(s[1..]);
      var u := EncodeUnit(s[0]);
      assert Encode(s) == u + Encode(s[1..]);
      DecodeEncodeUnit(s[0], Encode(s[1..]));
      assert [s[0]] + s[1..] == s;
    }
  }

  /** The decoder's code unit for a complete form at the head of b. */
  function HeadUnit(b: seq<int>): CodeUnit
    requires b != [] && LeadWidth(Octet(b[0])) <= |b|
  {
    var c := Octet(b[0]);
    if c < 128 then FromCharCode(c)
    else if c > 191 && c < 224 then Unit2(c, Octet(b[1]))
    else Unit3(c, Octet(b[1]), Octet(b[2]))
  }

  /** Each decoding step consumes LeadWidth bytes, or fails when fewer remain. */
  lemma DecodeUnitsShape(b: seq<int>)
    requires b != []
    ensures LeadWidth(Octet(b[0])) > |b| ==> DecodeUnits(b) == Failure(TruncatedError)
    ensures LeadWidth(Octet(b[0])) <= |b| ==>
      DecodeUnits(b) == PrependAll([HeadUnit(b)], DecodeUnits(b[LeadWidth(Octet(b[0]))..]))
  {
    if LeadWidth(Octet(b[0])) > |b| {
      DecodeTruncated(b);
    } else {
      DecodeComplete(b);
    }
  }

  lemma DecodeTruncated(b: seq<int>)
    requires b != [] && LeadWidth(Octet(b[0])) > |b|
    ensures DecodeUnits(b) == Failure(TruncatedError)
  {
  }

  lemma DecodeComplete(b: seq<int>)
    requires b != [] && LeadWidth(Octet(b[0])) <= |b|
    ensures DecodeUnits(b) == PrependAll([HeadUnit(b)], DecodeUnits(b[LeadWidth(Octet(b[0]))..]))
  {
    var c := Octet(b[0]);
    if c < 128 {
      assert LeadWidth(c) == 1;
    } else if c > 191 && c < 224 {
      assert LeadWidth(c) == 2;
    } else {
      assert LeadWidth(c) == 3;
    }
  }

  /** The head form of p, and its unit, stay the same when bytes are appended. */
  lemma HeadUnitAppend(p: seq<int>, t: seq<int>)
    requires p != [] && LeadWidth(Octet(p[0])) <= |p|
    ensures (p + t)[0] == p[0] && HeadUnit(p + t) == HeadUnit(p)
  {
    var pt := p + t;
    assert pt[0] == p[0];
    if |p| >= 2 {
      assert pt[1] == p[1];
    }
    if |p| >= 3 {
      assert pt[2] == p[2];
    }
  }

  /** Decoding a concatenation whose first part decodes is decoding each part. */
  lemma {:induction false} DecodeUnitsAppend(p: seq<int>, t: seq<int>)
    requires DecodeUnits(p).Success?
    ensures DecodeUnits(p + t) == PrependAll(DecodeUnits(p).value, DecodeUnits(t))
    decreases |p|
  {
    if p == [] {
      assert p + t == t;
      PrependAllNil(DecodeUnits(t));
    } else {
      var w := LeadWidth(Octet(p[0]));
      DecodeUnitsShape(p);
      var pt := p + t;
      HeadUnitAppend(p, t);
      assert pt[w..] == p[w..] + t;
      DecodeHead(pt, w, HeadUnit(p), p[w..] + t);
      DecodeUnitsAppend(p[w..], t);
      PrependAllPrependAll([HeadUnit(p)], DecodeUnits(p[w..]).value, DecodeUnits(t));
    }
  }

  /**
   * Decoding stops at k: the bytes before k decode by whole steps, and the
   * lead byte at k announces more bytes than remain.
   */
  ghost predicate StopsAt(b: seq<int>, k: int)
  {
    0 <= k < |b| && DecodeUnits(b[..k]).Success? && k + LeadWidth(Octet(b[k])) > |b|
  }

  /** Decoding fails exactly when it stops at some position of the input. */
  lemma DecodeUnitsFails(b: seq<int>)
    ensures DecodeUnits(b).Failure? <==> exists k :: StopsAt(b, k)
  {
    if DecodeUnits(b).Failure? {
      var k := FailurePoint(b);
      assert StopsAt(b, k);
    }
    forall k | StopsAt(b, k)
      ensures DecodeUnits(b).Failure?
    {
      StopsAtFails(b, k);
    }
  }

  lemma StopsAtFails(b: seq<int>, k: int)
    requires StopsAt(b, k)
    ensures DecodeUnits(b).Failure?
  {
    var rest := b[k..];
    assert b[..k] + rest == b;
    DecodeUnitsAppend(b[..k], rest);
    assert rest[0] == b[k];
    DecodeUnitsShape(rest);
  }

  /** The position at which a failing decode stops. */
  lemma {:induction false} FailurePoint(b: seq<int>) returns (k: nat)
    requires DecodeUnits(b).Failure?
    ensures StopsAt(b, k)
    decreases |b|
  {
    var w := LeadWidth(Octet(b[0]));
    DecodeUnitsShape(b);
    if w > |b| {
      k := 0;
      assert b[..0] == [];
    } else {
      var k' := FailurePoint(b[w..]);
      HeadDecodes(b, w);
      StopsAtShift(b, w, k');
      k := w + k';
    }
  }

  /** The first complete form of b, on its own, decodes to the head unit. */
  lemma HeadDecodes(b: seq<int>, w: nat)
    requires b != [] && w == LeadWidth(Octet(b[0])) <= |b|
    ensures DecodeUnits(b[..w]).Success?
  {
    var head := b[..w];
    assert head[0] == b[0];
    DecodeUnitsShape(head);
  }

  /** Where decoding stops after a first form that decodes, shifted by its width. */
  lemma StopsAtShift(b: seq<int>, w: nat, k: int)
    requires w <= |b| && DecodeUnits(b[..w]).Success? && StopsAt(b[w..], k)
    ensures StopsAt(b, w + k)
  {
    var rest, p, q := b[w..], b[..w], b[w..][..k];
    assert b[..w + k] == p + q;
    DecodeUnitsAppend(p, q);
    var lead := LeadWidth(Octet(rest[k]));
    assert b[w + k] == rest[k] && k + lead > |rest| == |b| - w;
  }

  /** A byte below 0xEF fails the first mask test: x & 0xEF never exceeds x. */
  lemma FirstMaskFails(x: int)
    requires 0 <= x < 0xEF
    ensures MaskByte(x, 0xEF) != 0xEF
  {
    AndLe(x % 256, 0xEF);
  }

  /** The lead byte stringToBytes emits for a code unit below 0xF000 is below 0xEF. */
  lemma LeadBelowEF(c: CodeUnit)
    requires c < 0xF000
    ensures EncodeUnit(c)[0] < 0xEF
  {
    EncodeUnitShape(c);
  }

  /** Only an encoded string starting with a unit of 0xF000 or more can pass the BOM test. */
  lemma EncodedBomLead(s: seq<CodeUnit>)
    requires HasBom(Encode(s))
    ensures s != [] && 0xF000 <= s[0]
    ensures Encode(s)[3..] == Encode(s[1..])
  {
    var u := EncodeUnit(s[0]);
    assert Encode(s) == u + Encode(s[1..]);
    EncodeUnitShape(s[0]);
    if s[0] < 0xF000 {
      LeadBelowEF(s[0]);
      FirstMaskFails(u[0]);
      assert false;
    }
    assert |u| == 3;
  }

  /** On the lead byte of a three-byte form the mask 0xEF changes nothing. */
  lemma LeadMaskEF(h: nat)
    requires h < 16
    ensures MaskByte(0xE0 + h, 0xEF) == 0xE0 + h
  {
    assert Pow2(4) == 16;
    MaskHead(0xE0 + h, 0xEF, 14, h, 15, 4, 16);
    AndLowMasks(h);
    ModUnique(h, 16, 0, h);
  }

  /** Two bytes with the same high part e: the mask keeps e and works on the low parts. */
  lemma MaskHead(x: nat, m: nat, e: nat, h: nat, t: nat, k: nat, p: nat)
    requires p == Pow2(k) && h < p && t < p
    requires x == e * p + h && m == e * p + t && x < 256 && m < 256
    ensures MaskByte(x, m) == e * p + And(h, t)
  {
    MaskByteOfByte(x, m);
    AndSplit(x, m, e, e, h, t, k, p);
    AndSelf(e);
  }

  /** On a continuation byte the mask 0xBB clears the bits of value 4 and 64 of its payload m. */
  lemma MidMaskBB(m: nat)
    requires m < 64
    ensures MaskByte(0x80 + m, 0xBB) == 0x80 + (m / 8) * 8 + m % 4
  {
    assert Pow2(6) == 64;
    MaskHead(0x80 + m, 0xBB, 2, m, 59, 6, 64);
    And59(m);
  }

  /** m & 0x3B for m below 64: the three high bits and the two low bits of m. */
  lemma And59(m: nat)
    requires m < 64
    ensures And(m, 59) == (m / 8) * 8 + m % 4
  {
    var q, r := m / 8, m % 8;
    assert Pow2(3) == 8 && m == q * 8 + r && q < 8;
    AndSplit(m, 59, q, 7, r, 3, 3, 8);
    AndLowMasksSmall(q);
    ModUnique(q, 8, 0, q);
    And3(r);
    ModUnique(m, 4, 2 * q + r / 4, r % 4);
  }

  /** x & 3 for x below 8. */
  lemma And3(x: nat)
    requires x < 8
    ensures And(x, 3) == x % 4
  {
    assert Pow2(2) == 4;
    assert (x / 4) * 4 + x % 4 == x && 0 * 4 + 3 == 3;
    AndSplit(x, 3, x / 4, 0, x % 4, 3, 2, 4);
    AndLowMasksSmall(x % 4);
  }

  /** On a continuation byte the mask 0xBF changes nothing. */
  lemma TailMaskBF(l: nat)
    requires l < 64
    ensures MaskByte(0x80 + l, 0xBF) == 0x80 + l
  {
    assert Pow2(6) == 64;
    MaskHead(0x80 + l, 0xBF, 2, l, 63, 6, 64);
    AndLowMasks(l);
    ModUnique(l, 64, 0, l);
  }

  /** The three bytes of a code unit of 0x800 or more pass the BOM test exactly for U+FEFF and U+FFFF. */
  lemma BomOfUnit(c: CodeUnit)
    requires 0x800 <= c
    ensures HasBom(EncodeUnit(c)) <==> c == 0xFEFF || c == 0xFFFF
  {
    EncodeUnitShape3(c);
    var hi, mid, lo := c / 4096, (c / 64) % 64, c % 64;
    var u := EncodeUnit(c);
    assert u[0] == 0xE0 + hi && u[1] == 0x80 + mid && u[2] == 0x80 + lo;
    LeadMaskEF(hi);
    MidMaskBB(mid);
    TailMaskBF(lo);
    assert HasBom(u) <==> hi == 15 && (mid / 8) * 8 + mid % 4 == 59 && lo == 63;
    MidBom(mid);
    Digits3(c);
    assert c == hi * 4096 + mid * 64 + lo;
  }

  /** The middle bits the BOM mask keeps are all set for 59 and 63 only. */
  lemma MidBom(mid: nat)
    requires mid < 64
    ensures (mid / 8) * 8 + mid % 4 == 59 <==> mid == 59 || mid == 63
  {
    var q, r := mid / 8, mid % 8;
    assert mid == q * 8 + r;
    ModUnique(mid, 4, 2 * q + r / 4, r % 4);
  }

  /** Encoded text passes the masked BOM test exactly when it starts with U+FEFF or U+FFFF. */
  lemma EncodedBomExactly(s: seq<CodeUnit>)
    ensures HasBom(Encode(s)) <==> s != [] && (s[0] == 0xFEFF || s[0] == 0xFFFF)
  {
    if s != [] {
      var c := s[0];
      if c < 0xF000 {
        if HasBom(Encode(s)) {
          EncodedBomLead(s);
        }
      } else {
        EncodeCons(s);
        EncodeUnitShape3(c);
        var u := EncodeUnit(c);
        assert Encode(s)[0] == u[0] && Encode(s)[1] == u[1] && Encode(s)[2] == u[2];
        BomOfUnit(c);
      }
    }
  }

  /** The exact round trip: only a leading U+FEFF or U+FFFF is lost. */
  lemma RoundTripMarks(s: seq<CodeUnit>)
    ensures Decode(Encode(s)) == Success(if s != [] && (s[0] == 0xFEFF || s[0] == 0xFFFF) then s[1..] else s)
  {
    RoundTrip(s);
    EncodedBomExactly(s);
  }

  /**
   * bytesToString(stringToBytes(s)) gives s back, except that the first unit
   * is lost when its encoding passes the masked byte-order-mark test.
   */
  lemma RoundTrip(s: seq<CodeUnit>)
    ensures HasBom(Encode(s)) ==> s != [] && 0xF000 <= s[0]
    ensures Decode(Encode(s)) == Success(if HasBom(Encode(s)) then s[1..] else s)
  {
    if HasBom(Encode(s)) {
      EncodedBomLead(s);
      DecodeUnitsEncode(s[1..]);
    } else {
      DecodeUnitsEncode(s);
    }
  }

  /** The round trip is exact for every string whose first code unit is below 0xF000. */
  lemma RoundTripExact(s: seq<CodeUnit>)
    requires s == [] || s[0] < 0xF000
    ensures Decode(Encode(s)) == Success(s)
  {
    RoundTrip(s);
  }

  /** A leading byte-order mark EF BB BF is skipped. */
  lemma DecodeSkipsBom(s: seq<CodeUnit>)
    ensures Decode([0xEF, 0xBB, 0xBF] + Encode(s)) == Success(s)
  {
    var b := [0xEF, 0xBB, 0xBF] + Encode(s);
    assert b[..3] == [0xEF, 0xBB, 0xBF];
    BomPrefixPasses(b);
    assert b[3..] == Encode(s);
    DecodeAfterBom(b, s);
  }

  /** The three bytes EF BB BF pass the masked byte-order-mark test. */
  lemma BomPrefixPasses(b: seq<int>)
    requires |b| >= 3 && b[..3] == [0xEF, 0xBB, 0xBF]
    ensures HasBom(b)
  {
    assert b[0] == b[..3][0] && b[1] == b[..3][1] && b[2] == b[..3][2];
    MaskSelf(b[0]);
    MaskSelf(b[1]);
    MaskSelf(b[2]);
  }

  /** x & m == m when x is m itself. */
  lemma MaskSelf(m: nat)
    requires m < 256
    ensures MaskByte(m, m) == m
  {
    assert m % 256 == m;
    AndSelf(m);
  }

  /** After a byte-order mark, decoding reads the encoded rest. */
  lemma DecodeAfterBom(b: seq<int>, s: seq<CodeUnit>)
    requires HasBom(b) && b[3..] == Encode(s)
    ensures Decode(b) == Success(s)
  {
    DecodeUnitsEncode(s);
  }

  /** An encoded U+FEFF in front is the byte-order mark and is dropped again. */
  lemma RoundTripDropsBom(s: seq<CodeUnit>)
    ensures Encode([0xFEFF] + s) == [0xEF, 0xBB, 0xBF] + Encode(s)
    ensures Decode(Encode([0xFEFF] + s)) == Success(s)
  {
    EncodeBomUnit(0xFEFF, s);
    DecodeSkipsBom(s);
  }

  /** U+FEFF encodes as EF BB BF: its base-64 digits are 15, 59 and 63. */
  lemma EncodeBomUnit(c: CodeUnit, s: seq<CodeUnit>)
    requires c / 4096 == 15 && (c / 64) % 64 == 59 && c % 64 == 63
    ensures Encode([c] + s) == [0xEF, 0xBB, 0xBF] + Encode(s)
  {
    EncodeAppend([c], s);
    EncodeSingle(c);
    EncodeUnitShape3(c);
  }
}
