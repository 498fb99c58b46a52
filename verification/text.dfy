/** String primitives of the JavaScript runtime that the schemas and hooks rely on. */
module Text {

  /** JavaScript's regular-expression class `\w` (no `u` flag): ASCII letters, digits and underscore. */
  predicate IsWordChar(c: char) {
    ('a' <= c <= 'z') || ('A' <= c <= 'Z') || ('0' <= c <= '9') || c == '_'
  }

  predicate AllWordChars(s: string) {
    forall i | 0 <= i < |s| :: IsWordChar(s[i])
  }

  /** `String.prototype.startsWith`. */
  predicate StartsWith(s: string, prefix: string) {
    |prefix| <= |s| && s[..|prefix|] == prefix
  }

  /** `String.prototype.endsWith`. */
  predicate EndsWith(s: string, suffix: string) {
    |suffix| <= |s| && s[|s| - |suffix|..] == suffix
  }

  /** The WhiteSpace and LineTerminator characters that `String.prototype.trim` removes. */
  predicate IsJsSpace(c: char) {
    || c == ' ' || c == '\t' || c == '\n' || c == '\r' || c == '\U{0B}' || c == '\U{0C}'
    || c == '\U{A0}' || c == '\U{1680}' || ('\U{2000}' <= c <= '\U{200A}')
    || c == '\U{2028}' || c == '\U{2029}' || c == '\U{202F}' || c == '\U{205F}'
    || c == '\U{3000}' || c == '\U{FEFF}'
  }

  /** The first position at or after `i` that does not hold white space (or the end). */
  function SkipSpaces(s: string, i: nat): (k: nat)
    requires i <= |s|
    ensures i <= k <= |s|
    ensures forall m | i <= m < k :: IsJsSpace(s[m])
    ensures k == |s| || !IsJsSpace(s[k])
    decreases |s| - i
  {
    if i < |s| && IsJsSpace(s[i]) then SkipSpaces(s, i + 1) else i
  }

  /** The position just after the last character before `j` that is not white space, no lower than `lo`. */
  function SkipSpacesBack(s: string, lo: nat, j: nat): (k: nat)
    requires lo <= j <= |s|
    ensures lo <= k <= j
    ensures forall m | k <= m < j :: IsJsSpace(s[m])
    ensures k == lo || !IsJsSpace(s[k - 1])
    decreases j - lo
  {
    if lo < j && IsJsSpace(s[j - 1]) then SkipSpacesBack(s, lo, j - 1) else j
  }

  /** `String.prototype.trim`, which the schemas' `trim: true` setters apply before validating. */
  function Trim(s: string): (r: string)
    ensures exists i, j | 0 <= i <= j <= |s| ::
              && r == s[i..j]
              && (forall k | 0 <= k < i :: IsJsSpace(s[k]))
              && (forall k | j <= k < |s| :: IsJsSpace(s[k]))
    ensures r == [] || (!IsJsSpace(r[0]) && !IsJsSpace(r[|r| - 1]))
  {
    var i := SkipSpaces(s, 0);
    var j := SkipSpacesBack(s, i, |s|);
    s[i..j]
  }

  /** Trimming twice is trimming once. */
  lemma TrimIdempotent(s: string)
    ensures Trim(Trim(s)) == Trim(s)
  {
    var r := Trim(s);
    if r != [] {
      assert SkipSpaces(r, 0) == 0;
      assert SkipSpacesBack(r, 0, |r|) == |r|;
      assert r[0..|r|] == r;
    }
  }

  /** `String.prototype.length`: characters beyond the Basic Multilingual Plane count as two UTF-16 units. */
  function Utf16Length(s: string): (n: nat)
    ensures |s| <= n <= 2 * |s|
    ensures (forall i | 0 <= i < |s| :: s[i] <= '\U{FFFF}') ==> n == |s|
  {
    if s == [] then 0
    else (if s[|s| - 1] > '\U{FFFF}' then 2 else 1) + Utf16Length(s[..|s| - 1])
  }

  /** The positions of the characters outside the basic plane, each a surrogate pair in UTF-16. */
  function AstralPositions(s: string): set<nat> {
    set i: nat | i < |s| && s[i] > '\U{FFFF}'
  }

  /** The length JavaScript reports is one unit per character plus one more per character
      outside the basic plane. */
  lemma {:induction false} Utf16LengthCountsAstral(s: string)
    ensures Utf16Length(s) == |s| + |AstralPositions(s)|
  {
    if s != [] {
      var t := s[..|s| - 1];
      Utf16LengthCountsAstral(t);
      var last: set<nat> := if s[|s| - 1] > '\U{FFFF}' then {|s| - 1} else {};
      assert AstralPositions(s) == AstralPositions(t) + last;
      assert |s| - 1 !in AstralPositions(t);
    }
  }

  /** A byte as produced by `crypto.randomBytes`. */
  type Byte = x: int | 0 <= x < 256

  const HexDigits: string := "0123456789abcdef"

  predicate IsLowerHex(c: char) {
    ('0' <= c <= '9') || ('a' <= c <= 'f')
  }

  /** The value of a lower-case hex digit; any other character reads as zero. */
  function HexValue(c: char): (v: nat)
    ensures v < 16
  {
    if '0' <= c <= '9' then (c - '0') as nat
    else if 'a' <= c <= 'f' then (c - 'a') as nat + 10
    else 0
  }

  /** `Buffer.prototype.toString('hex')`: two lower-case hex digits per byte, high nibble first. */
  function ToHex(bytes: seq<Byte>): (h: string)
    ensures |h| == 2 * |bytes|
    ensures forall i | 0 <= i < |h| :: IsLowerHex(h[i])
  {
    if bytes == [] then []
    else [HexDigits[bytes[0] / 16], HexDigits[bytes[0] % 16]] + ToHex(bytes[1..])
  }

  /** Reads hex digits back into bytes, two digits per byte; the inverse of `ToHex`. */
  function FromHex(h: string): (bytes: seq<Byte>)
    ensures |bytes| == |h| / 2
  {
    if |h| < 2 then [] else [HexValue(h[0]) * 16 + HexValue(h[1])] + FromHex(h[2..])
  }

  /** Each hex digit reads back as its own position in `HexDigits`. */
  lemma DigitValue(v: nat)
    requires v < 16
    ensures IsLowerHex(HexDigits[v]) && HexValue(HexDigits[v]) == v
  {
  }

  /** A byte's two digits read back as the byte. */
  lemma BytePair(b: Byte)
    ensures IsLowerHex(HexDigits[b / 16]) && IsLowerHex(HexDigits[b % 16])
    ensures HexValue(HexDigits[b / 16]) * 16 + HexValue(HexDigits[b % 16]) == b
  {
    DigitValue(b / 16);
    DigitValue(b % 16);
  }

  /** Reading two digits in front of more digits. */
  lemma FromHexCons(c0: char, c1: char, rest: string)
    ensures FromHex([c0, c1] + rest) == [HexValue(c0) * 16 + HexValue(c1)] + FromHex(rest)
  {
    var h := [c0, c1] + rest;
    assert h[0] == c0 && h[1] == c1 && h[2..] == rest;
  }

  /** The hex rendering loses nothing: the bytes can be read back from it. */
  lemma {:induction false} HexRoundTrip(bytes: seq<Byte>)
    ensures FromHex(ToHex(bytes)) == bytes
  {
    if bytes != [] {
      var b := bytes[0];
      var c0, c1, rest := HexDigits[b / 16], HexDigits[b % 16], ToHex(bytes[1..]);
      assert ToHex(bytes) == [c0, c1] + rest;
      BytePair(b);
      FromHexCons(c0, c1, rest);
      HexRoundTrip(bytes[1..]);
      assert bytes == [b] + bytes[1..];
    }
  }
}
