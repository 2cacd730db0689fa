/** The wire format shared by the sender and the relays: the two-part
    envelope `encryptedKey || encryptedLayer`, and the 10-character decimal
    address that prefixes every decrypted layer. The functions below model
    the JavaScript built-ins the handlers use (String.prototype.split,
    Number.prototype.toString, String.prototype.padStart,
    String.prototype.substring and parseInt with radix 10) on sequences of
    Unicode scalar values: lengths and positions count characters, not the
    UTF-16 code units JavaScript counts. */
module Wire {
  import opened Common

  /** The field delimiter of an envelope. */
  const Delimiter: string := "||"

  /** Width of the address prefix of a decrypted layer. */
  const AddressWidth: nat := 10

  /** Base64 text never holds a '|', so neither does any ciphertext on the wire. */
  predicate NoBar(s: string) {
    forall i :: 0 <= i < |s| ==> s[i] != '|'
  }

  // ---------------------------------------------------------------------
  // split / join on "||"

  /** `s.split("||")`: scans left to right and cuts at every occurrence of
      the delimiter that does not overlap the previous one. */
  function Split(s: string): (parts: seq<string>)
    ensures |parts| >= 1
    decreases |s|
  {
    if |s| < 2 then [s]
    else if s[0] == '|' && s[1] == '|' then [""] + Split(s[2..])
    else
      var rest := Split(s[1..]);
      [[s[0]] + rest[0]] + rest[1..]
  }

  /** `parts.join("||")`, and the sender's `encKey + "||" + encPayload`. */
  function Join(parts: seq<string>): (s: string)
    requires |parts| >= 1
    ensures |s| >= |parts[0]| + |Delimiter| * (|parts| - 1)
    decreases |parts|
  {
    if |parts| == 1 then parts[0] else parts[0] + Delimiter + Join(parts[1..])
  }

  lemma {:induction false} JoinConsHead(c: char, parts: seq<string>)
    requires |parts| >= 1
    ensures Join([[c] + parts[0]] + parts[1..]) == [c] + Join(parts)
  {
    var ps := [[c] + parts[0]] + parts[1..];
    if |parts| > 1 {
      assert ps[1..] == parts[1..];
      var tail := Join(parts[1..]);
      assert Join(ps) == ([c] + parts[0]) + Delimiter + tail;
      assert Join(parts) == parts[0] + Delimiter + tail;
    }
  }

  /** Splitting loses nothing: joining the parts gives the input back. */
  lemma {:induction false} SplitJoin(s: string)
    ensures Join(Split(s)) == s
    decreases |s|
  {
    if |s| < 2 {
    } else if s[0] == '|' && s[1] == '|' {
      SplitJoin(s[2..]);
      var rest := Split(s[2..]);
      assert ([""] + rest)[1..] == rest;
      assert s == Delimiter + s[2..];
    } else {
      SplitJoin(s[1..]);
      JoinConsHead(s[0], Split(s[1..]));
      assert s == [s[0]] + s[1..];
    }
  }

  /** No two adjacent '|' characters: the delimiter does not occur. */
  predicate NoDelimiter(s: string) {
    forall i :: 0 <= i < |s| - 1 ==> !(s[i] == '|' && s[i + 1] == '|')
  }

  /** A string in which the delimiter does not occur is not cut at all. */
  lemma {:induction false} SplitNoDelimiter(s: string)
    requires NoDelimiter(s)
    ensures Split(s) == [s]
    decreases |s|
  {
    if |s| >= 2 {
      assert !(s[0] == '|' && s[1] == '|');
      var rest := s[1..];
      forall i | 0 <= i < |rest| - 1
        ensures !(rest[i] == '|' && rest[i + 1] == '|')
      {
        assert rest[i] == s[i + 1] && rest[i + 1] == s[i + 2];
      }
      SplitNoDelimiter(rest);
      assert [s[0]] + s[1..] == s;
    }
  }

  /** Prepending one character never removes a part, and adds at most one. */
  lemma {:induction false} SplitConsCount(c: char, t: string)
    ensures |Split(t)| <= |Split([c] + t)| <= |Split(t)| + 1
    decreases |t|
  {
    var s := [c] + t;
    assert s[1..] == t;
    if |t| > 0 && c == '|' && t[0] == '|' {
      assert s[2..] == t[1..];
      SplitConsCount('|', t[1..]);
      assert ['|'] + t[1..] == t;
    }
  }

  /** Prepending text never removes a part. */
  lemma {:induction false} SplitPrefixCount(u: string, t: string)
    ensures |Split(t)| <= |Split(u + t)|
    decreases |u|
  {
    if u != [] {
      SplitPrefixCount(u[1..], t);
      SplitConsCount(u[0], u[1..] + t);
      assert u + t == [u[0]] + (u[1..] + t);
    } else {
      assert u + t == t;
    }
  }

  /** Every occurrence of the delimiter adds a part, wherever it stands. */
  lemma SplitDelimiterCount(u: string, t: string)
    ensures |Split(u + Delimiter + t)| >= |Split(t)| + 1
  {
    var s := Delimiter + t;
    assert s[2..] == t;
    SplitPrefixCount(u, s);
    assert u + Delimiter + t == u + s;
  }

  /** A string splits into a single part exactly when the delimiter does
      not occur in it, and that part is then the string itself. */
  lemma SplitSingle(s: string)
    ensures |Split(s)| == 1 <==> NoDelimiter(s)
    ensures NoDelimiter(s) ==> Split(s) == [s]
  {
    if NoDelimiter(s) {
      SplitNoDelimiter(s);
    } else {
      var i :| 0 <= i < |s| - 1 && s[i] == '|' && s[i + 1] == '|';
      assert s == s[..i] + Delimiter + s[i + 2..];
      SplitDelimiterCount(s[..i], s[i + 2..]);
    }
  }

  /** Three '|' in a row hold two overlapping occurrences of the delimiter,
      but the scan cuts at the first and resumes after it: the third '|'
      starts the second part. */
  lemma SplitTripleBar(k: string, p: string)
    requires NoBar(k) && NoBar(p)
    ensures Split(k + "|||" + p) == [k, "|" + p]
  {
    var s := "|||" + p;
    var rest := "|" + p;
    assert s[2..] == rest;
    assert NoDelimiter(rest);
    SplitNoDelimiter(rest);
    assert Split(s) == [""] + [rest];
    SplitAfterNoBar(k, s);
    assert k + "|||" + p == k + s;
    assert k + "" == k;
  }

  /** Two non-overlapping occurrences of the delimiter give at least three
      parts, so such a string never parses as an envelope. */
  lemma SplitTwoDelimiters(a: string, b: string, c: string)
    ensures |Split(a + Delimiter + b + Delimiter + c)| >= 3
  {
    SplitDelimiterCount(b, c);
    SplitDelimiterCount(a, b + Delimiter + c);
    assert a + Delimiter + b + Delimiter + c == a + Delimiter + (b + Delimiter + c);
  }

  /** A '|'-free prefix glues onto the first part of what follows it. */
  lemma {:induction false} SplitAfterNoBar(k: string, s: string)
    requires NoBar(k)
    requires |s| >= 2 && s[0] == '|' && s[1] == '|'
    ensures Split(k + s) == [k + Split(s)[0]] + Split(s)[1..]
    decreases |k|
  {
    if k == [] {
      assert k + s == s;
    } else {
      assert (k + s)[1..] == k[1..] + s;
      SplitAfterNoBar(k[1..], s);
      assert [k[0]] + (k[1..] + Split(s)[0]) == k + Split(s)[0];
    }
  }

  /** The envelope parse law: a key and a layer without '|' joined by the
      delimiter split back into exactly that key and that layer. */
  lemma SplitEnvelope(k: string, p: string)
    requires NoBar(k) && NoBar(p)
    ensures Split(k + Delimiter + p) == [k, p]
  {
    var s := Delimiter + p;
    assert s[2..] == p;
    assert NoDelimiter(p);
    SplitNoDelimiter(p);
    assert Split(s) == [""] + [p];
    SplitAfterNoBar(k, s);
    assert k + Delimiter + p == k + s;
    assert k + "" == k;
  }

  // ---------------------------------------------------------------------
  // decimal digits

  predicate IsDigit(c: char) {
    '0' <= c <= '9'
  }

  predicate AllDigits(s: string) {
    forall i :: 0 <= i < |s| ==> IsDigit(s[i])
  }

  function DigitChar(d: nat): (c: char)
    requires d < 10
    ensures IsDigit(c) && c as int - '0' as int == d
  {
    ('0' as int + d) as char
  }

  /** The value of a string of decimal digits, most significant first. */
  function Value(s: string): (v: nat)
    requires AllDigits(s)
    decreases |s|
  {
    if s == [] then 0 else 10 * Value(s[..|s| - 1]) + (s[|s| - 1] as int - '0' as int)
  }

  function Pow10(k: nat): (p: nat)
    ensures p >= 1
  {
    if k == 0 then 1 else 10 * Pow10(k - 1)
  }

  /** Number.prototype.toString() of a non-negative integer: its decimal
      digits without leading zeros ("0" for zero). */
  function NatToString(n: nat): (s: string)
    ensures s != [] && IsDigit(s[0])
    ensures s[0] == '0' <==> n == 0
    decreases n
  {
    if n < 10 then [DigitChar(n)] else NatToString(n / 10) + [DigitChar(n % 10)]
  }

  /** Number.prototype.toString() of an integer (no exponent form: the model
      keeps integers exact). */
  function IntToString(n: int): (s: string)
    ensures s != [] && (s[0] == '-' <==> n < 0)
  {
    if n < 0 then "-" + NatToString(-n) else NatToString(n)
  }

  /** `s.padStart(width, fill)`: prefixes copies of `fill` up to `width`
      characters and never truncates. */
  function PadStart(s: string, width: nat, fill: char): (r: string)
    ensures |r| == if |s| >= width then |s| else width
  {
    if |s| >= width then s else seq(width - |s|, _ => fill) + s
  }

  /** padStart keeps `s` as the suffix, fills only in front of it, and
      reaches `width` characters unless `s` is already that long. */
  lemma PadStartShape(s: string, width: nat, fill: char)
    ensures var r := PadStart(s, width, fill);
      && (|s| >= width ==> r == s)
      && (|s| < width ==> |r| == width && r[width - |s|..] == s)
      && (forall i :: 0 <= i < |r| - |s| ==> r[i] == fill)
  {
    if |s| < width {
      var r := PadStart(s, width, fill);
      assert r[width - |s|..] == s;
    }
  }

  /** `n.toString().padStart(10, "0")`, the sender's next-hop encoding. */
  function EncodeAddress(n: int): (r: string)
    ensures |r| >= AddressWidth
  {
    PadStart(IntToString(n), AddressWidth, '0')
  }

  /** toString produces digits whose value is the number itself. */
  lemma {:induction false} NatToStringValue(n: nat)
    ensures AllDigits(NatToString(n)) && Value(NatToString(n)) == n
    decreases n
  {
    var s := NatToString(n);
    if n >= 10 {
      NatToStringValue(n / 10);
      var t := NatToString(n / 10);
      assert s == t + [DigitChar(n % 10)];
      assert s[..|s| - 1] == t;
    }
  }

  /** A number below 10^k has at most k digits. */
  lemma {:induction false} NatToStringShort(n: nat, k: nat)
    requires 1 <= k && n < Pow10(k)
    ensures |NatToString(n)| <= k
    decreases n
  {
    if n >= 10 {
      assert Pow10(1) == 10;
      assert k >= 2;
      assert n / 10 < Pow10(k - 1);
      NatToStringShort(n / 10, k - 1);
    }
  }

  /** A number of at least 10^k has more than k digits. */
  lemma {:induction false} NatToStringLong(n: nat, k: nat)
    requires Pow10(k) <= n
    ensures |NatToString(n)| > k
    decreases k
  {
    if k > 0 {
      assert Pow10(k - 1) <= n / 10;
      NatToStringLong(n / 10, k - 1);
    }
  }

  /** Value ignores leading zeros. */
  lemma {:induction false} ValueLeadingZeros(m: nat, s: string)
    requires AllDigits(s)
    ensures AllDigits(seq(m, _ => '0') + s)
    ensures Value(seq(m, _ => '0') + s) == Value(s)
    decreases |s|
  {
    var z: string := seq(m, _ => '0');
    if s == [] {
      assert z + s == z;
      ZerosValue(m);
    } else {
      var u := z + s;
      assert u[..|u| - 1] == z + s[..|s| - 1];
      ValueLeadingZeros(m, s[..|s| - 1]);
    }
  }

  lemma {:induction false} ZerosValue(m: nat)
    ensures AllDigits(seq(m, _ => '0')) && Value(seq(m, _ => '0')) == 0
    decreases m
  {
    if m > 0 {
      var z: string := seq(m, _ => '0');
      assert z[..m - 1] == seq(m - 1, _ => '0');
      ZerosValue(m - 1);
    }
  }

  /** The address encoding law: every address in [0, 10^10) is encoded as
      exactly ten decimal digits whose value is the address. */
  lemma EncodeAddressDigits(n: int)
    requires 0 <= n < Pow10(AddressWidth)
    ensures |EncodeAddress(n)| == AddressWidth
    ensures AllDigits(EncodeAddress(n)) && Value(EncodeAddress(n)) == n
  {
    var s := NatToString(n);
    NatToStringShort(n, AddressWidth);
    NatToStringValue(n);
    ValueLeadingZeros(AddressWidth - |s|, s);
  }

  /** padStart does not truncate: an address of 10^10 or more is encoded
      with more than ten characters. */
  lemma EncodeAddressOverflow(n: int)
    requires n >= Pow10(AddressWidth)
    ensures |EncodeAddress(n)| > AddressWidth
  {
    NatToStringLong(n, AddressWidth);
  }

  // ---------------------------------------------------------------------
  // parseInt(s, 10)

  /** The white space and line terminators parseInt skips (ECMAScript
      StrWhiteSpaceChar). */
  predicate IsWhiteSpace(c: char) {
    || c == '\t' || c == '\n' || c == '\U{B}' || c == '\U{C}' || c == '\r'
    || c == ' ' || c == '\U{A0}' || c == '\U{1680}'
    || ('\U{2000}' <= c <= '\U{200A}')
    || c == '\U{2028}' || c == '\U{2029}' || c == '\U{202F}' || c == '\U{205F}'
    || c == '\U{3000}' || c == '\U{FEFF}'
  }

  /** The string after its leading white space. */
  function TrimStart(s: string): (r: string)
    ensures |r| <= |s| && (r == [] || !IsWhiteSpace(r[0]))
    decreases |s|
  {
    if |s| > 0 && IsWhiteSpace(s[0]) then TrimStart(s[1..]) else s
  }

  /** TrimStart removes a prefix made only of white space, and what it
      leaves does not start with white space. */
  lemma {:induction false} TrimStartSuffix(s: string)
    ensures var r := TrimStart(s);
      && |r| <= |s| && r == s[|s| - |r|..]
      && (forall i :: 0 <= i < |s| - |r| ==> IsWhiteSpace(s[i]))
      && (r == [] || !IsWhiteSpace(r[0]))
    decreases |s|
  {
    if |s| > 0 && IsWhiteSpace(s[0]) {
      TrimStartSuffix(s[1..]);
      var r := TrimStart(s[1..]);
      assert s[1..][|s| - 1 - |r|..] == s[|s| - |r|..];
      assert forall i :: 1 <= i < |s| - |r| ==> s[i] == s[1..][i - 1];
    }
  }

  /** The longest prefix of `s` made of decimal digits. */
  function DigitPrefix(s: string): (r: string)
    ensures AllDigits(r) && |r| <= |s|
    decreases |s|
  {
    if |s| > 0 && IsDigit(s[0]) then [s[0]] + DigitPrefix(s[1..]) else []
  }

  /** DigitPrefix is a prefix, and it stops at the first non-digit. */
  lemma {:induction false} DigitPrefixShape(s: string)
    ensures var r := DigitPrefix(s);
      && r <= s
      && (|r| < |s| ==> !IsDigit(s[|r|]))
    decreases |s|
  {
    if |s| > 0 && IsDigit(s[0]) {
      DigitPrefixShape(s[1..]);
      var r := DigitPrefix(s[1..]);
      assert s == [s[0]] + s[1..];
    }
  }

  /** `parseInt(s, 10)`: skip leading white space, take an optional sign,
      then the longest run of digits; NaN when that run is empty. (A
      negative zero is read as 0.) */
  function ParseInt(s: string): (r: Num)
    ensures s == [] ==> r == NaN
    ensures |s| > 0 && IsDigit(s[0]) ==> r.Int? && r.value >= 0
  {
    var t := TrimStart(s);
    var negative := |t| > 0 && t[0] == '-';
    var u := if |t| > 0 && (t[0] == '-' || t[0] == '+') then t[1..] else t;
    var z := DigitPrefix(u);
    var v: int := Value(z);
    if z == [] then NaN else Int(if negative then -v else v)
  }

  /** parseInt reads a non-empty digit string as its decimal value. */
  lemma ParseIntDigits(s: string)
    requires s != [] && AllDigits(s)
    ensures ParseInt(s) == Int(Value(s))
  {
    assert !IsWhiteSpace(s[0]);
    DigitPrefixAllDigits(s);
  }

  lemma {:induction false} DigitPrefixAllDigits(s: string)
    requires AllDigits(s)
    ensures DigitPrefix(s) == s
    decreases |s|
  {
    if s != [] {
      DigitPrefixAllDigits(s[1..]);
      assert [s[0]] + s[1..] == s;
    }
  }

  /** parseInt inverts the sender's address encoding on [0, 10^10). */
  lemma ParseEncodedAddress(n: int)
    requires 0 <= n < Pow10(AddressWidth)
    ensures ParseInt(EncodeAddress(n)) == Int(n)
  {
    EncodeAddressDigits(n);
    ParseIntDigits(EncodeAddress(n));
  }

  // ---------------------------------------------------------------------
  // substring

  function Clamp(i: int, len: nat): (r: nat)
    ensures r <= len
  {
    if i < 0 then 0 else if i > len then len else i
  }

  /** `s.substring(start, end)`: both bounds clamped to [0, |s|] and
      swapped when out of order. */
  function Substring(s: string, start: int, end: int): (r: string)
    ensures |r| <= |s|
  {
    var a := Clamp(start, |s|);
    var b := Clamp(end, |s|);
    if a <= b then s[a..b] else s[b..a]
  }

  /** `s.substring(start)`. */
  function SubstringFrom(s: string, start: int): (r: string)
    ensures |r| == |s| - Clamp(start, |s|)
  {
    Substring(s, start, |s|)
  }

  /** The relay's cut at `k`: the head has min(k, |s|) characters, and the
      head followed by the tail is the whole string. */
  lemma SubstringCut(s: string, k: nat)
    ensures |Substring(s, 0, k)| == if k < |s| then k else |s|
    ensures Substring(s, 0, k) + SubstringFrom(s, k) == s
  {
    var c := Clamp(k, |s|);
    assert s[..c] + s[c..] == s;
  }
}
