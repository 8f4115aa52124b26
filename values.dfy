/** Python-level building blocks used throughout archive_tool.py: decoded JSON
    values with their truthiness, `str.strip`, `int(str)`, zero-padded decimal
    formatting, substring search, `str.replace(pat, "")` and clamped slicing. */
module Values {

  datatype Option<+T> = None | Some(value: T)

  /** A decoded JSON value. Numbers are integers; the float path of the
      source is not part of this model. */
  datatype Value =
    | Null
    | Bool(b: bool)
    | Num(n: int)
    | Str(s: string)
    | List(items: seq<Value>)
    | Obj(fields: map<string, Value>)

  /** Python's truthiness: None, False, 0, "", [] and {} are falsy. */
  predicate Truthy(v: Value) {
    match v
    case Null => false
    case Bool(b) => b
    case Num(n) => n != 0
    case Str(s) => s != ""
    case List(xs) => xs != []
    case Obj(f) => |f| != 0
  }

  /** `a or b` on two values. */
  function Or(a: Value, b: Value): (r: Value)
    ensures Truthy(a) ==> r == a
    ensures !Truthy(a) ==> r == b
  {
    if Truthy(a) then a else b
  }

  /** `d.get(k)`, with None for a missing key. */
  function Get(d: map<string, Value>, k: string): Value {
    if k in d then d[k] else Null
  }

  /** `(d.get(k, {}) or {})` used as a dictionary; a falsy value reads as {}.
      A truthy value that is not a dictionary raises in the source; here it
      reads as {} as well. */
  function GetDict(d: map<string, Value>, k: string): map<string, Value> {
    match Get(d, k)
    case Obj(f) => f
    case _ => map[]
  }

  // ---------------------------------------------------------------------
  // Whitespace and str.strip()

  /** The characters Python's `str.strip()` removes (str.isspace). */
  predicate IsSpace(c: char) {
    c == ' ' || ('\t' <= c <= '\r') || ('\U{1C}' <= c <= '\U{1F}') ||
    c == '\U{85}' || c == '\U{A0}' || c == '\U{1680}' ||
    ('\U{2000}' <= c <= '\U{200A}') || c == '\U{2028}' || c == '\U{2029}' ||
    c == '\U{202F}' || c == '\U{205F}' || c == '\U{3000}'
  }

  predicate AllSpace(s: string) {
    forall i :: 0 <= i < |s| ==> IsSpace(s[i])
  }

  /** Number of leading whitespace characters. */
  function LeadingSpaces(s: string): (n: nat)
    ensures n <= |s|
    ensures AllSpace(s[..n])
    ensures n < |s| ==> !IsSpace(s[n])
  {
    if s == [] || !IsSpace(s[0]) then 0
    else
      var k := LeadingSpaces(s[1..]);
      assert s[..k + 1] == [s[0]] + s[1..][..k];
      k + 1
  }

  /** Number of trailing whitespace characters. */
  function TrailingSpaces(s: string): (n: nat)
    ensures n <= |s|
    ensures AllSpace(s[|s| - n..])
    ensures n < |s| ==> !IsSpace(s[|s| - n - 1])
  {
    if s == [] || !IsSpace(s[|s| - 1]) then 0
    else
      var init := s[..|s| - 1];
      var k := TrailingSpaces(init);
      assert s[|s| - (k + 1)..] == init[|init| - k..] + [s[|s| - 1]];
      k + 1
  }

  /** Python's `s.strip()`: the longest infix of `s` without whitespace at
      either end, obtained by dropping only whitespace. */
  function Strip(s: string): (r: string)
    ensures r == [] || (!IsSpace(r[0]) && !IsSpace(r[|r| - 1]))
    ensures |r| <= |s|
    ensures r == [] <==> AllSpace(s)
    ensures exists a: nat, b: nat :: Peeled(s, a, b, r)
  {
    var a := LeadingSpaces(s);
    var b := TrailingSpaces(s[a..]);
    PeelSpaces(s, a, b);
    StripShape(s, a, b);
    s[a..|s| - b]
  }

  /** What `Strip` drops: all the leading whitespace, and all the trailing
      whitespace of what remains. */
  lemma PeelSpaces(s: string, a: nat, b: nat)
    requires a == LeadingSpaces(s) && b == TrailingSpaces(s[a..])
    ensures Peeled(s, a, b, s[a..|s| - b])
  {
    SuffixOfSuffix(s, a, b);
  }

  /** What remains has no whitespace at either end, and is empty exactly
      when everything was whitespace. */
  lemma StripShape(s: string, a: nat, b: nat)
    requires a == LeadingSpaces(s) && b == TrailingSpaces(s[a..])
    ensures var r := s[a..|s| - b]; r == [] || (!IsSpace(r[0]) && !IsSpace(r[|r| - 1]))
    ensures s[a..|s| - b] == [] <==> AllSpace(s)
  {
    var rest := s[a..];
    assert a < |s| ==> rest[0] == s[a];
    assert AllSpace(s) ==> a == |s|;
    if a == |s| {
      assert s[a..|s| - b] == [];
    } else {
      assert b < |rest|;
      assert rest[..|rest| - b] == s[a..|s| - b];
    }
  }

  /** The last `b` characters of a suffix of `s` are the last `b` of `s`. */
  lemma SuffixOfSuffix(s: string, a: nat, b: nat)
    requires a <= |s| && b <= |s| - a
    ensures s[a..][|s| - a - b..] == s[|s| - b..]
  {
  }

  /** `r` is `s` with `a` whitespace characters dropped from the front and
      `b` from the back. */
  predicate Peeled(s: string, a: nat, b: nat, r: string) {
    a + b <= |s| && r == s[a..|s| - b] && AllSpace(s[..a]) && AllSpace(s[|s| - b..])
  }

  /** The count of leading whitespace is the length of a whitespace prefix
      followed by a non-whitespace character or the end. */
  lemma {:induction false} LeadingSpacesIs(s: string, n: nat)
    requires n <= |s| && AllSpace(s[..n]) && (n < |s| ==> !IsSpace(s[n]))
    ensures LeadingSpaces(s) == n
  {
    if s != [] && IsSpace(s[0]) && n > 0 {
      assert s[1..][..n - 1] == s[1..n];
      assert forall i :: 0 <= i < n - 1 ==> s[1..n][i] == s[..n][i + 1];
      LeadingSpacesIs(s[1..], n - 1);
    }
  }

  /** The count of trailing whitespace, likewise. */
  lemma {:induction false} TrailingSpacesIs(s: string, n: nat)
    requires n <= |s| && AllSpace(s[|s| - n..]) && (n < |s| ==> !IsSpace(s[|s| - n - 1]))
    ensures TrailingSpaces(s) == n
  {
    if s != [] && IsSpace(s[|s| - 1]) && n > 0 {
      var init := s[..|s| - 1];
      assert init[|init| - (n - 1)..] == s[|s| - n..|s| - 1];
      var u, v := s[|s| - n..|s| - 1], s[|s| - n..];
      assert forall i :: 0 <= i < n - 1 ==> u[i] == v[i];
      TrailingSpacesIs(init, n - 1);
    }
  }

  /** `Strip` is the only way of dropping whitespace from both ends that
      leaves no whitespace at either end. */
  lemma StripExact(s: string, a: nat, b: nat, t: string)
    requires Peeled(s, a, b, t)
    requires t == [] || (!IsSpace(t[0]) && !IsSpace(t[|t| - 1]))
    ensures Strip(s) == t
  {
    if t == [] {
      assert AllSpace(s) by {
        forall i | 0 <= i < |s| ensures IsSpace(s[i]) {
          if i < a {
            assert s[i] == s[..a][i];
          } else {
            assert s[i] == s[|s| - b..][i - a];
          }
        }
      }
    } else {
      assert s[a] == t[0];
      LeadingSpacesIs(s, a);
      var rest := s[a..];
      assert rest[|rest| - b..] == s[|s| - b..];
      assert rest[|rest| - b - 1] == t[|t| - 1];
      TrailingSpacesIs(rest, b);
      assert rest[..|rest| - b] == t;
    }
  }

  /** Stripping twice is stripping once. */
  lemma StripIdempotent(s: string)
    ensures Strip(Strip(s)) == Strip(s)
  {
    var r := Strip(s);
    if r != [] {
      assert LeadingSpaces(r) == 0;
      assert r[0..] == r;
      assert TrailingSpaces(r) == 0;
    }
  }

  // ---------------------------------------------------------------------
  // Decimal digits: int(str) and f"{n:0Wd}"

  predicate IsDigit(c: char) { '0' <= c <= '9' }

  predicate AllDigits(s: string) {
    forall i :: 0 <= i < |s| ==> IsDigit(s[i])
  }

  function DigitValue(c: char): (d: nat)
    requires IsDigit(c)
    ensures d < 10
  {
    (c as int - '0' as int) as nat
  }

  function DigitChar(d: nat): (c: char)
    requires d < 10
    ensures IsDigit(c) && DigitValue(c) == d
  {
    ('0' as int + d) as char
  }

  /** The number a string of decimal digits denotes. */
  function DigitsValue(s: string): nat
    requires AllDigits(s)
  {
    if s == [] then 0 else DigitsValue(s[..|s| - 1]) * 10 + DigitValue(s[|s| - 1])
  }

  /** The shortest decimal rendering of `n` (Python's `str(n)` for n >= 0). */
  function Decimal(n: nat): (r: string)
    ensures |r| >= 1 && AllDigits(r)
    ensures |r| > 1 ==> r[0] != '0'
    decreases n
  {
    if n < 10 then [DigitChar(n)] else Decimal(n / 10) + [DigitChar(n % 10)]
  }

  lemma {:induction false} DecimalValue(n: nat)
    ensures DigitsValue(Decimal(n)) == n
    decreases n
  {
    var r := Decimal(n);
    if n < 10 {
      assert r[..0] == [];
    } else {
      DecimalValue(n / 10);
      assert r[..|r| - 1] == Decimal(n / 10);
    }
  }

  /** Leading zeros do not change the value of a digit string. */
  lemma {:induction false} ZerosPrefixValue(z: nat, s: string)
    requires AllDigits(s)
    ensures AllDigits(Zeros(z) + s)
    ensures DigitsValue(Zeros(z) + s) == DigitsValue(s)
    decreases |s|
  {
    var t := Zeros(z) + s;
    if s == [] {
      assert t == Zeros(z);
      ZerosValue(z);
    } else {
      assert t[..|t| - 1] == Zeros(z) + s[..|s| - 1];
      ZerosPrefixValue(z, s[..|s| - 1]);
    }
  }

  lemma {:induction false} ZerosValue(z: nat)
    ensures DigitsValue(Zeros(z)) == 0
  {
    if z > 0 {
      assert Zeros(z)[..z - 1] == Zeros(z - 1);
      ZerosValue(z - 1);
    }
  }

  function Zeros(z: nat): (r: string)
    ensures |r| == z && AllDigits(r)
    ensures forall i :: 0 <= i < z ==> r[i] == '0'
  {
    seq(z, _ => '0')
  }

  /** Python's `f"{n:0{width}d}"` for n >= 0: the decimal rendering left-padded
      with zeros to at least `width` characters. */
  function Padded(n: nat, width: nat): (r: string)
    ensures AllDigits(r)
    ensures |r| == if |Decimal(n)| < width then width else |Decimal(n)|
  {
    var d := Decimal(n);
    if |d| < width then Zeros(width - |d|) + d else d
  }

  /** Reading a zero-padded number back gives the number. */
  lemma PaddedValue(n: nat, width: nat)
    ensures DigitsValue(Padded(n, width)) == n
  {
    var d := Decimal(n);
    var z: nat := if |d| < width then width - |d| else 0;
    PaddedShape(n, width);
    LeadingZeros(Padded(n, width), z, d);
    DecimalValue(n);
  }

  lemma LeadingZeros(t: string, z: nat, s: string)
    requires AllDigits(s) && t == Zeros(z) + s
    ensures AllDigits(t) && DigitsValue(t) == DigitsValue(s)
  {
    ZerosPrefixValue(z, s);
  }

  /** The padded rendering is some zeros followed by the plain one. */
  lemma PaddedShape(n: nat, width: nat)
    ensures var d := Decimal(n);
            Padded(n, width) == Zeros(if |d| < width then width - |d| else 0) + d
  {
    assert Zeros(0) + Decimal(n) == Decimal(n);
  }

  /** Python's `int(s)` on a string: optional surrounding whitespace, an
      optional sign and at least one ASCII digit. */
  function ParseInt(s: string): (r: Option<int>)
    ensures r.Some? ==> Strip(s) != []
  {
    var t := Strip(s);
    if t == [] then None
    else if (t[0] == '-' || t[0] == '+') && |t| > 1 && AllDigits(t[1..]) then
      Some(if t[0] == '-' then 0 - DigitsValue(t[1..]) else DigitsValue(t[1..]))
    else if AllDigits(t) then Some(DigitsValue(t))
    else None
  }

  /** A string without whitespace at either end is its own strip. */
  lemma StripTrimmed(p: string)
    requires p != [] && !IsSpace(p[0]) && !IsSpace(p[|p| - 1])
    ensures Strip(p) == p
  {
    assert LeadingSpaces(p) == 0 && p[0..] == p;
    assert TrailingSpaces(p) == 0 && p[..|p|] == p;
  }

  /** Parsing the zero-padded rendering of a number gives the number back. */
  lemma ParsePadded(n: nat, width: nat)
    ensures ParseInt(Padded(n, width)) == Some(n)
  {
    PaddedValue(n, width);
    ParseDigits(Padded(n, width));
  }

  /** A non-empty run of digits parses as its value. */
  lemma ParseDigits(t: string)
    requires t != [] && AllDigits(t)
    ensures ParseInt(t) == Some(DigitsValue(t))
  {
    assert IsDigit(t[0]) && IsDigit(t[|t| - 1]);
    StripTrimmed(t);
  }

  /** A minus sign followed by a non-empty run of digits parses as the
      negated value. */
  lemma ParseNegative(t: string, d: string)
    requires d != [] && AllDigits(d) && t == "-" + d
    ensures ParseInt(t) == Some(0 - DigitsValue(d))
  {
    assert t[1..] == d;
    assert IsDigit(t[|t| - 1]) by { assert t[|t| - 1] == d[|d| - 1]; }
    StripTrimmed(t);
  }

  /** Python's `str(n)` / `f"{n}"` for any integer. */
  function IntText(n: int): (r: string)
    ensures |r| >= 1
  {
    if n < 0 then "-" + Decimal(-n) else Decimal(n)
  }

  /** `int(str(n)) == n`: the text of an integer parses back to it. */
  lemma ParseIntText(n: int)
    ensures ParseInt(IntText(n)) == Some(n)
  {
    if n < 0 {
      var d := Decimal(-n);
      DecimalValue(-n);
      assert DigitsValue(d) == -n;
      ParseNegative(IntText(n), d);
      assert ParseInt(IntText(n)) == Some(0 - DigitsValue(d));
    } else {
      DecimalValue(n);
      ParseDigits(IntText(n));
    }
  }

  // ---------------------------------------------------------------------
  // Substrings

  predicate StartsWith(s: string, p: string) {
    |p| <= |s| && s[..|p|] == p
  }

  predicate EndsWith(s: string, p: string) {
    |p| <= |s| && s[|s| - |p|..] == p
  }

  /** Python's `sub in s`. */
  predicate Contains(s: string, sub: string) {
    exists i :: 0 <= i <= |s| - |sub| && OccursAt(s, sub, i)
  }

  predicate OccursAt(s: string, sub: string, i: nat)
    requires i <= |s| - |sub|
  {
    s[i..i + |sub|] == sub
  }

  /** Python's `s.replace(pat, "")`: removes the non-overlapping occurrences
      of `pat` found scanning left to right. */
  function RemoveAll(s: string, pat: string): (r: string)
    requires pat != []
    ensures |r| <= |s|
    decreases |s|
  {
    if |s| < |pat| then s
    else if s[..|pat|] == pat then RemoveAll(s[|pat|..], pat)
    else [s[0]] + RemoveAll(s[1..], pat)
  }

  /** A string without the pattern is left alone. */
  lemma {:induction false} RemoveAllAbsent(s: string, pat: string)
    requires pat != [] && !Contains(s, pat)
    ensures RemoveAll(s, pat) == s
    decreases |s|
  {
    if |s| >= |pat| {
      assert s[0..0 + |pat|] == s[..|pat|];
      assert !OccursAt(s, pat, 0);
      if Contains(s[1..], pat) {
        var i :| 0 <= i <= |s[1..]| - |pat| && OccursAt(s[1..], pat, i);
        assert s[1..][i..i + |pat|] == s[i + 1..i + 1 + |pat|];
        assert OccursAt(s, pat, i + 1);
        assert false;
      }
      RemoveAllAbsent(s[1..], pat);
    }
  }

  /** Removing a pattern keeps the last character when the pattern cannot
      end there: no occurrence covers it. */
  lemma {:induction false} RemoveAllKeepsLast(s: string, pat: string)
    requires pat != [] && s != [] && s[|s| - 1] != pat[|pat| - 1]
    ensures var r := RemoveAll(s, pat); r != [] && r[|r| - 1] == s[|s| - 1]
    decreases |s|
  {
    if |s| >= |pat| {
      if s[..|pat|] == pat {
        assert s[|pat| - 1] == pat[|pat| - 1];
        RemoveAllKeepsLast(s[|pat|..], pat);
      } else if |s| > 1 {
        RemoveAllKeepsLast(s[1..], pat);
      }
    }
  }

  /** Python's clamped slice `s[i:j]` for 0 <= i. */
  function Slice(s: string, i: nat, j: nat): (r: string)
    ensures |r| <= |s|
    ensures i <= j <= |s| ==> r == s[i..j]
  {
    var hi := if j <= |s| then j else |s|;
    if i < hi then s[i..hi] else []
  }

  /** Taking one more element of a sequence; stated once for proofs whose
      context is too large to rediscover it cheaply. */
  lemma TakeSnoc<T>(s: seq<T>, i: nat)
    requires i < |s|
    ensures s[..i + 1] == s[..i] + [s[i]]
    ensures s[..i + 1][..i] == s[..i]
  {
  }

  /** Concatenation is associative; stated once so that proofs about long
      sequences built from expensive functions need not rediscover it. */
  lemma ConcatAssoc<T>(a: seq<T>, b: seq<T>, c: seq<T>)
    ensures (a + b) + c == a + (b + c)
  {
  }
}
