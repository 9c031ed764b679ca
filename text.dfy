/** The pieces of the ECMAScript string library that the record pipeline
    relies on: the regular-expression classes `\d` and `\s`, `trim`,
    `toLowerCase`, `toUpperCase`, `includes` and the UTF-16 `length`. */
module Text {

  /** `\d` in a regular expression without the `u` flag: ASCII digits only. */
  predicate IsDigit(c: char) {
    '0' <= c <= '9'
  }

  /** `\s` in a regular expression, which is also the set `trim` removes:
      the WhiteSpace and LineTerminator code points of ECMAScript. */
  predicate IsSpace(c: char) {
    || c == '\t' || c == '\n' || c == '\U{000B}' || c == '\U{000C}' || c == '\r'
    || c == ' ' || c == '\U{00A0}' || c == '\U{1680}' || '\U{2000}' <= c <= '\U{200A}'
    || c == '\U{2028}' || c == '\U{2029}' || c == '\U{202F}' || c == '\U{205F}'
    || c == '\U{3000}' || c == '\U{FEFF}'
  }

  predicate AllDigits(s: string) {
    forall i :: 0 <= i < |s| ==> IsDigit(s[i])
  }

  predicate AllSpaces(s: string) {
    forall i :: 0 <= i < |s| ==> IsSpace(s[i])
  }

  /** `s.replace(/\D/g, "")`: the digits of `s`, in order. */
  function Digits(s: string): (r: string)
    ensures AllDigits(r) && |r| <= |s|
  {
    if s == [] then []
    else (if IsDigit(s[0]) then [s[0]] else []) + Digits(s[1..])
  }

  lemma {:induction false} DigitsAppend(a: string, b: string)
    ensures Digits(a + b) == Digits(a) + Digits(b)
  {
    if a == [] {
      assert a + b == b;
    } else {
      var h := if IsDigit(a[0]) then [a[0]] else [];
      assert (a + b)[0] == a[0] && (a + b)[1..] == a[1..] + b;
      assert Digits(a + b) == h + Digits(a[1..] + b);
      DigitsAppend(a[1..], b);
      assert Digits(a) == h + Digits(a[1..]);
      assert h + (Digits(a[1..]) + Digits(b)) == (h + Digits(a[1..])) + Digits(b);
    }
  }

  lemma {:induction false} DigitsOfDigits(s: string)
    requires AllDigits(s)
    ensures Digits(s) == s
  {
    if s != [] {
      DigitsOfDigits(s[1..]);
    }
  }

  /** End of the run of white space that starts at index `i`. */
  function SpanFrom(s: string, i: nat): (n: nat)
    requires i <= |s|
    decreases |s| - i
    ensures i <= n <= |s| && (n < |s| ==> !IsSpace(s[n]))
    ensures forall k :: i <= k < n ==> IsSpace(s[k])
  {
    if i < |s| && IsSpace(s[i]) then SpanFrom(s, i + 1) else i
  }

  /** Start of the run of white space that ends just before index `j`. */
  function SpanBack(s: string, j: nat): (n: nat)
    requires j <= |s|
    ensures n <= j && (n > 0 ==> !IsSpace(s[n - 1]))
    ensures forall k :: n <= k < j ==> IsSpace(s[k])
  {
    if j > 0 && IsSpace(s[j - 1]) then SpanBack(s, j - 1) else j
  }

  /** Number of white-space characters `trim` removes from the front of `s`. */
  function Lead(s: string): nat {
    SpanFrom(s, 0)
  }

  /** Neither end of `s` is white space. */
  predicate IsTrimmed(s: string) {
    s == [] || (!IsSpace(s[0]) && !IsSpace(s[|s| - 1]))
  }

  /** `s.trim()`: `s` without its leading and trailing white space. */
  function Trim(s: string): (r: string)
    ensures Lead(s) + |r| <= |s| && r == s[Lead(s)..Lead(s) + |r|]
    ensures AllSpaces(s[..Lead(s)]) && AllSpaces(s[Lead(s) + |r|..])
    ensures IsTrimmed(r)
  {
    var a := SpanFrom(s, 0);
    var b := SpanBack(s, |s|);
    if a < |s| then
      assert a < b;
      s[a..b]
    else []
  }

  /** The white-space runs are determined by where they stop. */
  lemma SpanFromIs(s: string, i: nat, n: nat)
    requires i <= n <= |s| && (n < |s| ==> !IsSpace(s[n]))
    requires forall k :: i <= k < n ==> IsSpace(s[k])
    ensures SpanFrom(s, i) == n
  {
  }

  lemma SpanBackIs(s: string, j: nat, n: nat)
    requires n <= j <= |s| && (n > 0 ==> !IsSpace(s[n - 1]))
    requires forall k :: n <= k < j ==> IsSpace(s[k])
    ensures SpanBack(s, j) == n
  {
  }

  /** Trimming is determined by the shape `a + r + b`: a white-space prefix,
      a core that neither starts nor ends with white space, a white-space
      suffix. */
  lemma TrimOf(a: string, r: string, b: string)
    requires AllSpaces(a) && AllSpaces(b)
    requires IsTrimmed(r)
    ensures Trim(a + r + b) == r
  {
    var s := a + r + b;
    var i, j := |a|, |a| + |r|;
    forall k | 0 <= k < i ensures IsSpace(s[k]) {
      assert s[k] == a[k];
    }
    forall k | j <= k < |s| ensures IsSpace(s[k]) {
      assert s[k] == b[k - j];
    }
    assert s[i..j] == r;
    if r == [] {
      SpanFromIs(s, 0, |s|);
    } else {
      assert s[i] == r[0] && s[j - 1] == r[|r| - 1];
      SpanFromIs(s, 0, i);
      SpanBackIs(s, |s|, j);
    }
  }

  /** Surrounding white space never changes what `trim` returns. */
  lemma TrimIgnoresSurroundingSpace(w1: string, s: string, w2: string)
    requires AllSpaces(w1) && AllSpaces(w2)
    ensures Trim(w1 + s + w2) == Trim(s)
  {
    var r := Trim(s);
    var a, b := TrimSplit(s);
    Regroup(w1, a, r, b, w2);
    AllSpacesAppend(w1, a);
    AllSpacesAppend(b, w2);
    TrimOf(w1 + a, r, b + w2);
  }

  lemma Regroup(w1: string, a: string, r: string, b: string, w2: string)
    ensures w1 + (a + r + b) + w2 == (w1 + a) + r + (b + w2)
  {
  }

  lemma AllSpacesAppend(x: string, y: string)
    requires AllSpaces(x) && AllSpaces(y)
    ensures AllSpaces(x + y)
  {
  }

  /** The white space `trim` removes from either end of `s`. */
  lemma TrimSplit(s: string) returns (a: string, b: string)
    ensures AllSpaces(a) && AllSpaces(b) && s == a + Trim(s) + b
  {
    var r := Trim(s);
    var n := Lead(s);
    a, b := s[..n], s[n + |r|..];
    assert s[..n + |r|] == a + r;
    assert s == s[..n + |r|] + b;
  }

  /** The letters `toUpperCase` maps to a different single character, as far
      as this model goes: ASCII and Latin-1 lower-case letters. */
  predicate IsLowerChar(c: char) {
    'a' <= c <= 'z' || ('\U{E0}' <= c <= '\U{FE}' && c != '\U{F7}') || c == '\U{FF}'
  }

  /** The letters `toLowerCase` maps to a different single character. */
  predicate IsUpperChar(c: char) {
    'A' <= c <= 'Z' || ('\U{C0}' <= c <= '\U{DE}' && c != '\U{D7}') || c == '\U{178}'
  }

  function ToUpperChar(c: char): char {
    if c == '\U{FF}' then '\U{178}'
    else if IsLowerChar(c) then (c as int - 32) as char
    else c
  }

  function ToLowerChar(c: char): char {
    if c == '\U{178}' then '\U{FF}'
    else if IsUpperChar(c) then (c as int + 32) as char
    else c
  }

  /** `s.toUpperCase()` */
  function ToUpper(s: string): (r: string)
    ensures |r| == |s|
    ensures forall i :: 0 <= i < |s| ==> r[i] == ToUpperChar(s[i])
  {
    seq(|s|, i requires 0 <= i < |s| => ToUpperChar(s[i]))
  }

  /** `s.toLowerCase()` */
  function ToLower(s: string): (r: string)
    ensures |r| == |s|
    ensures forall i :: 0 <= i < |s| ==> r[i] == ToLowerChar(s[i])
  {
    seq(|s|, i requires 0 <= i < |s| => ToLowerChar(s[i]))
  }

  lemma ToLowerAppend(x: string, y: string)
    ensures ToLower(x + y) == ToLower(x) + ToLower(y)
  {
  }

  /** The model's ASCII and Latin-1 case maps leave no letter of the other
      case behind, keep white space and digits where they are, and
      lower-casing forgets what upper-casing did. (Full Unicode casing does
      not: `ſ` and `ı` upper-case to `S` and `I`.) */
  lemma CaseMapChar(c: char)
    ensures !IsLowerChar(ToUpperChar(c)) && !IsUpperChar(ToLowerChar(c))
    ensures IsSpace(ToUpperChar(c)) == IsSpace(c) && IsSpace(ToLowerChar(c)) == IsSpace(c)
    ensures IsDigit(ToUpperChar(c)) == IsDigit(c) && IsDigit(ToLowerChar(c)) == IsDigit(c)
    ensures ToLowerChar(ToUpperChar(c)) == ToLowerChar(c)
    ensures ToLowerChar(ToLowerChar(c)) == ToLowerChar(c)
  {
  }

  /** Case mapping commutes with trimming, because it maps white space to
      white space and nothing else to white space. */
  lemma TrimToLower(s: string)
    ensures Trim(ToLower(s)) == ToLower(Trim(s))
  {
    var r := Trim(s);
    var a, b := TrimSplit(s);
    ToLowerAppend(a, r);
    ToLowerAppend(a + r, b);
    forall c { CaseMapChar(c); }
    assert AllSpaces(ToLower(a)) && AllSpaces(ToLower(b));
    TrimOf(ToLower(a), ToLower(r), ToLower(b));
  }

  /** No letter of `s` has an upper-case form of its own. */
  predicate NoLowerCase(s: string) {
    forall i :: 0 <= i < |s| ==> !IsLowerChar(s[i])
  }

  /** No letter of `s` has a lower-case form of its own. */
  predicate NoUpperCase(s: string) {
    forall i :: 0 <= i < |s| ==> !IsUpperChar(s[i])
  }

  predicate OccursAt(s: string, p: string, i: nat) {
    i + |p| <= |s| && s[i..i + |p|] == p
  }

  /** `s.includes(p)`, searching from the front. */
  predicate Contains(s: string, p: string)
    ensures p == [] ==> Contains(s, p)
    ensures Contains(s, p) ==> |p| <= |s|
  {
    |p| <= |s| && (s[..|p|] == p || Contains(s[1..], p))
  }

  /** `includes` holds exactly when `p` occurs at some position of `s`. */
  lemma {:induction false} ContainsOccurs(s: string, p: string)
    ensures Contains(s, p) <==> exists i :: 0 <= i <= |s| - |p| && OccursAt(s, p, i)
  {
    if |p| <= |s| {
      if s[..|p|] == p {
        assert OccursAt(s, p, 0);
      } else {
        ContainsOccurs(s[1..], p);
        if Contains(s[1..], p) {
          var i :| 0 <= i <= |s[1..]| - |p| && OccursAt(s[1..], p, i);
          assert s[1..][i..i + |p|] == s[i + 1..i + 1 + |p|];
          assert OccursAt(s, p, i + 1);
        }
        if exists i :: 0 <= i <= |s| - |p| && OccursAt(s, p, i) {
          var i :| 0 <= i <= |s| - |p| && OccursAt(s, p, i);
          assert i > 0;
          assert s[1..][i - 1..i - 1 + |p|] == s[i..i + |p|];
          assert OccursAt(s[1..], p, i - 1);
        }
      }
    }
  }

  /** `s.length`: ECMAScript counts UTF-16 code units, two for a character
      outside the Basic Multilingual Plane. */
  function Utf16Length(s: string): (n: nat)
    ensures |s| <= n <= 2 * |s|
  {
    if s == [] then 0
    else (if s[0] as int > 0xFFFF then 2 else 1) + Utf16Length(s[1..])
  }

  predicate InBmp(s: string) {
    forall i :: 0 <= i < |s| ==> s[i] as int <= 0xFFFF
  }

  lemma {:induction false} Utf16LengthInBmp(s: string)
    requires InBmp(s)
    ensures Utf16Length(s) == |s|
  {
    if s != [] {
      Utf16LengthInBmp(s[1..]);
    }
  }
}
