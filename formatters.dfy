/** The field formatters: CPF mask, Brazilian phone masks and name
    clean-up. Each regular expression of the source is a hand-written
    matcher here. */
module Formatters {
  import opened Text
  import opened Records

  function Repeat(c: char, n: nat): (r: string)
    ensures |r| == n && forall i :: 0 <= i < n ==> r[i] == c
  {
    seq(n, _ => c)
  }

  /** `s.padStart(n, c)` with a one-character pad. */
  function PadStart(s: string, n: nat, c: char): (r: string)
    ensures |r| == if |s| < n then n else |s|
    ensures r[|r| - |s|..] == s
    ensures forall i :: 0 <= i < |r| - |s| ==> r[i] == c
  {
    if |s| < n then Repeat(c, n - |s|) + s else s
  }

  /** A run of `n` digits starts at index `i` of `s`. */
  predicate DigitRunAt(s: string, i: nat, n: nat) {
    i + n <= |s| && AllDigits(s[i..i + n])
  }

  /** Where an unanchored, non-global `/\d{n}/` first matches in `s`,
      searching from index `from`. */
  function FirstDigitRunFrom(s: string, n: nat, from: nat): (r: Option<nat>)
    decreases |s| - from
    ensures r.Some? ==> from <= r.value && DigitRunAt(s, r.value, n)
    ensures r.Some? ==> forall j :: from <= j < r.value ==> !DigitRunAt(s, j, n)
    ensures r.None? ==> forall j :: from <= j ==> !DigitRunAt(s, j, n)
  {
    if from + n > |s| then None
    else if AllDigits(s[from..from + n]) then Some(from)
    else FirstDigitRunFrom(s, n, from + 1)
  }

  function FirstDigitRun(s: string, n: nat): Option<nat> {
    FirstDigitRunFrom(s, n, 0)
  }

  lemma FirstDigitRunOfDigits(s: string, n: nat)
    requires AllDigits(s) && n <= |s|
    ensures FirstDigitRun(s, n) == Some(0)
  {
    assert AllDigits(s[0..n]);
  }

  /** `s.replace(/(\d{3})(\d{3})(\d{3})(\d{2})/, "$1.$2.$3-$4")`: the first
      run of eleven digits is masked, the rest of `s` is kept. */
  function CpfMask(s: string): (r: string)
    ensures FirstDigitRun(s, 11).None? <==> r == s
  {
    match FirstDigitRun(s, 11)
    case None => s
    case Some(i) =>
      s[..i] + s[i..i + 3] + "." + s[i + 3..i + 6] + "." + s[i + 6..i + 9] + "-" + s[i + 9..i + 11] + s[i + 11..]
  }

  /** `formatCPF`: keep the digits, left-pad them with '0' to eleven, mask.
      Whatever the input, the mask applies to exactly the padded digits: the
      replacement never falls back to the unmasked string. */
  function FormatCPF(cpf: string): (r: string)
    ensures r == MaskedDigits(PaddedDigits(cpf))
  {
    var numbers := Digits(cpf);
    var paddedCPF := PadStart(numbers, 11, '0');
    assert paddedCPF == PaddedDigits(cpf);
    FirstDigitRunOfDigits(paddedCPF, 11);
    CpfMaskAtStart(paddedCPF);
    CpfMask(paddedCPF)
  }

  /** The mask `DDD.DDD.DDD-DD` laid over the first eleven characters of `p`,
      followed by the rest of `p`. */
  function MaskedDigits(p: string): string
    requires |p| >= 11
  {
    p[..3] + "." + p[3..6] + "." + p[6..9] + "-" + p[9..]
  }

  /** The digit string `formatCPF` masks: the input's digits, left-padded with '0' to eleven. */
  function PaddedDigits(cpf: string): (p: string)
    ensures AllDigits(p) && |p| >= 11
  {
    var d := Digits(cpf);
    var p := PadStart(d, 11, '0');
    assert forall i :: 0 <= i < |p| ==> IsDigit(p[i]) by {
      forall i | 0 <= i < |p| ensures IsDigit(p[i]) {
        if |d| < 11 && i >= 11 - |d| {
          assert p[i] == d[i - (11 - |d|)];
        }
      }
    }
    p
  }

  /** A mask whose eleven digits start at index 0 is `MaskedDigits`. */
  lemma CpfMaskAtStart(p: string)
    requires |p| >= 11 && FirstDigitRun(p, 11) == Some(0)
    ensures CpfMask(p) == MaskedDigits(p)
  {
    MaskAtStartRegroup(p);
  }

  lemma MaskAtStartRegroup(p: string)
    requires |p| >= 11
    ensures p[..0] + p[0..3] + "." + p[3..6] + "." + p[6..9] + "-" + p[9..11] + p[11..] == MaskedDigits(p)
  {
    var x := p[..3] + "." + p[3..6] + "." + p[6..9] + "-";
    assert p[..0] + p[0..3] == p[..3];
    assert x + p[9..11] + p[11..] == x + (p[9..11] + p[11..]);
    assert p[9..11] + p[11..] == p[9..];
  }

  lemma MaskedDigitsLayout(p: string)
    requires |p| >= 11
    ensures var r := MaskedDigits(p);
      && |r| == |p| + 3
      && r[3] == '.' && r[7] == '.' && r[11] == '-'
      && r[..3] == p[..3] && r[4..7] == p[3..6] && r[8..11] == p[6..9] && r[12..] == p[9..]
  {
  }

  lemma MaskedDigitsDigits(p: string)
    requires |p| >= 11 && AllDigits(p)
    ensures Digits(MaskedDigits(p)) == p
  {
    var a, b, c, d := p[..3], p[3..6], p[6..9], p[9..];
    var x1 := a + ".";
    var x2 := x1 + b;
    var x3 := x2 + ".";
    var x4 := x3 + c;
    var x5 := x4 + "-";
    var r := x5 + d;
    assert r == MaskedDigits(p);
    DigitsOfDigits(a);
    DigitsAppendSeparator(a, ".");
    DigitsAppendDigits(x1, b);
    DigitsAppendSeparator(x2, ".");
    DigitsAppendDigits(x3, c);
    DigitsAppendSeparator(x4, "-");
    DigitsAppendDigits(x5, d);
    assert a + b + c + d == p;
  }

  /** With at most eleven digits the result is the fixed 14-character mask
      whose digits are the input's digits left-padded with '0'. */
  lemma FormatCpfShort(cpf: string)
    requires |Digits(cpf)| <= 11
    ensures var r := FormatCPF(cpf);
      && |r| == 14
      && r[3] == '.' && r[7] == '.' && r[11] == '-'
      && AllDigits(r[..3]) && AllDigits(r[4..7]) && AllDigits(r[8..11]) && AllDigits(r[12..])
      && Digits(r) == Repeat('0', 11 - |Digits(cpf)|) + Digits(cpf)
  {
    var p := PaddedDigits(cpf);
    MaskedDigitsLayout(p);
    MaskedDigitsDigits(p);
    PaddedDigitsOfShort(cpf);
  }

  lemma PaddedDigitsOfShort(cpf: string)
    requires |Digits(cpf)| <= 11
    ensures PaddedDigits(cpf) == Repeat('0', 11 - |Digits(cpf)|) + Digits(cpf)
  {
    var d := Digits(cpf);
    assert PaddedDigits(cpf) == PadStart(d, 11, '0');
    if |d| == 11 {
      assert Repeat('0', 0) + d == d;
    }
  }

  /** With more than eleven digits the first eleven are masked and the
      others follow unchanged: the output is three characters longer than
      the digit string. */
  lemma FormatCpfOverlong(cpf: string)
    requires |Digits(cpf)| > 11
    ensures var d := Digits(cpf);
      && FormatCPF(cpf) == FormatCPF(d[..11]) + d[11..]
      && |FormatCPF(cpf)| == |d| + 3
      && Digits(FormatCPF(cpf)) == d
  {
    var d := Digits(cpf);
    var e := d[..11];
    DigitsOfDigits(e);
    PaddedDigitsOfLong(cpf);
    PaddedDigitsOfLong(e);
    assert e + d[11..] == d;
    MaskedDigitsAppend(e, d[11..]);
    MaskedDigitsDigits(d);
  }

  lemma PaddedDigitsOfLong(cpf: string)
    requires |Digits(cpf)| >= 11
    ensures PaddedDigits(cpf) == Digits(cpf)
  {
  }

  lemma MaskedDigitsAppend(e: string, tail: string)
    requires |e| == 11
    ensures MaskedDigits(e + tail) == MaskedDigits(e) + tail
  {
    var p := e + tail;
    assert p[..3] == e[..3] && p[3..6] == e[3..6] && p[6..9] == e[6..9];
    assert p[9..] == e[9..] + tail;
  }

  /** Only the digits of the input matter. */
  lemma FormatCpfDependsOnDigits(a: string, b: string)
    requires Digits(a) == Digits(b)
    ensures FormatCPF(a) == FormatCPF(b)
  {
  }

  lemma FormatCpfEmpty()
    ensures FormatCPF("") == "000.000.000-00"
  {
    var p := "00000000000";
    assert PaddedDigits("") == p;
    assert p[..3] == "000" && p[3..6] == "000" && p[6..9] == "000" && p[9..] == "00";
  }

  /** The layout `(DD) D…D-DDDD` with `m` digits in the middle group. */
  predicate IsPhoneLayout(r: string, m: nat) {
    && |r| == m + 10
    && r[0] == '(' && AllDigits(r[1..3]) && r[3] == ')' && r[4] == ' '
    && AllDigits(r[5..5 + m]) && r[5 + m] == '-' && AllDigits(r[6 + m..])
  }

  /** `s.replace(/(\d{2})(\d{4})(\d{4})/, "($1) $2-$3")` */
  function LandlineMask(s: string): (r: string)
    ensures FirstDigitRun(s, 10).None? <==> r == s
  {
    match FirstDigitRun(s, 10)
    case None => s
    case Some(i) => s[..i] + "(" + s[i..i + 2] + ") " + s[i + 2..i + 6] + "-" + s[i + 6..i + 10] + s[i + 10..]
  }

  /** `s.replace(/(\d{2})(\d{5})(\d{4})/, "($1) $2-$3")` */
  function MobileMask(s: string): (r: string)
    ensures FirstDigitRun(s, 11).None? <==> r == s
  {
    match FirstDigitRun(s, 11)
    case None => s
    case Some(i) => s[..i] + "(" + s[i..i + 2] + ") " + s[i + 2..i + 7] + "-" + s[i + 7..i + 11] + s[i + 11..]
  }

  /** `formatPhone` */
  function FormatPhone(phone: string): (r: string)
    ensures |Digits(phone)| >= 10 ==> |r| == (if |Digits(phone)| == 10 then 14 else 15) && r[0] == '('
  {
    var numbers := Digits(phone);
    FirstDigitRunOfDigits(numbers, if |numbers| < 11 then |numbers| else 11);
    if |numbers| < 10 then phone
    else if |numbers| == 10 then LandlineMask(numbers)
    else if |numbers| == 11 then MobileMask(numbers)
    else if |numbers| > 11 then
      var ddd := numbers[0..2];
      var number := numbers[2..11];
      "(" + ddd + ") " + number[0..5] + "-" + number[5..]
    else phone
  }

  /** The digits `d` laid out as `(DD) D…D-DDDD` with `m` digits in the middle. */
  function PhoneLayout(d: string, m: nat): (r: string)
    requires |d| == m + 6
    ensures |r| == m + 10
  {
    "(" + d[..2] + ") " + d[2..2 + m] + "-" + d[2 + m..]
  }

  /** Appending a separator without digits leaves the digits as they are. */
  lemma DigitsAppendSeparator(x: string, sep: string)
    requires sep in ["(", ") ", "-", "."]
    ensures Digits(x + sep) == Digits(x)
  {
    DigitsAppend(x, sep);
  }

  lemma DigitsAppendDigits(x: string, d: string)
    requires AllDigits(d)
    ensures Digits(x + d) == Digits(x) + d
  {
    DigitsAppend(x, d);
    DigitsOfDigits(d);
  }

  lemma PhoneLayoutOfDigits(d: string, m: nat)
    requires |d| == m + 6 && AllDigits(d)
    ensures IsPhoneLayout(PhoneLayout(d, m), m)
    ensures Digits(PhoneLayout(d, m)) == d
  {
    PhoneLayoutShape(d, m);
    PhoneLayoutDigits(d, m);
  }

  lemma PhoneLayoutShape(d: string, m: nat)
    requires |d| == m + 6 && AllDigits(d)
    ensures IsPhoneLayout(PhoneLayout(d, m), m)
  {
    var r := PhoneLayout(d, m);
    assert r[1..3] == d[..2] && r[5..5 + m] == d[2..2 + m] && r[6 + m..] == d[2 + m..];
  }

  lemma PhoneLayoutDigits(d: string, m: nat)
    requires |d| == m + 6 && AllDigits(d)
    ensures Digits(PhoneLayout(d, m)) == d
  {
    var a, b, c := d[..2], d[2..2 + m], d[2 + m..];
    var x1 := "(" + a;
    var x2 := x1 + ") ";
    var x3 := x2 + b;
    var x4 := x3 + "-";
    assert PhoneLayout(d, m) == x4 + c;
    DigitsAppendDigits("(", a);
    assert Digits("(") == [];
    DigitsAppendSeparator(x1, ") ");
    DigitsAppendDigits(x2, b);
    DigitsAppendSeparator(x3, "-");
    DigitsAppendDigits(x4, c);
    assert a + b + c == d;
  }

  /** Fewer than ten digits: the input comes back exactly, non-digits included. */
  lemma FormatPhoneTooShort(phone: string)
    requires |Digits(phone)| < 10
    ensures FormatPhone(phone) == phone
  {
  }

  /** Ten digits: `(DD) DDDD-DDDD`, fourteen characters, the same digits. */
  lemma FormatPhoneLandline(phone: string)
    requires |Digits(phone)| == 10
    ensures IsPhoneLayout(FormatPhone(phone), 4) && |FormatPhone(phone)| == 14
    ensures Digits(FormatPhone(phone)) == Digits(phone)
  {
    var d := Digits(phone);
    FirstDigitRunOfDigits(d, 10);
    assert d[..0] == [] && d[0..2] == d[..2] && d[10..] == [];
    assert LandlineMask(d) == PhoneLayout(d, 4);
    PhoneLayoutOfDigits(d, 4);
  }

  /** Eleven digits: `(DD) DDDDD-DDDD`, fifteen characters, the same digits. */
  lemma FormatPhoneMobile(phone: string)
    requires |Digits(phone)| == 11
    ensures IsPhoneLayout(FormatPhone(phone), 5) && |FormatPhone(phone)| == 15
    ensures Digits(FormatPhone(phone)) == Digits(phone)
  {
    FormatPhoneMobileLayout(phone);
    PhoneLayoutOfDigits(Digits(phone), 5);
  }

  lemma FormatPhoneMobileLayout(phone: string)
    requires |Digits(phone)| == 11
    ensures FormatPhone(phone) == PhoneLayout(Digits(phone), 5)
  {
    var d := Digits(phone);
    FirstDigitRunOfDigits(d, 11);
    assert d[..0] == [] && d[0..2] == d[..2] && d[11..] == [];
    assert MobileMask(d) == PhoneLayout(d, 5);
  }

  lemma FormatPhoneOverlongLayout(phone: string)
    requires |Digits(phone)| > 11
    ensures FormatPhone(phone) == PhoneLayout(Digits(phone)[..11], 5)
  {
    var d := Digits(phone);
    assert d[2..11][0..5] == d[..11][2..7];
    assert d[2..11][5..] == d[..11][7..];
  }

  /** More than eleven digits: only the first eleven are used, formatted as
      an eleven-digit number would be. */
  lemma FormatPhoneOverlong(phone: string)
    requires |Digits(phone)| > 11
    ensures FormatPhone(phone) == FormatPhone(Digits(phone)[..11])
    ensures IsPhoneLayout(FormatPhone(phone), 5)
    ensures Digits(FormatPhone(phone)) == Digits(phone)[..11]
  {
    var e := Digits(phone)[..11];
    DigitsOfDigits(e);
    FormatPhoneOverlongLayout(phone);
    FormatPhoneMobileLayout(e);
    PhoneLayoutOfDigits(e, 5);
  }

  /** From ten digits on, the result is always one of the two masks: the
      final `return phone` of the source cannot be reached. */
  lemma FormatPhoneAlwaysMasked(phone: string)
    requires |Digits(phone)| >= 10
    ensures IsPhoneLayout(FormatPhone(phone), 4) || IsPhoneLayout(FormatPhone(phone), 5)
  {
    if |Digits(phone)| == 10 {
      FormatPhoneLandline(phone);
    } else if |Digits(phone)| == 11 {
      FormatPhoneMobile(phone);
    } else {
      FormatPhoneOverlong(phone);
    }
  }

  /** `copy` under the regular expression's `i` flag. */
  predicate IsCopyWord(w: string) {
    && |w| == 4
    && (w[0] == 'c' || w[0] == 'C') && (w[1] == 'o' || w[1] == 'O')
    && (w[2] == 'p' || w[2] == 'P') && (w[3] == 'y' || w[3] == 'Y')
  }

  /** `t` as a whole matches `\s*\d*`. */
  predicate SpacesThenDigits(t: string) {
    if t != [] && IsSpace(t[0]) then SpacesThenDigits(t[1..]) else AllDigits(t)
  }

  /** `t` as a whole matches `\s*copy\s*\d*` (case-insensitively). White
      space shares no character with "copy" or with the digits, so each
      `\s*` has only one way to match. */
  predicate IsCopyTail(t: string) {
    if t != [] && IsSpace(t[0]) then IsCopyTail(t[1..])
    else |t| >= 4 && IsCopyWord(t[..4]) && SpacesThenDigits(t[4..])
  }

  /** The leftmost index, from `from` on, at which `/\s*copy\s*\d*$/i`
      matches `s`. */
  function FirstCopyTailFrom(s: string, from: nat): (r: Option<nat>)
    requires from <= |s|
    decreases |s| - from
    ensures r.Some? ==> from <= r.value <= |s| && IsCopyTail(s[r.value..])
    ensures r.Some? ==> forall j :: from <= j < r.value ==> !IsCopyTail(s[j..])
    ensures r.None? ==> forall j :: from <= j <= |s| ==> !IsCopyTail(s[j..])
  {
    if IsCopyTail(s[from..]) then Some(from)
    else if from == |s| then None
    else
      FirstCopyTailFrom(s, from + 1)
  }

  /** `s.replace(/\s*copy\s*\d*$/gi, "")`. A match ends at the end of `s`,
      so the global flag finds at most one. */
  function StripCopy(s: string): (r: string)
    ensures |r| <= |s| && r == s[..|r|]
    ensures r == s <==> forall j :: 0 <= j <= |s| ==> !IsCopyTail(s[j..])
    ensures r != s ==> IsCopyTail(s[|r|..]) && forall j :: 0 <= j < |r| ==> !IsCopyTail(s[j..])
  {
    match FirstCopyTailFrom(s, 0)
    case None => s
    case Some(p) => s[..p]
  }

  /** `formatName`: strip a trailing copy marker, trim, upper-case. */
  function FormatName(name: string): (r: string)
    ensures IsTrimmed(r) && NoLowerCase(r)
  {
    var t := Trim(StripCopy(name));
    forall c { CaseMapChar(c); }
    ToUpper(t)
  }

  /** A copy marker at the very end is removed, together with every white
      space before it: what is left is a prefix of the text before the marker. */
  lemma StripCopyRemovesMarker(s: string, t: string)
    requires IsCopyTail(t)
    ensures |StripCopy(s + t)| <= |s| && StripCopy(s + t) == s[..|StripCopy(s + t)|]
  {
    var u := s + t;
    assert u[|s|..] == t;
    var p := FirstCopyTailFrom(u, 0);
    assert p.Some? && p.value <= |s|;
    assert u[..p.value] == s[..p.value];
  }

  lemma {:induction false} SpacesThenDigitsEndingInSpace(t: string)
    requires SpacesThenDigits(t) && |t| > 0 && IsSpace(t[|t| - 1])
    ensures AllSpaces(t)
  {
    if IsSpace(t[0]) {
      if |t| > 1 {
        SpacesThenDigitsEndingInSpace(t[1..]);
      }
    }
  }

  /** A copy tail that ends in white space has no digits at all. */
  lemma {:induction false} CopyTailEndingInSpace(t: string)
    requires IsCopyTail(t) && |t| > 0 && IsSpace(t[|t| - 1])
    ensures forall i :: 0 <= i < |t| ==> !IsDigit(t[i])
  {
    if IsSpace(t[0]) {
      CopyTailEndingInSpace(t[1..]);
      forall i | 0 < i < |t| ensures !IsDigit(t[i]) {
        assert t[i] == t[1..][i - 1];
      }
    } else {
      SpacesThenDigitsEndingInSpace(t[4..]);
      forall i | 4 <= i < |t| ensures !IsDigit(t[i]) {
        assert t[i] == t[4..][i - 4];
      }
    }
  }

  lemma {:induction false} BlankIsNotCopyTail(t: string)
    requires AllSpaces(t)
    ensures !IsCopyTail(t)
  {
    if t != [] {
      BlankIsNotCopyTail(t[1..]);
    }
  }

  /** White space after the digits of a marker blocks the strip: the
      regular expression is anchored at the end and applied before `trim`. */
  lemma TrailingSpaceBlocksStrip(s: string, w: string)
    requires |s| > 0 && IsDigit(s[|s| - 1])
    requires |w| > 0 && AllSpaces(w)
    ensures StripCopy(s + w) == s + w
  {
    var u := s + w;
    forall j | 0 <= j <= |u| ensures !IsCopyTail(u[j..]) {
      var t := u[j..];
      if j < |s| {
        assert t[|s| - 1 - j] == s[|s| - 1];
        assert t[|t| - 1] == w[|w| - 1];
        if IsCopyTail(t) {
          CopyTailEndingInSpace(t);
        }
      } else {
        assert AllSpaces(t);
        BlankIsNotCopyTail(t);
      }
    }
    assert FirstCopyTailFrom(u, 0).None?;
  }

  /** Without digits, the marker's second `\s*` takes the trailing white
      space, so the marker is still removed from "Ana copy ". */
  lemma DigitlessMarkerTakesTrailingSpace()
    ensures StripCopy("Ana copy ") == "Ana"
  {
    var s := "Ana copy ";
    assert s[3..] == " copy ";
    assert IsCopyTail(s[3..]) by {
      assert s[3..][1..] == "copy ";
      assert SpacesThenDigits(" ") by {
        assert " "[1..] == [];
      }
    }
    assert !IsCopyTail(s[0..]) && !IsCopyTail(s[1..]) && !IsCopyTail(s[2..]);
    assert FirstCopyTailFrom(s, 0) == Some(3);
  }

  /** `formatName("Ana copy ")` is "ANA". */
  lemma FormatNameDigitlessMarker()
    ensures FormatName("Ana copy ") == "ANA"
  {
    DigitlessMarkerTakesTrailingSpace();
    AnaTrimmedUpper();
  }

  lemma AnaTrimmedUpper()
    ensures ToUpper(Trim("Ana")) == "ANA"
  {
    TrimOf("", "Ana", "");
    assert "" + "Ana" + "" == "Ana";
    assert ToUpper("Ana") == "ANA";
  }
}
