/** The field validators and the record-level aggregation of their
    verdicts into an ordered error list. */
module Validators {
  import opened Text
  import opened Records
  import Formatters

  /** A character of `[^\s@]`. */
  predicate IsEmailChar(c: char) {
    !IsSpace(c) && c != '@'
  }

  predicate AllEmailChars(s: string) {
    forall i :: 0 <= i < |s| ==> IsEmailChar(s[i])
  }

  /** Index of the first occurrence of `c` in `s`. */
  function IndexOf(s: string, c: char): (r: Option<nat>)
    ensures r.Some? ==> r.value < |s| && s[r.value] == c
    ensures r.Some? ==> forall j :: 0 <= j < r.value ==> s[j] != c
    ensures r.None? ==> forall j :: 0 <= j < |s| ==> s[j] != c
  {
    if s == [] then None
    else if s[0] == c then Some(0)
    else
      match IndexOf(s[1..], c)
      case None => None
      case Some(i) => Some(i + 1)
  }

  /** `/^[^\s@]+@[^\s@]+\.[^\s@]+$/.test(email)`, decided by locating the
      only '@' and then a '.' strictly inside the part after it. */
  predicate IsValidEmail(email: string)
    ensures IsValidEmail(email) ==> '@' in email && |email| >= 5
  {
    match IndexOf(email, '@')
    case None => false
    case Some(at) =>
      var local, domain := email[..at], email[at + 1..];
      && 0 < at && AllEmailChars(local) && AllEmailChars(domain)
      && exists j :: 0 < j < |domain| - 1 && domain[j] == '.'
  }

  /** The language of the e-mail pattern, written as a concatenation. */
  predicate IsEmailShape(email: string, user: string, host: string, tld: string) {
    && |user| > 0 && |host| > 0 && |tld| > 0
    && AllEmailChars(user) && AllEmailChars(host) && AllEmailChars(tld)
    && email == user + "@" + host + "." + tld
  }

  /** Every accepted address splits as `user@host.tld` with three non-empty
      parts free of white space and '@'. */
  lemma ValidEmailHasShape(email: string)
    requires IsValidEmail(email)
    ensures exists user, host, tld :: IsEmailShape(email, user, host, tld)
  {
    var at := IndexOf(email, '@').value;
    var domain := email[at + 1..];
    var j :| 0 < j < |domain| - 1 && domain[j] == '.';
    var user, host, tld := email[..at], domain[..j], domain[j + 1..];
    assert domain == host + "." + tld;
    assert email == user + "@" + domain;
    assert IsEmailShape(email, user, host, tld);
  }

  /** Every `user@host.tld` of that shape is accepted. */
  lemma ShapeIsValidEmail(email: string, user: string, host: string, tld: string)
    requires IsEmailShape(email, user, host, tld)
    ensures IsValidEmail(email)
  {
    var domain := host + "." + tld;
    assert email == user + "@" + domain;
    assert email[|user|] == '@';
    assert forall j :: 0 <= j < |user| ==> email[j] == user[j];
    var r := IndexOf(email, '@');
    assert r == Some(|user|);
    assert email[|user| + 1..] == domain;
    assert domain[|host|] == '.';
    forall i | 0 <= i < |domain| ensures IsEmailChar(domain[i]) {
      if i < |host| {
        assert domain[i] == host[i];
      } else if i > |host| {
        assert domain[i] == tld[i - |host| - 1];
      }
    }
  }

  /** A valid address holds exactly one '@'. */
  lemma ValidEmailHasOneAt(email: string)
    requires IsValidEmail(email)
    ensures exists k :: 0 <= k < |email| && email[k] == '@'
    ensures forall i, j :: 0 <= i < |email| && 0 <= j < |email| && email[i] == '@' && email[j] == '@' ==> i == j
  {
    var at := IndexOf(email, '@').value;
    forall i | at < i < |email| ensures email[i] != '@' {
      assert email[i] == email[at + 1..][i - at - 1];
    }
  }

  /** `/^\d{3}\.\d{3}\.\d{3}-\d{2}$/.test(cpf)`, group by group. */
  predicate MatchesCpfPattern(s: string) {
    && |s| == 14
    && AllDigits(s[..3]) && s[3] == '.'
    && AllDigits(s[4..7]) && s[7] == '.'
    && AllDigits(s[8..11]) && s[11] == '-'
    && AllDigits(s[12..])
  }

  /** `isValidCPF`: the pattern and `cpf.length === 14`, a length in UTF-16
      code units. */
  predicate IsValidCPF(cpf: string)
    ensures IsValidCPF(cpf) <==> MatchesCpfPattern(cpf)
  {
    CpfPatternInBmp(cpf);
    MatchesCpfPattern(cpf) && Utf16Length(cpf) == 14
  }

  /** Every character the CPF pattern admits is ASCII, so the UTF-16 length
      test adds nothing to the pattern. */
  lemma CpfPatternInBmp(s: string)
    ensures MatchesCpfPattern(s) ==> Utf16Length(s) == 14
  {
    if MatchesCpfPattern(s) {
      forall i | 0 <= i < |s| ensures s[i] as int <= 0xFFFF {
        if i < 3 { assert s[..3][i] == s[i]; }
        else if 4 <= i < 7 { assert s[4..7][i - 4] == s[i]; }
        else if 8 <= i < 11 { assert s[8..11][i - 8] == s[i]; }
        else if 12 <= i { assert s[12..][i - 12] == s[i]; }
      }
      Utf16LengthInBmp(s);
    }
  }

  /** What each position of a valid CPF holds. */
  predicate CpfCharAt(s: string, i: nat)
    requires i < |s|
  {
    if i == 3 || i == 7 then s[i] == '.'
    else if i == 11 then s[i] == '-'
    else IsDigit(s[i])
  }

  /** The pattern fixes every position: digits at 0-2, 4-6, 8-10 and 12-13,
      '.' at 3 and 7, '-' at 11. The length test adds nothing to it. */
  lemma ValidCpfPositions(s: string)
    ensures IsValidCPF(s) <==> |s| == 14 && forall i :: 0 <= i < 14 ==> CpfCharAt(s, i)
  {
    if |s| == 14 && forall i :: 0 <= i < 14 ==> CpfCharAt(s, i) {
      PositionsGiveValidCpf(s);
    }
    if IsValidCPF(s) {
      ValidCpfGivesPositions(s);
    }
  }

  lemma PositionsGiveValidCpf(s: string)
    requires |s| == 14 && forall i :: 0 <= i < 14 ==> CpfCharAt(s, i)
    ensures IsValidCPF(s)
  {
    assert forall i :: 0 <= i < 3 ==> s[..3][i] == s[i] && CpfCharAt(s, i);
    assert forall i :: 0 <= i < 3 ==> s[4..7][i] == s[i + 4] && CpfCharAt(s, i + 4);
    assert forall i :: 0 <= i < 3 ==> s[8..11][i] == s[i + 8] && CpfCharAt(s, i + 8);
    assert forall i :: 0 <= i < 2 ==> s[12..][i] == s[i + 12] && CpfCharAt(s, i + 12);
    assert CpfCharAt(s, 3) && CpfCharAt(s, 7) && CpfCharAt(s, 11);
    assert InBmp(s) by {
      forall i | 0 <= i < 14 ensures s[i] as int <= 0xFFFF {
        assert CpfCharAt(s, i);
      }
    }
    Utf16LengthInBmp(s);
  }

  lemma ValidCpfGivesPositions(s: string)
    requires IsValidCPF(s)
    ensures |s| == 14 && forall i :: 0 <= i < 14 ==> CpfCharAt(s, i)
  {
    forall i | 0 <= i < 14 ensures CpfCharAt(s, i) {
      if i < 3 {
        assert s[i] == s[..3][i];
      } else if 3 < i < 7 {
        assert s[i] == s[4..7][i - 4];
      } else if 7 < i < 11 {
        assert s[i] == s[8..11][i - 8];
      } else if 11 < i {
        assert s[i] == s[12..][i - 12];
      }
    }
  }

  /** A formatted CPF passes the validator exactly when the input had at
      most eleven digits: more digits give a longer string. */
  lemma FormatCpfValidIff(cpf: string)
    ensures IsValidCPF(Formatters.FormatCPF(cpf)) <==> |Digits(cpf)| <= 11
  {
    var r := Formatters.FormatCPF(cpf);
    if |Digits(cpf)| <= 11 {
      Formatters.FormatCpfShort(cpf);
      assert InBmp(r) by {
        forall i | 0 <= i < 14 ensures r[i] as int <= 0xFFFF {
          if i < 3 {
            assert r[i] == r[..3][i];
          } else if 3 < i < 7 {
            assert r[i] == r[4..7][i - 4];
          } else if 7 < i < 11 {
            assert r[i] == r[8..11][i - 8];
          } else if 11 < i {
            assert r[i] == r[12..][i - 12];
          }
        }
      }
      Utf16LengthInBmp(r);
    } else {
      Formatters.FormatCpfOverlong(cpf);
    }
  }

  /** Formatting leaves a valid CPF as it is. */
  lemma FormatCpfKeepsValid(cpf: string)
    requires IsValidCPF(cpf)
    ensures Formatters.FormatCPF(cpf) == cpf
  {
    var a, b, c, e := cpf[..3], cpf[4..7], cpf[8..11], cpf[12..];
    var d := a + b + c + e;
    assert AllDigits(d);
    var x1 := a + ".";
    var x2 := x1 + b;
    var x3 := x2 + ".";
    var x4 := x3 + c;
    var x5 := x4 + "-";
    assert cpf == x5 + e;
    DigitsOfDigits(a);
    Formatters.DigitsAppendSeparator(a, ".");
    Formatters.DigitsAppendDigits(x1, b);
    Formatters.DigitsAppendSeparator(x2, ".");
    Formatters.DigitsAppendDigits(x3, c);
    Formatters.DigitsAppendSeparator(x4, "-");
    Formatters.DigitsAppendDigits(x5, e);
    assert Digits(cpf) == d;
    assert Formatters.PaddedDigits(cpf) == d;
    assert d[..3] == a && d[3..6] == b && d[6..9] == c && d[9..] == e;
  }

  /** `isValidName`: at least two UTF-16 code units. */
  predicate IsValidName(name: string)
    ensures |name| >= 2 ==> IsValidName(name)
    ensures IsValidName(name) ==> name != []
  {
    Utf16Length(name) >= 2
  }

  /** Two characters always suffice; for text inside the Basic Multilingual
      Plane the test is exactly `|name| >= 2`. */
  lemma ValidNameLength(name: string)
    ensures |name| >= 2 ==> IsValidName(name)
    ensures InBmp(name) ==> (IsValidName(name) <==> |name| >= 2)
  {
    if InBmp(name) {
      Utf16LengthInBmp(name);
    }
  }

  const AffirmativeTokens: seq<string> := ["sim", "s", "yes", "y", "1", "true"]

  /** `shouldEmitCertificate`: lower-case, trim, test the allow-list. */
  predicate ShouldEmitCertificate(certificadoValue: string)
    ensures ShouldEmitCertificate(certificadoValue) ==> 1 <= |Trim(certificadoValue)| <= 4
  {
    TrimToLower(certificadoValue);
    Trim(ToLower(certificadoValue)) in AffirmativeTokens
  }

  /** The order of lower-casing and trimming does not matter. */
  lemma ShouldEmitTrimFirst(value: string)
    ensures ShouldEmitCertificate(value) <==> ToLower(Trim(value)) in AffirmativeTokens
  {
    TrimToLower(value);
  }

  /** White space around the flag is ignored. */
  lemma ShouldEmitIgnoresSurroundingSpace(w1: string, value: string, w2: string)
    requires AllSpaces(w1) && AllSpaces(w2)
    ensures ShouldEmitCertificate(w1 + value + w2) == ShouldEmitCertificate(value)
  {
    ToLowerAppend(w1, value);
    ToLowerAppend(w1 + value, w2);
    forall c { CaseMapChar(c); }
    assert AllSpaces(ToLower(w1)) && AllSpaces(ToLower(w2));
    TrimIgnoresSurroundingSpace(ToLower(w1), ToLower(value), ToLower(w2));
  }

  /** For ASCII and Latin-1 text, letter case of the flag is ignored. */
  lemma ShouldEmitIgnoresCase(value: string)
    ensures ShouldEmitCertificate(ToUpper(value)) == ShouldEmitCertificate(value)
    ensures ShouldEmitCertificate(ToLower(value)) == ShouldEmitCertificate(value)
  {
    forall c { CaseMapChar(c); }
    assert ToLower(ToUpper(value)) == ToLower(value);
    assert ToLower(ToLower(value)) == ToLower(value);
  }

  lemma ShouldEmitUpperSim()
    ensures ShouldEmitCertificate("SIM")
  {
    assert ToLower("SIM") == "sim";
    TrimOf("", "sim", "");
    assert "" + "sim" + "" == "sim";
  }

  lemma ShouldEmitPaddedYes()
    ensures ShouldEmitCertificate(" Yes ")
  {
    assert ToLower(" Yes ") == " yes ";
    TrimOf(" ", "yes", " ");
    assert " " + "yes" + " " == " yes ";
  }

  lemma ShouldEmitNao()
    ensures !ShouldEmitCertificate("n\U{E3}o")
  {
    var v := "n\U{E3}o";
    NaoIsLowerTrimmed();
    assert v != "sim" && v != "s" && v != "yes" && v != "y" && v != "1" && v != "true" by {
      assert v[1] != "sim"[1] && v[1] != "yes"[1] && v[1] != "true"[1];
    }
  }

  lemma NaoIsLowerTrimmed()
    ensures Trim(ToLower("n\U{E3}o")) == "n\U{E3}o"
  {
    var v := "n\U{E3}o";
    assert ToLower(v) == v;
    TrimOf("", v, "");
    assert "" + v + "" == v;
  }

  lemma ShouldEmitEmpty()
    ensures !ShouldEmitCertificate("")
  {
  }

  /** Whether check `e` fails on the given field values. */
  predicate Fails(e: ValidationError, name: string, cpf: string, email: string) {
    match e
    case InvalidName => !IsValidName(name)
    case InvalidCpf => !IsValidCPF(cpf)
    case InvalidEmail => !IsValidEmail(email)
  }

  /** `validateRecord`: run the three checks in order, pushing one error per
      failing check. */
  function ValidateRecord(name: string, cpf: string, email: string): (v: ValidationResult)
    ensures v.isValid <==> v.errors == []
    ensures v.isValid <==> IsValidName(name) && IsValidCPF(cpf) && IsValidEmail(email)
    ensures forall e :: e in v.errors <==> Fails(e, name, cpf, email)
    ensures forall i, j :: 0 <= i < j < |v.errors| ==> v.errors[i].Rank() < v.errors[j].Rank()
  {
    var errors0: seq<ValidationError> := [];
    var errors1 := if !IsValidName(name) then errors0 + [InvalidName] else errors0;
    var errors2 := if !IsValidCPF(cpf) then errors1 + [InvalidCpf] else errors1;
    var errors3 := if !IsValidEmail(email) then errors2 + [InvalidEmail] else errors2;
    ValidationResult(|errors3| == 0, errors3)
  }

  /** The errors are an in-order subsequence of the three labels: none
      repeats, so there are at most three. */
  lemma ValidateRecordErrorsDistinct(name: string, cpf: string, email: string)
    ensures var errors := ValidateRecord(name, cpf, email).errors;
      && |errors| <= 3
      && forall i, j :: 0 <= i < j < |errors| ==> errors[i] != errors[j]
  {
  }

  /** The display labels tell the three errors apart. */
  lemma LabelsDistinct(a: ValidationError, b: ValidationError)
    ensures a.Label() == b.Label() <==> a == b
  {
  }
}
