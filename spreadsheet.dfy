/** Column detection, row processing and statistics over processed rows. */
module Spreadsheet {
  import opened Text
  import opened Records
  import opened Formatters
  import opened Validators

  /** The five canonical columns. */
  datatype Field = Nome | Cpf | Telefone | Certificado | Email {

    /** The substrings that identify the column in a normalised header. */
    function Keywords(): seq<string> {
      match this
      case Nome => ["nome", "name", "aluno", "estudante", "participante"]
      case Cpf => ["cpf", "documento", "doc"]
      case Telefone => ["telefone", "phone", "celular", "cel", "fone", "whatsapp"]
      case Certificado => ["certificado", "certificate", "certificar", "emitir", "gerar"]
      case Email => ["email", "e-mail", "mail", "correio"]
    }
  }

  /** Canonical column to the header it was found under. */
  type ColumnMapping = map<Field, string>

  function Lookup(mapping: ColumnMapping, f: Field): Option<string> {
    if f in mapping then Some(mapping[f]) else None
  }

  /** `keywords.some((variant) => normalizedHeader.includes(variant))` */
  predicate ContainsAny(normalizedHeader: string, keywords: seq<string>) {
    keywords != [] && (Contains(normalizedHeader, keywords[0]) || ContainsAny(normalizedHeader, keywords[1..]))
  }

  /** `header`, lower-cased and trimmed, contains one of `f`'s keywords. */
  predicate MatchesField(header: string, f: Field) {
    ContainsAny(Trim(ToLower(header)), f.Keywords())
  }

  /** The last element of `s` that satisfies `p`. */
  function LastWhere<T>(s: seq<T>, p: T -> bool): Option<T> {
    if s == [] then None
    else if p(s[|s| - 1]) then Some(s[|s| - 1])
    else LastWhere(s[..|s| - 1], p)
  }

  /** `LastWhere` finds nothing exactly when no element qualifies, and
      otherwise an element that qualifies with none after it. */
  lemma {:induction false} LastWhereIsLast<T>(s: seq<T>, p: T -> bool)
    ensures LastWhere(s, p).None? <==> forall i :: 0 <= i < |s| ==> !p(s[i])
    ensures LastWhere(s, p).Some? ==>
      exists i :: && 0 <= i < |s| && s[i] == LastWhere(s, p).value && p(s[i])
                  && forall j :: i < j < |s| ==> !p(s[j])
  {
    if s != [] && !p(s[|s| - 1]) {
      var init := s[..|s| - 1];
      LastWhereIsLast(init, p);
      assert forall i :: 0 <= i < |init| ==> init[i] == s[i];
    }
  }

  function Matcher(f: Field): string -> bool {
    header => MatchesField(header, f)
  }

  /** The header `identifyColumns` leaves under `f`: the last one that
      matches it. */
  function LastMatch(headers: seq<string>, f: Field): Option<string> {
    LastWhere(headers, Matcher(f))
  }

  /** A field is left unmapped exactly when no header matches it; otherwise
      it is mapped to a matching header after which none matches. */
  lemma LastMatchIsLast(headers: seq<string>, f: Field)
    ensures LastMatch(headers, f).None? <==> forall i :: 0 <= i < |headers| ==> !MatchesField(headers[i], f)
    ensures LastMatch(headers, f).Some? ==>
      exists i :: && 0 <= i < |headers| && headers[i] == LastMatch(headers, f).value && MatchesField(headers[i], f)
                  && forall j :: i < j < |headers| ==> !MatchesField(headers[j], f)
  {
    LastWhereIsLast(headers, Matcher(f));
  }

  lemma LastMatchStep(headers: seq<string>, i: nat, f: Field)
    requires i < |headers|
    ensures LastMatch(headers[..i + 1], f) == if MatchesField(headers[i], f) then Some(headers[i]) else LastMatch(headers[..i], f)
  {
    assert headers[..i + 1][..i] == headers[..i];
  }

  /** The mapping after one more header: each field whose keywords the
      normalised header contains is overwritten, in the order the source
      tests them. */
  function AddHeader(mapping: ColumnMapping, header: string): (r: ColumnMapping)
    ensures forall f :: Lookup(r, f) == if MatchesField(header, f) then Some(header) else Lookup(mapping, f)
  {
    var normalizedHeader := Trim(ToLower(header));
    var c1, c2, c3, c4, c5 := ContainsAny(normalizedHeader, Nome.Keywords()), ContainsAny(normalizedHeader, Cpf.Keywords()),
      ContainsAny(normalizedHeader, Telefone.Keywords()), ContainsAny(normalizedHeader, Certificado.Keywords()),
      ContainsAny(normalizedHeader, Email.Keywords());
    var m1 := if c1 then mapping[Nome := header] else mapping;
    var m2 := if c2 then m1[Cpf := header] else m1;
    var m3 := if c3 then m2[Telefone := header] else m2;
    var m4 := if c4 then m3[Certificado := header] else m3;
    var m5 := if c5 then m4[Email := header] else m4;
    UpdateChain(mapping, m1, m2, m3, m4, m5, header, c1, c2, c3, c4, c5, f => MatchesField(header, f));
    m5
  }

  /** The mapping after all of `headers`, in order. */
  function Identified(headers: seq<string>): (r: ColumnMapping)
    ensures forall f :: f in r ==> MatchesField(r[f], f)
  {
    if headers == [] then map[]
    else
      var m := Identified(headers[..|headers| - 1]);
      var h := headers[|headers| - 1];
      AddHeaderKeeps(m, h, AddHeader(m, h), MatchesField);
      AddHeader(m, h)
  }

  /** A mapping whose entries all satisfy `ok` keeps that property when one
      header is added under exactly the fields it satisfies `ok` for. */
  lemma AddHeaderKeeps(m0: ColumnMapping, h: string, m1: ColumnMapping, ok: (string, Field) -> bool)
    requires forall f :: f in m0 ==> ok(m0[f], f)
    requires forall f :: Lookup(m1, f) == if ok(h, f) then Some(h) else Lookup(m0, f)
    ensures forall f :: f in m1 ==> ok(m1[f], f)
  {
    forall f | f in m1 ensures ok(m1[f], f) {
      assert Lookup(m1, f) == if ok(h, f) then Some(h) else Lookup(m0, f);
    }
  }

  /** `identifyColumns`: one pass over the headers; every field test that
      matches overwrites that field's entry, so the last match wins and one
      header may fill several fields. */
  method IdentifyColumns(headers: seq<string>) returns (mapping: ColumnMapping)
    ensures mapping == Identified(headers)
  {
    mapping := map[];
    var i := 0;
    while i < |headers|
      invariant 0 <= i <= |headers|
      invariant mapping == Identified(headers[..i])
    {
      assert headers[..i + 1][..i] == headers[..i];
      mapping := ApplyHeader(mapping, headers[i]);
      i := i + 1;
    }
    assert headers[..|headers|] == headers;
  }

  /** The body of the `forEach` callback: the five field tests, each
      overwriting its entry when it matches. */
  method ApplyHeader(mapping0: ColumnMapping, header: string) returns (mapping: ColumnMapping)
    ensures mapping == AddHeader(mapping0, header)
  {
    mapping := mapping0;
    var normalizedHeader := Trim(ToLower(header));
    if ContainsAny(normalizedHeader, Nome.Keywords()) {
      mapping := mapping[Nome := header];
    }
    ghost var m1 := mapping;
    assert m1 == if ContainsAny(normalizedHeader, Nome.Keywords()) then mapping0[Nome := header] else mapping0;
    if ContainsAny(normalizedHeader, Cpf.Keywords()) {
      mapping := mapping[Cpf := header];
    }
    ghost var m2 := mapping;
    assert m2 == if ContainsAny(normalizedHeader, Cpf.Keywords()) then m1[Cpf := header] else m1;
    if ContainsAny(normalizedHeader, Telefone.Keywords()) {
      mapping := mapping[Telefone := header];
    }
    ghost var m3 := mapping;
    assert m3 == if ContainsAny(normalizedHeader, Telefone.Keywords()) then m2[Telefone := header] else m2;
    if ContainsAny(normalizedHeader, Certificado.Keywords()) {
      mapping := mapping[Certificado := header];
    }
    ghost var m4 := mapping;
    assert m4 == if ContainsAny(normalizedHeader, Certificado.Keywords()) then m3[Certificado := header] else m3;
    if ContainsAny(normalizedHeader, Email.Keywords()) {
      mapping := mapping[Email := header];
    }
    assert mapping == if ContainsAny(normalizedHeader, Email.Keywords()) then m4[Email := header] else m4;
  }

  /** Every field ends up under the last header that matches it, or
      unmapped when none does. */
  lemma {:induction false} IdentifiedIsLastMatch(headers: seq<string>)
    ensures forall f :: Lookup(Identified(headers), f) == LastMatch(headers, f)
  {
    if headers != [] {
      var n := |headers| - 1;
      IdentifiedIsLastMatch(headers[..n]);
      assert headers[..n + 1] == headers;
      forall f ensures Lookup(Identified(headers), f) == LastMatch(headers, f) {
        LastMatchStep(headers, n, f);
      }
    }
  }

  /** Every mapped header is one of the input headers, unmodified. */
  lemma IdentifiedValuesAreHeaders(headers: seq<string>)
    ensures forall f :: f in Identified(headers) ==> Identified(headers)[f] in headers
  {
    IdentifiedIsLastMatch(headers);
    forall f | f in Identified(headers) ensures Identified(headers)[f] in headers {
      assert Lookup(Identified(headers), f) == LastMatch(headers, f);
      LastMatchIsLast(headers, f);
    }
  }

  /** Five conditional updates of distinct keys, in the order the loop
      body runs them. */
  lemma UpdateChain(m0: ColumnMapping, m1: ColumnMapping, m2: ColumnMapping, m3: ColumnMapping,
                    m4: ColumnMapping, m5: ColumnMapping, h: string, c1: bool, c2: bool, c3: bool, c4: bool, c5: bool,
                    matches: Field -> bool)
    requires m1 == if c1 then m0[Nome := h] else m0
    requires m2 == if c2 then m1[Cpf := h] else m1
    requires m3 == if c3 then m2[Telefone := h] else m2
    requires m4 == if c4 then m3[Certificado := h] else m3
    requires m5 == if c5 then m4[Email := h] else m4
    requires c1 == matches(Nome) && c2 == matches(Cpf) && c3 == matches(Telefone)
    requires c4 == matches(Certificado) && c5 == matches(Email)
    ensures forall f :: Lookup(m5, f) == if matches(f) then Some(h) else Lookup(m0, f)
  {
    forall f ensures Lookup(m5, f) == if matches(f) then Some(h) else Lookup(m0, f) {
      match f
      case Nome =>
      case Cpf =>
      case Telefone =>
      case Certificado =>
      case Email =>
    }
  }

  /** `includes` finds `p` wherever it occurs. */
  lemma ContainsWhereOccurs(s: string, p: string, i: nat)
    requires OccursAt(s, p, i)
    ensures Contains(s, p)
  {
    ContainsOccurs(s, p);
  }

  /** One keyword found is enough for `some`. */
  lemma {:induction false} ContainsAnyOf(s: string, keywords: seq<string>, k: nat)
    requires k < |keywords| && Contains(s, keywords[k])
    ensures ContainsAny(s, keywords)
  {
    if k > 0 {
      ContainsAnyOf(s, keywords[1..], k - 1);
    }
  }

  /** The empty string contains no non-empty keyword. */
  lemma {:induction false} EmptyContainsNoKeyword(keywords: seq<string>)
    requires forall i :: 0 <= i < |keywords| ==> keywords[i] != []
    ensures !ContainsAny([], keywords)
  {
    if keywords != [] {
      EmptyContainsNoKeyword(keywords[1..]);
    }
  }

  /** An empty header matches no field. */
  lemma EmptyHeaderMatchesNothing(f: Field)
    ensures !MatchesField("", f)
  {
    assert ToLower("") == "";
    assert Trim("") == "";
    EmptyContainsNoKeyword(f.Keywords());
  }

  /** A header already in lower case, with no white space at either end,
      is its own normalised form. */
  lemma NormalizedWhenLowerAndTrimmed(header: string)
    requires NoUpperCase(header)
    requires IsTrimmed(header)
    ensures Trim(ToLower(header)) == header
  {
    assert ToLower(header) == header;
    TrimOf("", header, "");
    assert "" + header + "" == header;
  }

  /** A lower-case, trimmed header matches every field one of whose
      keywords occurs in it. */
  lemma HeaderWithKeywordMatches(header: string, f: Field, k: nat, i: nat)
    requires NoUpperCase(header)
    requires IsTrimmed(header)
    requires k < |f.Keywords()| && OccursAt(header, f.Keywords()[k], i)
    ensures MatchesField(header, f)
  {
    NormalizedWhenLowerAndTrimmed(header);
    ContainsWhereOccurs(header, f.Keywords()[k], i);
    ContainsAnyOf(header, f.Keywords(), k);
  }

  /** One header can fill two fields: "email aluno" names both the
      student and the e-mail column. */
  lemma OneHeaderTwoFields()
    ensures MatchesField("email aluno", Nome) && MatchesField("email aluno", Email)
  {
    assert OccursAt("email aluno", "aluno", 6);
    HeaderWithKeywordMatches("email aluno", Nome, 2, 6);
    assert OccursAt("email aluno", "email", 0);
    HeaderWithKeywordMatches("email aluno", Email, 0, 0);
  }

  const RequiredColumns: seq<Field> := [Nome, Cpf, Email, Certificado]

  function Filter<T(!new)>(s: seq<T>, p: T -> bool): (r: seq<T>)
    ensures |r| <= |s|
    ensures forall x :: x in r <==> x in s && p(x)
  {
    if s == [] then []
    else (if p(s[0]) then [s[0]] else []) + Filter(s[1..], p)
  }

  lemma {:induction false} FilterAppend<T(!new)>(a: seq<T>, b: seq<T>, p: T -> bool)
    ensures Filter(a + b, p) == Filter(a, p) + Filter(b, p)
  {
    if a == [] {
      assert a + b == b;
    } else {
      assert (a + b)[1..] == a[1..] + b;
      FilterAppend(a[1..], b, p);
    }
  }

  /** `requiredColumns.filter((col) => !columnMapping[col])`: an absent or
      empty header counts as missing. */
  function MissingColumns(mapping: ColumnMapping): (r: seq<Field>)
    ensures forall f :: f in r <==> f in RequiredColumns && (f !in mapping || mapping[f] == "")
    ensures |r| <= |RequiredColumns|
  {
    Filter(RequiredColumns, f => !(f in mapping && mapping[f] != ""))
  }

  /** Some header of the sheet names field `f`. */
  predicate SomeHeaderMatches(headers: seq<string>, f: Field) {
    exists i :: 0 <= i < |headers| && MatchesField(headers[i], f)
  }

  /** A field gets a non-empty header exactly when some header matches it. */
  lemma MappedWhenMatched(headers: seq<string>, f: Field)
    ensures (f in Identified(headers) && Identified(headers)[f] != "") <==> SomeHeaderMatches(headers, f)
  {
    IdentifiedIsLastMatch(headers);
    assert Lookup(Identified(headers), f) == LastMatch(headers, f);
    LastMatchIsLast(headers, f);
    EmptyHeaderMatchesNothing(f);
  }

  /** After `IdentifyColumns`, a required column is reported missing
      exactly when no header matches it. */
  lemma MissingColumnsOfIdentified(headers: seq<string>)
    ensures forall f :: f in MissingColumns(Identified(headers)) <==>
      f in RequiredColumns && !SomeHeaderMatches(headers, f)
  {
    var m := Identified(headers);
    forall f
      ensures f in MissingColumns(m) <==> f in RequiredColumns && !SomeHeaderMatches(headers, f)
    {
      MappedWhenMatched(headers, f);
      assert (f in m && m[f] != "") <==> SomeHeaderMatches(headers, f);
    }
  }

  /** A decoded spreadsheet row: header to cell. `None` is an empty cell; a
      header absent from the map is a column the row does not have. */
  type Row = map<string, Option<string>>

  /** `row[columnMapping[k]] || ""`. For a field the mapping lacks,
      `columnMapping[k]` is `undefined`, which indexes the row under the
      property name "undefined". */
  function RawValue(row: Row, mapping: ColumnMapping, f: Field): (r: string)
    ensures r == "" || exists key :: key in row && row[key] == Some(r)
  {
    var key := if f in mapping then mapping[f] else "undefined";
    if key in row && row[key].Some? then row[key].value else ""
  }

  /** A field without a header, or a row without that cell, reads as "". */
  lemma RawValueDefaults(row: Row, mapping: ColumnMapping, f: Field)
    requires f in mapping ==> mapping[f] !in row || row[mapping[f]].None?
    requires f !in mapping ==> "undefined" !in row
    ensures RawValue(row, mapping, f) == ""
  {
  }

  /** The per-row step of `processData`. */
  function ProcessRow(row: Row, mapping: ColumnMapping): (d: ProcessedData)
    ensures d.isValid <==> d.errors == []
    ensures d.isValid <==> IsValidName(d.nome) && IsValidCPF(d.cpf) && IsValidEmail(d.email)
    ensures forall e :: e in d.errors <==> Fails(e, d.nome, d.cpf, d.email)
    ensures forall i, j :: 0 <= i < j < |d.errors| ==> d.errors[i].Rank() < d.errors[j].Rank()
    ensures d.nome == FormatName(RawValue(row, mapping, Nome)) && d.cpf == FormatCPF(RawValue(row, mapping, Cpf))
    ensures d.telefone == FormatPhone(RawValue(row, mapping, Telefone)) && d.email == Trim(RawValue(row, mapping, Email))
    ensures d.willEmit == ShouldEmitCertificate(RawValue(row, mapping, Certificado))
  {
    var rawName := RawValue(row, mapping, Nome);
    var rawCPF := RawValue(row, mapping, Cpf);
    var rawEmail := RawValue(row, mapping, Email);
    var rawTelefone := RawValue(row, mapping, Telefone);
    var rawCertificado := RawValue(row, mapping, Certificado);
    var processedName := FormatName(rawName);
    var processedCPF := FormatCPF(rawCPF);
    var processedPhone := FormatPhone(rawTelefone);
    var email := Trim(rawEmail);
    var willEmit := ShouldEmitCertificate(rawCertificado);
    var validation := ValidateRecord(processedName, processedCPF, email);
    ProcessedData(processedName, processedCPF, processedPhone, email,
                  validation.isValid, validation.errors, willEmit)
  }

  /** `s.map(f)`. */
  function Map<A, B>(s: seq<A>, f: A -> B): (r: seq<B>)
    ensures |r| == |s| && forall i :: 0 <= i < |s| ==> r[i] == f(s[i])
  {
    seq(|s|, i requires 0 <= i < |s| => f(s[i]))
  }

  /** Mapping a concatenation is concatenating the mapped parts. */
  lemma MapAppend<A, B>(a: seq<A>, b: seq<A>, f: A -> B)
    ensures Map(a + b, f) == Map(a, f) + Map(b, f)
  {
    var l, r := Map(a + b, f), Map(a, f) + Map(b, f);
    forall i | 0 <= i < |l| ensures l[i] == r[i] {
      if i < |a| {
        assert (a + b)[i] == a[i];
      } else {
        assert (a + b)[i] == b[i - |a|];
      }
    }
  }

  function RowProcessor(mapping: ColumnMapping): Row -> ProcessedData {
    row => ProcessRow(row, mapping)
  }

  /** `processData`: one record per row, in row order, record `i` made
      from row `i`. */
  function ProcessData(rawData: seq<Row>, mapping: ColumnMapping): (out: seq<ProcessedData>)
    ensures |out| == |rawData|
    ensures forall i :: 0 <= i < |out| ==> out[i] == ProcessRow(rawData[i], mapping)
  {
    Map(rawData, RowProcessor(mapping))
  }

  /** Record `i` is a function of row `i` alone: rows elsewhere, and how
      many there are, do not change it. */
  lemma ProcessDataLocal(a: seq<Row>, b: seq<Row>, i: nat, j: nat, mapping: ColumnMapping)
    requires i < |a| && j < |b| && a[i] == b[j]
    ensures ProcessData(a, mapping)[i] == ProcessData(b, mapping)[j]
  {
  }

  /** No record depends on another row: processing a concatenation is
      concatenating the processed parts. */
  lemma ProcessDataAppend(a: seq<Row>, b: seq<Row>, mapping: ColumnMapping)
    ensures ProcessData(a + b, mapping) == ProcessData(a, mapping) + ProcessData(b, mapping)
  {
    MapAppend(a, b, RowProcessor(mapping));
  }

  /** The processed name is trimmed and upper-case; the processed e-mail
      is trimmed. */
  lemma ProcessedNameAndEmail(row: Row, mapping: ColumnMapping)
    ensures IsTrimmed(ProcessRow(row, mapping).nome) && NoLowerCase(ProcessRow(row, mapping).nome)
    ensures IsTrimmed(ProcessRow(row, mapping).email)
  {
    var d := ProcessRow(row, mapping);
    var n := FormatName(RawValue(row, mapping, Nome));
    var e := Trim(RawValue(row, mapping, Email));
    assert d.nome == n && d.email == e;
  }

  /** The CPF check fails exactly when the cell has more than eleven
      digits; an empty cell becomes the all-zero CPF. */
  lemma ProcessedCpf(row: Row, mapping: ColumnMapping)
    ensures var d := ProcessRow(row, mapping);
      && (|Digits(RawValue(row, mapping, Cpf))| <= 11 <==> InvalidCpf !in d.errors)
      && (RawValue(row, mapping, Cpf) == "" ==> d.cpf == "000.000.000-00")
  {
    var raw := RawValue(row, mapping, Cpf);
    FormatCpfValidIff(raw);
    if raw == "" {
      FormatCpfEmpty();
    }
  }

  /** The phone is masked whenever the cell has ten digits or more and is
      kept as typed otherwise. */
  lemma ProcessedPhone(row: Row, mapping: ColumnMapping)
    ensures var d := ProcessRow(row, mapping);
      && (|Digits(RawValue(row, mapping, Telefone))| >= 10 ==> IsPhoneLayout(d.telefone, 4) || IsPhoneLayout(d.telefone, 5))
      && (|Digits(RawValue(row, mapping, Telefone))| < 10 ==> d.telefone == RawValue(row, mapping, Telefone))
  {
    var raw := RawValue(row, mapping, Telefone);
    if |Digits(raw)| >= 10 {
      FormatPhoneAlwaysMasked(raw);
    }
  }

  /** Eligibility reads only the certificate cell, and validity never reads
      it: the two classifications are independent. */
  lemma EmitIndependentOfValidity(row1: Row, row2: Row, mapping: ColumnMapping)
    ensures RawValue(row1, mapping, Certificado) == RawValue(row2, mapping, Certificado)
      ==> ProcessRow(row1, mapping).willEmit == ProcessRow(row2, mapping).willEmit
    ensures (forall f :: f != Certificado && f != Telefone ==> RawValue(row1, mapping, f) == RawValue(row2, mapping, f))
      ==> ProcessRow(row1, mapping).isValid == ProcessRow(row2, mapping).isValid
          && ProcessRow(row1, mapping).errors == ProcessRow(row2, mapping).errors
  {
    if forall f :: f != Certificado && f != Telefone ==> RawValue(row1, mapping, f) == RawValue(row2, mapping, f) {
      assert RawValue(row1, mapping, Nome) == RawValue(row2, mapping, Nome);
      assert RawValue(row1, mapping, Cpf) == RawValue(row2, mapping, Cpf);
      assert RawValue(row1, mapping, Email) == RawValue(row2, mapping, Email);
    }
  }

  predicate IsApproved(d: ProcessedData) {
    d.isValid && d.willEmit
  }

  predicate IsRejected(d: ProcessedData) {
    d.isValid && !d.willEmit
  }

  predicate IsInvalid(d: ProcessedData) {
    !d.isValid
  }

  /** Every record falls in exactly one of the three classes. */
  lemma {:induction false} StatsPartition(records: seq<ProcessedData>)
    ensures |Filter(records, IsApproved)| + |Filter(records, IsRejected)| + |Filter(records, IsInvalid)| == |records|
  {
    if records != [] {
      StatsPartition(records[1..]);
    }
  }

  /** `calculateStats`: the total and the sizes of the three filters. */
  function CalculateStats(processedData: seq<ProcessedData>): (s: SpreadsheetStats)
    ensures s.totalRecords == |processedData|
    ensures s.approvedForEmission + s.rejectedForEmission + s.invalidRecords == s.totalRecords
  {
    StatsPartition(processedData);
    SpreadsheetStats(
      |processedData|,
      |Filter(processedData, IsApproved)|,
      |Filter(processedData, IsRejected)|,
      |Filter(processedData, IsInvalid)|)
  }

  /** Statistics of a concatenation are the sums of the statistics of the
      parts, so they can be recomputed as records accumulate. */
  lemma StatsAppend(a: seq<ProcessedData>, b: seq<ProcessedData>)
    ensures var s, sa, sb := CalculateStats(a + b), CalculateStats(a), CalculateStats(b);
      && s.totalRecords == sa.totalRecords + sb.totalRecords
      && s.approvedForEmission == sa.approvedForEmission + sb.approvedForEmission
      && s.rejectedForEmission == sa.rejectedForEmission + sb.rejectedForEmission
      && s.invalidRecords == sa.invalidRecords + sb.invalidRecords
  {
    FilterAppend(a, b, IsApproved);
    FilterAppend(a, b, IsRejected);
    FilterAppend(a, b, IsInvalid);
  }

  /** The records the page offers for emission: valid and flagged. */
  function ValidData(records: seq<ProcessedData>): (r: seq<ProcessedData>)
    ensures |r| == CalculateStats(records).approvedForEmission
    ensures forall d :: d in r <==> d in records && d.isValid && d.willEmit
  {
    Filter(records, IsApproved)
  }
}
