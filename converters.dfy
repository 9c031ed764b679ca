/** Projection of processed records onto the payload of the
    certificate-emission service. */
module Converters {
  import opened Records
  import opened Spreadsheet

  /** `convertToEmissionData`: the four personal fields, copied unchanged;
      validity, errors and the emission flag are dropped. */
  function ConvertToEmissionData(processedData: ProcessedData): (e: EmissionData)
    ensures e.nome == processedData.nome && e.cpf == processedData.cpf
    ensures e.telefone == processedData.telefone && e.email == processedData.email
  {
    EmissionData(processedData.nome, processedData.cpf, processedData.telefone, processedData.email)
  }

  /** Two records give the same payload exactly when their four personal
      fields agree, whatever their validation outcome and emission flag. */
  lemma ConvertSameIff(a: ProcessedData, b: ProcessedData)
    ensures ConvertToEmissionData(a) == ConvertToEmissionData(b) <==>
      a.nome == b.nome && a.cpf == b.cpf && a.telefone == b.telefone && a.email == b.email
  {
  }

  /** The payload loses nothing of the personal fields: the record can be
      rebuilt from it together with the three dropped fields. */
  lemma ConvertRebuild(d: ProcessedData)
    ensures var e := ConvertToEmissionData(d);
      ProcessedData(e.nome, e.cpf, e.telefone, e.email, d.isValid, d.errors, d.willEmit) == d
  {
  }

  /** `convertToEmissionDataArray`: an element-wise `map`. */
  function ConvertToEmissionDataArray(processedDataArray: seq<ProcessedData>): (r: seq<EmissionData>)
    ensures |r| == |processedDataArray|
    ensures forall i :: 0 <= i < |r| ==> r[i] == ConvertToEmissionData(processedDataArray[i])
  {
    Map(processedDataArray, ConvertToEmissionData)
  }

  /** Converting a concatenation is concatenating the conversions, so order
      is kept and nothing is merged. */
  lemma ConvertArrayAppend(a: seq<ProcessedData>, b: seq<ProcessedData>)
    ensures ConvertToEmissionDataArray(a + b) == ConvertToEmissionDataArray(a) + ConvertToEmissionDataArray(b)
  {
    MapAppend(a, b, ConvertToEmissionData);
  }

  /** The conversion does not filter: invalid and non-emitting records are
      converted like the others. */
  lemma ConvertKeepsEveryRecord(records: seq<ProcessedData>)
    ensures forall d :: d in records ==> ConvertToEmissionData(d) in ConvertToEmissionDataArray(records)
  {
    var r := ConvertToEmissionDataArray(records);
    forall d | d in records ensures ConvertToEmissionData(d) in r {
      var i :| 0 <= i < |records| && records[i] == d;
      assert r[i] == ConvertToEmissionData(d);
    }
  }

  /** Selecting is the caller's job: converted after the page's selection
      of valid, flagged records, the payload has one entry per approved
      record and each entry comes from such a record. */
  lemma ApprovedPayload(records: seq<ProcessedData>)
    ensures |ConvertToEmissionDataArray(ValidData(records))| == CalculateStats(records).approvedForEmission
    ensures forall e :: e in ConvertToEmissionDataArray(ValidData(records)) ==>
      exists d :: d in records && d.isValid && d.willEmit && ConvertToEmissionData(d) == e
  {
    var v := ValidData(records);
    var r := ConvertToEmissionDataArray(v);
    forall e | e in r ensures exists d :: d in records && d.isValid && d.willEmit && ConvertToEmissionData(d) == e {
      var i :| 0 <= i < |r| && r[i] == e;
      assert v[i] in v;
    }
  }
}
