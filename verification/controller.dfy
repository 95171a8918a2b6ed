/** The upload handler: every decoded row is normalised and validated, the
    valid records go to the service in row order, and the handler reports how
    many rows it saw, how many the service processed and the difference. */
module PatientsController {
  import opened Wrappers
  import opened PatientDto
  import opened RowNormalizer
  import opened PatientsService
  import opened Sequences

  datatype Outcome = Outcome(totalRows: int, processedRows: int, skippedRows: int)

  /** The records built from the rows, one per row, in row order. */
  function Dtos(rows: seq<Row>): seq<Patient> {
    Map(rows, ToDto)
  }

  /** `validDtos`: the records that pass validation, in row order. */
  function ValidDtos(rows: seq<Row>): seq<Patient> {
    Filter(Dtos(rows), Valid)
  }

  /** The number of rows whose record fails validation. */
  function InvalidCount(rows: seq<Row>): nat {
    |Filter(Dtos(rows), Not(Valid))|
  }

  /** The positions of the rows whose record passes validation. */
  function ValidPositions(rows: seq<Row>): seq<nat> {
    Positions(Dtos(rows), Valid)
  }

  /** A record is kept exactly when some row produces it and it is valid. */
  lemma ValidDtosMembership(rows: seq<Row>)
    ensures forall d :: d in ValidDtos(rows) <==> Valid(d) && exists i :: 0 <= i < |rows| && ToDto(rows[i]) == d
  {
    FilterMapMembership(rows, ToDto, Valid);
  }

  /** `validDtos` is the subsequence of records at the positions of the valid
      rows: nothing reordered, nothing valid dropped, nothing invalid kept. */
  lemma ValidDtosAtValidPositions(rows: seq<Row>)
    ensures var v, ix := ValidDtos(rows), ValidPositions(rows);
      && |v| == |ix|
      && (forall j :: 0 <= j < |v| ==> ix[j] < |rows| && v[j] == ToDto(rows[ix[j]]))
      && (forall j, k :: 0 <= j < k < |ix| ==> ix[j] < ix[k])
      && (forall i :: 0 <= i < |rows| && Valid(ToDto(rows[i])) ==> i in ix)
  {
    FilterMapAtPositions(rows, ToDto, Valid);
  }

  /** Each row is either kept or counted as invalid. */
  lemma ValidPlusInvalid(rows: seq<Row>)
    ensures |ValidDtos(rows)| + InvalidCount(rows) == |rows|
  {
    FilterSplit(Dtos(rows), Valid);
  }

  /** `handleExcel` once the sheet is decoded: `existings` is what the
      store's batched lookup returns. The summary counts every row; the
      processed count is the number of valid rows, so the skipped count is
      exactly the number of invalid rows. */
  method HandleExcel(rows: seq<Row>, existings: seq<Stored>) returns (outcome: Outcome, ops: seq<StoreOp>)
    ensures outcome.totalRows == |rows|
    ensures outcome.processedRows + outcome.skippedRows == outcome.totalRows
    ensures outcome.processedRows == |ValidDtos(rows)|
    ensures outcome.skippedRows == InvalidCount(rows) && outcome.skippedRows >= 0
    ensures ops == ImportCalls(ValidDtos(rows), existings)
    ensures ops == [] <==> InvalidCount(rows) == |rows|
  {
    var totalRows := |rows|;
    var dtos := Dtos(rows);
    var validDtos := FilterInOrder(dtos, Valid);
    var processed;
    processed, ops := ImportPatients(validDtos, existings);
    ValidPlusInvalid(rows);
    outcome := Outcome(totalRows, processed, totalRows - processed);
  }

  /** Rows are not merged: valid rows whose records share a key absent from
      the store are all inserted and all counted as processed. */
  lemma SameKeyRowsAreNotMerged(r1: Row, r2: Row, existings: seq<Stored>)
    requires Valid(ToDto(r1)) && Valid(ToDto(r2))
    requires Key(ToDto(r1)) == Key(ToDto(r2)) && !Known(existings, Key(ToDto(r1)))
    ensures ValidDtos([r1, r2]) == [ToDto(r1), ToDto(r2)]
    ensures InsertsOf(ValidDtos([r1, r2]), existings) == [ToDto(r1), ToDto(r2)]
    ensures InvalidCount([r1, r2]) == 0
  {
    FilterMapTwo(r1, r2, ToDto, Valid);
    NoInBatchDedup(ToDto(r1), ToDto(r2), existings);
  }

  /** A row without a name is dropped; alone in the upload it gives one
      total row, none processed and one skipped. */
  lemma NamelessRowSkipped(row: Row)
    requires row.name.None?
    ensures ValidDtos([row]) == []
    ensures InvalidCount([row]) == 1
  {
    NameRequired(ToDto(row));
    FilterMapOne(row, ToDto, Valid);
  }
}
