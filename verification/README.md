# Patient spreadsheet import, modelled in Dafny

This project models the import pipeline of a small patient-records service.

An uploaded spreadsheet is decoded into rows, and each row becomes a `CreatePatientDto`:
- the registration number is reduced to `<birth>-<sex code>`;
- the phone number keeps only its digits;
- the other cells pass through unchanged.

Each record is then checked against the constraints declared on the DTO class, and the records that pass go to `PatientsService.importPatients`. The service:
1. looks the batch up in the store with one batched query;
2. keys every record by the string `${name}_${phone}_${chartNo ?? ''}`;
3. routes each record to a bulk insert, or to an update of the last stored record with the same key.

The handler reports `{totalRows, processedRows, skippedRows}`.

The store is not modelled. What the batched lookup returns (`existings`) is an input to the model. The calls the service makes are returned as a trace of store operations (`Find`, `Save`, `UpdateById`).

Files and modules:

- `wrappers.dfy` (`Wrappers`): `Option`, standing for a cell or property that is null or undefined.
- `chars.dfy` (`Chars`): JavaScript's `\d` and `s.replace(/\D/g, '')`.
- `regex.dfy` (`Regex`): a reference semantics for the anchored regular expressions the DTO uses.
- `dto.dfy` (`PatientDto`): the record, the two patterns as hand-written predicates proved equal to the regular expressions, and the per-property verdicts and error list.
- `normalize.dfy` (`RowNormalizer`): `formatRegNo`, the phone normalisation and the row-to-DTO mapping of `handleExcel`.
- `seqs.dfy` (`Sequences`): an order-preserving `Filter` with its lemmas. It is used for the valid-row filter and for the insert/update split.
- `service.dfy` (`PatientsService`): the key, the existing-record map, the partition, and `importPatients` with its store calls.
- `controller.dfy` (`PatientsController`): `handleExcel` from decoded rows to the summary.

How JavaScript values print in the key:
- An absent name prints as `undefined`: the handler builds it with `row['이름']?.toString()`.
- An absent phone prints as `null`: the handler maps a falsy phone cell to `null`, and the store returns NULL as `null`.
- An absent chart number prints as the empty string, through `?? ''`.

Behaviour of the code worth knowing:
- There is no merge or deduplication within a batch. Two valid rows for one patient who is new to the store are both inserted and both counted as processed, giving `{totalRows: 2, processedRows: 2, skippedRows: 0}`. So `processedRows` can exceed the number of distinct keys.
- Nothing is trimmed: cells pass through as they are.
- A present phone cell with no digit becomes `""`, not `null`. It is therefore checked, and rejected.
- The `_`-joined key is not injective.

## Model

| member | source | states |
|---|---|---|
| Chars.StripNonDigits | src/patients/patients.controller.ts:96 | `replace(/\D/g, '')` leaves only ASCII digits and never lengthens the string |
| Chars.StripKeepsDigits | src/patients/patients.controller.ts:96 | a character survives stripping iff it occurs in the input and is a digit |
| Chars.StripIgnoresNonDigit | src/patients/patients.controller.ts:177 | inserting a non-digit anywhere does not change the stripped digits |
| Chars.StripIdempotent | src/patients/patients.controller.ts:177 | stripping twice is stripping once |
| Chars.StripAppend | src/patients/patients.controller.ts:177 | stripping a concatenation strips each part |
| RowNormalizer.Falsy | src/patients/patients.controller.ts:95-97 | JavaScript falsiness of a cell: absent or `""`, the test in `row['전화번호'] ? … : null` and in `if (!input)` at line 176 |
| RowNormalizer.FormatRegNo | src/patients/patients.controller.ts:175-181 | null for a falsy input; otherwise a string of 2 to 8 characters made of digits, then a single `-`, then one digit, so exactly one dash |
| RowNormalizer.FormatRegNoDigits | src/patients/patients.controller.ts:177-180 | for a non-empty input: the first min(6, n) digits, a dash, then the seventh digit or `'0'` |
| RowNormalizer.FormatRegNoIgnoresNonDigit | src/patients/patients.controller.ts:177-180 | non-digit characters never affect the result |
| RowNormalizer.FormatRegNoOfDigits | src/patients/patients.controller.ts:177-180 | an all-digit input of at least seven digits gives its first six digits, `-` and its seventh digit |
| RowNormalizer.StripFormatted | src/patients/patients.controller.ts:177 | the digits of a formatted `dddddd-d` are its seven digits |
| RowNormalizer.FormatRegNoIdempotent | src/patients/patients.controller.ts:175-181 | with at least six digits in the input, formatting the output again changes nothing |
| RowNormalizer.FormatRegNoNotIdempotentBelowSix | src/patients/patients.controller.ts:177-180 | with fewer digits it is not idempotent: `"abc"` gives `"-0"`, which gives `"0-0"` |
| RowNormalizer.FormatRegNoFullExample | src/patients/patients.controller.ts:177-180 | `"9001011234567"` gives `"900101-1"` |
| RowNormalizer.FormatRegNoBirthOnlyExample | src/patients/patients.controller.ts:176-180 | `"900101"` gives `"900101-0"`; null and `""` give null |
| RowNormalizer.FormatRegNoValidIff | src/patients/patients.controller.ts:175-181 | the output passes the regNo check iff the input held at least six digits, and then it matches the `\d{6}-?\d{1}\*{0,6}` branch |
| RowNormalizer.NormalizePhone | src/patients/patients.controller.ts:95-97 | null iff the cell is falsy; otherwise exactly the cell's digits |
| RowNormalizer.StripDashedGroups | src/patients/patients.controller.ts:96 | dashes between digit groups disappear |
| RowNormalizer.NormalizePhoneExample | src/patients/patients.controller.ts:95-97 | `"010-1234-5678"` becomes `"01012345678"` |
| RowNormalizer.NormalizedPhoneValidIff | src/patients/patients.controller.ts:95-97 | a normalised phone passes the phone check iff the cell is falsy or its digits are `010` plus eight digits |
| RowNormalizer.DigitlessPhoneRejected | src/patients/patients.controller.ts:95-97 | a non-empty cell without digits becomes the empty string, which fails the phone check |
| RowNormalizer.ToDto | src/patients/patients.controller.ts:92-101 | the built record's phone is digits only and its regNo has at most 8 characters |
| RowNormalizer.RowAcceptedIff | src/patients/patients.controller.ts:92-104 | a row survives validation iff: the name has 1 to 255 characters; chartNo, address and memo are absent or at most 255; the phone cell is falsy or its digits are `010` plus eight; the regNo cell is falsy or holds at least six digits |
| PatientDto.CompactPhoneMatches | src/patients/dto/create-patient.dto.ts:17 | the hand-written compact-phone predicate accepts exactly the language of `^010\d{8}$` |
| PatientDto.DashedPhoneMatches | src/patients/dto/create-patient.dto.ts:17 | the dashed-phone predicate accepts exactly the language of `^010-\d{4}-\d{4}$` |
| PatientDto.PhoneMatchesPattern | src/patients/dto/create-patient.dto.ts:15-20 | the phone predicate accepts exactly the language of the two-branch phone pattern |
| PatientDto.BirthMatches | src/patients/dto/create-patient.dto.ts:24 | exactly n digits is the language of `^\d{n}$` (the first two regNo branches) |
| PatientDto.MaskedRegNoMatches | src/patients/dto/create-patient.dto.ts:24 | the masked predicate accepts exactly the language of `^\d{6}-?\d{1}\*{0,6}$` |
| PatientDto.FullRegNoMatches | src/patients/dto/create-patient.dto.ts:24 | the full predicate accepts exactly the language of `^\d{6}-?\d{7}$` |
| PatientDto.RegNoMatchesPattern | src/patients/dto/create-patient.dto.ts:22-27 | the regNo predicate accepts exactly the language of the four-branch regNo pattern |
| PatientDto.FieldOk | src/patients/dto/create-patient.dto.ts:3-38 | the constraints declared on one property: name present with 1 to 255 characters; chartNo, address and memo absent or at most 255; phone and regNo absent or matching their patterns |
| PatientDto.Valid | src/patients/patients.controller.ts:103-104 | `errors.length === 0`: the error list is empty |
| PatientDto.Errors | src/patients/dto/create-patient.dto.ts:3-38 | a property is reported iff its own constraints fail, each at most once |
| PatientDto.ValidIffEachField | src/patients/dto/create-patient.dto.ts:3-38 | valid iff: name present with length 1 to 255; chartNo, address and memo absent or at most 255; phone absent or a phone; regNo absent or a regNo |
| PatientDto.VerdictIsPerField | src/patients/dto/create-patient.dto.ts:3-38 | replacing one property leaves the verdict on every other property unchanged |
| PatientDto.NameRequired | src/patients/dto/create-patient.dto.ts:9-13 | an absent or empty name makes the record invalid and is reported |
| PatientDto.Set | src/patients/dto/create-patient.dto.ts:3-38 | replacing one property changes that property and no other |
| PatientsController.ValidDtos | src/patients/patients.controller.ts:103-111 | `validDtos`: the records built from the rows that pass validation, in row order |
| Sequences.FilterInOrder | src/patients/patients.controller.ts:108-111 | the one-pass filter returns exactly the order-preserving selection |
| PatientsController.ValidDtosMembership | src/patients/patients.controller.ts:103-111 | a record is in `validDtos` iff it is valid and some row produces it |
| PatientsController.ValidDtosAtValidPositions | src/patients/patients.controller.ts:103-111 | `validDtos` is the records at the valid rows' positions, in increasing row order, with no valid row left out |
| PatientsController.ValidPlusInvalid | src/patients/patients.controller.ts:103-111 | every row is either kept or counted as invalid |
| PatientsController.HandleExcel | src/patients/patients.controller.ts:87-124 | `totalRows = |rows|`; processed plus skipped equals total; processed is the number of valid rows, so skipped is the number of invalid rows; the store calls are those of `importPatients` on `validDtos`, and there are none iff no row is valid |
| PatientsController.SameKeyRowsAreNotMerged | src/patients/patients.controller.ts:108-114 | two valid rows with the same key, new to the store, are both kept and both inserted, and none is skipped |
| PatientsController.NamelessRowSkipped | src/patients/patients.controller.ts:103-111 | a row without a name is dropped and counted as invalid |
| PatientsService.Key | src/patients/patients.service.ts:29-38 | the template-literal key `${name}_${phone}_${chartNo ?? ''}`, with an absent name printing `undefined` and an absent phone printing `null` |
| PatientsService.KeyChartNoNullIsEmpty | src/patients/patients.service.ts:29 | a null chart number and an empty one give the same key |
| PatientsService.KeyCollisions | src/patients/patients.service.ts:38 | the key is not injective: `("a_b","c")` and `("a","b_c")` collide, and so do an absent phone and the phone `"null"` |
| PatientsService.KeyInjective | src/patients/patients.service.ts:38 | when no printed name or phone contains `_`, equal keys iff equal identities |
| PatientsService.ValidPhoneHasNoSeparator | src/patients/patients.service.ts:38 | a phone that passes validation never contains `_` |
| PatientsService.LastIndex | src/patients/patients.service.ts:28-30 | -1 iff no stored record has the key, else the position of the last record that has it |
| PatientsService.ExistingMap | src/patients/patients.service.ts:28-30 | the map has a key iff some stored record has it, and maps it to the last such record |
| PatientsService.LastRecordWins | src/patients/patients.service.ts:28-30 | of two stored records with the same key, the second's id is used |
| PatientsService.IdOf | src/patients/patients.service.ts:39-42 | for a known key, the id of a stored record that has the key and is followed by no other record with it |
| PatientsService.InsertsOf | src/patients/patients.service.ts:37-46 | `toInsert`: the batch patients whose key no stored record has, in batch order |
| PatientsService.UpdatesOf | src/patients/patients.service.ts:37-46 | `toUpdate`: one entry per batch patient whose key is stored, in batch order, pairing the matched record's id with the patient |
| PatientsService.PayloadsAreMatched | src/patients/patients.service.ts:42 | the update payloads are exactly the matched patients, unchanged and in order (a full overwrite, not a patch) |
| PatientsService.InsertsMembership | src/patients/patients.service.ts:37-46 | a patient is in `toInsert` iff it is in the batch and no stored record has its key |
| PatientsService.UpdatesMembership | src/patients/patients.service.ts:37-46 | each update carries a batch patient whose key is stored, with the id of the last stored record with that key |
| PatientsService.PartitionAppend | src/patients/patients.service.ts:37-46 | routing is per patient and order-preserving: the lists for `a + b` are those for `a` followed by those for `b` |
| PatientsService.PartitionIsExact | src/patients/patients.service.ts:37-46 | each patient lands in exactly one list: the multiset union of inserts and update payloads is the batch, and the sizes add up |
| PatientsService.UpdateIff | src/patients/patients.service.ts:28-45 | a patient is updated iff its key is stored, and iff it is not inserted |
| PatientsService.NoInBatchDedup | src/patients/patients.service.ts:37-46 | two patients with the same new key are both inserted, nothing is updated |
| PatientsService.RouteIgnoresChartNoNullVsEmpty | src/patients/patients.service.ts:29-38 | a null and an empty chart number are routed alike |
| PatientsService.RerunInsertsNothing | src/patients/patients.service.ts:37-59 | after the inserts are stored, re-running the batch inserts nothing and updates every patient |
| PatientsService.ImportCalls | src/patients/patients.service.ts:15-56 | no store call for an empty batch; otherwise the lookup comes first |
| PatientsService.Partition | src/patients/patients.service.ts:28-46 | the map-based loop computes exactly the independent definitions of `toInsert` and `toUpdate` |
| PatientsService.IssueUpdates | src/patients/patients.service.ts:54-56 | one update by id per entry of `toUpdate`, in order |
| PatientsService.ImportPatients | src/patients/patients.service.ts:13-60 | an empty batch returns 0 with no store call; otherwise it returns `|toInsert| + |toUpdate|`, which is the batch size, and issues the lookup, a single bulk insert when something is new, and one update per matched patient |

## Left out

- Spreadsheet decoding and first-sheet selection (`XLSX.read`, `sheet_to_json`): a foreign library. The model starts from decoded rows whose cells are strings or absent.
- Numeric cells: the cells are modelled as strings only. A numeric registration-number cell would make `input.replace` throw; that is not modelled.
- The store: TypeORM's `find`, `save` and `update` are not modelled. The lookup result is an input; the writes are returned as a trace. Whether the lookup returns exactly the records matching the conditions is the store's business, so `existings` is arbitrary.
- PatientsService.RerunInsertsNothing: models the store after the first run as the old records followed by the saved ones. The updates of the first run are not applied to the store, since they do not change any key.
- `Promise.all` over the rows: treated as a sequential map, because the per-row work does not interact.
- Validation is synchronous here, and only the constraints declared on `CreatePatientDto` are modelled (for a present value `@IsString` always holds, because cells are strings; an absent name fails it, which `FieldOk` encodes by requiring the name to be present). Lengths are counted in characters. validator.js's special treatment of variation selectors in `@Length` is not modelled.
- `findPatients`/`getPatients`, `FindPatientsDto`, `UpdatePatientDto`, the entity's own column validators, the base entity, logging, Swagger and Nest wiring: these are outside the import pipeline.
