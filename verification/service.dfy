/** The reconciliation step of the import: every validated record is routed
    to a bulk insert or to an update of an existing record, by comparing a
    string key built from name, phone and chart number. The store is not
    modelled: the records its batched lookup returns are an input, and the
    writes the service issues are returned as a trace of store operations. */
module PatientsService {
  import opened Wrappers
  import opened Chars
  import opened PatientDto
  import opened Sequences

  /** A persisted patient: the generated id beside the record. */
  datatype Stored = Stored(id: string, record: Patient)

  /** One branch of the batched lookup: name, phone and `chartNo ?? null`. */
  datatype Condition = Condition(name: Option<string>, phone: Option<string>, chartNo: Option<string>)

  /** An entry of `toUpdate`: the id of the existing record and the new data. */
  datatype Update = Update(id: string, data: Patient)

  /** The store calls the service issues, in order. */
  datatype StoreOp =
    | Find(conditions: seq<Condition>)
    | Save(rows: seq<Patient>)
    | UpdateById(id: string, data: Patient)

  // ---------------------------------------------------------------------
  // The key.

  /** `${v}` inside a template literal: a present string prints as itself,
      an absent value as the word JavaScript prints for it. */
  function Interpolate(v: Option<string>, absent: string): string {
    v.GetOr(absent)
  }

  /** `${name}_${phone}_${chartNo ?? ''}`. An absent name can only be
      `undefined` (the row cell's `?.toString()`); an absent phone is `null`
      (the handler maps a falsy phone to `null`, the store returns NULL). */
  function Key(p: Patient): string {
    Interpolate(p.name, "undefined") + "_" + Interpolate(p.phone, "null") + "_" + p.chartNo.GetOr("")
  }

  /** The identity the key is meant to encode. */
  datatype Identity = Identity(name: string, phone: string, chartNo: string)

  function IdentityOf(p: Patient): Identity {
    Identity(Interpolate(p.name, "undefined"), Interpolate(p.phone, "null"), p.chartNo.GetOr(""))
  }

  /** A null chart number and an empty one give the same key. */
  lemma KeyChartNoNullIsEmpty(p: Patient)
    ensures Key(p.(chartNo := None)) == Key(p.(chartNo := Some("")))
  {
  }

  /** The key does not separate distinct identities: the separator can occur
      inside a name, and an absent phone prints like the phone `"null"`. */
  lemma KeyCollisions()
    ensures var p := Patient(None, Some("a_b"), Some("c"), None, None, None);
      var q := Patient(None, Some("a"), Some("b_c"), None, None, None);
      IdentityOf(p) != IdentityOf(q) && Key(p) == Key(q)
    ensures var p := Patient(None, Some("Kim"), None, None, None, None);
      var q := Patient(None, Some("Kim"), Some("null"), None, None, None);
      p != q && Key(p) == Key(q)
  {
    assert "a_b" + "_" + "c" + "_" + "" == "a" + "_" + "b_c" + "_" + "";
  }

  /** Two strings joined by a separator that occurs in neither left part
      split back uniquely. */
  lemma SplitAtSeparator(a: string, b: string, c: string, d: string)
    requires '_' !in a && '_' !in c
    requires a + "_" + b == c + "_" + d
    ensures a == c && b == d
  {
    var x := a + "_" + b;
    assert x[|a|] == '_';
    assert (c + "_" + d)[|c|] == '_';
    assert |a| == |c|;
    assert a == x[..|a|];
    assert c == x[..|c|];
    assert b == x[|a| + 1..];
    assert d == x[|c| + 1..];
  }

  /** When neither the printed name nor the printed phone contains the
      separator, equal keys mean equal identities. */
  lemma KeyInjective(p: Patient, q: Patient)
    requires '_' !in Interpolate(p.name, "undefined") && '_' !in Interpolate(q.name, "undefined")
    requires '_' !in Interpolate(p.phone, "null") && '_' !in Interpolate(q.phone, "null")
    ensures Key(p) == Key(q) <==> IdentityOf(p) == IdentityOf(q)
  {
    var pn, pp, pc := Interpolate(p.name, "undefined"), Interpolate(p.phone, "null"), p.chartNo.GetOr("");
    var qn, qp, qc := Interpolate(q.name, "undefined"), Interpolate(q.phone, "null"), q.chartNo.GetOr("");
    if Key(p) == Key(q) {
      assert Key(p) == pn + "_" + (pp + "_" + pc);
      assert Key(q) == qn + "_" + (qp + "_" + qc);
      SplitAtSeparator(pn, pp + "_" + pc, qn, qp + "_" + qc);
      SplitAtSeparator(pp, pc, qp, qc);
    }
  }

  /** A valid phone is made of digits and dashes only. */
  lemma PhoneCharacters(s: string)
    requires IsPhone(s)
    ensures forall i :: 0 <= i < |s| ==> IsDigit(s[i]) || s[i] == '-'
  {
    forall i | 0 <= i < |s| ensures IsDigit(s[i]) || s[i] == '-' {
      if IsCompactPhone(s) {
        if i < 3 { assert s[..3][i] == s[i]; } else { assert s[3..][i - 3] == s[i]; }
      } else {
        if i < 4 { assert s[..4][i] == s[i]; }
        else if 4 <= i < 8 { assert s[4..8][i - 4] == s[i]; }
        else if 8 < i { assert s[9..][i - 9] == s[i]; }
      }
    }
  }

  /** A phone that passes validation never contains the separator. */
  lemma ValidPhoneHasNoSeparator(phone: Option<string>)
    requires FieldOk(Phone, phone)
    ensures '_' !in Interpolate(phone, "null")
  {
    if phone.Some? {
      PhoneCharacters(phone.value);
    }
  }

  // ---------------------------------------------------------------------
  // The existing records.

  /** Some existing record has key `k`. */
  predicate Known(existings: seq<Stored>, k: string) {
    exists i :: 0 <= i < |existings| && Key(existings[i].record) == k
  }

  /** `existings[i]` is the last record with key `k`. */
  predicate IsLastWithKey(existings: seq<Stored>, i: int, k: string) {
    && 0 <= i < |existings|
    && Key(existings[i].record) == k
    && forall j :: i < j < |existings| ==> Key(existings[j].record) != k
  }

  /** The position of the last record with key `k`, or -1 if there is none. */
  function LastIndex(existings: seq<Stored>, k: string): (i: int)
    ensures -1 <= i < |existings|
    ensures i == -1 <==> !Known(existings, k)
    ensures i != -1 ==> IsLastWithKey(existings, i, k)
    decreases |existings|
  {
    if existings == [] then -1
    else if Key(existings[|existings| - 1].record) == k then |existings| - 1
    else LastIndex(existings[..|existings| - 1], k)
  }

  /** `new Map(existings.map(e => [key(e), e]))`: entries are inserted in
      order, so a later record overwrites an earlier one with the same key. */
  function ExistingMap(existings: seq<Stored>): (m: map<string, Stored>)
    ensures forall k :: k in m <==> Known(existings, k)
    ensures forall k :: k in m ==> m[k] == existings[LastIndex(existings, k)]
    decreases |existings|
  {
    if existings == [] then map[]
    else
      var e := existings[|existings| - 1];
      var init := existings[..|existings| - 1];
      assert forall k :: Known(existings, k) <==> Known(init, k) || Key(e.record) == k by {
        forall k ensures Known(existings, k) <==> Known(init, k) || Key(e.record) == k {
          if Known(existings, k) {
            var i :| 0 <= i < |existings| && Key(existings[i].record) == k;
            if i < |init| { assert init[i] == existings[i]; }
          }
          if Known(init, k) {
            var i :| 0 <= i < |init| && Key(init[i].record) == k;
            assert init[i] == existings[i];
          }
        }
      }
      ExistingMap(init)[Key(e.record) := e]
  }

  /** When several existing records share a key, the last one's id is used. */
  lemma LastRecordWins(p: Patient, q: Patient)
    requires Key(p) == Key(q)
    ensures ExistingMap([Stored("first", p), Stored("second", q)])[Key(p)].id == "second"
  {
    var e := [Stored("first", p), Stored("second", q)];
    assert Key(e[1].record) == Key(p);
    assert LastIndex(e, Key(p)) == 1;
  }

  // ---------------------------------------------------------------------
  // The partition, stated independently of the map.

  /** Whether a patient's key is in the store. */
  function KnownIn(existings: seq<Stored>): Patient -> bool {
    p => Known(existings, Key(p))
  }

  /** The id of the last stored record with key `k` (only read for keys the
      store has). */
  function IdOf(existings: seq<Stored>, k: string): (id: string)
    ensures Known(existings, k) ==> exists i :: IsLastWithKey(existings, i, k) && id == existings[i].id
  {
    var i := LastIndex(existings, k);
    if i == -1 then "" else existings[i].id
  }

  /** The update entry for a matched patient: its record, unchanged. */
  function UpdateFor(existings: seq<Stored>): Patient -> Update {
    p => Update(IdOf(existings, Key(p)), p)
  }

  /** The patients whose key no stored record has, in input order. */
  function InsertsOf(patients: seq<Patient>, existings: seq<Stored>): seq<Patient> {
    Filter(patients, Not(KnownIn(existings)))
  }

  /** The patients whose key some stored record has, in input order. */
  function Matched(patients: seq<Patient>, existings: seq<Stored>): seq<Patient> {
    Filter(patients, KnownIn(existings))
  }

  /** One update per matched patient, in input order. */
  function UpdatesOf(patients: seq<Patient>, existings: seq<Stored>): seq<Update> {
    Map(Matched(patients, existings), UpdateFor(existings))
  }

  function Payloads(us: seq<Update>): seq<Patient> {
    Map(us, (u: Update) => u.data)
  }

  /** The updates carry exactly the matched patients, unchanged. */
  lemma PayloadsAreMatched(patients: seq<Patient>, existings: seq<Stored>)
    ensures Payloads(UpdatesOf(patients, existings)) == Matched(patients, existings)
  {
  }

  /** `toInsert` holds exactly the patients whose key is not in the store. */
  lemma InsertsMembership(patients: seq<Patient>, existings: seq<Stored>)
    ensures forall p :: p in InsertsOf(patients, existings) <==> p in patients && !Known(existings, Key(p))
  {
    FilterMembership(patients, Not(KnownIn(existings)));
  }

  /** Every entry of `toUpdate` carries one of the input patients, unchanged,
      whose key is in the store, together with the id of the last stored
      record with that key. */
  lemma UpdatesMembership(patients: seq<Patient>, existings: seq<Stored>)
    ensures forall u :: u in UpdatesOf(patients, existings) ==>
      && u.data in patients
      && Known(existings, Key(u.data))
      && IsLastWithKey(existings, LastIndex(existings, Key(u.data)), Key(u.data))
      && u.id == existings[LastIndex(existings, Key(u.data))].id
  {
    var m := Matched(patients, existings);
    FilterMembership(patients, KnownIn(existings));
    forall u | u in UpdatesOf(patients, existings)
      ensures u.data in patients && Known(existings, Key(u.data))
    {
      var i :| 0 <= i < |m| && UpdatesOf(patients, existings)[i] == u;
      assert m[i] in m;
    }
  }

  /** Routing is done one patient at a time: the lists for `a + b` are the
      lists for `a` followed by the lists for `b`, so input order is kept and
      no patient's route depends on another patient of the batch. */
  lemma PartitionAppend(a: seq<Patient>, b: seq<Patient>, existings: seq<Stored>)
    ensures InsertsOf(a + b, existings) == InsertsOf(a, existings) + InsertsOf(b, existings)
    ensures UpdatesOf(a + b, existings) == UpdatesOf(a, existings) + UpdatesOf(b, existings)
  {
    FilterAppend(a, b, Not(KnownIn(existings)));
    FilterAppend(a, b, KnownIn(existings));
  }

  /** Every patient lands in exactly one of the two lists. */
  lemma PartitionIsExact(patients: seq<Patient>, existings: seq<Stored>)
    ensures multiset(InsertsOf(patients, existings)) + multiset(Payloads(UpdatesOf(patients, existings)))
      == multiset(patients)
    ensures |InsertsOf(patients, existings)| + |UpdatesOf(patients, existings)| == |patients|
  {
    FilterSplit(patients, KnownIn(existings));
    PayloadsAreMatched(patients, existings);
  }

  /** A patient goes to `toUpdate` exactly when some stored record has its
      key; then it is not also inserted. */
  lemma UpdateIff(patients: seq<Patient>, existings: seq<Stored>, p: Patient)
    requires p in patients
    ensures p in Payloads(UpdatesOf(patients, existings)) <==> Known(existings, Key(p))
    ensures p in Payloads(UpdatesOf(patients, existings)) <==> p !in InsertsOf(patients, existings)
  {
    PayloadsAreMatched(patients, existings);
    FilterMembership(patients, KnownIn(existings));
    InsertsMembership(patients, existings);
  }

  /** Nothing is merged within a batch: two records with the same new key are
      both inserted. */
  lemma NoInBatchDedup(p: Patient, q: Patient, existings: seq<Stored>)
    requires Key(p) == Key(q) && !Known(existings, Key(p))
    ensures InsertsOf([p, q], existings) == [p, q]
    ensures UpdatesOf([p, q], existings) == []
  {
    FilterAll([p, q], Not(KnownIn(existings)));
    FilterNone([p, q], KnownIn(existings));
  }

  /** A null and an empty chart number are routed the same way. */
  lemma RouteIgnoresChartNoNullVsEmpty(p: Patient, existings: seq<Stored>)
    ensures InsertsOf([p.(chartNo := None)], existings) == [] <==> InsertsOf([p.(chartNo := Some(""))], existings) == []
  {
    KeyChartNoNullIsEmpty(p);
    assert [p.(chartNo := None)][..0] == [] && [p.(chartNo := Some(""))][..0] == [];
  }

  /** Once the first run's inserts are in the store, a second run over the
      same batch inserts nothing and updates every record. */
  lemma RerunInsertsNothing(patients: seq<Patient>, existings: seq<Stored>, ids: seq<string>)
    requires |ids| == |InsertsOf(patients, existings)|
    ensures var ins := InsertsOf(patients, existings);
      var saved := seq(|ins|, i requires 0 <= i < |ins| => Stored(ids[i], ins[i]));
      && InsertsOf(patients, existings + saved) == []
      && |UpdatesOf(patients, existings + saved)| == |patients|
  {
    var ins := InsertsOf(patients, existings);
    var saved := seq(|ins|, i requires 0 <= i < |ins| => Stored(ids[i], ins[i]));
    var after := existings + saved;
    InsertsMembership(patients, existings);
    forall p | p in patients ensures Known(after, Key(p)) {
      if Known(existings, Key(p)) {
        var i :| 0 <= i < |existings| && Key(existings[i].record) == Key(p);
        assert after[i] == existings[i];
      } else {
        var j :| 0 <= j < |ins| && ins[j] == p;
        assert after[|existings| + j] == saved[j];
      }
    }
    FilterNone(patients, Not(KnownIn(after)));
    PartitionIsExact(patients, after);
  }

  // ---------------------------------------------------------------------
  // The service method.

  /** The `where` of the batched lookup: one condition per patient, in order. */
  function Conditions(patients: seq<Patient>): seq<Condition>
  {
    seq(|patients|, i requires 0 <= i < |patients| =>
      Condition(patients[i].name, patients[i].phone, patients[i].chartNo))
  }

  /** One `update(id, data)` call per `toUpdate` entry, in order. */
  function UpdateCalls(us: seq<Update>): seq<StoreOp>
  {
    seq(|us|, i requires 0 <= i < |us| => UpdateById(us[i].id, us[i].data))
  }

  /** The store calls `importPatients` issues for a batch: none for an empty
      batch; otherwise the batched lookup, a bulk insert when something is new,
      and one update per matched patient. */
  function ImportCalls(patients: seq<Patient>, existings: seq<Stored>): (ops: seq<StoreOp>)
    ensures ops == [] <==> patients == []
    ensures patients != [] ==> ops[0] == Find(Conditions(patients))
  {
    if patients == [] then []
    else
      var ins := InsertsOf(patients, existings);
      [Find(Conditions(patients))] + (if ins == [] then [] else [Save(ins)]) + UpdateCalls(UpdatesOf(patients, existings))
  }

  /** The loop of `importPatients`: walks the batch once and sends each
      patient to `toUpdate`, with the id the key maps to, or to `toInsert`. */
  method Partition(patients: seq<Patient>, existings: seq<Stored>) returns (toInsert: seq<Patient>, toUpdate: seq<Update>)
    ensures toInsert == InsertsOf(patients, existings)
    ensures toUpdate == UpdatesOf(patients, existings)
  {
    var existingMap := ExistingMap(existings);
    toInsert, toUpdate := [], [];
    for i := 0 to |patients|
      invariant toInsert == InsertsOf(patients[..i], existings)
      invariant toUpdate == UpdatesOf(patients[..i], existings)
    {
      var patient := patients[i];
      var key := Key(patient);
      PartitionAppend(patients[..i], [patient], existings);
      assert patients[..i + 1] == patients[..i] + [patient];
      assert [patient][..0] == [];
      if key in existingMap {
        toUpdate := toUpdate + [Update(existingMap[key].id, patient)];
      } else {
        toInsert := toInsert + [patient];
      }
    }
    assert patients[..|patients|] == patients;
  }

  /** The update loop of `importPatients`: one update by id per entry of
      `toUpdate`, one after the other, in list order. */
  method IssueUpdates(toUpdate: seq<Update>) returns (ops: seq<StoreOp>)
    ensures ops == UpdateCalls(toUpdate)
  {
    ops := [];
    for j := 0 to |toUpdate|
      invariant ops == UpdateCalls(toUpdate[..j])
    {
      ops := ops + [UpdateById(toUpdate[j].id, toUpdate[j].data)];
    }
    assert toUpdate[..|toUpdate|] == toUpdate;
  }

  /** `importPatients`: returns the number of records processed and the store
      calls issued. An empty batch returns 0 without touching the store.
      Otherwise one batched lookup comes first (one condition per patient),
      then a single bulk insert if anything is new, then one update per
      matched patient, carrying the patient record unchanged. */
  method ImportPatients(patients: seq<Patient>, existings: seq<Stored>) returns (processed: nat, ops: seq<StoreOp>)
    ensures patients == [] ==> processed == 0 && ops == []
    ensures processed == |InsertsOf(patients, existings)| + |UpdatesOf(patients, existings)| == |patients|
    ensures ops == ImportCalls(patients, existings)
  {
    if |patients| == 0 {
      return 0, [];
    }
    var toInsert, toUpdate := Partition(patients, existings);
    ops := [Find(Conditions(patients))];
    if |toInsert| > 0 {
      ops := ops + [Save(toInsert)];
    }
    var updates := IssueUpdates(toUpdate);
    ops := ops + updates;
    PartitionIsExact(patients, existings);
    processed := |toInsert| + |toUpdate|;
  }
}
