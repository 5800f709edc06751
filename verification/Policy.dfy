// Profile selection under a risk table (cryptoflex/policy.py).
module Policy {
  import opened Wrappers
  import opened Json
  import opened Profiles
  import opened Sources

  datatype Constraint = FAST | BALANCED | MAX_SECURITY

  /** The reason text is not modelled. */
  datatype PolicyDecision = PolicyDecision(profile: Profile, degraded: bool, minAcceptedProfile: string)

  // ---- What the risk table says of an algorithm ----

  datatype Record = Record(deprecated: bool, quantumSafe: bool)

  /** The record of an algorithm; None when it is missing or malformed in any way. */
  function RecordOf(table: Json, alg: string): Option<Record> {
    var record := Get(Get(table, "algorithms"), alg);
    var status, qs := Get(record, "status"), Get(record, "quantum_safe");
    if status !in {JString("approved"), JString("deprecated")} || !qs.JBool? then None
    else Some(Record(status == JString("deprecated"), qs.b))
  }

  predicate KnownTo(table: Json, p: Profile) {
    forall i :: 0 <= i < |p.sources| ==> RecordOf(table, p.sources[i].algorithmId).Some?
  }

  predicate Deprecated(table: Json, s: Source) {
    RecordOf(table, s.algorithmId).Some? && RecordOf(table, s.algorithmId).value.deprecated
  }

  predicate Approved(table: Json, s: Source) {
    RecordOf(table, s.algorithmId).Some? && !RecordOf(table, s.algorithmId).value.deprecated
  }

  predicate QuantumSafe(table: Json, s: Source) {
    RecordOf(table, s.algorithmId).Some? && RecordOf(table, s.algorithmId).value.quantumSafe
  }

  /** All components known, one still approved, and one quantum safe when required. */
  predicate Acceptable(table: Json, p: Profile, requireQuantumSafe: bool) {
    && KnownTo(table, p)
    && (exists i :: 0 <= i < |p.sources| && Approved(table, p.sources[i]))
    && (requireQuantumSafe ==> exists i :: 0 <= i < |p.sources| && QuantumSafe(table, p.sources[i]))
  }

  predicate HasDeprecated(table: Json, p: Profile) {
    exists i :: 0 <= i < |p.sources| && Deprecated(table, p.sources[i])
  }

  predicate Usable(table: Json, p: Profile, requireQuantumSafe: bool) {
    p.IsAvailable() && Acceptable(table, p, requireQuantumSafe)
  }

  // ---- The order of candidates ----

  function CandidateOrder(c: Constraint): (order: seq<string>)
    ensures |order| == 3 && forall i :: 0 <= i < 3 ==> order[i] in {"classical_only", "hybrid_standard", "hybrid_high"}
  {
    match c
    case FAST => ["classical_only", "hybrid_standard", "hybrid_high"]
    case MAX_SECURITY => ["hybrid_high", "hybrid_standard", "classical_only"]
    case BALANCED => ["hybrid_standard", "hybrid_high", "classical_only"]
  }

  predicate Complete(reg: Registry) {
    Keyed(reg) && {"classical_only", "hybrid_standard", "hybrid_high"} <= reg.Keys
  }

  predicate UsableAt(table: Json, reg: Registry, c: Constraint, qs: bool, i: nat)
    requires Complete(reg) && i < 3
  {
    Usable(table, reg[CandidateOrder(c)[i]], qs)
  }

  /** The choice: position of the first usable candidate, 3 when there is none. */
  predicate IsChoice(table: Json, reg: Registry, c: Constraint, qs: bool, i: nat)
    requires Complete(reg)
  {
    && i <= 3
    && (forall j: nat :: j < i ==> !UsableAt(table, reg, c, qs, j))
    && (i < 3 ==> UsableAt(table, reg, c, qs, i))
  }

  // ---- Monotonicity ----

  /** newTable deprecates at least what oldTable deprecates, and says nothing better of any algorithm. */
  ghost predicate NoBetter(newTable: Json, oldTable: Json) {
    forall alg :: RecordOf(newTable, alg).Some? ==>
      && RecordOf(oldTable, alg).Some?
      && (RecordOf(oldTable, alg).value.deprecated ==> RecordOf(newTable, alg).value.deprecated)
      && (RecordOf(newTable, alg).value.quantumSafe ==> RecordOf(oldTable, alg).value.quantumSafe)
  }

  /** The same profiles, with no source newly available. */
  ghost predicate NoMoreAvailable(newReg: Registry, oldReg: Registry) {
    forall id :: id in newReg ==>
      && id in oldReg
      && |newReg[id].sources| == |oldReg[id].sources|
      && forall i :: 0 <= i < |newReg[id].sources| ==>
           && newReg[id].sources[i].algorithmId == oldReg[id].sources[i].algorithmId
           && (newReg[id].sources[i].isAvailable ==> oldReg[id].sources[i].isAvailable)
  }

  lemma UsableStaysUsable(newTable: Json, newReg: Registry, oldTable: Json, oldReg: Registry, id: string, qs: bool)
    requires NoBetter(newTable, oldTable) && NoMoreAvailable(newReg, oldReg) && id in newReg
    requires Usable(newTable, newReg[id], qs)
    ensures Usable(oldTable, oldReg[id], qs)
  {
    hide RecordOf;
    var p, q := newReg[id], oldReg[id];
    var i :| 0 <= i < |p.sources| && Approved(newTable, p.sources[i]);
    assert Approved(oldTable, q.sources[i]);
    if qs {
      var k :| 0 <= k < |p.sources| && QuantumSafe(newTable, p.sources[k]);
      assert QuantumSafe(oldTable, q.sources[k]);
    }
  }

  /** Deprecating algorithms or losing sources never moves the choice to an earlier candidate. */
  lemma ChoiceMonotone(newTable: Json, newReg: Registry, oldTable: Json, oldReg: Registry,
                       c: Constraint, qs: bool, i: nat, j: nat)
    requires NoBetter(newTable, oldTable) && NoMoreAvailable(newReg, oldReg)
    requires Complete(newReg) && Complete(oldReg)
    requires IsChoice(oldTable, oldReg, c, qs, i) && IsChoice(newTable, newReg, c, qs, j)
    ensures i <= j
  {
    if j < i {
      assert UsableAt(newTable, newReg, c, qs, j) && !UsableAt(oldTable, oldReg, c, qs, j);
      UsableStaysUsable(newTable, newReg, oldTable, oldReg, CandidateOrder(c)[j], qs);
    }
  }

  /** How a constraint ranks a strength level, best first: FAST the weakest, MAX_SECURITY the
      strongest, BALANCED the standard hybrid, then the stronger one, then the classical one. */
  function Preference(c: Constraint, strength: int): int {
    match c
    case FAST => strength
    case MAX_SECURITY => -strength
    case BALANCED => if strength == 0 then 2 else strength - 1
  }

  /** Over the shipped registry the choice is the usable profile its constraint ranks first; under
      MAX_SECURITY that is the strongest. */
  lemma ChoiceIsPreferred(table: Json, x: Source, m768: Source, m1024: Source, c: Constraint, qs: bool, i: nat,
                          id: string)
    requires var reg := ProfileRegistry(x, m768, m1024);
             Complete(reg) && IsChoice(table, reg, c, qs, i) && i < 3 && id in reg && Usable(table, reg[id], qs)
    ensures var reg := ProfileRegistry(x, m768, m1024);
            Preference(c, reg[CandidateOrder(c)[i]].strengthLevel) <= Preference(c, reg[id].strengthLevel)
  {
    hide Usable;
    var reg := ProfileRegistry(x, m768, m1024);
    var order := CandidateOrder(c);
    var k: nat := if order[0] == id then 0 else if order[1] == id then 1 else 2;
    assert order[k] == id;
    assert UsableAt(table, reg, c, qs, k);
    assert i <= k;
  }

  // ---- Table validation ----

  predicate ValidRecord(record: Json) {
    && record.JObject?
    && Has(record, "status") && Get(record, "status") in {JString("approved"), JString("deprecated")}
    && Has(record, "quantum_safe") && Get(record, "quantum_safe").JBool?
    && (Has(record, "notes") ==> Get(record, "notes").JString?)
  }

  predicate ValidTable(table: Json) {
    && table.JObject?
    && Has(table, "algorithms") && Get(table, "algorithms").JObject?
    && (Has(table, "table_version") ==> Get(table, "table_version").JString?)
    && (Has(table, "note") ==> Get(table, "note").JString?)
    && (forall alg :: alg in Get(table, "algorithms").fields ==> ValidRecord(Get(table, "algorithms").fields[alg]))
  }

  /** Under a validated table an algorithm fails closed exactly when the table does not list it. */
  lemma ValidTableKnowsItsAlgorithms(table: Json, alg: string)
    requires ValidTable(table)
    ensures RecordOf(table, alg).Some? <==> alg in Get(table, "algorithms").fields
  {
    if alg in Get(table, "algorithms").fields {
      assert ValidRecord(Get(table, "algorithms").fields[alg]);
    }
  }

  /** What the engine reads off a validated table, in the table's own words. */
  lemma ListedAlgorithm(table: Json, s: Source)
    requires ValidTable(table) && s.algorithmId in Get(table, "algorithms").fields
    ensures var record := Get(table, "algorithms").fields[s.algorithmId];
            && (Approved(table, s) <==> Get(record, "status") == JString("approved"))
            && (Deprecated(table, s) <==> Get(record, "status") == JString("deprecated"))
            && (QuantumSafe(table, s) <==> Get(record, "quantum_safe") == JBool(true))
  {
    assert ValidRecord(Get(table, "algorithms").fields[s.algorithmId]);
  }

  /** And off any table at all: a record counts exactly when both of its fields are in order. */
  lemma AnyAlgorithm(table: Json, s: Source)
    ensures var record := Get(Get(table, "algorithms"), s.algorithmId);
            var status, qs := Get(record, "status"), Get(record, "quantum_safe");
            && (Approved(table, s) <==> status == JString("approved") && qs in {JBool(true), JBool(false)})
            && (Deprecated(table, s) <==> status == JString("deprecated") && qs in {JBool(true), JBool(false)})
            && (QuantumSafe(table, s) <==> status in {JString("approved"), JString("deprecated")} && qs == JBool(true))
  {
  }

  // ---- The bundled table ----

  function Entry(status: Json, quantumSafe: Json, notes: string): Json {
    JObject(map["status" := status, "quantum_safe" := quantumSafe, "notes" := JString(notes)])
  }

  /** algorithm_status.json, whatever its notes say. */
  function ShippedTable(note: string, notes: string -> string): Json {
    JObject(map[
      "table_version" := JString("2026.08.1"),
      "note" := JString(note),
      "algorithms" := JObject(map[
        "x25519" := Entry(JString("approved"), JBool(false), notes("x25519")),
        "mlkem768" := Entry(JString("approved"), JBool(true), notes("mlkem768")),
        "mlkem1024" := Entry(JString("approved"), JBool(true), notes("mlkem1024"))])])
  }

  lemma ShippedTableIsValid(note: string, notes: string -> string)
    ensures ValidTable(ShippedTable(note, notes))
  {
  }

  /** The two fields a record must have, one at a time. */
  lemma OneEntryTableIsValidIff(alg: string, status: Json, quantumSafe: Json, notes: string)
    ensures ValidTable(JObject(map["algorithms" := JObject(map[alg := Entry(status, quantumSafe, notes)])]))
       <==> status in {JString("approved"), JString("deprecated")} && quantumSafe in {JBool(true), JBool(false)}
  {
    var table := JObject(map["algorithms" := JObject(map[alg := Entry(status, quantumSafe, notes)])]);
    assert Get(table, "algorithms").fields[alg] == Entry(status, quantumSafe, notes);
  }

  /** The three sources under the identifiers of the bundled table, all of them available. */
  predicate AllShipped(x: Source, m768: Source, m1024: Source) {
    && x.algorithmId == "x25519" && m768.algorithmId == "mlkem768" && m1024.algorithmId == "mlkem1024"
    && x.isAvailable && m768.isAvailable && m1024.isAvailable
  }

  lemma ShippedRecords(note: string, notes: string -> string, x: Source, m768: Source, m1024: Source)
    requires AllShipped(x, m768, m1024)
    ensures var t := ShippedTable(note, notes);
            && Approved(t, x) && Approved(t, m768) && Approved(t, m1024)
            && !Deprecated(t, x) && !Deprecated(t, m768) && !Deprecated(t, m1024)
            && !QuantumSafe(t, x) && QuantumSafe(t, m768) && QuantumSafe(t, m1024)
  {
    var t := ShippedTable(note, notes);
    ShippedTableIsValid(note, notes);
    ListedAlgorithm(t, x);
    ListedAlgorithm(t, m768);
    ListedAlgorithm(t, m1024);
  }

  /** A profile of one or two approved, available sources is usable unless it must be quantum safe
      and is not. */
  lemma ApprovedProfileUsable(table: Json, p: Profile, qs: bool)
    requires |p.sources| > 0 && p.IsAvailable()
    requires forall i :: 0 <= i < |p.sources| ==> Approved(table, p.sources[i]) && !Deprecated(table, p.sources[i])
    ensures Usable(table, p, qs) <==>
            qs ==> exists i :: 0 <= i < |p.sources| && QuantumSafe(table, p.sources[i])
    ensures !HasDeprecated(table, p)
  {
    hide RecordOf;
    assert Approved(table, p.sources[0]);
  }

  lemma ShippedUsable(note: string, notes: string -> string, x: Source, m768: Source, m1024: Source, qs: bool)
    requires AllShipped(x, m768, m1024)
    ensures var t, reg := ShippedTable(note, notes), ProfileRegistry(x, m768, m1024);
            && (Usable(t, reg["classical_only"], qs) <==> !qs)
            && Usable(t, reg["hybrid_standard"], qs) && Usable(t, reg["hybrid_high"], qs)
            && (forall id :: id in reg ==> !HasDeprecated(t, reg[id]))
  {
    hide Approved, Deprecated, QuantumSafe, RecordOf, ShippedTable, Usable, HasDeprecated;
    var t, reg := ShippedTable(note, notes), ProfileRegistry(x, m768, m1024);
    ShippedRecords(note, notes, x, m768, m1024);
    ApprovedProfileUsable(t, reg["classical_only"], qs);
    ApprovedProfileUsable(t, reg["hybrid_standard"], qs);
    ApprovedProfileUsable(t, reg["hybrid_high"], qs);
    assert QuantumSafe(t, reg["hybrid_standard"].sources[1]) && QuantumSafe(t, reg["hybrid_high"].sources[1]);
  }

  /** What the bundled table makes the engine choose while every source is available: the first
      candidate, and only FAST with a quantum-safe component required falls back, to the second. */
  lemma ShippedChoice(note: string, notes: string -> string, x: Source, m768: Source, m1024: Source,
                      c: Constraint, qs: bool)
    requires AllShipped(x, m768, m1024)
    ensures var t, reg := ShippedTable(note, notes), ProfileRegistry(x, m768, m1024);
            Complete(reg) && IsChoice(t, reg, c, qs, if c == FAST && qs then 1 else 0)
  {
    hide Usable, HasDeprecated, ShippedTable;
    ShippedRegistryKeyed(x, m768, m1024);
    ShippedUsable(note, notes, x, m768, m1024, qs);
  }

  method ValidateRecord(record: Json) returns (r: Result<()>)
    ensures r == if ValidRecord(record) then Success(()) else Failure(ValueError)
  {
    if !record.JObject? { return Failure(ValueError); }
    if "status" !in record.fields { return Failure(ValueError); }
    if record.fields["status"] !in {JString("approved"), JString("deprecated")} { return Failure(ValueError); }
    if "quantum_safe" !in record.fields { return Failure(ValueError); }
    if !record.fields["quantum_safe"].JBool? { return Failure(ValueError); }
    if "notes" in record.fields && !record.fields["notes"].JString? { return Failure(ValueError); }
    return Success(());
  }

  method ValidateRiskTable(table: Json) returns (r: Result<()>)
    ensures r == if ValidTable(table) then Success(()) else Failure(ValueError)
  {
    if !table.JObject? { return Failure(ValueError); }
    if "algorithms" !in table.fields { return Failure(ValueError); }
    var algos := table.fields["algorithms"];
    if !algos.JObject? { return Failure(ValueError); }
    if "table_version" in table.fields && !table.fields["table_version"].JString? { return Failure(ValueError); }
    if "note" in table.fields && !table.fields["note"].JString? { return Failure(ValueError); }
    var todo := algos.fields.Keys;
    while todo != {}
      invariant todo <= algos.fields.Keys
      invariant forall alg :: alg in algos.fields.Keys - todo ==> ValidRecord(algos.fields[alg])
      decreases |todo|
    {
      var alg :| alg in todo;
      var checked := ValidateRecord(algos.fields[alg]);
      if checked.Failure? { return Failure(ValueError); }
      todo := todo - {alg};
    }
    return Success(());
  }

  // ---- The engine ----

  class PolicyEngine {
    var riskTable: Json

    constructor Unchecked(table: Json)
      ensures riskTable == table
    {
      riskTable := table;
    }

    /** PolicyEngine(risk_table): refuses a table of the wrong shape. */
    static method Make(table: Json) returns (r: Result<PolicyEngine>)
      ensures r.Success? <==> ValidTable(table)
      ensures r.Success? ==> fresh(r.value) && r.value.riskTable == table
      ensures r.Failure? ==> r.error == ValueError
    {
      var checked := ValidateRiskTable(table);
      if checked.Failure? { return Failure(ValueError); }
      var engine := new PolicyEngine.Unchecked(table);
      return Success(engine);
    }

    /** Fails closed on a missing or malformed record. */
    method IsProfileAcceptable(p: Profile, requireQuantumSafe: bool) returns (acceptable: bool, degraded: bool)
      ensures acceptable == Acceptable(riskTable, p, requireQuantumSafe)
      ensures degraded == (acceptable && HasDeprecated(riskTable, p))
    {
      hide RecordOf;
      var isQs := false;
      var deprecatedComponents: seq<string> := [];
      for i := 0 to |p.sources|
        invariant forall k :: 0 <= k < i ==> RecordOf(riskTable, p.sources[k].algorithmId).Some?
        invariant isQs <==> exists k :: 0 <= k < i && QuantumSafe(riskTable, p.sources[k])
        invariant deprecatedComponents != [] <==> exists k :: 0 <= k < i && Deprecated(riskTable, p.sources[k])
        invariant |deprecatedComponents| <= i
        invariant |deprecatedComponents| < i <==> exists k :: 0 <= k < i && Approved(riskTable, p.sources[k])
      {
        var record := RecordOf(riskTable, p.sources[i].algorithmId);
        if record.None? { return false, false; }
        if record.value.deprecated {
          deprecatedComponents := deprecatedComponents + [p.sources[i].algorithmId];
          assert Deprecated(riskTable, p.sources[i]) && !Approved(riskTable, p.sources[i]);
        } else {
          assert Approved(riskTable, p.sources[i]) && !Deprecated(riskTable, p.sources[i]);
        }
        if record.value.quantumSafe {
          isQs := true;
          assert QuantumSafe(riskTable, p.sources[i]);
        }
      }
      if requireQuantumSafe && !isQs { return false, false; }
      if |deprecatedComponents| == |p.sources| { return false, false; }
      return true, deprecatedComponents != [];
    }

    /** First fit over the candidate order, or RuntimeError. */
    method Decide(reg: Registry, c: Constraint, requireQuantumSafe: bool) returns (r: Result<PolicyDecision>)
      requires Complete(reg)
      ensures r.Failure? ==> r.error == RuntimeError && IsChoice(riskTable, reg, c, requireQuantumSafe, 3)
      ensures r.Success? ==>
        exists i: nat :: i < 3 && IsChoice(riskTable, reg, c, requireQuantumSafe, i)
          && r.value == DecisionAt(riskTable, reg, c, i)
    {
      hide Usable, HasDeprecated, Acceptable;
      var candidates := CandidateOrder(c);
      for i := 0 to 3
        invariant forall j: nat :: j < i ==> !UsableAt(riskTable, reg, c, requireQuantumSafe, j)
      {
        var p := reg[candidates[i]];
        assert UsableAt(riskTable, reg, c, requireQuantumSafe, i) <==> Usable(riskTable, p, requireQuantumSafe);
        UsableIff(riskTable, p, requireQuantumSafe);
        if !p.IsAvailable() { continue; }
        var acceptable, mixedDegraded := IsProfileAcceptable(p, requireQuantumSafe);
        if !acceptable { continue; }
        assert IsChoice(riskTable, reg, c, requireQuantumSafe, i);
        return Success(PolicyDecision(p, candidates[i] != candidates[0] || mixedDegraded, candidates[i]));
      }
      return Failure(RuntimeError);
    }
  }

  lemma ChoiceIsUnique(table: Json, reg: Registry, c: Constraint, qs: bool, i: nat, j: nat)
    requires Complete(reg) && IsChoice(table, reg, c, qs, i) && IsChoice(table, reg, c, qs, j)
    ensures i == j
  {
    hide UsableAt;
  }

  /** PolicyEngine().decide() as shipped, while every source is available. */
  method DecideAsShipped(note: string, notes: string -> string, x: Source, m768: Source, m1024: Source,
                         c: Constraint, requireQuantumSafe: bool)
    returns (r: Result<PolicyDecision>)
    requires AllShipped(x, m768, m1024)
    ensures r.Success? && r.value.minAcceptedProfile == r.value.profile.profileId
    ensures c == BALANCED ==>
      && r.value.profile.profileId == "hybrid_standard" && !r.value.degraded
      && r.value.profile.sources == [x, m768] && r.value.profile.strengthLevel == 1
    ensures c == MAX_SECURITY ==>
      && r.value.profile.profileId == "hybrid_high" && !r.value.degraded
      && r.value.profile.sources == [x, m1024] && r.value.profile.strengthLevel == 2
    ensures c == FAST && !requireQuantumSafe ==>
      && r.value.profile.profileId == "classical_only" && !r.value.degraded
      && r.value.profile.sources == [x] && r.value.profile.strengthLevel == 0
    ensures c == FAST && requireQuantumSafe ==>
      && r.value.profile.profileId == "hybrid_standard" && r.value.degraded
      && r.value.profile.sources == [x, m768] && r.value.profile.strengthLevel == 1
  {
    hide ShippedTable, ValidTable, Usable, HasDeprecated, IsChoice;
    ghost var table := ShippedTable(note, notes);
    var reg := ProfileRegistry(x, m768, m1024);
    ShippedTableIsValid(note, notes);
    ShippedChoice(note, notes, x, m768, m1024, c, requireQuantumSafe);
    ShippedUsable(note, notes, x, m768, m1024, requireQuantumSafe);
    var engine := PolicyEngine.Make(ShippedTable(note, notes));
    if engine.Failure? { assert false; }
    r := engine.value.Decide(reg, c, requireQuantumSafe);
    ghost var expected: nat := if c == FAST && requireQuantumSafe then 1 else 0;
    if r.Failure? {
      ChoiceIsUnique(table, reg, c, requireQuantumSafe, 3, expected);
      assert false;
    }
    ghost var i: nat :| i < 3 && IsChoice(table, reg, c, requireQuantumSafe, i)
      && r.value == DecisionAt(table, reg, c, i);
    ChoiceIsUnique(table, reg, c, requireQuantumSafe, i, expected);
  }

  lemma UsableIff(table: Json, p: Profile, qs: bool)
    ensures Usable(table, p, qs) <==> p.IsAvailable() && Acceptable(table, p, qs)
  {
  }

  /** The decision for candidate i: degraded unless it is the ideal one with no deprecated part. */
  function DecisionAt(table: Json, reg: Registry, c: Constraint, i: nat): PolicyDecision
    requires Complete(reg) && i < 3
  {
    var p := reg[CandidateOrder(c)[i]];
    PolicyDecision(p, i != 0 || HasDeprecated(table, p), p.profileId)
  }

  /** What any decision promises: available, every component known to the table, one approved, a
      quantum-safe one when required; and it is undegraded exactly when it is the ideal
      candidate with every component approved. */
  lemma DecisionHonoursRequirement(table: Json, reg: Registry, c: Constraint, qs: bool, i: nat)
    requires Complete(reg) && i < 3 && IsChoice(table, reg, c, qs, i)
    ensures var d := DecisionAt(table, reg, c, i);
            var p := d.profile;
            && (forall k :: 0 <= k < |p.sources| ==> p.sources[k].isAvailable)
            && d.minAcceptedProfile == CandidateOrder(c)[i]
            && (forall k :: 0 <= k < |p.sources| ==> RecordOf(table, p.sources[k].algorithmId).Some?)
            && (exists k :: 0 <= k < |p.sources| && Approved(table, p.sources[k]))
            && (qs ==> exists k :: 0 <= k < |p.sources| && QuantumSafe(table, p.sources[k]))
            && (!d.degraded <==> i == 0 && forall k :: 0 <= k < |p.sources| ==> Approved(table, p.sources[k]))
  {
    hide RecordOf;
    assert UsableAt(table, reg, c, qs, i);
    var p := DecisionAt(table, reg, c, i).profile;
    assert forall k :: 0 <= k < |p.sources| ==> (Approved(table, p.sources[k]) <==> !Deprecated(table, p.sources[k]));
  }
}
