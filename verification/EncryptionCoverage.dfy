/** The encryption-coverage gate against the columns the model generator emits
    (tools/gen_models.py, tools/validate_assembly.py). */
module EncryptionCoverage {
  import opened Wrappers

  datatype FieldType = IntType | StrType | TextType | BoolType | DateTimeType | FloatType | JsonType

  datatype Field = Field(name: string, kind: FieldType, optional: bool)

  /** An entity after norm_fields; `status` is its state-machine field. */
  datatype Entity = Entity(name: string, fields: seq<Field>, status: Option<string>)

  datatype Setting = Flag(on: bool) | Text(value: string) | Names(names: seq<string>)

  type Policy = map<string, Setting>

  datatype Domain = Domain(
    tier: string,
    routePolicies: map<string, Policy>,
    sensitive: map<string, seq<string>>,
    exempt: map<string, seq<string>>)

  const SENSITIVE_NAMES := ["body", "notes", "content", "relapse_notes", "message", "journal", "entry"]

  /** The tiers under which text must be classified, and encrypted by default */
  predicate Strict(d: Domain) {
    d.tier == "high" || d.tier == "regulated"
  }

  predicate IsText(f: Field) {
    f.kind == StrType || f.kind == TextType
  }

  predicate HasField(e: Entity, name: string) {
    exists f :: f in e.fields && f.name == name
  }

  /** dict.get(key) or [] */
  function Listed(m: map<string, seq<string>>, key: string): seq<string> {
    if key in m then m[key] else []
  }

  function Unique(s: seq<string>): seq<string> {
    if s == [] then []
    else
      var front := Unique(s[..|s| - 1]);
      if s[|s| - 1] in front then front else front + [s[|s| - 1]]
  }

  /** ftypes: of fields with one name, the last decides. */
  function FieldOf(fields: seq<Field>, name: string): Option<Field> {
    if fields == [] then None
    else if fields[|fields| - 1].name == name then Some(fields[|fields| - 1])
    else FieldOf(fields[..|fields| - 1], name)
  }

  /** [f for f in names if the field is text] */
  function DeclaredText(e: Entity, names: seq<string>): seq<string> {
    if names == [] then []
    else
      var f, rest := FieldOf(e.fields, names[0]), DeclaredText(e, names[1..]);
      if f.Some? && IsText(f.value) then [names[0]] + rest else rest
  }

  function HeuristicText(fields: seq<Field>): seq<string> {
    if fields == [] then []
    else
      var rest := HeuristicText(fields[1..]);
      if fields[0].name in SENSITIVE_NAMES && IsText(fields[0]) then [fields[0].name] + rest else rest
  }

  function Candidates(e: Entity, d: Domain): seq<string> {
    Unique(DeclaredText(e, Listed(d.sensitive, e.name)) + HeuristicText(e.fields))
  }

  /** The tier's defaults for one entity, overlaid with what the domain declares for it */
  function EffectivePolicy(e: Entity, d: Domain): Policy {
    var auth: Policy := if Strict(d) || d.tier == "moderate" then map["requires_auth" := Flag(true)] else map[];
    var owner: Policy := if Strict(d) && HasField(e, "user_id")
                         then map["owner_field" := Text("user_id"), "audit" := Names(["create", "update", "delete"])]
                         else map[];
    var enc: Policy := if Strict(d) && Candidates(e, d) != [] then map["encrypted_fields" := Names(Candidates(e, d))]
                       else map[];
    auth + owner + enc + (if e.name in d.routePolicies then d.routePolicies[e.name] else map[])
  }

  /** The dictionary a loop over the entities leaves: of entities with one name, the last decides. */
  function PolicyMap(entities: seq<Entity>, d: Domain): map<string, Policy> {
    if entities == [] then map[]
    else
      var last := entities[|entities| - 1];
      PolicyMap(entities[..|entities| - 1], d)[last.name := EffectivePolicy(last, d)]
  }

  method EffectivePolicies(entities: seq<Entity>, d: Domain) returns (eps: map<string, Policy>)
    ensures eps == PolicyMap(entities, d)
    ensures forall n :: n in eps <==> Named(entities, n)
    ensures forall i :: 0 <= i < |entities| && IsLast(entities, i) ==>
              entities[i].name in eps && eps[entities[i].name] == EffectivePolicy(entities[i], d)
  {
    eps := map[];
    for i := 0 to |entities|
      invariant eps == PolicyMap(entities[..i], d)
    {
      assert entities[..i + 1][..i] == entities[..i];
      eps := eps[entities[i].name := EffectivePolicy(entities[i], d)];
    }
    assert entities[..|entities|] == entities;
    PolicyNames(entities, d);
    forall i | 0 <= i < |entities| && IsLast(entities, i)
      ensures entities[i].name in eps && eps[entities[i].name] == EffectivePolicy(entities[i], d)
    {
      PolicyOfLast(entities, d, i);
    }
  }

  ghost predicate Named(entities: seq<Entity>, n: string) {
    exists e :: e in entities && e.name == n
  }

  /** No later entity has this one's name. */
  ghost predicate IsLast(entities: seq<Entity>, i: int)
    requires 0 <= i < |entities|
  {
    forall j :: i < j < |entities| ==> entities[j].name != entities[i].name
  }

  lemma NamedSplits(entities: seq<Entity>, n: string)
    requires entities != []
    ensures Named(entities, n) <==> Named(entities[..|entities| - 1], n) || entities[|entities| - 1].name == n
  {
    assert entities == entities[..|entities| - 1] + [entities[|entities| - 1]];
  }

  lemma {:induction false} PolicyNames(entities: seq<Entity>, d: Domain)
    ensures forall n :: n in PolicyMap(entities, d) <==> Named(entities, n)
    decreases |entities|
  {
    if entities == [] {
    } else {
      PolicyNames(entities[..|entities| - 1], d);
      forall n
        ensures n in PolicyMap(entities, d) <==> Named(entities, n)
      {
        NamedSplits(entities, n);
      }
    }
  }

  lemma {:induction false} PolicyOfLast(entities: seq<Entity>, d: Domain, i: nat)
    requires i < |entities|
    ensures entities[i].name in PolicyMap(entities, d)
    ensures IsLast(entities, i) ==> PolicyMap(entities, d)[entities[i].name] == EffectivePolicy(entities[i], d)
    decreases |entities|
  {
    var n := |entities| - 1;
    if i == n {
    } else {
      PolicyOfLast(entities[..n], d, i);
      if IsLast(entities, i) {
        assert entities[n].name != entities[i].name;
      }
    }
  }

  /** policy.get("encrypted_fields") or [] */
  function EncryptedNames(p: Policy): seq<string> {
    if "encrypted_fields" in p && p["encrypted_fields"].Names? then p["encrypted_fields"].names else []
  }

  // ---------------------------------------------------------------------------------
  // The gate
  // ---------------------------------------------------------------------------------

  /** A text field of the entity that nobody has decided about */
  predicate Unclassified(e: Entity, p: Policy, d: Domain, f: Field) {
    IsText(f) && f.name != "id" && f.name !in EncryptedNames(p) && f.name !in Listed(d.exempt, e.name)
  }

  function UnclassifiedNames(e: Entity, p: Policy, d: Domain, fields: seq<Field>): seq<string> {
    if fields == [] then []
    else
      var front := UnclassifiedNames(e, p, d, fields[..|fields| - 1]);
      var last := fields[|fields| - 1];
      if Unclassified(e, p, d, last) then front + [last.name] else front
  }

  lemma {:induction false} UnclassifiedMembers(e: Entity, p: Policy, d: Domain, fields: seq<Field>)
    ensures UnclassifiedNames(e, p, d, fields) == [] <==> forall f :: f in fields ==> !Unclassified(e, p, d, f)
    decreases |fields|
  {
    if fields == [] {
    } else {
      UnclassifiedMembers(e, p, d, fields[..|fields| - 1]);
      assert fields == fields[..|fields| - 1] + [fields[|fields| - 1]];
      assert fields[|fields| - 1] in fields;
    }
  }

  /** text_field_classification(): the undecided fields by entity name, under the policies given */
  function Undecided(entities: seq<Entity>, eps: map<string, Policy>, d: Domain): map<string, seq<string>> {
    if entities == [] then map[]
    else
      var last := entities[|entities| - 1];
      var p := if last.name in eps then eps[last.name] else map[];
      Undecided(entities[..|entities| - 1], eps, d)[last.name := UnclassifiedNames(last, p, d, last.fields)]
  }

  lemma {:induction false} UndecidedOfLast(entities: seq<Entity>, eps: map<string, Policy>, d: Domain, i: nat)
    requires i < |entities| && entities[i].name in eps
    ensures entities[i].name in Undecided(entities, eps, d)
    ensures IsLast(entities, i) ==> Undecided(entities, eps, d)[entities[i].name]
                                    == UnclassifiedNames(entities[i], eps[entities[i].name], d, entities[i].fields)
    decreases |entities|
  {
    var n := |entities| - 1;
    if i == n {
    } else {
      UndecidedOfLast(entities[..n], eps, d, i);
      if IsLast(entities, i) {
        assert entities[n].name != entities[i].name;
      }
    }
  }

  lemma {:induction false} UndecidedNames(entities: seq<Entity>, eps: map<string, Policy>, d: Domain, n: string)
    ensures n in Undecided(entities, eps, d) <==> Named(entities, n)
    decreases |entities|
  {
    if entities == [] {
    } else {
      UndecidedNames(entities[..|entities| - 1], eps, d, n);
      NamedSplits(entities, n);
    }
  }

  /** The undecided fields of the entities that have any, in a strict domain */
  function Fails(entities: seq<Entity>, d: Domain): map<string, seq<string>> {
    if Strict(d) then
      var all := Undecided(entities, PolicyMap(entities, d), d);
      map n | n in all && all[n] != [] :: all[n]
    else map[]
  }

  /** encryption_coverage_fails(): the entities with undecided text fields, the last of a name speaking for it */
  method CoverageFails(entities: seq<Entity>, d: Domain) returns (fails: map<string, seq<string>>)
    ensures fails == Fails(entities, d)
    ensures forall n :: n in fails ==> (d.tier == "high" || d.tier == "regulated") && Named(entities, n)
    ensures d.tier == "high" || d.tier == "regulated" ==>
              forall i :: 0 <= i < |entities| && IsLast(entities, i) ==> Reports(fails, entities[i], d)
  {
    fails := map[];
    if !Strict(d) {
      return;
    }
    var eps := EffectivePolicies(entities, d);
    var out: map<string, seq<string>> := map[];
    for i := 0 to |entities|
      invariant out == Undecided(entities[..i], eps, d)
    {
      assert entities[..i + 1][..i] == entities[..i];
      var e := entities[i];
      var p := if e.name in eps then eps[e.name] else map[];
      out := out[e.name := UnclassifiedNames(e, p, d, e.fields)];
    }
    assert entities[..|entities|] == entities;
    fails := map n | n in out && out[n] != [] :: out[n];
    FailsExactly(entities, d);
  }

  /** The entity is reported, with exactly its undecided fields, exactly when it has one. */
  ghost predicate Reports(fails: map<string, seq<string>>, e: Entity, d: Domain) {
    && (e.name in fails <==> !EntityCovered(e, d))
    && (e.name in fails ==> fails[e.name] == UnclassifiedNames(e, EffectivePolicy(e, d), d, e.fields))
  }

  lemma FailsExactly(entities: seq<Entity>, d: Domain)
    ensures forall n :: n in Fails(entities, d) ==> Strict(d) && Named(entities, n)
    ensures forall i :: 0 <= i < |entities| && IsLast(entities, i) && Strict(d) ==>
              Reports(Fails(entities, d), entities[i], d)
  {
    var eps := PolicyMap(entities, d);
    forall n | n in Fails(entities, d)
      ensures Named(entities, n)
    {
      UndecidedNames(entities, eps, d, n);
    }
    forall i | 0 <= i < |entities| && IsLast(entities, i) && Strict(d)
      ensures Reports(Fails(entities, d), entities[i], d)
    {
      PolicyOfLast(entities, d, i);
      UndecidedOfLast(entities, eps, d, i);
      UnclassifiedMembers(entities[i], EffectivePolicy(entities[i], d), d, entities[i].fields);
    }
  }

  ghost predicate EntityCovered(e: Entity, d: Domain) {
    forall f :: f in e.fields ==> !Unclassified(e, EffectivePolicy(e, d), d, f)
  }

  /** What a pass means: the last entity of each name has no undecided text field. */
  ghost predicate Covered(entities: seq<Entity>, d: Domain) {
    forall i :: 0 <= i < |entities| && IsLast(entities, i) ==> EntityCovered(entities[i], d)
  }

  lemma {:induction false} LastOfName(entities: seq<Entity>, n: string) returns (i: nat)
    requires Named(entities, n)
    ensures i < |entities| && entities[i].name == n && IsLast(entities, i)
    decreases |entities|
  {
    i := |entities| - 1;
    if entities[i].name != n {
      NamedSplits(entities, n);
      i := LastOfName(entities[..i], n);
    }
  }

  lemma NoFailsExactly(entities: seq<Entity>, d: Domain)
    requires Strict(d)
    ensures Fails(entities, d) == map[] <==> Covered(entities, d)
  {
    var fails := Fails(entities, d);
    FailsExactly(entities, d);
    forall n | n in fails
      ensures !Covered(entities, d)
    {
      var i := LastOfName(entities, n);
    }
    forall i | 0 <= i < |entities| && IsLast(entities, i) && !EntityCovered(entities[i], d)
      ensures fails != map[]
    {
      assert Reports(fails, entities[i], d);
    }
  }

  /** The coverage part of the sensitive-domain rule */
  method CheckCoverage(entities: seq<Entity>, d: Domain) returns (pass: bool)
    requires d.tier == "high" || d.tier == "regulated"
    ensures pass <==> Covered(entities, d)
  {
    var fails := CoverageFails(entities, d);
    pass := |fails| == 0;
    NoFailsExactly(entities, d);
  }

  ghost predicate DistinctNames(entities: seq<Entity>) {
    forall i, j :: 0 <= i < j < |entities| ==> entities[i].name != entities[j].name
  }

  /** With distinct names every entity speaks for itself. */
  lemma DistinctAreAllCovered(entities: seq<Entity>, d: Domain)
    requires DistinctNames(entities)
    ensures Covered(entities, d) <==> forall e :: e in entities ==> EntityCovered(e, d)
  {
    assert forall i :: 0 <= i < |entities| ==> IsLast(entities, i);
  }

  // ---------------------------------------------------------------------------------
  // The columns
  // ---------------------------------------------------------------------------------

  datatype Column =
    | PrimaryKey
    | StatusColumn
    | Timestamp
    | EncryptedColumn
    | Reference
    | PlainColumn(kind: FieldType)

  predicate EndsWith(s: string, suffix: string) {
    |suffix| <= |s| && s[|s| - |suffix|..] == suffix
  }

  /** The fields gen_models encrypts: the policy's; with no policy at all and `safe`, the suspicious names */
  function EncFields(p: Policy, safe: bool): seq<string> {
    if EncryptedNames(p) != [] then EncryptedNames(p)
    else if p == map[] && safe then SENSITIVE_NAMES
    else []
  }

  /** The column gen_models emits for a field */
  function ColumnOf(e: Entity, p: Policy, safe: bool, f: Field): Column {
    if f.name == "id" then PrimaryKey
    else if e.status == Some(f.name) then StatusColumn
    else if f.name == "created_at" || f.name == "updated_at" then Timestamp
    else if f.name in EncFields(p, safe) && IsText(f) then EncryptedColumn
    else if EndsWith(f.name, "_id") then Reference
    else PlainColumn(f.kind)
  }

  /** A column is encrypted exactly for a text field that is no key, status or timestamp and is on the policy's list
      or, for lack of any policy in a safe application, has a suspicious name. */
  lemma EncryptedColumnExactly(e: Entity, p: Policy, safe: bool, f: Field)
    ensures ColumnOf(e, p, safe, f) == EncryptedColumn <==>
      && (f.kind == StrType || f.kind == TextType)
      && f.name != "id" && e.status != Some(f.name) && f.name != "created_at" && f.name != "updated_at"
      && if "encrypted_fields" in p && p["encrypted_fields"].Names? && p["encrypted_fields"].names != []
         then f.name in p["encrypted_fields"].names
         else p == map[] && safe
              && f.name in ["body", "notes", "content", "relapse_notes", "message", "journal", "entry"]
    ensures ColumnOf(e, p, safe, f) == Reference ==>
      && var n := |f.name|; n >= 3 && f.name[n - 3] == '_' && f.name[n - 2] == 'i' && f.name[n - 1] == 'd'
  {
  }

  predicate PlainText(c: Column) {
    c.PlainColumn? && (c.kind == StrType || c.kind == TextType)
  }

  /** The field is the key, is encrypted, is exempt, or has its name on the encrypted list without a column
      to encrypt. */
  predicate FieldProtected(e: Entity, p: Policy, safe: bool, d: Domain, f: Field) {
    var c := ColumnOf(e, p, safe, f);
    || c.PrimaryKey? || c.EncryptedColumn? || f.name in Listed(d.exempt, e.name)
    || ((c.StatusColumn? || c.Timestamp?) && f.name in EncryptedNames(p))
  }

  ghost predicate Protected(e: Entity, p: Policy, safe: bool, d: Domain) {
    forall f :: f in e.fields && IsText(f) ==> FieldProtected(e, p, safe, d, f)
  }

  lemma StrictPolicyIsNotEmpty(e: Entity, d: Domain)
    requires Strict(d)
    ensures EffectivePolicy(e, d) != map[]
  {
    assert "requires_auth" in EffectivePolicy(e, d);
  }

  lemma ClassifiedIsProtected(e: Entity, p: Policy, safe: bool, d: Domain, f: Field)
    requires p != map[] && IsText(f)
    ensures !Unclassified(e, p, d, f) <==> FieldProtected(e, p, safe, d, f)
  {
    assert EncFields(p, safe) == EncryptedNames(p);
  }

  lemma CoveredIsProtected(e: Entity, safe: bool, d: Domain)
    requires Strict(d)
    ensures EntityCovered(e, d) <==> Protected(e, EffectivePolicy(e, d), safe, d)
  {
    var p := EffectivePolicy(e, d);
    StrictPolicyIsNotEmpty(e, d);
    forall f | f in e.fields
      ensures Unclassified(e, p, d, f) ==> IsText(f)
      ensures IsText(f) ==> (!Unclassified(e, p, d, f) <==> FieldProtected(e, p, safe, d, f))
    {
      if IsText(f) {
        ClassifiedIsProtected(e, p, safe, d, f);
      }
    }
  }

  /** From the gate to the generator. The gate reports nothing about a strict domain with distinct entity names
      exactly when, in what the generator emits from the very policies it is handed, every text column is
      encrypted or exempt, or is a status column or a timestamp with its name on the encrypted list. */
  lemma NoSilentPlaintext(entities: seq<Entity>, d: Domain, safe: bool)
    requires d.tier == "high" || d.tier == "regulated"
    requires DistinctNames(entities)
    ensures forall e :: e in entities ==> e.name in PolicyMap(entities, d)
    ensures Fails(entities, d) == map[] <==>
            forall e :: e in entities ==> Protected(e, PolicyMap(entities, d)[e.name], safe, d)
  {
    NoFailsExactly(entities, d);
    DistinctAreAllCovered(entities, d);
    forall e | e in entities
      ensures e.name in PolicyMap(entities, d)
      ensures EntityCovered(e, d) <==> Protected(e, PolicyMap(entities, d)[e.name], safe, d)
    {
      var i :| 0 <= i < |entities| && entities[i] == e;
      PolicyOfLast(entities, d, i);
      CoveredIsProtected(e, safe, d);
    }
  }

  /** A field the domain calls sensitive, or one with a suspicious name, is encrypted by default in a strict domain. */
  lemma {:induction false} SensitiveByDefault(e: Entity, d: Domain, f: Field)
    requires d.tier == "high" || d.tier == "regulated"
    requires e.name !in d.routePolicies && f in e.fields && IsText(f)
    requires || (f.name in Listed(d.sensitive, e.name) && FieldOf(e.fields, f.name) == Some(f))
             || f.name in SENSITIVE_NAMES
    ensures f.name in EncryptedNames(EffectivePolicy(e, d))
  {
    var declared, heuristic := DeclaredText(e, Listed(d.sensitive, e.name)), HeuristicText(e.fields);
    if f.name in Listed(d.sensitive, e.name) && FieldOf(e.fields, f.name) == Some(f) {
      DeclaredExactly(e, Listed(d.sensitive, e.name), f.name);
    } else {
      HeuristicExactly(e.fields, f.name);
    }
    assert f.name in declared + heuristic;
    UniqueMembers(declared + heuristic, f.name);
  }

  lemma {:induction false} UniqueMembers(s: seq<string>, x: string)
    ensures x in Unique(s) <==> x in s
    decreases |s|
  {
    if s == [] {
    } else {
      UniqueMembers(s[..|s| - 1], x);
      assert s == s[..|s| - 1] + [s[|s| - 1]];
    }
  }

  // ---------------------------------------------------------------------------------
  // The gate in plain terms
  // ---------------------------------------------------------------------------------

  /** The gate speaks in the tiers "high" and "regulated" and in no other. There an entity is reported exactly when
      it has a text field that is not its id, not on the encrypted list of its policy and not exempt. */
  lemma GateExactly(entities: seq<Entity>, d: Domain, e: Entity)
    requires e in entities && forall i, j :: 0 <= i < j < |entities| ==> entities[i].name != entities[j].name
    ensures d.tier != "high" && d.tier != "regulated" ==> Fails(entities, d) == map[]
    ensures d.tier == "high" || d.tier == "regulated" ==>
              var p := EffectivePolicy(e, d);
              (e.name in Fails(entities, d) <==>
                exists f :: f in e.fields && (f.kind == StrType || f.kind == TextType) && f.name != "id"
                            && !("encrypted_fields" in p && p["encrypted_fields"].Names?
                                 && f.name in p["encrypted_fields"].names)
                            && !(e.name in d.exempt && f.name in d.exempt[e.name]))
  {
    if Strict(d) {
      var i :| 0 <= i < |entities| && entities[i] == e;
      FailsExactly(entities, d);
      assert IsLast(entities, i);
      assert Reports(Fails(entities, d), e, d);
    }
  }

  /** The policy an entity gets: what the domain declares for it, else the tier's. "high" and "regulated" ask for
      authentication, for an owner and its audit where the entity has a `user_id`, and for encryption where
      it has anything to encrypt; "moderate" asks for authentication. */
  lemma PolicyExactly(e: Entity, d: Domain, key: string)
    ensures var p, strict := EffectivePolicy(e, d), d.tier == "high" || d.tier == "regulated";
      if e.name in d.routePolicies && key in d.routePolicies[e.name] then
        key in p && p[key] == d.routePolicies[e.name][key]
      else if key == "requires_auth" then
        if strict || d.tier == "moderate" then key in p && p[key] == Flag(true) else key !in p
      else if key == "owner_field" then
        if strict && exists f :: f in e.fields && f.name == "user_id" then key in p && p[key] == Text("user_id")
        else key !in p
      else if key == "audit" then
        if strict && exists f :: f in e.fields && f.name == "user_id"
        then key in p && p[key] == Names(["create", "update", "delete"])
        else key !in p
      else
        key in p ==> strict && key == "encrypted_fields" && p[key].Names? && p[key].names != []
  {
  }

  /** What is encrypted by default, under the tiers "high" and "regulated": the names the domain calls sensitive,
      where the last field of the name is text, and the text fields with one of seven suspicious names. */
  lemma EncryptedExactly(e: Entity, d: Domain, name: string)
    requires d.tier == "high" || d.tier == "regulated"
    requires e.name in d.routePolicies ==> "encrypted_fields" !in d.routePolicies[e.name]
    ensures var p := EffectivePolicy(e, d);
      ("encrypted_fields" in p && p["encrypted_fields"].Names? && name in p["encrypted_fields"].names) <==>
        || (e.name in d.sensitive && name in d.sensitive[e.name]
            && exists i :: 0 <= i < |e.fields| && e.fields[i].name == name
                           && (e.fields[i].kind == StrType || e.fields[i].kind == TextType)
                           && forall j :: i < j < |e.fields| ==> e.fields[j].name != name)
        || (name in ["body", "notes", "content", "relapse_notes", "message", "journal", "entry"]
            && exists f :: f in e.fields && f.name == name && (f.kind == StrType || f.kind == TextType))
  {
    var declared, heuristic := DeclaredText(e, Listed(d.sensitive, e.name)), HeuristicText(e.fields);
    UniqueMembers(declared + heuristic, name);
    DeclaredExactly(e, Listed(d.sensitive, e.name), name);
    var last := FieldOfExactly(e.fields, name);
    HeuristicExactly(e.fields, name);
    assert name in declared + heuristic <==> name in declared || name in heuristic;
    assert Candidates(e, d) == Unique(declared + heuristic);
  }

  lemma {:induction false} FieldOfExactly(fields: seq<Field>, name: string) returns (last: int)
    ensures -1 <= last < |fields| && forall j :: last < j < |fields| ==> fields[j].name != name
    ensures if last < 0 then FieldOf(fields, name) == None
            else fields[last].name == name && FieldOf(fields, name) == Some(fields[last])
    decreases |fields|
  {
    last := |fields| - 1;
    if fields != [] && fields[last].name != name {
      last := FieldOfExactly(fields[..last], name);
    }
  }

  lemma {:induction false} DeclaredExactly(e: Entity, names: seq<string>, name: string)
    ensures name in DeclaredText(e, names) <==>
              name in names && FieldOf(e.fields, name).Some? && IsText(FieldOf(e.fields, name).value)
    decreases |names|
  {
    if names == [] {
    } else {
      DeclaredExactly(e, names[1..], name);
    }
  }

  lemma {:induction false} HeuristicExactly(fields: seq<Field>, name: string)
    ensures name in HeuristicText(fields) <==>
              name in SENSITIVE_NAMES && exists f :: f in fields && f.name == name && IsText(f)
    decreases |fields|
  {
    if fields == [] {
    } else {
      HeuristicExactly(fields[1..], name);
      assert forall f :: f in fields <==> f == fields[0] || f in fields[1..];
    }
  }

  // ---------------------------------------------------------------------------------
  // Where entity names become distinct
  // ---------------------------------------------------------------------------------

  /** ent_by_name[e["name"]] = e: a dictionary keeps the place of the first and the value of the last. */
  function Put(entities: seq<Entity>, e: Entity): seq<Entity> {
    if entities == [] then [e]
    else if entities[0].name == e.name then [e] + entities[1..]
    else [entities[0]] + Put(entities[1..], e)
  }

  lemma DistinctCons(x: Entity, rest: seq<Entity>)
    ensures DistinctNames([x] + rest) <==> DistinctNames(rest) && forall y :: y in rest ==> y.name != x.name
  {
    var all := [x] + rest;
    if DistinctNames(all) {
      assert forall i :: 0 <= i < |rest| ==> all[i + 1] == rest[i];
      assert forall i :: 1 <= i < |all| ==> all[i].name != all[0].name;
    } else {
      assert forall i :: 1 <= i < |all| ==> all[i] == rest[i - 1];
    }
  }

  lemma {:induction false} PutReplaces(entities: seq<Entity>, e: Entity)
    requires DistinctNames(entities)
    ensures DistinctNames(Put(entities, e))
    ensures forall x :: x in Put(entities, e) <==> x == e || (x in entities && x.name != e.name)
    decreases |entities|
  {
    if entities == [] {
    } else {
      var first, rest := entities[0], entities[1..];
      assert entities == [first] + rest;
      DistinctCons(first, rest);
      if first.name == e.name {
        DistinctCons(e, rest);
      } else {
        PutReplaces(rest, e);
        DistinctCons(first, Put(rest, e));
      }
    }
  }

  function NamesOf(entities: seq<Entity>): seq<string> {
    if entities == [] then [] else [entities[0].name] + NamesOf(entities[1..])
  }

  lemma {:induction false} NamesOfAppend(entities: seq<Entity>, e: Entity)
    ensures NamesOf(entities + [e]) == NamesOf(entities) + [e.name]
    decreases |entities|
  {
    if entities == [] {
    } else {
      assert (entities + [e])[1..] == entities[1..] + [e];
      NamesOfAppend(entities[1..], e);
    }
  }

  /** Each name keeps the place where it first came up. */
  lemma {:induction false} PutKeepsPlaces(entities: seq<Entity>, e: Entity)
    ensures NamesOf(Put(entities, e))
            == if e.name in NamesOf(entities) then NamesOf(entities) else NamesOf(entities) + [e.name]
    decreases |entities|
  {
    if entities == [] {
    } else {
      PutKeepsPlaces(entities[1..], e);
    }
  }

  lemma PutIsUnique(entities: seq<Entity>, all: seq<Entity>, e: Entity)
    requires NamesOf(entities) == Unique(NamesOf(all))
    ensures NamesOf(Put(entities, e)) == Unique(NamesOf(all + [e]))
  {
    var names := NamesOf(all);
    PutKeepsPlaces(entities, e);
    NamesOfAppend(all, e);
    assert (names + [e.name])[..|names|] == names;
  }

  /** Every entity of a domain and its ancestors, base first */
  function AllOf(chain: seq<seq<Entity>>): seq<Entity> {
    if chain == [] then [] else AllOf(chain[..|chain| - 1]) + chain[|chain| - 1]
  }

  ghost predicate LastOnes(entities: seq<Entity>, all: seq<Entity>) {
    && DistinctNames(entities)
    && (forall e :: e in entities <==> exists i :: 0 <= i < |all| && all[i] == e && IsLast(all, i))
  }

  lemma PutKeepsLastOnes(entities: seq<Entity>, all: seq<Entity>, e: Entity)
    requires LastOnes(entities, all)
    ensures LastOnes(Put(entities, e), all + [e])
  {
    PutReplaces(entities, e);
    var more := all + [e];
    forall x
      ensures (exists i :: 0 <= i < |more| && more[i] == x && IsLast(more, i)) <==>
              x == e || (x.name != e.name && exists i :: 0 <= i < |all| && all[i] == x && IsLast(all, i))
    {
      LastInMore(all, e, x);
    }
  }

  lemma LastInMore(all: seq<Entity>, e: Entity, x: Entity)
    ensures (exists i :: 0 <= i < |all + [e]| && (all + [e])[i] == x && IsLast(all + [e], i)) <==>
            x == e || (x.name != e.name && exists i :: 0 <= i < |all| && all[i] == x && IsLast(all, i))
  {
    var more := all + [e];
    assert more[|all|] == e && IsLast(more, |all|);
    if i :| 0 <= i < |all| && all[i] == x && IsLast(all, i) && x.name != e.name {
      assert more[i] == x && IsLast(more, i);
    }
    if i :| 0 <= i < |more| && more[i] == x && IsLast(more, i) && x != e {
      assert more[|all|].name != more[i].name;
      assert forall j :: i < j < |all| ==> more[j] == all[j];
      assert IsLast(all, i);
    }
  }

  ghost predicate Merged(entities: seq<Entity>, all: seq<Entity>) {
    LastOnes(entities, all) && NamesOf(entities) == Unique(NamesOf(all))
  }

  lemma PutMerges(entities: seq<Entity>, done: seq<Entity>, more: seq<Entity>, j: nat)
    requires j < |more| && Merged(entities, done + more[..j])
    ensures Merged(Put(entities, more[j]), done + more[..j + 1])
  {
    PutKeepsLastOnes(entities, done + more[..j], more[j]);
    PutIsUnique(entities, done + more[..j], more[j]);
    assert done + more[..j] + [more[j]] == done + more[..j + 1];
  }

  /** load_domain(): entities merge by name along the chain of extended domains, base first. What the tools get
      has distinct names, in the order they first came up, and is the last entity of each. */
  method LoadEntities(chain: seq<seq<Entity>>) returns (entities: seq<Entity>)
    ensures Merged(entities, AllOf(chain))
  {
    entities := [];
    for i := 0 to |chain|
      invariant Merged(entities, AllOf(chain[..i]))
    {
      ghost var done := AllOf(chain[..i]);
      assert done + chain[i][..0] == done;
      for j := 0 to |chain[i]|
        invariant Merged(entities, done + chain[i][..j])
      {
        PutMerges(entities, done, chain[i], j);
        entities := Put(entities, chain[i][j]);
      }
      assert chain[i][..|chain[i]|] == chain[i] && chain[..i + 1][..i] == chain[..i];
    }
    assert chain[..|chain|] == chain;
  }

  // ---------------------------------------------------------------------------------
  // A list the tools never pass
  // ---------------------------------------------------------------------------------

  lemma NothingToEncrypt(e: Entity, d: Domain)
    requires e.fields == [] && d.routePolicies == map[]
    ensures EncryptedNames(EffectivePolicy(e, d)) == []
  {
    DeclaredNone(e, Listed(d.sensitive, e.name));
    assert Candidates(e, d) == Unique([]);
  }

  lemma {:induction false} DeclaredNone(e: Entity, names: seq<string>)
    requires e.fields == []
    ensures DeclaredText(e, names) == []
    decreases |names|
  {
    if names == [] {
    } else {
      DeclaredNone(e, names[1..]);
    }
  }

  /** Called directly with two entities of one name, the gate sees the second only, and a text column of the
      first slips through. */
  lemma DuplicateNamesHideAField(d: Domain, name: string, f: Field)
    requires d.routePolicies == map[] && IsText(f) && f.name == "ssn"
    ensures var first, second := Entity(name, [f], None), Entity(name, [], None);
            var eps := PolicyMap([first, second], d);
            && Fails([first, second], d) == map[]
            && PlainText(ColumnOf(first, eps[name], false, f))
  {
    var first, second := Entity(name, [f], None), Entity(name, [], None);
    var both := [first, second];
    var eps := PolicyMap(both, d);
    assert IsLast(both, 1) && both[1] == second && both[0] == first;
    PolicyOfLast(both, d, 1);
    UndecidedOfLast(both, eps, d, 1);
    NothingToEncrypt(second, d);
    forall n | n in Undecided(both, eps, d)
      ensures n == name
    {
      UndecidedNames(both, eps, d, n);
    }
    assert f.name[|f.name| - 3..][0] != "_id"[0];
  }
}
