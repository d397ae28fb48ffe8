/**
 * AccountsTable's validation (validationDefault) and application rules
 * (buildRules), over request data given as a map from field name to value.
 */
module Validation {
  import opened Wrappers
  import opened Values
  import opened Store

  type Data = map<string, Value>

  /** A validation rule of the validator. */
  datatype Rule = IsBoolean | IsScalar | MaxLength(max: nat) | IsDateTime

  /** Why a field is rejected. */
  datatype Failure = Required | Empty | Broke(rule: Rule)

  /** The rules of one field: presence on create, whether empty is allowed, the rules in order. */
  datatype FieldRules = FieldRules(field: string, requiredOnCreate: bool, allowEmpty: bool, rules: seq<Rule>)

  /** The values the validator's `boolean` rule accepts. */
  const BooleanValues: set<Value> := {Bool(true), Bool(false), Int(0), Int(1), Str("0"), Str("1")}

  /** Whether value `v` passes rule `rule`. */
  predicate Passes(rule: Rule, v: Value)
  {
    match rule
    case IsBoolean => v in BooleanValues
    case IsScalar => Scalar(v)
    case MaxLength(max) => Scalar(v) && |Text(v)| <= max
    case IsDateTime => v.Time?
  }

  /** A value the validator treats as empty: null or the empty string. */
  predicate IsEmpty(v: Value)
  {
    v == Null || v == Str("")
  }

  /** The failures of `rules` on `v`, in rule order. */
  function Broken(rules: seq<Rule>, v: Value): (fs: seq<Failure>)
    ensures fs == [] <==> forall i :: 0 <= i < |rules| ==> Passes(rules[i], v)
    ensures forall f :: f in fs ==> f.Broke? && f.rule in rules && !Passes(f.rule, v)
    ensures forall i :: 0 <= i < |rules| && !Passes(rules[i], v) ==> Broke(rules[i]) in fs
  {
    if rules == [] then []
    else
      var rest := Broken(rules[1..], v);
      assert forall i :: 1 <= i < |rules| ==> rules[i] == rules[1..][i - 1];
      if Passes(rules[0], v) then rest else [Broke(rules[0])] + rest
  }

  /**
   * The failures of one field: absent is fine unless required on create;
   * empty is fine when allowed and then skips the rules; otherwise each
   * rule is applied.
   */
  function FieldFailures(spec: FieldRules, data: Data, isCreate: bool): seq<Failure>
  {
    if spec.field !in data then (if spec.requiredOnCreate && isCreate then [Required] else [])
    else if IsEmpty(data[spec.field]) then (if spec.allowEmpty then [] else [Empty])
    else Broken(spec.rules, data[spec.field])
  }

  /** No other field spec names the same field as `specs[i]`. */
  predicate UniqueField(specs: seq<FieldRules>, i: nat)
    requires i < |specs|
  {
    forall j :: 0 <= j < |specs| && j != i ==> specs[j].field != specs[i].field
  }

  /** The validator's error map: each field with at least one failure. */
  function Errors(specs: seq<FieldRules>, data: Data, isCreate: bool): (errors: map<string, seq<Failure>>)
    ensures forall f :: f in errors ==> errors[f] != []
    ensures forall i :: 0 <= i < |specs| && FieldFailures(specs[i], data, isCreate) != [] ==> specs[i].field in errors
    ensures forall f :: f in errors ==> exists i :: 0 <= i < |specs| && specs[i].field == f && FieldFailures(specs[i], data, isCreate) != []
    ensures forall i :: 0 <= i < |specs| && UniqueField(specs, i) && FieldFailures(specs[i], data, isCreate) != [] ==>
      errors[specs[i].field] == FieldFailures(specs[i], data, isCreate)
  {
    if specs == [] then map[]
    else
      var rest := Errors(specs[1..], data, isCreate);
      var own := FieldFailures(specs[0], data, isCreate);
      assert forall i :: 1 <= i < |specs| ==> specs[i] == specs[1..][i - 1];
      if own == [] then rest else rest[specs[0].field := own]
  }

  /** AccountsTable::validationDefault. */
  const AccountRules: seq<FieldRules> := [
    FieldRules("is_active", false, false, [IsBoolean]),
    FieldRules("name", true, false, [IsScalar, MaxLength(255)]),
    FieldRules("accessed", false, true, [IsDateTime])
  ]

  /** `is_active`, when given, is one of the boolean values. */
  predicate ActiveAcceptable(data: Data)
  {
    "is_active" in data ==> data["is_active"] in BooleanValues
  }

  /** `name` is present on create; when given it is a non-empty scalar of at most 255 characters. */
  predicate NameAcceptable(data: Data, isCreate: bool)
  {
    if "name" in data then
      var v := data["name"];
      !IsEmpty(v) && Scalar(v) && |Text(v)| <= 255
    else !isCreate
  }

  /** `accessed`, when given, is empty or a date-time. */
  predicate AccessedAcceptable(data: Data)
  {
    "accessed" in data ==> IsEmpty(data["accessed"]) || data["accessed"].Time?
  }

  /** The validator finds no error exactly when no field has a failure. */
  lemma NoErrorsIffNoFailures(specs: seq<FieldRules>, data: Data, isCreate: bool)
    ensures Errors(specs, data, isCreate) == map[] <==>
      forall i :: 0 <= i < |specs| ==> FieldFailures(specs[i], data, isCreate) == []
  {
  }

  lemma ActiveRules(data: Data, isCreate: bool)
    ensures FieldFailures(AccountRules[0], data, isCreate) == [] <==> ActiveAcceptable(data)
  {
  }

  lemma NameRules(data: Data, isCreate: bool)
    ensures FieldFailures(AccountRules[1], data, isCreate) == [] <==> NameAcceptable(data, isCreate)
  {
    var rules := AccountRules[1].rules;
    assert rules == [IsScalar, MaxLength(255)];
    if "name" in data && !IsEmpty(data["name"]) {
      var v := data["name"];
      assert Broken(rules, v) == [] <==> Passes(rules[0], v) && Passes(rules[1], v);
    }
  }

  lemma AccessedRules(data: Data, isCreate: bool)
    ensures FieldFailures(AccountRules[2], data, isCreate) == [] <==> AccessedAcceptable(data)
  {
  }

  /** The account rules accept the data exactly when each of the three fields is acceptable. */
  lemma AccountDataValid(data: Data, isCreate: bool)
    ensures Errors(AccountRules, data, isCreate) == map[] <==>
      ActiveAcceptable(data) && NameAcceptable(data, isCreate) && AccessedAcceptable(data)
  {
    NoErrorsIffNoFailures(AccountRules, data, isCreate);
    ActiveRules(data, isCreate);
    NameRules(data, isCreate);
    AccessedRules(data, isCreate);
    assert |AccountRules| == 3;
  }

  /** Creating an account without a name is always rejected, whatever else is sent. */
  lemma NameRequiredOnCreate(data: Data)
    requires "name" !in data
    ensures "name" in Errors(AccountRules, data, true)
    ensures Errors(AccountRules, data, true)["name"] == [Required]
  {
  }

  /** The BoolType conversion of an accepted `is_active` value. */
  function AsBool(v: Value): bool
  {
    v == Bool(true) || v == Int(1) || v == Str("1")
  }

  /**
   * The account that `patchEntity` builds from accepted data, stored under
   * `id`: `is_active` defaults to true (the column default), `name` is the
   * string form of the value, an empty `accessed` is NULL.
   */
  function NewAccount(data: Data, id: AccountId): (a: Account)
    requires Errors(AccountRules, data, true) == map[]
    ensures a.id == id
    ensures "name" in data && Scalar(data["name"]) && a.name == Text(data["name"])
    ensures |a.name| <= 255
    ensures a.isActive <==> "is_active" !in data || data["is_active"] in {Bool(true), Int(1), Str("1")}
    ensures a.accessed.Some? <==> "accessed" in data && data["accessed"].Time?
    ensures a.accessed.Some? ==> a.accessed.value == data["accessed"].t
  {
    AccountDataValid(data, true);
    Account(
      id,
      if "is_active" in data then AsBool(data["is_active"]) else true,
      Text(data["name"]),
      if "accessed" in data && data["accessed"].Time? then Some(data["accessed"].t) else None)
  }

  /**
   * The `isUnique(['id'])` rule of buildRules: a null id passes (NULLs may
   * repeat), an update never clashes with its own row, and a new id must
   * not be stored yet.
   */
  function IdIsUnique(rows: map<AccountId, Account>, id: Option<AccountId>, isNew: bool): bool
  {
    id.None? || !isNew || id.value !in rows
  }

  /**
   * The id rule accepts a new account exactly when storing it adds a row
   * instead of overwriting one. An accepted insert, with its memberships,
   * keeps every stored account and keeps the store consistent.
   */
  lemma IdRuleGuardsInsert(rows: map<AccountId, Account>, members: set<Membership>, a: Account, users: seq<UserId>)
    requires Consistent(rows, members)
    ensures IdIsUnique(rows, Some(a.id), true) <==> |rows[a.id := a].Keys| == |rows.Keys| + 1
    ensures IdIsUnique(rows, Some(a.id), true) ==>
      && (forall id :: id in rows ==> rows[a.id := a][id] == rows[id])
      && Consistent(rows[a.id := a], members + set u | u in users :: Membership(a.id, u))
  {
    var after := rows[a.id := a];
    if a.id in rows {
      assert after.Keys == rows.Keys;
    } else {
      assert after.Keys == rows.Keys + {a.id};
    }
  }
}
