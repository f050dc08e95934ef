/**
 * The application's own form validation: the project form's two
 * cross-field rules and the uniqueness checks of the registration,
 * supplier and contract-type forms.
 *
 * The library's field validators (required, e-mail syntax, length,
 * confirmation match, number parsing, choice membership) are one boolean,
 * `baseValid`, that the caller supplies. The uniqueness checks read the
 * existing rows, which are passed in as sequences in query order.
 */
module Forms {
  import opened Wrappers
  import opened Models
  import opened Locations
  import opened NetworkType

  /** The outcome of a validator that raises a validation error on failure. */
  datatype Check = Pass | Fail(message: string)

  const UsernameTaken := "Esse nome de utilizador já existe. Por favor, escolha um diferente."
  const EmailTaken := "Esse email já existe. Por favor, escolha um diferente."
  const SupplierNameTaken := "Este nome de fornecedor já existe. Por favor, escolha um diferente."
  const ContractTypeNameTaken := "Este nome de tipo de contrato já existe. Por favor, escolha um diferente."
  const MvLevelRequired := "O nível de tensão de Média Tensão é obrigatório quando este tipo de rede é selecionado."
  const LvTypeRequired := "O tipo de rede de Baixa Tensão é obrigatório quando este tipo de rede é selecionado."

  // ---------------------------------------------------------------------
  // Queries

  /** `filter(name == key).first()`: the position of the first row whose name is `key`. */
  function FirstMatch(names: seq<string>, key: string): (r: Option<nat>)
    ensures r.None? <==> forall i :: 0 <= i < |names| ==> names[i] != key
    ensures r.Some? ==> r.value < |names| && names[r.value] == key
    ensures r.Some? ==> forall j :: 0 <= j < r.value ==> names[j] != key
  {
    if |names| == 0 then None
    else if names[0] == key then Some(0)
    else
      match FirstMatch(names[1..], key)
      case None => None
      case Some(i) => Some(i + 1)
  }

  /** An ASCII capital letter, the only characters SQLite's `lower()` changes. */
  predicate IsUpper(c: char) {
    'A' <= c <= 'Z'
  }

  /** `c` and `d` are the same ASCII letter, `c` the capital and `d` the small one. */
  predicate UpperOf(c: char, d: char) {
    IsUpper(c) && d as int == c as int + ('a' as int - 'A' as int)
  }

  /**
   * SQL `lower()` as SQLite computes it: the result has no capital letter,
   * every capital becomes its small letter and every other character stays.
   */
  function AsciiLower(s: string): (r: string)
    ensures |r| == |s|
    ensures forall i :: 0 <= i < |r| ==> !IsUpper(r[i])
    ensures forall i :: 0 <= i < |s| ==> (r[i] == s[i] || UpperOf(s[i], r[i]))
    ensures forall i :: 0 <= i < |s| && IsUpper(s[i]) ==> 'a' <= r[i] <= 'z'
  {
    seq(|s|, i requires 0 <= i < |s| => if IsUpper(s[i]) then (s[i] as int + 32) as char else s[i])
  }

  /** Lowering twice is lowering once. */
  lemma AsciiLowerIdempotent(s: string)
    ensures AsciiLower(AsciiLower(s)) == AsciiLower(s)
  {
  }

  /** Two names are the same ignoring (ASCII) case. */
  predicate SameIgnoringCase(a: string, b: string) {
    AsciiLower(a) == AsciiLower(b)
  }

  /**
   * Two names are the same ignoring case exactly when they have the same
   * length and, position by position, the same character or the same ASCII
   * letter in the other case.
   */
  lemma SameIgnoringCaseCharwise(a: string, b: string)
    ensures SameIgnoringCase(a, b) <==>
      |a| == |b| && forall i :: 0 <= i < |a| ==> a[i] == b[i] || UpperOf(a[i], b[i]) || UpperOf(b[i], a[i])
  {
    if |a| == |b| && forall i :: 0 <= i < |a| ==> a[i] == b[i] || UpperOf(a[i], b[i]) || UpperOf(b[i], a[i]) {
      forall i | 0 <= i < |a| ensures AsciiLower(a)[i] == AsciiLower(b)[i] {
      }
    }
    if SameIgnoringCase(a, b) {
      forall i | 0 <= i < |a| ensures a[i] == b[i] || UpperOf(a[i], b[i]) || UpperOf(b[i], a[i]) {
        assert AsciiLower(a)[i] == AsciiLower(b)[i];
      }
    }
  }

  // ---------------------------------------------------------------------
  // Registration form

  function Usernames(users: seq<User>): seq<string> {
    seq(|users|, i requires 0 <= i < |users| => users[i].username)
  }

  function Emails(users: seq<User>): seq<string> {
    seq(|users|, i requires 0 <= i < |users| => users[i].email)
  }

  /** `RegistrationForm.validate_username`: fails exactly when some user has that very username. */
  function ValidateUsername(users: seq<User>, username: string): (r: Check)
    ensures r.Fail? <==> exists i :: 0 <= i < |users| && users[i].username == username
    ensures r.Fail? ==> r.message == UsernameTaken
  {
    var found := FirstMatch(Usernames(users), username);
    assert forall i :: 0 <= i < |users| ==> Usernames(users)[i] == users[i].username;
    assert found.Some? ==> users[found.value].username == username;
    if found.Some? then Fail(UsernameTaken) else Pass
  }

  /** `RegistrationForm.validate_email`: fails exactly when some user has that very e-mail. */
  function ValidateEmail(users: seq<User>, email: string): (r: Check)
    ensures r.Fail? <==> exists i :: 0 <= i < |users| && users[i].email == email
    ensures r.Fail? ==> r.message == EmailTaken
  {
    var found := FirstMatch(Emails(users), email);
    assert forall i :: 0 <= i < |users| ==> Emails(users)[i] == users[i].email;
    assert found.Some? ==> users[found.value].email == email;
    if found.Some? then Fail(EmailTaken) else Pass
  }

  /** The registration form passes when the library checks pass and both names are free. */
  predicate RegistrationValid(baseValid: bool, users: seq<User>, username: string, email: string) {
    baseValid && ValidateUsername(users, username).Pass? && ValidateEmail(users, email).Pass?
  }

  // ---------------------------------------------------------------------
  // Supplier and contract-type forms

  /** The (id, name) of a row whose name must be unique ignoring case. */
  datatype NamedRow = NamedRow(id: nat, name: string)

  function LowerNames(rows: seq<NamedRow>): seq<string> {
    seq(|rows|, i requires 0 <= i < |rows| => AsciiLower(rows[i].name))
  }

  /**
   * The shared rule of both `validate_name` methods: look up the first row
   * whose name equals `name` ignoring case; no such row, or that row being
   * the record under edit (same id), passes; otherwise fail with `message`.
   */
  function CheckUniqueName(rows: seq<NamedRow>, name: string, editingId: Option<nat>, message: string): (r: Check)
    ensures (forall i :: 0 <= i < |rows| ==> !SameIgnoringCase(rows[i].name, name)) ==> r == Pass
    ensures editingId.None? ==> (r.Fail? <==> exists i :: 0 <= i < |rows| && SameIgnoringCase(rows[i].name, name))
    ensures r.Fail? ==> r.message == message
    ensures r.Fail? ==> exists i :: 0 <= i < |rows| && SameIgnoringCase(rows[i].name, name) && editingId != Some(rows[i].id)
    ensures r.Pass? ==> forall i :: 0 <= i < |rows| && SameIgnoringCase(rows[i].name, name) ==>
      exists k :: 0 <= k <= i && SameIgnoringCase(rows[k].name, name) && editingId == Some(rows[k].id)
    ensures r.Fail? <==>
      exists i :: (0 <= i < |rows| && SameIgnoringCase(rows[i].name, name) &&
                   (forall j :: 0 <= j < i ==> !SameIgnoringCase(rows[j].name, name)) &&
                   editingId != Some(rows[i].id))
  {
    var lowered := LowerNames(rows);
    assert forall i :: 0 <= i < |rows| ==> lowered[i] == AsciiLower(rows[i].name);
    match FirstMatch(lowered, AsciiLower(name))
    case None => Pass
    case Some(i) =>
      assert lowered[i] == AsciiLower(rows[i].name);
      if editingId == Some(rows[i].id) then Pass else Fail(message)
  }

  /** Names are pairwise different ignoring case (what the check maintains). */
  predicate CaseInsensitivelyUnique(rows: seq<NamedRow>) {
    forall i, j :: 0 <= i < j < |rows| ==> !SameIgnoringCase(rows[i].name, rows[j].name)
  }

  /**
   * Among rows whose names are already unique ignoring case, a name is
   * rejected exactly when a row other than the one under edit has it.
   */
  lemma CheckUniqueNameExact(rows: seq<NamedRow>, name: string, editingId: Option<nat>, message: string)
    requires CaseInsensitivelyUnique(rows)
    ensures CheckUniqueName(rows, name, editingId, message).Fail? <==>
      exists i :: 0 <= i < |rows| && SameIgnoringCase(rows[i].name, name) && editingId != Some(rows[i].id)
  {
  }

  function SupplierRows(suppliers: seq<Supplier>): seq<NamedRow> {
    seq(|suppliers|, i requires 0 <= i < |suppliers| => NamedRow(suppliers[i].id, suppliers[i].name))
  }

  function ContractTypeRows(types: seq<ContractType>): seq<NamedRow> {
    seq(|types|, i requires 0 <= i < |types| => NamedRow(types[i].id, types[i].name))
  }

  /** The shared rule's rejection condition, stated over the suppliers rather than their (id, name) rows. */
  lemma SupplierRejection(suppliers: seq<Supplier>, name: string, editing: Option<Supplier>, message: string)
    ensures CheckUniqueName(SupplierRows(suppliers), name, if editing.Some? then Some(editing.value.id) else None, message).Fail? <==>
      exists i :: (0 <= i < |suppliers| && SameIgnoringCase(suppliers[i].name, name) &&
                   (forall j :: 0 <= j < i ==> !SameIgnoringCase(suppliers[j].name, name)) &&
                   (editing.None? || editing.value.id != suppliers[i].id))
  {
    var rows := SupplierRows(suppliers);
    var editingId := if editing.Some? then Some(editing.value.id) else None;
    assert forall i :: 0 <= i < |suppliers| ==> rows[i] == NamedRow(suppliers[i].id, suppliers[i].name);
    if CheckUniqueName(rows, name, editingId, message).Fail? {
      var i :| (0 <= i < |rows| && SameIgnoringCase(rows[i].name, name) &&
                (forall j :: 0 <= j < i ==> !SameIgnoringCase(rows[j].name, name)) &&
                editingId != Some(rows[i].id));
      assert forall j :: 0 <= j < i ==> !SameIgnoringCase(suppliers[j].name, name);
    }
    if exists i :: (0 <= i < |suppliers| && SameIgnoringCase(suppliers[i].name, name) &&
                    (forall j :: 0 <= j < i ==> !SameIgnoringCase(suppliers[j].name, name)) &&
                    (editing.None? || editing.value.id != suppliers[i].id)) {
      var i :| (0 <= i < |suppliers| && SameIgnoringCase(suppliers[i].name, name) &&
                (forall j :: 0 <= j < i ==> !SameIgnoringCase(suppliers[j].name, name)) &&
                (editing.None? || editing.value.id != suppliers[i].id));
      assert forall j :: 0 <= j < i ==> !SameIgnoringCase(rows[j].name, name);
    }
  }

  /**
   * `SupplierForm.validate_name`: a name equal ignoring case to an existing
   * supplier's is rejected, unless that supplier is the one being edited.
   */
  function ValidateSupplierName(suppliers: seq<Supplier>, name: string, editing: Option<Supplier>): (r: Check)
    ensures (forall i :: 0 <= i < |suppliers| ==> !SameIgnoringCase(suppliers[i].name, name)) ==> r == Pass
    ensures editing.None? ==> (r.Fail? <==> exists i :: 0 <= i < |suppliers| && SameIgnoringCase(suppliers[i].name, name))
    ensures r.Fail? ==> r.message == SupplierNameTaken
    ensures r.Fail? ==>
      exists i :: (0 <= i < |suppliers| && SameIgnoringCase(suppliers[i].name, name) &&
                   (editing.None? || editing.value.id != suppliers[i].id))
    ensures r.Fail? <==>
      exists i :: (0 <= i < |suppliers| && SameIgnoringCase(suppliers[i].name, name) &&
                   (forall j :: 0 <= j < i ==> !SameIgnoringCase(suppliers[j].name, name)) &&
                   (editing.None? || editing.value.id != suppliers[i].id))
  {
    var rows := SupplierRows(suppliers);
    var editingId := if editing.Some? then Some(editing.value.id) else None;
    var r := CheckUniqueName(rows, name, editingId, SupplierNameTaken);
    assert forall i :: 0 <= i < |suppliers| ==> rows[i].name == suppliers[i].name && rows[i].id == suppliers[i].id;
    SupplierRejection(suppliers, name, editing, SupplierNameTaken);
    r
  }

  /** The shared rule's rejection condition, stated over the contract types rather than their (id, name) rows. */
  lemma ContractTypeRejection(types: seq<ContractType>, name: string, editing: Option<ContractType>, message: string)
    ensures CheckUniqueName(ContractTypeRows(types), name, if editing.Some? then Some(editing.value.id) else None, message).Fail? <==>
      exists i :: (0 <= i < |types| && SameIgnoringCase(types[i].name, name) &&
                   (forall j :: 0 <= j < i ==> !SameIgnoringCase(types[j].name, name)) &&
                   (editing.None? || editing.value.id != types[i].id))
  {
    var rows := ContractTypeRows(types);
    var editingId := if editing.Some? then Some(editing.value.id) else None;
    assert forall i :: 0 <= i < |types| ==> rows[i] == NamedRow(types[i].id, types[i].name);
    if CheckUniqueName(rows, name, editingId, message).Fail? {
      var i :| (0 <= i < |rows| && SameIgnoringCase(rows[i].name, name) &&
                (forall j :: 0 <= j < i ==> !SameIgnoringCase(rows[j].name, name)) &&
                editingId != Some(rows[i].id));
      assert forall j :: 0 <= j < i ==> !SameIgnoringCase(types[j].name, name);
    }
    if exists i :: (0 <= i < |types| && SameIgnoringCase(types[i].name, name) &&
                    (forall j :: 0 <= j < i ==> !SameIgnoringCase(types[j].name, name)) &&
                    (editing.None? || editing.value.id != types[i].id)) {
      var i :| (0 <= i < |types| && SameIgnoringCase(types[i].name, name) &&
                (forall j :: 0 <= j < i ==> !SameIgnoringCase(types[j].name, name)) &&
                (editing.None? || editing.value.id != types[i].id));
      assert forall j :: 0 <= j < i ==> !SameIgnoringCase(rows[j].name, name);
    }
  }

  /**
   * `ContractTypeForm.validate_name`: the same case-insensitive rule, with
   * the same exemption for the contract type being edited.
   */
  function ValidateContractTypeName(types: seq<ContractType>, name: string, editing: Option<ContractType>): (r: Check)
    ensures (forall i :: 0 <= i < |types| ==> !SameIgnoringCase(types[i].name, name)) ==> r == Pass
    ensures editing.None? ==> (r.Fail? <==> exists i :: 0 <= i < |types| && SameIgnoringCase(types[i].name, name))
    ensures r.Fail? ==> r.message == ContractTypeNameTaken
    ensures r.Fail? ==>
      exists i :: (0 <= i < |types| && SameIgnoringCase(types[i].name, name) &&
                   (editing.None? || editing.value.id != types[i].id))
    ensures r.Fail? <==>
      exists i :: (0 <= i < |types| && SameIgnoringCase(types[i].name, name) &&
                   (forall j :: 0 <= j < i ==> !SameIgnoringCase(types[j].name, name)) &&
                   (editing.None? || editing.value.id != types[i].id))
  {
    var rows := ContractTypeRows(types);
    var editingId := if editing.Some? then Some(editing.value.id) else None;
    var r := CheckUniqueName(rows, name, editingId, ContractTypeNameTaken);
    assert forall i :: 0 <= i < |types| ==> rows[i].name == types[i].name && rows[i].id == types[i].id;
    ContractTypeRejection(types, name, editing, ContractTypeNameTaken);
    r
  }

  /** Adding "duplicado" when "Duplicado" exists is rejected with the supplier message. */
  lemma DuplicateSupplierRejected(existing: Supplier)
    requires existing.name == "Duplicado"
    ensures ValidateSupplierName([existing], "duplicado", None) == Fail(SupplierNameTaken)
  {
  }

  /** Adding "tipo duplicado" when "Tipo Duplicado" exists is rejected with the contract-type message. */
  lemma DuplicateContractTypeRejected(existing: ContractType)
    requires existing.name == "Tipo Duplicado"
    ensures ValidateContractTypeName([existing], "tipo duplicado", None) == Fail(ContractTypeNameTaken)
  {
  }

  /** Editing a supplier without changing its name (in any case) is accepted when names are unique. */
  lemma {:induction false} EditingKeepsOwnName(suppliers: seq<Supplier>, i: nat, name: string)
    requires i < |suppliers| && SameIgnoringCase(suppliers[i].name, name)
    requires CaseInsensitivelyUnique(SupplierRows(suppliers))
    ensures ValidateSupplierName(suppliers, name, Some(suppliers[i])) == Pass
  {
    var rows := SupplierRows(suppliers);
    var editingId := Some(suppliers[i].id);
    CheckUniqueNameExact(rows, name, editingId, SupplierNameTaken);
    forall k | 0 <= k < |rows| && SameIgnoringCase(rows[k].name, name) ensures editingId == Some(rows[k].id) {
      assert SameIgnoringCase(rows[i].name, name);
      assert k == i;
    }
  }

  /**
   * Renaming a supplier to another supplier's name, in any case, is
   * rejected: the first row with that name is the other one.
   */
  lemma {:induction false} RenameToTakenNameRejected(suppliers: seq<Supplier>, i: nat, k: nat, name: string)
    requires i < |suppliers| && k < |suppliers| && suppliers[i].id != suppliers[k].id
    requires SameIgnoringCase(suppliers[k].name, name)
    requires CaseInsensitivelyUnique(SupplierRows(suppliers))
    ensures ValidateSupplierName(suppliers, name, Some(suppliers[i])) == Fail(SupplierNameTaken)
  {
    var rows := SupplierRows(suppliers);
    forall j | 0 <= j < k ensures !SameIgnoringCase(suppliers[j].name, name) {
      assert rows[j].name == suppliers[j].name && rows[k].name == suppliers[k].name;
      assert !SameIgnoringCase(rows[j].name, rows[k].name);
    }
  }

  // ---------------------------------------------------------------------
  // Project form

  /** The data of the project form's fields. Empty strings stand for missing values. */
  datatype ProjectFields = ProjectFields(
    name: string,
    province: string,
    district: string,
    adminPost: string,
    generationKW: real,
    storageKWh: real,
    networkType: seq<string>,
    mvVoltageLevel: Option<string>,
    lvNetworkType: Option<string>,
    numConnections: int)

  /** Python truthiness of an optional string field: present and non-empty. */
  predicate Truthy(v: Option<string>) {
    v.Some? && v.value != ""
  }

  /** Medium voltage is selected but no voltage level was given. */
  predicate MvLevelMissing(d: ProjectFields) {
    MediumVoltage in d.networkType && !Truthy(d.mvVoltageLevel)
  }

  /** Low voltage is selected but no low-voltage network type was given. */
  predicate LvTypeMissing(d: ProjectFields) {
    LowVoltage in d.networkType && !Truthy(d.lvNetworkType)
  }

  /** The project form is accepted: library checks pass and neither conditional field is missing. */
  predicate ProjectValid(baseValid: bool, d: ProjectFields) {
    baseValid && !MvLevelMissing(d) && !LvTypeMissing(d)
  }

  /** With nothing selected the cross-field rules cannot fail: only the library checks decide. */
  lemma EmptySelectionOnlyBaseDecides(baseValid: bool, d: ProjectFields)
    requires d.networkType == []
    ensures ProjectValid(baseValid, d) == baseValid
  {
  }

  /**
   * The project form: its field data, the choice lists of its three
   * location dropdowns, and the error lists of the two conditional fields.
   */
  class ProjectForm {
    var data: ProjectFields
    var provinceChoices: seq<Choice>
    var districtChoices: seq<Choice>
    var adminPostChoices: seq<Choice>
    var mvErrors: seq<string>
    var lvErrors: seq<string>

    /** A form bound to the submitted (or empty) field data, with no choices and no errors. */
    constructor (submitted: ProjectFields)
      ensures data == submitted
      ensures provinceChoices == [] && districtChoices == [] && adminPostChoices == []
      ensures mvErrors == [] && lvErrors == []
    {
      data := submitted;
      provinceChoices, districtChoices, adminPostChoices := [], [], [];
      mvErrors, lvErrors := [], [];
    }

    /**
     * `ProjectForm.validate`: false at once when the library checks fail;
     * otherwise both conditional rules are checked independently, each
     * violated one appending its message to its own field's errors.
     */
    method Validate(baseValid: bool) returns (ok: bool)
      modifies this`mvErrors, this`lvErrors
      ensures ok == ProjectValid(baseValid, data)
      ensures mvErrors == old(mvErrors) + (if baseValid && MvLevelMissing(data) then [MvLevelRequired] else [])
      ensures lvErrors == old(lvErrors) + (if baseValid && LvTypeMissing(data) then [LvTypeRequired] else [])
    {
      if !baseValid {
        return false;
      }
      var validationOk := true;
      if MediumVoltage in data.networkType && !Truthy(data.mvVoltageLevel) {
        mvErrors := mvErrors + [MvLevelRequired];
        validationOk := false;
      }
      if LowVoltage in data.networkType && !Truthy(data.lvNetworkType) {
        lvErrors := lvErrors + [LvTypeRequired];
        validationOk := false;
      }
      return validationOk;
    }
  }
}
