/**
 * The route handlers' logic: registration (the first account becomes the
 * administrator), creating, updating and deleting projects behind the
 * administrator check, and filling the location dropdowns of the project
 * form. The database is the `App` object's users and projects; the
 * current user, the request method and the form's data are parameters.
 */
module Routes {
  import opened Wrappers
  import opened Models
  import opened Locations
  import opened NetworkType
  import opened Forms

  /** What a handler answers with; flashes, templates and redirect targets are left out. */
  datatype Response =
    | NotFound                  // the project id is unknown (404)
    | Denied                    // not an administrator: warning and redirect home
    | AlreadyLoggedIn           // registering while logged in: redirect home
    | FormPage                  // the form is shown (a GET, or a POST that failed validation)
    | Registered(userId: nat)
    | Created(projectId: nat)
    | Updated(projectId: nat)
    | Deleted

  // ---------------------------------------------------------------------
  // Rows built from the project form

  /** A conditional field is stored only when its network kind is selected; otherwise NULL. */
  function KeepIfSelected(selection: seq<string>, kind: string, value: Option<string>): (r: Option<string>)
    ensures Truthy(r) <==> kind in selection && Truthy(value)
    ensures r.Some? ==> r == value
    ensures kind !in selection ==> r.None?
  {
    if kind in selection then value else None
  }

  /**
   * The row `new_project` stores; `description` is not on the form and
   * stays NULL. Opening the created project for editing shows the
   * submission again, whenever its selection can be stored.
   */
  function NewRow(id: nat, userId: nat, now: int, d: ProjectFields): (r: Project)
    ensures r.id == id && r.userId == userId && r.datePosted == now && r.description == None
    ensures d.networkType != [] && StorableSelection(d.networkType) ==> FieldsOf(r) == AsStored(d)
  {
    var row := Project(
      id := id,
      name := d.name,
      description := None,
      province := d.province,
      district := d.district,
      adminPost := d.adminPost,
      generationKW := d.generationKW,
      storageKWh := d.storageKWh,
      networkType := Encode(d.networkType),
      mvVoltageLevel := KeepIfSelected(d.networkType, MediumVoltage, d.mvVoltageLevel),
      lvNetworkType := KeepIfSelected(d.networkType, LowVoltage, d.lvNetworkType),
      numConnections := d.numConnections,
      datePosted := now,
      userId := userId);
    assert d.networkType != [] && StorableSelection(d.networkType) ==> FieldsOf(row) == AsStored(d) by {
      if d.networkType != [] && StorableSelection(d.networkType) {
        DecodeEncode(d.networkType);
      }
    }
    row
  }

  /**
   * `update_project`'s overwrite of the ten form fields. The row becomes
   * what creating it from the same form would store, except that its id,
   * owner, creation time and description stay as they were.
   */
  function ApplyUpdate(p: Project, d: ProjectFields): (q: Project)
    ensures q.id == p.id && q.userId == p.userId && q.datePosted == p.datePosted && q.description == p.description
    ensures q == NewRow(p.id, p.userId, p.datePosted, d).(description := p.description)
  {
    p.(name := d.name,
       province := d.province,
       district := d.district,
       adminPost := d.adminPost,
       generationKW := d.generationKW,
       storageKWh := d.storageKWh,
       networkType := Encode(d.networkType),
       mvVoltageLevel := KeepIfSelected(d.networkType, MediumVoltage, d.mvVoltageLevel),
       lvNetworkType := KeepIfSelected(d.networkType, LowVoltage, d.lvNetworkType),
       numConnections := d.numConnections)
  }

  /**
   * The form data `update_project` shows on a GET: the row's fields,
   * network kinds decoded. The shown selection is never empty and can be
   * stored again as it is.
   */
  function FieldsOf(p: Project): (r: ProjectFields)
    ensures r.networkType != [] && StorableSelection(r.networkType)
  {
    ProjectFields(
      name := p.name,
      province := p.province,
      district := p.district,
      adminPost := p.adminPost,
      generationKW := p.generationKW,
      storageKWh := p.storageKWh,
      networkType := Decode(p.networkType),
      mvVoltageLevel := p.mvVoltageLevel,
      lvNetworkType := p.lvNetworkType,
      numConnections := p.numConnections)
  }

  /** The submission as it is kept: conditional fields of unselected kinds dropped. */
  function AsStored(d: ProjectFields): ProjectFields {
    d.(mvVoltageLevel := KeepIfSelected(d.networkType, MediumVoltage, d.mvVoltageLevel),
       lvNetworkType := KeepIfSelected(d.networkType, LowVoltage, d.lvNetworkType))
  }

  /** Every selected kind can be stored and read back unchanged. */
  predicate StorableSelection(selection: seq<string>) {
    forall i :: 0 <= i < |selection| ==> ',' !in selection[i] && Trimmed(selection[i])
  }

  /**
   * After an update with a non-empty storable selection, the edit page
   * shows the submission again, minus the conditional fields of kinds
   * that were not selected.
   */
  lemma {:induction false} EditShowsUpdate(p: Project, d: ProjectFields)
    requires d.networkType != [] && StorableSelection(d.networkType)
    ensures FieldsOf(ApplyUpdate(p, d)) == AsStored(d)
  {
    DecodeEncode(d.networkType);
  }

  /**
   * Saving the edit page unchanged and opening it again shows the same
   * page, except that conditional fields of unselected kinds are dropped.
   */
  lemma EditResubmitStable(p: Project)
    ensures FieldsOf(ApplyUpdate(p, FieldsOf(p))) == AsStored(FieldsOf(p))
  {
    EditShowsUpdate(p, FieldsOf(p));
  }

  /** The edge case: after an update with nothing selected, the edit page's selection is [""]. */
  lemma EditAfterEmptySelection(p: Project, d: ProjectFields)
    requires d.networkType == []
    ensures FieldsOf(ApplyUpdate(p, d)).networkType == [""]
    ensures FieldsOf(ApplyUpdate(p, d)) != AsStored(d)
  {
  }

  /** Each update overwrites the whole submitted part of the row: the last one wins. */
  lemma LastUpdateWins(p: Project, d1: ProjectFields, d2: ProjectFields)
    ensures ApplyUpdate(ApplyUpdate(p, d1), d2) == ApplyUpdate(p, d2)
  {
  }

  /** The conditional columns are NULL or non-empty: what a validated form stores. */
  predicate VoltageFieldsFilled(p: Project) {
    (p.mvVoltageLevel.Some? ==> p.mvVoltageLevel.value != "") &&
    (p.lvNetworkType.Some? ==> p.lvNetworkType.value != "")
  }

  /**
   * For a form that passed validation, each conditional field is stored
   * (and non-empty) exactly when its network kind is selected.
   */
  lemma ValidatedVoltageFields(baseValid: bool, d: ProjectFields)
    requires ProjectValid(baseValid, d)
    ensures Truthy(KeepIfSelected(d.networkType, MediumVoltage, d.mvVoltageLevel)) <==> MediumVoltage in d.networkType
    ensures Truthy(KeepIfSelected(d.networkType, LowVoltage, d.lvNetworkType)) <==> LowVoltage in d.networkType
    ensures VoltageFieldsFilled(NewRow(0, 0, 0, d))
  {
  }

  /**
   * After a validated update whose selection comes from the form's two
   * choices (the empty selection included), the edit page shows each
   * conditional field exactly when its kind is shown selected.
   */
  lemma {:induction false} EditPageConsistent(p: Project, d: ProjectFields, baseValid: bool)
    requires ProjectValid(baseValid, d)
    requires forall i :: 0 <= i < |d.networkType| ==> d.networkType[i] == MediumVoltage || d.networkType[i] == LowVoltage
    ensures var f := FieldsOf(ApplyUpdate(p, d));
      && (MediumVoltage in f.networkType <==> Truthy(f.mvVoltageLevel))
      && (LowVoltage in f.networkType <==> Truthy(f.lvNetworkType))
  {
    KindsAreStorable();
    assert StorableSelection(d.networkType);
    SelectedSurvivesStorage(d.networkType, MediumVoltage);
    SelectedSurvivesStorage(d.networkType, LowVoltage);
    ValidatedVoltageFields(baseValid, d);
  }

  // ---------------------------------------------------------------------
  // Location dropdowns

  /** Fills the province dropdown: the prompt, then one `(p, p)` option per province, in order. */
  method PopulateProvinceChoices(form: ProjectForm, tree: Tree)
    modifies form`provinceChoices
    ensures form.provinceChoices == ProvinceChoices(tree)
  {
    var choices := [ProvincePrompt];
    for i := 0 to |tree|
      invariant choices == [ProvincePrompt] + Mirror(Keys(tree[..i]))
    {
      assert tree[..i + 1] == tree[..i] + [tree[i]];
      choices := choices + [(tree[i].0, tree[i].0)];
    }
    assert tree[..|tree|] == tree;
    form.provinceChoices := choices;
  }

  /** The district prompt, extended with the province's districts when it is non-empty and known. */
  method PopulateDistrictChoices(form: ProjectForm, tree: Tree, province: string)
    modifies form`districtChoices
    ensures form.districtChoices == DistrictChoices(tree, province)
  {
    form.districtChoices := [DistrictPrompt];
    if province != "" && Lookup(tree, province).Some? {
      var districts := Lookup(tree, province).value;
      for i := 0 to |districts|
        invariant form.districtChoices == [DistrictPrompt] + Mirror(Keys(districts[..i]))
      {
        assert districts[..i + 1] == districts[..i] + [districts[i]];
        form.districtChoices := form.districtChoices + [(districts[i].0, districts[i].0)];
      }
      assert districts[..|districts|] == districts;
    }
  }

  /**
   * The post prompt, extended with the district's posts when province and
   * district are non-empty and the district is under the province.
   */
  method PopulateAdminPostChoices(form: ProjectForm, tree: Tree, province: string, district: string)
    modifies form`adminPostChoices
    ensures form.adminPostChoices == AdminPostChoices(tree, province, district)
  {
    form.adminPostChoices := [AdminPostPrompt];
    var underProvince := match Lookup(tree, province) case Some(ds) => ds case None => [];
    if province != "" && district != "" && Lookup(underProvince, district).Some? {
      var posts := Lookup(underProvince, district).value;
      for i := 0 to |posts|
        invariant form.adminPostChoices == [AdminPostPrompt] + Mirror(posts[..i])
      {
        assert posts[..i + 1] == posts[..i] + [posts[i]];
        form.adminPostChoices := form.adminPostChoices + [(posts[i], posts[i])];
      }
      assert posts[..|posts|] == posts;
    }
  }

  /** The district and post dropdowns for a chosen province and district. */
  method PopulateLocationChoices(form: ProjectForm, tree: Tree, province: string, district: string)
    modifies form`districtChoices, form`adminPostChoices
    ensures form.districtChoices == DistrictChoices(tree, province)
    ensures form.adminPostChoices == AdminPostChoices(tree, province, district)
  {
    PopulateDistrictChoices(form, tree, province);
    PopulateAdminPostChoices(form, tree, province, district);
  }

  /**
   * The dropdowns of the creation page: the provinces always; on a POST
   * the districts and posts of the submitted location, on a GET only the
   * two prompts.
   */
  method PopulateNewProjectChoices(form: ProjectForm, tree: Tree, isPost: bool)
    modifies form`provinceChoices, form`districtChoices, form`adminPostChoices
    ensures form.provinceChoices == ProvinceChoices(tree)
    ensures isPost ==>
      && form.districtChoices == DistrictChoices(tree, form.data.province)
      && form.adminPostChoices == AdminPostChoices(tree, form.data.province, form.data.district)
    ensures !isPost ==> form.districtChoices == [DistrictPrompt] && form.adminPostChoices == [AdminPostPrompt]
  {
    PopulateProvinceChoices(form, tree);
    if isPost {
      PopulateLocationChoices(form, tree, form.data.province, form.data.district);
    } else {
      form.districtChoices := [DistrictPrompt];
      form.adminPostChoices := [AdminPostPrompt];
    }
  }

  // ---------------------------------------------------------------------
  // The store and the handlers that change it

  /**
   * Users are numbered from 1 in registration order, only the first is an
   * administrator, and usernames and e-mails are unique.
   */
  predicate UsersValid(users: seq<User>) {
    && (forall i :: 0 <= i < |users| ==> users[i].id == i + 1 && (users[i].isAdmin <==> i == 0))
    && (forall i, j :: 0 <= i < j < |users| ==> users[i].username != users[j].username && users[i].email != users[j].email)
  }

  /**
   * Every project is filed under its own id, below the next id to hand
   * out, is owned by one of the `userCount` users, and has its conditional
   * columns NULL or non-empty.
   */
  predicate ProjectsValid(projects: map<nat, Project>, nextId: nat, userCount: nat) {
    && 1 <= nextId
    && forall id :: id in projects ==>
         && 1 <= id < nextId
         && projects[id].id == id
         && 1 <= projects[id].userId <= userCount
         && VoltageFieldsFilled(projects[id])
  }

  /** Registering an account whose names are free, numbered next, keeps the users valid. */
  lemma RegisterKeepsUsersValid(users: seq<User>, username: string, email: string)
    requires UsersValid(users)
    requires ValidateUsername(users, username).Pass? && ValidateEmail(users, email).Pass?
    ensures UsersValid(users + [User(|users| + 1, username, email, users == [])])
  {
  }

  /** Filing a validated row under the next id keeps the projects valid. */
  lemma AddKeepsProjectsValid(projects: map<nat, Project>, nextId: nat, userCount: nat, p: Project)
    requires ProjectsValid(projects, nextId, userCount)
    requires p.id == nextId && 1 <= p.userId <= userCount && VoltageFieldsFilled(p)
    ensures nextId !in projects
    ensures ProjectsValid(projects[nextId := p], nextId + 1, userCount)
  {
  }

  /** Overwriting a row with one of the same id and owner keeps the projects valid. */
  lemma ReplaceKeepsProjectsValid(projects: map<nat, Project>, nextId: nat, userCount: nat, id: nat, q: Project)
    requires ProjectsValid(projects, nextId, userCount) && id in projects
    requires q.id == id && q.userId == projects[id].userId && VoltageFieldsFilled(q)
    ensures ProjectsValid(projects[id := q], nextId, userCount)
  {
  }

  class App {
    var users: seq<User>
    var projects: map<nat, Project>
    var nextProjectId: nat

    /** The database's invariant: see `UsersValid` and `ProjectsValid`. */
    ghost predicate Valid()
      reads this
    {
      UsersValid(users) && ProjectsValid(projects, nextProjectId, |users|)
    }

    /** An empty database. */
    constructor ()
      ensures Valid() && users == [] && projects == map[]
    {
      users := [];
      projects := map[];
      nextProjectId := 1;
    }

    /**
     * `register`: a logged-in visitor is sent home; a submitted form that
     * passes the library checks and both uniqueness checks adds an
     * account, which is the administrator exactly when it is the first.
     */
    method Register(authenticated: bool, isPost: bool, username: string, email: string, baseValid: bool)
      returns (resp: Response)
      requires Valid()
      modifies this`users
      ensures Valid()
      ensures authenticated ==> resp == AlreadyLoggedIn
      ensures resp.Registered? <==> !authenticated && isPost && RegistrationValid(baseValid, old(users), username, email)
      ensures resp.Registered? ==>
        && resp.userId == |old(users)| + 1
        && users == old(users) + [User(resp.userId, username, email, old(users) == [])]
      ensures !resp.Registered? ==> users == old(users)
      ensures !authenticated && !resp.Registered? ==> resp == FormPage
    {
      if authenticated {
        return AlreadyLoggedIn;
      }
      if isPost && RegistrationValid(baseValid, users, username, email) {
        var isAdmin := users == [];
        var user := User(|users| + 1, username, email, isAdmin);
        RegisterKeepsUsersValid(users, username, email);
        users := users + [user];
        return Registered(user.id);
      }
      return FormPage;
    }

    /**
     * `new_project`: administrators only. The province dropdown is always
     * filled; on a POST the other two follow the submitted province and
     * district, on a GET they hold only their prompts. A submitted form
     * that validates is stored under a new id, owned by the current user.
     */
    method NewProject(actor: User, isPost: bool, form: ProjectForm, tree: Tree, baseValid: bool, now: int)
      returns (resp: Response)
      requires Valid() && actor in users
      modifies this`projects, this`nextProjectId, form
      ensures Valid()
      ensures form.data == old(form.data)
      ensures !actor.isAdmin ==> resp == Denied && unchanged(form)
      ensures actor.isAdmin ==> form.provinceChoices == ProvinceChoices(tree)
      ensures actor.isAdmin && isPost ==>
        && form.districtChoices == DistrictChoices(tree, form.data.province)
        && form.adminPostChoices == AdminPostChoices(tree, form.data.province, form.data.district)
      ensures actor.isAdmin && !isPost ==>
        form.districtChoices == [DistrictPrompt] && form.adminPostChoices == [AdminPostPrompt]
      ensures actor.isAdmin && isPost ==>
        && form.mvErrors == old(form.mvErrors) + (if baseValid && MvLevelMissing(form.data) then [MvLevelRequired] else [])
        && form.lvErrors == old(form.lvErrors) + (if baseValid && LvTypeMissing(form.data) then [LvTypeRequired] else [])
      ensures !(actor.isAdmin && isPost) ==> form.mvErrors == old(form.mvErrors) && form.lvErrors == old(form.lvErrors)
      ensures resp.Created? <==> actor.isAdmin && isPost && ProjectValid(baseValid, form.data)
      ensures resp.Created? ==>
        && resp.projectId == old(nextProjectId)
        && resp.projectId !in old(projects)
        && projects == old(projects)[resp.projectId := NewRow(resp.projectId, actor.id, now, form.data)]
      ensures !resp.Created? ==> projects == old(projects) && nextProjectId == old(nextProjectId)
      ensures actor.isAdmin && !resp.Created? ==> resp == FormPage
    {
      if !actor.isAdmin {
        return Denied;
      }
      PopulateNewProjectChoices(form, tree, isPost);
      var ok := false;
      if isPost {
        ok := form.Validate(baseValid);
      }
      if ok {
        var id := nextProjectId;
        var row := NewRow(id, actor.id, now, form.data);
        ValidatedVoltageFields(baseValid, form.data);
        assert VoltageFieldsFilled(row);
        assert 1 <= actor.id <= |users|;
        AddKeepsProjectsValid(projects, nextProjectId, |users|, row);
        projects := projects[id := row];
        nextProjectId := nextProjectId + 1;
        return Created(id);
      }
      return FormPage;
    }

    /**
     * `update_project`: an unknown id is not found, before the
     * administrator check. The dropdowns follow the submitted province and
     * district on a POST and the stored ones on a GET. A submitted form
     * that validates overwrites the ten form fields of the row; a GET
     * fills the form from the row.
     */
    method UpdateProject(actor: User, projectId: nat, isPost: bool, form: ProjectForm, tree: Tree, baseValid: bool)
      returns (resp: Response)
      requires Valid() && actor in users
      modifies this`projects, form
      ensures Valid()
      ensures projectId !in old(projects) ==> resp == NotFound && unchanged(form)
      ensures projectId in old(projects) && !actor.isAdmin ==> resp == Denied && unchanged(form)
      ensures projectId in old(projects) && actor.isAdmin ==>
        var stored := old(projects[projectId]);
        var province := if isPost then old(form.data).province else stored.province;
        var district := if isPost then old(form.data).district else stored.district;
        && form.provinceChoices == ProvinceChoices(tree)
        && form.districtChoices == DistrictChoices(tree, province)
        && form.adminPostChoices == AdminPostChoices(tree, province, district)
      ensures isPost ==> form.data == old(form.data)
      ensures projectId in old(projects) && actor.isAdmin && !isPost ==>
        resp == FormPage && form.data == FieldsOf(old(projects[projectId]))
      ensures resp.Updated? <==> projectId in old(projects) && actor.isAdmin && isPost && ProjectValid(baseValid, form.data)
      ensures resp.Updated? ==>
        && resp.projectId == projectId
        && projects == old(projects)[projectId := ApplyUpdate(old(projects[projectId]), form.data)]
      ensures projectId in old(projects) && actor.isAdmin && isPost ==>
        && form.mvErrors == old(form.mvErrors) + (if baseValid && MvLevelMissing(form.data) then [MvLevelRequired] else [])
        && form.lvErrors == old(form.lvErrors) + (if baseValid && LvTypeMissing(form.data) then [LvTypeRequired] else [])
      ensures !(projectId in old(projects) && actor.isAdmin && isPost) ==>
        form.mvErrors == old(form.mvErrors) && form.lvErrors == old(form.lvErrors)
      ensures !resp.Updated? ==> projects == old(projects)
      ensures projectId in old(projects) && actor.isAdmin && !resp.Updated? ==> resp == FormPage
    {
      if projectId !in projects {
        return NotFound;
      }
      var project := projects[projectId];
      if !actor.isAdmin {
        return Denied;
      }
      PopulateProvinceChoices(form, tree);
      var province, district;
      if isPost {
        province, district := form.data.province, form.data.district;
      } else {
        province, district := project.province, project.district;
      }
      PopulateLocationChoices(form, tree, province, district);
      var ok := false;
      if isPost {
        ok := form.Validate(baseValid);
      }
      if ok {
        var row := ApplyUpdate(project, form.data);
        ValidatedVoltageFields(baseValid, form.data);
        assert VoltageFieldsFilled(row);
        ReplaceKeepsProjectsValid(projects, nextProjectId, |users|, projectId, row);
        projects := projects[projectId := row];
        return Updated(projectId);
      } else if !isPost {
        form.data := FieldsOf(project);
      }
      return FormPage;
    }

    /** `delete_project`: an unknown id is not found; otherwise administrators remove the row. */
    method DeleteProject(actor: User, projectId: nat) returns (resp: Response)
      requires Valid() && actor in users
      modifies this`projects
      ensures Valid()
      ensures projectId !in old(projects) ==> resp == NotFound && projects == old(projects)
      ensures projectId in old(projects) && !actor.isAdmin ==> resp == Denied && projects == old(projects)
      ensures projectId in old(projects) && actor.isAdmin ==> resp == Deleted && projects == old(projects) - {projectId}
    {
      if projectId !in projects {
        return NotFound;
      }
      if !actor.isAdmin {
        return Denied;
      }
      projects := projects - {projectId};
      return Deleted;
    }
  }

  /**
   * Only administrators change projects: whatever a non-administrator
   * asks of the three project handlers, the stored projects are unchanged.
   */
  method NonAdminChangesNothing(app: App, actor: User, form: ProjectForm, tree: Tree, projectId: nat, isPost: bool, baseValid: bool, now: int)
    requires app.Valid() && actor in app.users && !actor.isAdmin
    modifies app, form
    ensures app.projects == old(app.projects)
  {
    var r1 := app.NewProject(actor, isPost, form, tree, baseValid, now);
    var r2 := app.UpdateProject(actor, projectId, isPost, form, tree, baseValid);
    var r3 := app.DeleteProject(actor, projectId);
  }

  /**
   * Registering "susan" into an empty database succeeds and the account
   * becomes the administrator; a second account is not one, and a third
   * attempt with a taken username is refused.
   */
  method FirstRegistrationIsAdmin() returns (users: seq<User>)
    ensures |users| == 2 && users[0].username == "susan"
    ensures users[0].isAdmin && !users[1].isAdmin
  {
    var app := new App();
    var r := app.Register(false, true, "susan", "susan@example.com", true);
    assert r == Registered(1);
    assert app.users[0].isAdmin;
    var r2 := app.Register(false, true, "bob", "bob@example.com", true);
    assert r2 == Registered(2) && !app.users[1].isAdmin;
    var r3 := app.Register(false, true, "susan", "other@example.com", true);
    assert r3 == FormPage && |app.users| == 2;
    users := app.users;
  }
}
