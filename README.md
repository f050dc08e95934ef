# SGPE project registry: a Dafny model

SGPE is a small web application for managing infrastructure projects. This
model covers the parts of it that hold logic of their own:

- **Location tree** (`locations.dfy`, module `Locations`). Locations form a
  static tree: province, then district, then administrative post. The model
  covers the two JSON endpoints that return one level of it, and the
  `(value, label)` dropdown lists that the create and edit pages build from
  it. The tree's data is a parameter, an ordered association list.
  `WellFormed` states that keys are unique at each level, as in a dictionary.
- **Network-type storage** (`network_type.dfy`, module `NetworkType`). The
  selected network kinds are stored as one string joined with `", "`. The
  edit page reads them back by splitting on `','` and stripping each piece.
  The model includes Python's `str.split` for a one-character separator
  (the only form used), `str.strip` with no argument (the `str.isspace`
  character set) and `str.join`.
- **Form validation** (`forms.dfy`, module `Forms`):
  - the project form's two cross-field rules, which append to per-field
    error lists (the class `ProjectForm`);
  - the case-insensitive name-uniqueness checks of the supplier and
    contract-type forms, with their exemption for the record being edited;
  - the exact-match username and e-mail checks of registration.
- **Route handlers** (`routes.dfy`, module `Routes`). The class `App` holds
  the users and a `map` from id to project. Its methods are registration
  (the first account becomes the administrator) and project create, update
  and delete, each behind the administrator check. The invariant `Valid`
  ties the two together. The module also holds the loops that fill the
  location dropdowns.
- **Rows** (`models.dfy`, `wrappers.dfy`): the stored records as datatypes,
  and an `Option` type for nullable columns.

The library's own field validators are one boolean input, `baseValid`:
required fields, e-mail syntax, lengths, the password confirmation, number
parsing and choice membership. The request method, the current user, the
submitted values and the current time are parameters too.

Three modelling choices:

- A missing submitted value (`None`) and an empty string both count as
  "nothing chosen" for province and district. Both are falsy, and every
  guard in the handlers first tests truthiness, so both are written `""`.
- The conditional voltage fields can hold `None`, so they are
  `Option<string>`.
- Case-insensitive comparison uses SQL `lower()` as SQLite computes it,
  which folds only `A`–`Z`. SQLite is the configured database
  (config.py:6-7).

## Model

| member | source | states |
|---|---|---|
| `Locations.Lookup` | sgpe/main/routes.py:194-196 | Dictionary membership and indexing: None exactly when no entry has the key; otherwise the value of the first entry with that key. |
| `Locations.LookupUnique` | sgpe/main/routes.py:202-204 | With unique keys, looking up any entry's key returns that entry's value. |
| `Locations.GetDistricts` | sgpe/main/routes.py:192-197 | An unknown province gives `[]`. With unique keys, a known province gives exactly its district keys, in order. |
| `Locations.GetAdminPosts` | sgpe/main/routes.py:200-205 | Gives `[]` for an unknown province, and `[]` for a district that is not under the province. Otherwise it gives exactly the posts listed under that district. |
| `Locations.ProvinceChoices` | sgpe/main/routes.py:66 | The province prompt `('', 'Selecione a Província')` comes first, then one `(p, p)` per province in order. |
| `Locations.DistrictChoices` | sgpe/main/routes.py:75-77 | Always starts with the district prompt. Only the prompt when the province is empty or unknown. For a known province, the prompt followed by `(d, d)` for each of its districts. |
| `Locations.AdminPostChoices` | sgpe/main/routes.py:79-81 | Always starts with the post prompt. Only the prompt when the province or district is empty, or the province is unknown. |
| `Locations.DistrictChoicesMatchEndpoint` | sgpe/main/routes.py:141-143 | For a chosen province, the page's district dropdown lists exactly what `get_districts` returns. |
| `Locations.AdminPostChoicesMatchEndpoint` | sgpe/main/routes.py:145-147 | For a chosen province and district, the page's post test (`district in LOCATIONS.get(province, {})`) gives exactly what `get_admin_posts` returns. |
| `Locations.AdminPostChoicesOfKnownDistrict` | sgpe/main/routes.py:80-81 | In a well-formed tree, a non-empty district under a non-empty province gets the prompt followed by exactly its posts, in order. |
| `NetworkType.LStrip` | sgpe/main/routes.py:170 | Removes exactly the leading whitespace: the result is a suffix of the input, and every removed character is whitespace. |
| `NetworkType.RStrip` | sgpe/main/routes.py:170 | Removes exactly the trailing whitespace: the result is a prefix of the input, and every removed character is whitespace. |
| `NetworkType.StripCutsSpaceOnly` | sgpe/main/routes.py:170 | Stripping leaves a contiguous part of the input, and everything cut away on either side is whitespace. |
| `NetworkType.Strip` | sgpe/main/routes.py:170 | The result is a contiguous part of the input, and everything cut away on either side is whitespace. The result has no surrounding whitespace, and an input without surrounding whitespace is returned unchanged. |
| `NetworkType.Join` | sgpe/main/routes.py:89 | `sep.join`: no parts give `""`, and otherwise the result starts with the first part. `JoinSplit` shows that it undoes a split. |
| `NetworkType.Encode` | sgpe/main/routes.py:89 | The stored form of a selection: `""` for the empty one, otherwise a string starting with the first kind. `DecodeEncode` shows that reading it back inverts it. |
| `NetworkType.Split` | sgpe/main/routes.py:170 | Always gives at least one piece, and no piece contains the separator. |
| `NetworkType.Decode` | sgpe/main/routes.py:170 | Reading back splits on `','` and strips each piece. It always gives at least one item, and each item is free of `','` and of surrounding whitespace. |
| `NetworkType.JoinSplit` | sgpe/main/routes.py:170 | Joining the pieces of a split with the separator gives back the original string. |
| `NetworkType.SplitAfterPiece` | sgpe/main/routes.py:170 | A piece without the separator, followed by the separator, splits off as exactly one piece. |
| `NetworkType.SplitNoSeparator` | sgpe/main/routes.py:170 | A string without the separator splits into itself alone. |
| `NetworkType.SplitAfterSpace` | sgpe/main/routes.py:170 | A leading space joins the first piece of a split and leaves the other pieces as they were. |
| `NetworkType.SplitEncoded` | sgpe/main/routes.py:89 | Splitting a stored non-empty selection on `','` gives the first kind, then each later kind with one leading space. |
| `NetworkType.StripSpaced` | sgpe/main/routes.py:170 | A space in front of a piece disappears when it is stripped. |
| `NetworkType.PieceReadsBack` | sgpe/main/routes.py:156-170 | A stored selection splits into one piece per kind, and each piece strips back to its kind. |
| `NetworkType.DecodeEncode` | sgpe/main/routes.py:156 | Storing, then reading back, a non-empty selection gives the same selection. This holds when no kind contains `','` or surrounding whitespace. |
| `NetworkType.DecodeEncodeEmpty` | sgpe/main/routes.py:89 | An empty selection is stored as `""` and reads back as `[""]`, not `[]`. |
| `NetworkType.SelectedSurvivesStorage` | sgpe/main/routes.py:156-170 | A given non-empty kind is in the read-back selection exactly when it was in the stored one, the empty selection included. |
| `NetworkType.KindsAreStorable` | sgpe/forms.py:45 | Neither selectable kind contains `','` or surrounding whitespace. |
| `Forms.FirstMatch` | sgpe/forms.py:20 | A query's `.first()`: None exactly when no row matches; otherwise the position of the first matching row. |
| `Forms.AsciiLower` | sgpe/forms.py:103 | SQL `lower()` keeps the length and leaves no capital letter. Each character either stays or is a capital turned into its own small letter. |
| `Forms.AsciiLowerIdempotent` | sgpe/forms.py:103 | Lowering twice is the same as lowering once. |
| `Forms.SameIgnoringCaseCharwise` | sgpe/forms.py:103 | `lower(a) == lower(b)` holds exactly when the names have the same length and, at each position, the same character or the same ASCII letter in the other case. |
| `Forms.ValidateUsername` | sgpe/forms.py:19-22 | Fails, with the username message, exactly when some user has that exact username. |
| `Forms.ValidateEmail` | sgpe/forms.py:24-27 | Fails, with the e-mail message, exactly when some user has that exact e-mail. |
| `Forms.CheckUniqueName` | sgpe/forms.py:101-109 | Fails exactly when the first row matching ignoring case is not the record being edited, so a later match does not matter once the first is the edited record. Fails with the given message. Passes when no row matches, and on a new record fails exactly when some row matches. |
| `Forms.CheckUniqueNameExact` | sgpe/forms.py:104-109 | When the names are already unique ignoring case, a name is rejected exactly when a row other than the one being edited has it. |
| `Forms.SupplierRejection` | sgpe/forms.py:103-109 | The shared rule's failure condition, restated over the suppliers themselves. |
| `Forms.ValidateSupplierName` | sgpe/forms.py:101-109 | Fails, with the supplier message, exactly when the first supplier whose name matches ignoring case is not the supplier being edited. So renaming one supplier to another's name fails. Passes when no supplier matches. |
| `Forms.ContractTypeRejection` | sgpe/forms.py:142-148 | The shared rule's failure condition, restated over the contract types themselves. |
| `Forms.ValidateContractTypeName` | sgpe/forms.py:140-148 | Fails, with the contract-type message, exactly when the first contract type whose name matches ignoring case is not the one being edited. Passes when none matches. |
| `Forms.DuplicateSupplierRejected` | tests/test_sgpe_routes.py:51-58 | Adding `"duplicado"` when `"Duplicado"` exists is rejected with the supplier message. |
| `Forms.DuplicateContractTypeRejected` | tests/test_sgpe_routes.py:75-82 | Adding `"tipo duplicado"` when `"Tipo Duplicado"` exists is rejected with the contract-type message. |
| `Forms.EditingKeepsOwnName` | sgpe/forms.py:105-107 | Saving a supplier under its own name, in any case, is accepted when names are unique. |
| `Forms.RenameToTakenNameRejected` | sgpe/forms.py:103-109 | With unique names, giving a supplier the name of a different supplier, in any case, is rejected with the supplier message. |
| `Forms.EmptySelectionOnlyBaseDecides` | sgpe/forms.py:79-88 | With no network kind selected, the cross-field rules never fail: the result is the library checks' result. |
| `Forms.ProjectForm.Validate` | sgpe/forms.py:75-88 | Returns false without cross-field checks when the library checks fail. Otherwise returns true exactly when neither conditional field is missing. Each rule runs independently and appends its message to its own field's existing errors. |
| `Routes.KeepIfSelected` | sgpe/main/routes.py:99-100 | A conditional field is stored non-empty exactly when its kind is selected and it was given non-empty; anything stored is the submitted value. |
| `Routes.NewRow` | sgpe/main/routes.py:91-103 | The created row carries the given id, owner and time, with no description. For a non-empty storable selection, opening it for editing shows the submission again, minus conditional fields of unselected kinds. |
| `Routes.FieldsOf` | sgpe/main/routes.py:164-173 | The edit page's selection is never empty, and each of its items can be stored again unchanged. |
| `Routes.ApplyUpdate` | sgpe/main/routes.py:150-159 | The row becomes what creating it from the same form would store. Its id, owner, creation time and description are unchanged. |
| `Routes.EditShowsUpdate` | sgpe/main/routes.py:164-173 | After an update with a non-empty storable selection, the edit page shows the submitted data again. The only change: conditional fields of unselected kinds are dropped. |
| `Routes.EditResubmitStable` | sgpe/main/routes.py:150-173 | Saving the edit page unchanged and opening it again shows the same page, minus conditional fields of unselected kinds. |
| `Routes.EditAfterEmptySelection` | sgpe/main/routes.py:156-170 | After an update with nothing selected, the edit page's selection is `[""]`, not what was submitted. |
| `Routes.LastUpdateWins` | sgpe/main/routes.py:150-159 | Two updates in a row leave the row as the second alone would. |
| `Routes.ValidatedVoltageFields` | sgpe/main/routes.py:99-100 | For a validated form, each conditional field is stored, non-empty, exactly when its kind is selected. |
| `Routes.EditPageConsistent` | sgpe/main/routes.py:170-172 | Take a validated update whose selection comes from the two choices. The edit page then shows each conditional field exactly when its kind is shown selected. |
| `Routes.RegisterKeepsUsersValid` | sgpe/main/routes.py:25-26 | Adding an account with free names, numbered next and made administrator only when it is the first, keeps the user invariant. |
| `Routes.AddKeepsProjectsValid` | sgpe/main/routes.py:91-105 | Filing a validated row under the next id keeps the project invariant. |
| `Routes.ReplaceKeepsProjectsValid` | sgpe/main/routes.py:150-160 | Overwriting a row with one of the same id and owner keeps the project invariant. |
| `Routes.PopulateProvinceChoices` | sgpe/main/routes.py:130 | The loop builds exactly `ProvinceChoices`. |
| `Routes.PopulateDistrictChoices` | sgpe/main/routes.py:141-143 | Sets the prompt, then extends it to exactly `DistrictChoices`. |
| `Routes.PopulateAdminPostChoices` | sgpe/main/routes.py:145-147 | Sets the prompt, then extends it to exactly `AdminPostChoices`. |
| `Routes.PopulateLocationChoices` | sgpe/main/routes.py:75-81 | Fills both dependent dropdowns for the given province and district. |
| `Routes.PopulateNewProjectChoices` | sgpe/main/routes.py:65-85 | The creation page always lists the provinces. On a POST, the district and post dropdowns follow the submitted location; on a GET, they hold only their prompts. |
| `Routes.App.Register` | sgpe/main/routes.py:18-31 | A logged-in visitor is sent home. A submitted, valid form with a free username and e-mail adds account number n+1, which is the administrator exactly when no account existed. Otherwise nothing changes. |
| `Routes.App.NewProject` | sgpe/main/routes.py:57-109 | A non-administrator is denied, and the stored projects, the next id and the form are unchanged. The next id also stays unless a project is created. On a GET, the dependent dropdowns hold only their prompts; on a POST, they follow the submitted location. A project is created exactly on a validated POST, under a fresh id, owned by the current user. |
| `Routes.App.UpdateProject` | sgpe/main/routes.py:118-176 | An unknown id is not found, before the administrator check. The dropdowns follow the submitted location on a POST and the stored one on a GET. On a POST, the form's validation appends to the two error lists as `ProjectForm.Validate` does; otherwise they stay as they were. A validated POST overwrites only the ten form fields. A GET fills the form from the row. |
| `Routes.App.DeleteProject` | sgpe/main/routes.py:179-189 | An unknown id is not found; a non-administrator is denied. Otherwise exactly that row is removed. |
| `Routes.NonAdminChangesNothing` | sgpe/main/routes.py:60-62 | Creating, updating or deleting as a non-administrator leaves the stored projects unchanged. |
| `Routes.FirstRegistrationIsAdmin` | sgpe/main/routes.py:23-27 | A scenario built on the first-user rule, starting from the registration of `susan` in tests/test_main_routes.py: registering into an empty database succeeds, and the account is the administrator. A second account is not, and a taken username is refused. |

## Left out

- HTTP handling is not modelled: routing, templates, flash messages,
  redirects, JSON serialisation, and the dashboard's ordering and
  pagination (`home`).
- `login` and `logout` are not modelled. Password hashing and checking are
  a foreign library, and the session is Flask-Login's.
- The library validators are one input, `baseValid`: required fields,
  e-mail, length, confirmation, float and integer parsing, choice
  membership, and file uploads. So the model does not tie a submitted
  location to the dropdown lists it was built from.
- The location tree's data lives in `sgpe/locations.py`, which is not part
  of this model. The tree is a parameter.
- SQLAlchemy queries, sessions and commits are replaced by the in-memory
  `App` store.
- Ids come from a counter and are never reused. SQLite without
  AUTOINCREMENT may reuse the highest id after that row is deleted.
- `Forms.AsciiLower`: under another database, `lower()` may fold non-ASCII
  letters too. The model follows SQLite's default.
- Capacities are reals that are only copied, with no floating-point
  behaviour.
- The creation time is a parameter.
- Project types, contracts, contract items and allocations have no logic
  in the modelled files. The project-type form is not part of this model.
- The legacy root `app.py` and `forms.py` are an older, simpler version of
  the application. It has no administrator flag, no update or delete, no
  `", "` encoding and no location dropdowns. Only the registration
  uniqueness checks (`forms.py:12-22`) reappear there, and those are
  modelled through `sgpe/forms.py`.
- Configuration, application bootstrap and the test runner are not
  modelled.
- Concurrency and transactions are not modelled: each handler runs
  atomically on the store.
