# ldapOrm in Dafny

A model of the core of ldapOrm, a PHP micro object-directory mapper. A
*model* is a PHP class that declares:

- its `$options`: the RDN pattern, the search path under the base DN, and
  the object classes;
- its `$fields`: the attributes it holds, each with validation settings.

The engine (`LdapEntry`) does the following:

- **populate**: fills a model from the first entry a `findOneBy` search
  returns, and remembers the entry's identity (`actualDn`);
- **validate**: checks each field in declaration order and stops at the
  first failure. The checks are presence, minimum and maximum byte length,
  pattern, and uniqueness;
- **save**: runs the model's `beforeSave` hook, builds the *object array*
  (the old DN, the new RDN, the new DN, the object classes and every
  declared field), validates it, and then writes:
  - **create**: an `ldap_add` at the new DN, for a model that was not
    populated;
  - **update**: for a populated model, an `ldap_rename` to the new RDN and
    then an `ldap_mod_replace` at the new DN;
- **attributesArrayFilter**: drops the bookkeeping keys and the empty
  values from the object array before it is sent;
- **entryToArray** and **entriesToArray**: turn raw search results into
  flat arrays keyed by the lowercased attribute name. A value list with
  exactly one value becomes a scalar.

DNs and search filters are built by `arrayToDn` from arrays of
`key => value` components. The base DN comes from the domain:
`foo.example.com` gives `dc=foo,dc=example,dc=com`. The example `User`
model supplies a concrete schema. Its hook derives `cn`, `displayname`
and the RDN from the given name and the surname.

The model is organised as follows:

| module | file | what it holds |
|---|---|---|
| `Php` | `php.dfy` | `empty()`, string conversion, `strlen` in UTF-8 bytes, ASCII `strtolower` |
| `PhpArray` | `php_array.dfy` | PHP arrays with string keys, as ordered pairs: assignment (`Put`) and `array_merge` (`Merge`) |
| `Dn` | `dn.dfy` | `arrayToDn` and the base DN, with `Join`/`Split` as the reference layout and its inverse |
| `Directory` | `directory.dfy` | the directory server as a value: entries by DN, the add, rename and replace requests, and the requests it refuses |
| `Results` | `results.dfy` | normalising search results, and the query `findOneBy` issues |
| `Schema` | `schema.dfy` | settings, options, fields, the live model instance, and the engine's constructor |
| `Validation` | `validation.dfy` | the checks, and `validate` |
| `Persistence` | `persistence.dfy` | the filter, the object array, create, update, save, populate |
| `UserModel` | `user.dfy` | the example `User` model |

The partner of `validate` is `Validation.Plan`, a flat reference list of
checks, together with a generic "first failing check" over it. The lemmas
prove that the engine's nested walk stops at exactly that check. The
partner of `arrayToDn` is `Join`, and `Split` inverts it.

`save` is one pure function of these inputs:

- the schema;
- the instance;
- the hook;
- an environment holding the base DN, the search function and the
  regular-expression matcher;
- the server.

It returns the outcome, the write requests in order, the server after the
writes, and the model after the hook.

Where the documented intent and the code differ, the model follows the
code:

- **`save` returns nothing.** It returns `null` on every path that does
  not throw. A failed write throws through `ldapError`. The model
  reports that as an `Outcome` value.
- **`actualDn` is never refreshed after a save.** A second save of a model
  just created is validated afresh. If it validates again, it repeats the
  add, and that add fails; otherwise it is reported invalid.
- **Uniqueness is looked up through the engine object, not through the
  model.** The search is under the base DN alone, with an empty attribute
  list.
- **Nothing is escaped** in DNs or filters.
- **`afterSave` is never called.** It follows a `return`.
- **The `User` model's maxima are never enforced.** The model writes the
  maximum length as `maxlength`, but `validate` reads `maxLength`. So only
  the 1024-byte default bound applies.
- **`attributesArrayFilter` returns `null` only when `$entry` was never
  created.** That happens when every non-bookkeeping value is an empty
  list. Any scalar creates `$entry`, even `null`, `""` or `"0"`, which is
  then unset again. So an entry left empty by the filter is still sent,
  and only a `null` result makes `ldap_add` or `ldap_mod_replace` fail
  without a request.
- **`update` does not stop after a successful rename.** When the
  replace then fails, the entry stays renamed.
- **The rename deletes the old RDN value** (`deleteoldrdn` is set). A
  replace removes an attribute only when it is sent with no value, which
  the filter never does. So emptying a field on a populated model keeps
  its stored values.
- **A comma inside an identity value is not escaped.** It makes the DN
  malformed, so a model filed under such a DN can never be updated.

## Model

| member | source | states |
|---|---|---|
| Php.StrLen | ldapOrm.php:687 | `strlen` counts UTF-8 bytes: at least one and at most four per character |
| Php.StrLenAppend | ldapOrm.php:687 | the byte length of a concatenation is the sum of the byte lengths |
| Php.AsciiStrLen | ldapOrm.php:687 | for ASCII text, the byte length equals the character count |
| Php.Lower | ldapOrm.php:582 | `strtolower` maps each character on its own, an ASCII capital to its small letter and anything else to itself, so no ASCII capital is left |
| Php.LowerIdempotent | ldapOrm.php:582 | lowercasing a name that is already lowercased changes nothing |
| PhpArray.Get | ldapOrm.php:607 | a key reads as absent exactly when it is not set |
| PhpArray.Put | ldapOrm.php:582 | assignment keeps an existing key in place, appends a new key, and changes no other key |
| PhpArray.PutSame | ldapOrm.php:582 | assigning a key the value it already holds leaves the array unchanged |
| PhpArray.PutWellFormed | ldapOrm.php:582 | assignment never duplicates a key |
| PhpArray.PutEach | ldapOrm.php:175-178 | after a loop of assignments, each named key holds its value and every other key is unchanged |
| PhpArray.Merge | ldapOrm.php:425 | `array_merge` lists the first array's keys in order, then each key of the second array that is new, in order of first occurrence; a key the second array does not set keeps the first array's value |
| PhpArray.AppendedSnoc | ldapOrm.php:425 | one more key of the second array is listed after the others exactly when it has not been seen |
| PhpArray.MergeReads | ldapOrm.php:425 | after `array_merge`, the second array wins on every key it sets and the first array supplies every other key |
| PhpArray.MergeDisjoint | ldapOrm.php:428 | `array_merge` of two arrays with no shared key is their concatenation |
| PhpArray.GetAppend | ldapOrm.php:425-431 | a key of the front part of an array is read from there, and any other key from the rest |
| Dn.ArrayToDn | ldapOrm.php:107-122 | the empty array gives `""`; otherwise the components joined by commas, with a trailing comma exactly when requested |
| Dn.AppendFrom | ldapOrm.php:113-117 | definition, no contract: the `foreach` of `arrayToDn`; `Dn.ArrayToDn` states what it builds |
| Dn.ArrayToDnSingle | ldapOrm.php:113-119 | a one-component array gives `key=value`, plus the trailing comma when requested |
| Dn.TrailingComma | ldapOrm.php:119 | for a non-empty array, the trailing-comma form is the plain form followed by one comma |
| Dn.SplitJoin | ldapOrm.php:113-117 | cutting joined comma-free parts at commas gives the parts back |
| Dn.SplitArrayToDn | ldapOrm.php:107-122 | a DN built without a trailing comma from comma-free components splits back into exactly those components |
| Dn.ArrayToDnAppend | ldapOrm.php:425 | with trailing commas, the DN of concatenated arrays is the concatenation of their DNs |
| Dn.BaseDn | ldapOrm.php:43 | the base DN is one `dc=` component per dot-separated label of the domain, in order, joined by commas |
| Directory.BeforeFirst | ldapOrm.php:480 | the text before the first separator is the prefix that ends just before the first separator, or the whole text when there is none |
| Directory.SplitAtFirst | ldapOrm.php:480 | the text before the first separator, that separator and the text after it make up the whole text |
| Directory.AfterFirst | ldapOrm.php:480 | the text after the first separator is a suffix of the input that directly follows a separator, with none before it; with no separator it is empty |
| Directory.Without | ldapOrm.php:480 | the remaining values are exactly those other than the deleted one |
| Directory.RemoveValue | ldapOrm.php:480 | deleting one value of an attribute keeps its other values, removes the attribute when none is left, and touches no other attribute |
| Directory.AddValue | ldapOrm.php:480 | adding a value keeps the attribute's values and adds the new one, and touches no other attribute |
| Directory.MoveRdn | ldapOrm.php:480 | a rename that deletes the old RDN leaves the new RDN value present and the old one gone, and every other attribute unchanged |
| Directory.Replaced | ldapOrm.php:482 | after a replace, each attribute sent holds exactly the values sent, one sent with none is gone, and every other attribute is unchanged |
| Directory.AddEntry | ldapOrm.php:465 | an add succeeds exactly when the DN is well formed and free and the request is not refused; it then stores the entry at that DN and changes nothing else |
| Directory.RenameEntry | ldapOrm.php:480 | a rename succeeds exactly when it is not refused, both names are well formed, the entry exists, and the target is free or is the entry itself; the entry then moves to the new RDN under the old parent with its RDN values exchanged, the old DN is freed, and no other entry changes |
| Directory.ReplaceAttrs | ldapOrm.php:482 | a replace succeeds exactly when the DN is well formed, the entry exists and the request is not refused; it then replaces the sent attributes of that entry and changes no other entry |
| Directory.RenameTarget | ldapOrm.php:480 | definition, no contract: the new RDN under the old DN's parent; `Persistence.RenameKeepsParent` and `Persistence.RenameLandsOnNewDn` state where it lands |
| Directory.AfterFirstSkips | ldapOrm.php:480 | the parent of `x,rest`, where `x` holds no comma, is `rest` |
| Results.Collapse | ldapOrm.php:549-555 | exactly one value becomes a scalar, any other count stays a list, and expanding the result gives the values back |
| Results.CollapseExpand | ldapOrm.php:549-555 | collapsing an expanded read value gives the value back |
| Results.EntryToArray | ldapOrm.php:577-591 | the keys are exactly the lowercased attribute names, each once; the result is empty exactly when the entry is |
| Results.EntryToArrayGet | ldapOrm.php:577-591 | when no two names differ only by case, each attribute is found under its lowercased name with its collapsed values |
| Results.FirstEntryToArray | ldapOrm.php:572-595 | with no entry the result is empty; otherwise it is the first entry normalised, which is empty exactly when that entry has no attribute |
| Results.EntriesToArray | ldapOrm.php:538-563 | no row is empty, and there are at most as many rows as entries |
| Results.EntriesToArrayEach | ldapOrm.php:538-563 | when every entry has an attribute, the rows are the entries normalised, one per entry, in order |
| Results.Attributed | ldapOrm.php:559 | the entries that have an attribute, each one kept, none added |
| Results.EntriesToArraySkipsEmpty | ldapOrm.php:559 | an entry with no attribute contributes no row |
| Results.EntriesToArrayRows | ldapOrm.php:538-563 | the rows are exactly the entries that have an attribute, normalised, one per entry, in order |
| Results.FindOneByQuery | ldapOrm.php:397-403 | the search is based at the search path followed by the base DN; its filter is the components in parentheses; it fetches the model's attributes |
| Results.FindOneBy | ldapOrm.php:395-411 | the result is absent exactly when the search fails; it is empty exactly when nothing matched or the first match has no attribute |
| Schema.Bound | ldapOrm.php:612-619 | a bound is present exactly when the setting under exactly that key is an integer, and is that integer |
| Schema.AttributesToFetch | ldapOrm.php:175-178 | the searches fetch exactly the declared fields |
| Schema.Blank | ldapOrm.php:175-178 | every named attribute is set to `""` and every other attribute keeps its value |
| Schema.NewInstance | ldapOrm.php:170-179 | a new model has every declared field set to `""`, no other attribute, its options copied, and no `actualDn` |
| Validation.LengthsWithin | ldapOrm.php:685-691 | the loop passes exactly when every string's byte length lies within the bounds |
| Validation.ValidateLengthOf | ldapOrm.php:681-694 | passes exactly when every element of an array value, or the scalar itself, has a byte length within the bounds |
| Php.Subjects | ldapOrm.php:683-693 | the per-element checks have no string to test exactly when the value is an empty array; a scalar, even `null` or `""`, is tested as one string |
| Validation.PregMatch | ldapOrm.php:711 | definition, no contract: a string pattern matches as the regular-expression engine says; a number or boolean pattern matches nothing |
| Validation.AllMatch | ldapOrm.php:709-714 | the loop passes exactly when the pattern matches every string |
| Validation.ValidateFormatOf | ldapOrm.php:705-717 | passes exactly when the pattern matches every element of an array value, or the scalar itself |
| Validation.NonTextPatternFails | ldapOrm.php:705-717 | with a number or boolean pattern, the format check passes only on an empty array |
| Validation.ValidatePresenceOf | ldapOrm.php:645-648 | definition, no contract: the attribute is not `empty()` |
| Validation.ValidateUniquenessOf | ldapOrm.php:658-669 | definition, no contract; `Validation.UniquenessVerdict` states its verdict |
| Validation.RequiredFailure | ldapOrm.php:609-626 | definition, no contract; `Validation.RequiredFailureIsFirstFailing` relates it to the reference order |
| Validation.FieldFailure | ldapOrm.php:607-632 | definition, no contract; `Validation.FieldFailureIsFirstFailing` and `Validation.FieldPassesIff` state its meaning |
| Validation.FirstFailure | ldapOrm.php:604-635 | definition, no contract; `Validation.FirstFailureIsFirstFailing` and `Validation.FirstFailureIsEarliest` state its meaning |
| Validation.Validate | ldapOrm.php:604-635 | definition, no contract; `Validation.ValidateIffAllPass` and `Validation.ValidateIffEveryField` state its meaning |
| Validation.UniquenessQuery | ldapOrm.php:660 | the uniqueness lookup searches the whole base DN for `(field=value)` and fetches all attributes |
| Validation.UniquenessVerdict | ldapOrm.php:658-669 | uniqueness passes when the lookup fails or finds nothing; otherwise exactly when the entry found has the model's current `cn` |
| Validation.FirstFailingIndex | ldapOrm.php:606-633 | the reference walk: every check before the returned position passes, and the check at it fails |
| Validation.FirstFailingAppend | ldapOrm.php:606-633 | the first failing check of two lists in sequence is the first list's, or else the second list's |
| Validation.RequiredFailureIsFirstFailing | ldapOrm.php:609-626 | a required field fails on exactly the first failing check among presence, minimum length, maximum length and pattern, in that order |
| Validation.FieldFailureIsFirstFailing | ldapOrm.php:607-632 | one field fails on exactly the first failing check of its required checks followed by uniqueness |
| Validation.FirstFailureIsFirstFailing | ldapOrm.php:604-635 | the nested walk over the fields stops at exactly the first failing check of the flat reference order |
| Validation.ValidateIffAllPass | ldapOrm.php:604-635 | `validate` is true exactly when every check in the reference order passes |
| Validation.FirstFailureIsEarliest | ldapOrm.php:604-635 | the failure reported is a check that fails, and every check ordered before it passes |
| Validation.ValidateIffEveryField | ldapOrm.php:604-635 | `validate` is true exactly when no field's checks fail |
| Validation.FieldPassesIff | ldapOrm.php:607-632 | a field passes exactly when it is present, within its set bounds and matching its set pattern if required, and unique if marked unique |
| Validation.RequiredNonTextPatternFails | ldapOrm.php:622-626 | a required field whose `pattern` setting is a number or a boolean never passes |
| Persistence.AttributesArrayFilter | ldapOrm.php:509-529 | an entry survives exactly when its key is not bookkeeping and its value is not empty; order is kept and no key is invented |
| Persistence.FilterAppend | ldapOrm.php:511-526 | the filter treats each entry on its own, so it distributes over concatenation |
| Persistence.FilterIdempotent | ldapOrm.php:509-529 | filtering an already filtered array changes nothing |
| Persistence.FilterGet | ldapOrm.php:509-529 | after filtering, a key reads as absent when it is bookkeeping or its value is empty, and as its original value otherwise |
| Persistence.FilterWellFormed | ldapOrm.php:509-529 | filtering never duplicates a key |
| Persistence.FilterStep | ldapOrm.php:511-521 | definition, no contract: one pass of the loop over `$entry`, which stays uncreated for a bookkeeping key or an empty array |
| Persistence.FilterFrom | ldapOrm.php:511-522 | definition, no contract; `Persistence.FilterFromMeaning` states what the whole loop computes |
| Persistence.FilterFromMeaning | ldapOrm.php:511-525 | the loop appends the filtered entries to what `$entry` held, and leaves it uncreated exactly when it was and every non-bookkeeping value is an empty list |
| Persistence.FilteredEntry | ldapOrm.php:509-529 | the function returns `null` exactly when every non-bookkeeping value is an empty list, and otherwise the filtered entry |
| Persistence.FilteredEntryKeeps | ldapOrm.php:509-529 | whenever some entry survives the filter, the result is not `null` |
| Persistence.ToAttrs | ldapOrm.php:465 | definition, no contract: the filtered entry as the attribute map `ldap_add` and `ldap_mod_replace` receive, a scalar as one value |
| Persistence.DnOf | ldapOrm.php:425-428 | definition, no contract; `Persistence.DnOfSplits` and `Persistence.OneLevelDn` state its shape |
| Persistence.Header | ldapOrm.php:424-430 | the object array starts with the old DN (when populated), the new RDN, the new DN and the object classes, each once |
| Persistence.ObjectArray | ldapOrm.php:424-433 | the object array holds each declared field's current value, plus the DN texts and the object classes, and no other key |
| Persistence.ObjectArrayTexts | ldapOrm.php:425-428 | the old DN and the new DN name the RDN under the search path and the base DN; the new RDN has no trailing comma |
| Persistence.Create | ldapOrm.php:461-467 | create sends the add exactly when the filter did not return `null`, and succeeds exactly when it sent it, the DN is well formed and free, and the add is not refused; it then stores the filtered entry and changes nothing else |
| Persistence.Update | ldapOrm.php:476-487 | update renames first; a failed rename changes nothing; the replace is sent exactly when the rename succeeded and the filter did not return `null`; a full success replaces the sent attributes in the renamed entry |
| Persistence.ReplaceAfterRename | ldapOrm.php:482-484 | after a successful rename, the replace is sent exactly when the filter did not return `null`, and succeeds exactly when the DN is well formed, present and not refused; it then replaces the sent attributes |
| Persistence.Save | ldapOrm.php:420-447 | an invalid model is reported with its first failing check and causes no write; a valid model is created when not populated and updated otherwise; `actualDn` is left as it was |
| Persistence.Write | ldapOrm.php:438-441 | a populated model is updated and sends no add; any other model is created and sends only adds |
| Persistence.CaptureIdentity | ldapOrm.php:323-326 | each pattern key the record holds is copied into `actualDn`, every other key keeps its earlier value, and `actualDn` stays unset when nothing is copied |
| Persistence.Populate | ldapOrm.php:314-327 | a failed search leaves the model unchanged; otherwise every attribute of the record is copied onto the model, all others are kept, and the identity is recorded |
| Persistence.SentAttribute | ldapOrm.php:509-529 | a key is sent exactly when it is not bookkeeping and its value is not empty; it is sent as that value's non-empty list of strings |
| Persistence.EntryOfContents | ldapOrm.php:427-433 | the entry sent holds exactly the non-empty declared fields and the object classes (if any), each with its values |
| Persistence.EntryOfField | ldapOrm.php:431-432 | a declared field is sent exactly when its value is not empty, and is sent with its values |
| Persistence.EntryOfClasses | ldapOrm.php:430 | the object classes are sent exactly when they are not empty |
| Persistence.SaveFreshCreates | ldapOrm.php:438-467 | a valid new model sends at most the one add at its new DN, and succeeds exactly when it sent it and that DN is well formed, free and not refused; success stores exactly the filtered object array there; failure changes nothing |
| Persistence.SaveFreshSilent | ldapOrm.php:461-467 | a valid new model sends no request exactly when its object classes and every declared field are empty lists |
| Persistence.UncreatedIff | ldapOrm.php:509-529 | an array whose non-bookkeeping keys are given leaves `$entry` uncreated exactly when each of those keys holds an empty list |
| Persistence.ObjectArrayUncreated | ldapOrm.php:424-433 | the object array leaves `$entry` uncreated exactly when the object classes and every declared field are empty lists |
| Persistence.SaveFreshSendsOneAdd | ldapOrm.php:438-467 | a valid new model with a non-empty declared field sends exactly one add, which succeeds exactly when its DN is well formed, free and not refused; the entry then holds that field and the object classes |
| Persistence.CreatedEntry | ldapOrm.php:461-467 | after a successful create, the entry at the new DN is exactly the entry sent |
| Persistence.SaveExistingRenamesThenReplaces | ldapOrm.php:476-487 | a valid populated model renames from the old DN to the new RDN, then replaces at the new DN; a failed rename changes nothing |
| Persistence.OneLevelDn | ldapOrm.php:428 | one RDN component under a one-component search path renders as `k=v,ck=cv,` followed by the base DN |
| Persistence.DnOfSplits | ldapOrm.php:425-428 | a full DN is the RDN without a trailing comma, a comma, and then the search path followed by the base DN |
| Persistence.RenameKeepsParent | ldapOrm.php:480 | renaming keeps everything after the first comma of the old DN |
| Persistence.RenameLandsOnNewDn | ldapOrm.php:480-482 | when the old RDN value holds no comma, the rename lands exactly on the DN the replace then addresses |
| Persistence.DnMalformedWithCommaInValue | ldapOrm.php:425 | an identity value holding a comma, with no `=` after it, makes the old DN malformed |
| Persistence.SaveRefusedWithCommaInValue | ldapOrm.php:476-487 | a valid populated model whose identity value holds such a comma sends the rename alone, which fails, and nothing changes |
| Persistence.DoeJohnNeverRenamed | ldapOrm.php:480 | no rename from the DN of `cn=Doe, John` under `ou=users` succeeds |
| Persistence.UpdateInPlace | ldapOrm.php:476-487 | when the rename lands on the new DN, update moves the entry there with its RDN values exchanged, sets each sent attribute to exactly the sent values, keeps every attribute neither sent nor named by an RDN, and frees the old DN |
| Persistence.SentNonEmpty | ldapOrm.php:517-525 | every attribute that survives the filter is sent with at least one value |
| Persistence.SaveKeepsEmptiedField | ldapOrm.php:522-525 | a field emptied on a populated model is not sent, so after the update it holds what the renamed entry held, which is its old stored value unless the field names an RDN |
| Persistence.SecondSaveAfterCreateFails | ldapOrm.php:438-441 | a created model still has no `actualDn`; saving it again, with a fresh lookup, repeats the same add, which fails, if it validates again, and is reported invalid otherwise; nothing changes either way |
| UserModel.FullNameNotEmpty | examples/models/user.php:74 | the full name always holds the separating space, so it is never empty |
| UserModel.UserBeforeSave | examples/models/user.php:72-77 | the hook sets `cn`, `displayname` and the RDN to the given name, a space and the surname, and changes nothing else |
| UserModel.UserBeforeSaveIdempotent | examples/models/user.php:72-77 | running the hook twice gives the same model as running it once |
| UserModel.NameRulesSettings | examples/models/user.php:19-52 | a name field is read as required, with a minimum length, no maximum (`maxlength` is not `maxLength`) and no pattern |
| UserModel.NameRulesPlan | examples/models/user.php:19-52 | a name field is checked for presence and minimum length, and for uniqueness when marked, and for nothing else |
| UserModel.NameFieldPasses | examples/models/user.php:19-52 | a name field passes exactly when it is present, within its minimum and 1024 bytes, and unique when marked |
| UserModel.MailSettings | examples/models/user.php:57-63 | `mail` is read as required and unique with the address pattern, and with no length bound |
| UserModel.MailPasses | examples/models/user.php:57-63 | `mail` passes exactly when it is present, matches the address pattern and is unique |
| UserModel.OtherFieldsPass | examples/models/user.php:15-69 | `description` and `mailalias` always pass; `userpassword` passes exactly when present |
| UserModel.UserFieldsEach | examples/models/user.php:13-70 | a user validates exactly when each of its nine fields passes |
| UserModel.UserValidation | examples/models/user.php:13-70 | the complete set of conditions under which a user validates; none of the declared maxima is among them |
| UserModel.UserFieldKeys | examples/models/user.php:13-70 | the user's fields, in declaration order |
| UserModel.UserFieldsPlain | examples/models/user.php:13-70 | no user field collides with a key `save` sets itself, and `cn` and `displayname` are declared |
| UserModel.UserDn | examples/models/user.php:7-8 | a user's DN is `cn=<full name>,ou=users,` followed by the base DN |
| UserModel.UserSaveSendsAdd | ldapOrm.php:438-467 | a valid new user sends exactly one add, at its `cn` DN under `ou=users`; the add succeeds exactly when that DN is well formed, free and not refused |
| UserModel.UserEntry | examples/models/user.php:9 | the entry sent for a user carries both object classes and the full name as `cn` and `displayname` |
| UserModel.UserSaveCreates | ldapOrm.php:420-467 | a valid new user is created at `cn=<full name>,ou=users,<base DN>` with exactly its filtered attributes |
| UserModel.UserSecondSaveFails | ldapOrm.php:438-441 | saving a freshly created user again, with a fresh lookup, sends the same add, which fails, if it validates again, and is reported invalid otherwise; nothing changes either way |
| UserModel.StaticUserValidatesBlank | examples/models/user.php:5-13 | read as the engine reads them, the static declarations give a new user no attribute, and `validate` accepts the blank user that the declared fields reject |

## Findings

| source | as written | input that shows it | evidently intended | confidence | as-written member | corrected member |
|---|---|---|---|---|---|---|
| examples/models/user.php:5-13 | `$options` and `$fields` are declared `static`, but the engine reads them through the object (ldapOrm.php:170, 175, 323, 431, 606), which finds no such instance property and reads `null`; every loop over them runs zero times | a new `User` whose fields are all `""`: `validate` accepts it | the declared options are copied and the declared fields are set, fetched, sent and validated | high; not executed | UserModel.StaticUserSchema, UserModel.StaticUserValidatesBlank | UserModel.UserSchema, UserModel.UserValidation |

## Left out

- The connection layer is not modelled: `connect`, `disconnect`,
  `setProtocolVersion` and the `ldap_connect` call in the constructor. It
  performs I/O and holds no logic of the mapping layer. The connection is
  assumed open.
- Loading models from a directory (`opendir`, `require_once`) is not
  modelled, because it is file-system I/O. `Schema.NewInstance` models
  what the loop does to each model once it is loaded.
- `ldapError` is not modelled as an exception. Each way a write can fail
  is an `Outcome` instead. Error numbers and messages come from the
  server and are left out.
- `ldap_search` is a parameter (`Env.search`). It is not derived from
  `Directory.Server`, because filter evaluation is the server's business.
  So the uniqueness and populate lookups are not tied to the entries that
  `save` writes.
- `preg_match` is a parameter (`Env.matches`) for string patterns,
  delimiters included. Regular-expression semantics are the PCRE
  library's, not this code's. Only the rejection of a number or boolean
  pattern, which never reaches the engine, is modelled.
- The server's reasons for refusing a write (schema, access control, a
  missing parent) are not modelled. They are abstracted as the `refused`
  set.
- `afterSave` is not modelled, because `save` returns before reaching it.
- `findAll`, `first`, `delete`, the magic `__call` accessors and the
  other getters and setters are not modelled. They are not part of the
  core modelled here.
- `Schema.Bound`: a length bound written as a string or a boolean is
  treated as absent. PHP would compare it loosely as a number.
- `Php.StrLen`: strings are sequences of Unicode characters, assumed to
  be UTF-8 encoded. PHP strings are raw bytes, and invalid UTF-8 is not
  modelled.
- `Results.FindOneBy`: its contract says only when the result is empty
  and that it is well formed. Its keys and values are given by the
  contracts of `Results.EntryToArray` and `Results.EntryToArrayGet`.
- `Results.EntryToArray`: attribute names that differ only in case
  collapse into one key, and the later value wins. Values are then stated
  only under the distinct-names condition of `Results.EntryToArrayGet`.
- Schema.NewInstance: it reads the declared options and fields, as the
  engine evidently intends, and not the `null` that the static
  declarations give (see Findings). The rows of `Persistence.Populate`,
  `Persistence.Save` and every `UserModel` lemma except
  `UserModel.StaticUserValidatesBlank` rest on this reading.
- Directory.ValidDn: a DN is checked only as comma-separated
  `type=value` parts with a non-empty type. Escapes, multi-valued RDNs
  and the syntax of types and values (section 3 of RFC 4514) are not
  modelled.
- Directory.MoveRdn: attribute types and values are compared exactly.
  LDAP compares types case-insensitively and values by their matching
  rules.
- Directory.RenameEntry: a rename with a new superior is not modelled,
  because `update` always passes none.
- PHP's in-place mutation of the model object is modelled as returning a
  new `Instance`. The constructor's `$this->$entry->$option = $value`
  copies are the fields of `Instance`.
