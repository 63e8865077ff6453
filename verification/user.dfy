/** The example `User` model: its options, its fields with their
    validation settings, and its `beforeSave` hook, which derives the
    common name, the display name and the identity from the given name and
    surname. */
module UserModel {
  import opened Php
  import opened PhpArray
  import opened Dn
  import opened Directory
  import opened Results
  import opened Schema
  import opened Validation
  import opened Persistence

  /** The address pattern of `mail` and `mailalias`, delimiters included;
      the backslashes are part of the text. */
  const MailPattern: string := "#^[\\w.-]+@[\\w.-]+\\.[a-zA-Z]{2,6}$#"

  /** `User::$options` (examples/models/user.php:5-10): identified by `cn`,
      filed under `ou=users`, created with two object classes. */
  const UserOptions: Options :=
    Options([("cn", Str(""))], [("ou", Str("users"))], List(["inetOrgPerson", "mailAccount"]))

  /** A name that must be present, with a minimum and an intended maximum
      length, optionally unique. The maximum is written `maxlength`. */
  function NameRules(unique: bool, min: int, max: int): Rules
  {
    [("required", Flag(true))]
    + (if unique then [("unique", Flag(true))] else [])
    + [("minLength", Num(min)), ("maxlength", Num(max))]
  }

  const OptionalRules: Rules := [("required", Flag(false))]
  const PasswordRules: Rules := [("required", Flag(true))]
  const MailRules: Rules :=
    [("required", Flag(true)), ("unique", Flag(true)), ("maxlength", Num(100)), ("pattern", Text(MailPattern))]
  const MailAliasRules: Rules :=
    [("required", Flag(false)), ("maxlength", Num(100)), ("pattern", Text(MailPattern))]

  /** `User::$fields` (examples/models/user.php:13-70), in declaration
      order. The second `'unique' => true` of `uid` overwrites the first,
      so the key appears once. */
  const UserFields: Pairs<Rules> := [
    ("description", OptionalRules),
    ("givenname", NameRules(false, 1, 30)),
    ("sn", NameRules(false, 1, 30)),
    ("displayname", NameRules(true, 2, 62)),
    ("cn", NameRules(true, 2, 62)),
    ("uid", NameRules(true, 2, 30)),
    ("userpassword", PasswordRules),
    ("mail", MailRules),
    ("mailalias", MailAliasRules)
  ]

  const UserSchema: Schema := Schema(UserOptions, UserFields)

  /** `User` as `LdapEntry` actually sees it. The model file declares
      `$options` and `$fields` `static` (examples/models/user.php:5,13), but
      `LdapEntry` reads them through the object (ldapOrm.php:170,175,323,
      431,606), which finds no such instance property and yields `null`:
      every loop over them runs zero times, so no option is copied, no
      field is declared, and nothing is validated. */
  const StaticUserSchema: Schema := Schema(Options([], [], Null), [])

  /** With the static declarations, a new `User` object has no attribute
      at all, and `validate` accepts the blank user that the declared
      fields reject (its `givenname` is empty). */
  lemma StaticUserValidatesBlank(env: Env)
    ensures forall f :: Attribute(NewInstance(StaticUserSchema), f) == Null
    ensures Validate(NewInstance(UserSchema), StaticUserSchema.fields, env)
    ensures !Validate(NewInstance(UserSchema), UserFields, env)
  {
    var blank := NewInstance(UserSchema);
    UserFieldKeys();
    assert "givenname" == UserFieldNames[1];
    assert Attribute(blank, "givenname") == Str("");
    UserValidation(blank, env);
  }

  /** The full name the hook derives: given name, a space, surname. */
  function FullName(m: Instance): string
  {
    ToStr(Attribute(m, "givenname")) + " " + ToStr(Attribute(m, "sn"))
  }

  /** The full name always holds the separating space, so it is never
      empty in PHP's sense. */
  lemma FullNameNotEmpty(m: Instance)
    ensures !IsEmpty(Str(FullName(m)))
  {
    var full := FullName(m);
    assert full[|ToStr(Attribute(m, "givenname"))|] == ' ';
    assert "0"[0] != ' ';
  }

  /** `User::beforeSave` (examples/models/user.php:72-77): `cn` and
      `displayname` become the full name, and so does the identity, which
      is then the single component `cn=<full name>`. Nothing else changes. */
  function UserBeforeSave(m: Instance): (r: Instance)
    ensures Attribute(r, "cn") == Str(FullName(m)) && Attribute(r, "displayname") == Str(FullName(m))
    ensures forall k :: k != "cn" && k != "displayname" ==> Attribute(r, k) == Attribute(m, k)
    ensures r.dnPattern == [("cn", Str(FullName(m)))]
    ensures r.searchPath == m.searchPath && r.objectClass == m.objectClass && r.actualDn == m.actualDn
  {
    var full := FullName(m);
    var withCn := Put(m.values, "cn", Str(full));
    var both := Put(withCn, "displayname", Str(full));
    assert Get(both, "cn") == Get(withCn, "cn") by {
      assert "cn" != "displayname";
    }
    m.(values := both, dnPattern := [("cn", Str(full))])
  }

  /** The hook only reads fields it does not write, so running it again
      changes nothing. */
  lemma UserBeforeSaveIdempotent(m: Instance)
    ensures UserBeforeSave(UserBeforeSave(m)) == UserBeforeSave(m)
  {
    var h := UserBeforeSave(m);
    assert "givenname" != "cn" && "givenname" != "displayname" && "sn" != "cn" && "sn" != "displayname";
    assert FullName(h) == FullName(m);
    assert Get(h.values, "cn") == Some(Str(FullName(m)));
    PutSame(h.values, "cn", Str(FullName(m)));
    PutSame(h.values, "displayname", Str(FullName(m)));
  }

  /** `maxlength` is not the key `validate` reads (`maxLength`, looked up
      case-sensitively), so a name field gets a presence check, its minimum
      length check and, when marked, a uniqueness check, and no maximum. */
  lemma NameRulesPlan(f: string, unique: bool, min: int, max: int)
    ensures FieldPlan(f, NameRules(unique, min, max)) ==
      [Check(f, Presence), Check(f, MinLength(min))] + (if unique then [Check(f, Uniqueness)] else [])
  {
    NameRulesSettings(unique, min, max);
  }

  /** The settings a name field's validation reads: required, the minimum
      under `minLength`, no `maxLength` (the maximum is written
      `maxlength`, and keys are case-sensitive), no pattern, and `unique`
      when marked. */
  lemma NameRulesSettings(unique: bool, min: int, max: int)
    ensures var rules := NameRules(unique, min, max);
      && Flagged(rules, "required")
      && Bound(rules, "minLength") == Some(min)
      && Bound(rules, "maxLength") == None
      && Get(rules, "pattern") == None
      && (Flagged(rules, "unique") <==> unique)
  {
    var front: Rules := [("required", Flag(true))] + (if unique then [("unique", Flag(true))] else []);
    var back: Rules := [("minLength", Num(min)), ("maxlength", Num(max))];
    assert NameRules(unique, min, max) == front + back;
    FrontSettings(unique);
    BackSettings(min, max);
    GetAppend(front, back, "required");
    GetAppend(front, back, "unique");
    GetAppend(front, back, "minLength");
    GetAppend(front, back, "maxLength");
    GetAppend(front, back, "pattern");
  }

  /** The flags at the head of a name field's settings. */
  lemma FrontSettings(unique: bool)
    ensures var front: Rules := [("required", Flag(true))] + (if unique then [("unique", Flag(true))] else []);
      && Get(front, "required") == Some(Flag(true))
      && Get(front, "unique") == (if unique then Some(Flag(true)) else None)
      && Get(front, "minLength") == None && Get(front, "maxLength") == None && Get(front, "pattern") == None
  {
  }

  /** The bounds at the tail of a name field's settings: `maxlength` is
      not `maxLength`. */
  lemma BackSettings(min: int, max: int)
    ensures var back: Rules := [("minLength", Num(min)), ("maxlength", Num(max))];
      && Get(back, "minLength") == Some(Num(min))
      && Get(back, "maxLength") == None && Get(back, "pattern") == None
  {
    assert "maxLength" != "maxlength" by {
      assert "maxLength"[3] != "maxlength"[3];
    }
  }

  /** What a name field demands: presence, at least `min` bytes and at
      most the default 1024 (not `max`), and uniqueness when marked. */
  lemma NameFieldPasses(m: Instance, f: string, unique: bool, min: int, max: int, env: Env)
    ensures FieldFailure(m, f, NameRules(unique, min, max), env).None? <==>
      && ValidatePresenceOf(m, f)
      && ValidateLengthOf(m, f, min, DefaultMaxLength)
      && (unique ==> ValidateUniquenessOf(m, f, env))
  {
    NameRulesSettings(unique, min, max);
    FieldPassesIff(m, f, NameRules(unique, min, max), env);
  }

  /** The settings of `mail`: required, unique, the address pattern, and
      no length bound that validation reads. */
  lemma MailSettings()
    ensures Flagged(MailRules, "required") && Flagged(MailRules, "unique")
    ensures Bound(MailRules, "minLength") == None && Bound(MailRules, "maxLength") == None
    ensures Get(MailRules, "pattern") == Some(Text(MailPattern))
  {
    var rules := MailRules;
    assert "maxLength" != "maxlength" by {
      assert "maxLength"[3] != "maxlength"[3];
    }
    assert Get(rules, "maxLength") == None;
    assert Get(rules, "minLength") == None;
    assert rules[3..] == [("pattern", Text(MailPattern))];
    assert Get(rules[3..], "pattern") == Some(Text(MailPattern));
    assert Get(rules[2..], "pattern") == Some(Text(MailPattern));
    assert rules[1..][1..] == rules[2..] && rules[1..][0] == rules[1];
    assert Get(rules[1..], "pattern") == Some(Text(MailPattern));
  }

  /** What `mail` demands: presence, a match of the address pattern, and
      uniqueness; its `maxlength` is not read. */
  lemma MailPasses(m: Instance, env: Env)
    ensures FieldFailure(m, "mail", MailRules, env).None? <==>
      && ValidatePresenceOf(m, "mail")
      && ValidateFormatOf(m, "mail", Text(MailPattern), env.matches)
      && ValidateUniquenessOf(m, "mail", env)
  {
    MailSettings();
    FieldPassesIff(m, "mail", MailRules, env);
  }

  /** `description` and `mailalias` are never checked, `userpassword` only
      for presence. */
  lemma OtherFieldsPass(m: Instance, env: Env)
    ensures FieldFailure(m, "description", OptionalRules, env).None?
    ensures FieldFailure(m, "mailalias", MailAliasRules, env).None?
    ensures FieldFailure(m, "userpassword", PasswordRules, env).None? <==> ValidatePresenceOf(m, "userpassword")
  {
    assert Get(MailAliasRules, "unique") == None;
    assert Get(OptionalRules, "unique") == None;
    assert Bound(PasswordRules, "minLength") == None && Bound(PasswordRules, "maxLength") == None;
    assert Get(PasswordRules, "pattern") == None;
    FieldPassesIff(m, "userpassword", PasswordRules, env);
  }

  /** `validate` on a user passes exactly when each of its nine fields
      passes. */
  lemma UserFieldsEach(m: Instance, env: Env)
    ensures Validate(m, UserFields, env) <==>
      && FieldFailure(m, "description", OptionalRules, env).None?
      && FieldFailure(m, "givenname", NameRules(false, 1, 30), env).None?
      && FieldFailure(m, "sn", NameRules(false, 1, 30), env).None?
      && FieldFailure(m, "displayname", NameRules(true, 2, 62), env).None?
      && FieldFailure(m, "cn", NameRules(true, 2, 62), env).None?
      && FieldFailure(m, "uid", NameRules(true, 2, 30), env).None?
      && FieldFailure(m, "userpassword", PasswordRules, env).None?
      && FieldFailure(m, "mail", MailRules, env).None?
      && FieldFailure(m, "mailalias", MailAliasRules, env).None?
  {
    var fs := UserFields;
    ValidateCons(m, fs, env);
    ValidateCons(m, fs[1..], env);
    ValidateCons(m, fs[2..], env);
    ValidateCons(m, fs[3..], env);
    ValidateCons(m, fs[4..], env);
    ValidateCons(m, fs[5..], env);
    ValidateCons(m, fs[6..], env);
    ValidateCons(m, fs[7..], env);
    ValidateCons(m, fs[8..], env);
  }

  /** What `validate` demands of a user, all of it: the four name fields
      and `uid` present and within their minimum length (and 1024 bytes),
      `userpassword` present, `mail` present and matching the address
      pattern, and `displayname`, `cn`, `uid` and `mail` unique. The
      maxima the model file intends (30, 62, 100) are not enforced, and
      `description` and `mailalias` may hold anything. */
  lemma UserValidation(m: Instance, env: Env)
    ensures Validate(m, UserFields, env) <==>
      && ValidatePresenceOf(m, "givenname") && ValidateLengthOf(m, "givenname", 1, DefaultMaxLength)
      && ValidatePresenceOf(m, "sn") && ValidateLengthOf(m, "sn", 1, DefaultMaxLength)
      && ValidatePresenceOf(m, "displayname") && ValidateLengthOf(m, "displayname", 2, DefaultMaxLength)
      && ValidateUniquenessOf(m, "displayname", env)
      && ValidatePresenceOf(m, "cn") && ValidateLengthOf(m, "cn", 2, DefaultMaxLength)
      && ValidateUniquenessOf(m, "cn", env)
      && ValidatePresenceOf(m, "uid") && ValidateLengthOf(m, "uid", 2, DefaultMaxLength)
      && ValidateUniquenessOf(m, "uid", env)
      && ValidatePresenceOf(m, "userpassword")
      && ValidatePresenceOf(m, "mail") && ValidateFormatOf(m, "mail", Text(MailPattern), env.matches)
      && ValidateUniquenessOf(m, "mail", env)
  {
    UserFieldsEach(m, env);
    NameFieldPasses(m, "givenname", false, 1, 30, env);
    NameFieldPasses(m, "sn", false, 1, 30, env);
    NameFieldPasses(m, "displayname", true, 2, 62, env);
    NameFieldPasses(m, "cn", true, 2, 62, env);
    NameFieldPasses(m, "uid", true, 2, 30, env);
    MailPasses(m, env);
    OtherFieldsPass(m, env);
  }

  /** The names `User` declares, in order. */
  const UserFieldNames: seq<string> :=
    ["description", "givenname", "sn", "displayname", "cn", "uid", "userpassword", "mail", "mailalias"]

  lemma UserFieldKeys()
    ensures Keys(UserFields) == UserFieldNames
  {
  }

  /** No user field collides with a key `save` sets itself; `cn` and
      `displayname` are among them. */
  lemma UserFieldsPlain()
    ensures PlainFields(Keys(UserFields))
    ensures "cn" in Keys(UserFields) && "displayname" in Keys(UserFields)
  {
    UserFieldKeys();
    UserFieldNamesPlain();
  }

  lemma UserFieldNamesPlain()
    ensures PlainFields(UserFieldNames)
    ensures "cn" in UserFieldNames && "displayname" in UserFieldNames
  {
    assert UserFieldNames[3] == "displayname" && UserFieldNames[4] == "cn";
  }

  /** The DN a user is created under: `cn=<full name>,ou=users,` and the
      base DN. */
  lemma UserDn(rdn: Pairs<Value>, searchPath: Pairs<Value>, full: string, baseDn: string)
    requires rdn == [("cn", Str(full))] && searchPath == [("ou", Str("users"))]
    ensures DnOf(rdn, searchPath, baseDn) == "cn=" + full + ",ou=users," + baseDn
  {
    OneLevelDn("cn", full, "ou", "users", baseDn);
    UserDnText(full, baseDn);
  }

  lemma UserDnText(full: string, baseDn: string)
    ensures "cn" + "=" + full + "," + ("ou" + "=" + "users" + "," + baseDn) == "cn=" + full + ",ou=users," + baseDn
  {
  }

  /** Saving a valid new user sends exactly one request: the add at
      `cn=<given name> <surname>,ou=users,<base DN>`. Stated for any field
      list that declares `cn` and none of the keys `save` sets itself, as
      `User`'s does. */
  lemma UserSaveSendsAdd(fields: Pairs<Rules>, inst: Instance, env: Env, srv: Server)
    requires PlainFields(Keys(fields)) && "cn" in Keys(fields)
    requires inst.actualDn.None? && inst.searchPath == [("ou", Str("users"))]
    requires Validate(UserBeforeSave(inst), fields, env)
    ensures var r := Save(Schema(UserOptions, fields), inst, UserBeforeSave, env, srv);
      var dn := "cn=" + FullName(inst) + ",ou=users," + env.baseDn;
      && r.calls == [Add(dn)]
      && (r.outcome == Created <==> ValidDn(dn) && Add(dn) !in srv.refused && dn !in srv.entries)
      && (r.outcome != Created ==> r.outcome == AddFailed && r.server == srv)
  {
    var m := UserBeforeSave(inst);
    var full := FullName(inst);
    FullNameNotEmpty(inst);
    assert Attribute(m, "cn") == Str(full);
    UserDn(m.dnPattern, m.searchPath, full, env.baseDn);
    SaveFreshSendsOneAdd(Schema(UserOptions, fields), inst, UserBeforeSave, env, srv, "cn");
  }

  /** The entry a save sends for a hooked user carries both object classes
      and the full name as `cn` and `displayname`. */
  lemma UserEntry(fields: seq<string>, inst: Instance, baseDn: string)
    requires PlainFields(fields) && "cn" in fields && "displayname" in fields
    requires inst.objectClass == List(["inetOrgPerson", "mailAccount"])
    ensures var e := EntryOf(fields, UserBeforeSave(inst), baseDn);
      && "objectClass" in e && e["objectClass"] == ["inetOrgPerson", "mailAccount"]
      && "cn" in e && e["cn"] == [FullName(inst)]
      && "displayname" in e && e["displayname"] == [FullName(inst)]
  {
    var m := UserBeforeSave(inst);
    FullNameNotEmpty(inst);
    EntryOfField(fields, m, baseDn, "cn");
    EntryOfField(fields, m, baseDn, "displayname");
    EntryOfClasses(fields, m, baseDn);
  }

  /** Saving a valid new `User` sends exactly one request, the add at
      `cn=<given name> <surname>,ou=users,<base DN>`; when it succeeds the
      entry there carries both object classes and the full name as `cn` and
      `displayname`. */
  lemma UserSaveCreates(inst: Instance, env: Env, srv: Server)
    requires inst.actualDn.None?
    requires inst.searchPath == [("ou", Str("users"))] && inst.objectClass == List(["inetOrgPerson", "mailAccount"])
    requires Validate(UserBeforeSave(inst), UserFields, env)
    ensures var r := Save(UserSchema, inst, UserBeforeSave, env, srv);
      var dn := "cn=" + FullName(inst) + ",ou=users," + env.baseDn;
      && r.calls == [Add(dn)]
      && (r.outcome == Created <==> ValidDn(dn) && Add(dn) !in srv.refused && dn !in srv.entries)
      && (r.outcome != Created ==> r.outcome == AddFailed && r.server == srv)
      && (r.outcome == Created ==>
            && dn in r.server.entries
            && r.server.entries[dn] == EntryOf(Keys(UserFields), UserBeforeSave(inst), env.baseDn))
  {
    UserFieldsPlain();
    UserSaveSendsAdd(UserFields, inst, env, srv);
    if Save(UserSchema, inst, UserBeforeSave, env, srv).outcome == Created {
      CreatedEntry(UserSchema, inst, UserBeforeSave, env, srv);
      UserDn(UserBeforeSave(inst).dnPattern, inst.searchPath, FullName(inst), env.baseDn);
    }
  }

  /** Saving a user a second time, after the first save created it: when
      the second validation's lookup `search2` still lets it through, the
      same add is sent again and fails, because `save` never learns the new
      entry's DN; otherwise the save is reported invalid. Nothing changes
      on the server either way. */
  lemma UserSecondSaveFails(inst: Instance, env: Env, search2: Search, srv: Server)
    requires Save(UserSchema, inst, UserBeforeSave, env, srv).outcome == Created
    ensures var first := Save(UserSchema, inst, UserBeforeSave, env, srv);
      var second := Save(UserSchema, first.model, UserBeforeSave, env.(search := search2), first.server);
      && second.server == first.server
      && (Validate(first.model, UserSchema.fields, env.(search := search2)) ==>
            second.outcome == AddFailed && second.calls == first.calls)
      && (!Validate(first.model, UserSchema.fields, env.(search := search2)) ==>
            second.outcome.Invalid? && second.calls == [])
  {
    UserBeforeSaveIdempotent(inst);
    SecondSaveAfterCreateFails(UserSchema, inst, UserBeforeSave, env, search2, srv);
  }
}
