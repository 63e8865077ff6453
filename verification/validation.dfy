/** The validation pipeline `save` runs before any write: presence,
    length, format and uniqueness checks, walked in field-declaration
    order and stopping at the first failure. */
module Validation {
  import opened Php
  import opened PhpArray
  import opened Dn
  import opened Directory
  import opened Results
  import opened Schema

  /** `preg_match($pattern, $subject)`: the pattern, delimiters included,
      and the subject. Regular-expression semantics are a parameter. */
  type Matcher = (string, string) -> bool

  /** What validation consults besides the model: the base DN, the
      server's search and the regular-expression engine. */
  datatype Env = Env(baseDn: string, search: Search, matches: Matcher)

  datatype Rule =
    | Presence
    | MinLength(min: int)
    | MaxLength(max: int)
    | Format(pattern: Setting)
    | Uniqueness

  /** One check of one field. */
  datatype Check = Check(field: string, rule: Rule)

  /** The upper bound `validateLengthOf` applies when none is passed
      (ldapOrm.php:681). */
  const DefaultMaxLength: int := 1024

  /** `validatePresenceOf` (ldapOrm.php:645-648). */
  predicate ValidatePresenceOf(inst: Instance, field: string)
  {
    !IsEmpty(Attribute(inst, field))
  }

  /** The byte length of `x` lies within `[min, max]`. */
  predicate LengthWithin(x: string, min: int, max: int)
  {
    min <= StrLen(x) <= max
  }

  /** The `foreach` of `validateLengthOf`: continue while the byte length
      is within the bounds, fail at the first string that is not. */
  function LengthsWithin(xs: seq<string>, min: int, max: int): (ok: bool)
    ensures ok <==> forall x :: x in xs ==> LengthWithin(x, min, max)
  {
    if xs == [] then true
    else
      assert xs == [xs[0]] + xs[1..];
      if LengthWithin(xs[0], min, max) then LengthsWithin(xs[1..], min, max)
      else false
  }

  /** `validateLengthOf` (ldapOrm.php:681-694): every element of a list,
      or the scalar itself, has a byte length within `[min, max]`. */
  function ValidateLengthOf(inst: Instance, field: string, min: int, max: int): (ok: bool)
    ensures ok <==> forall x :: x in Subjects(Attribute(inst, field)) ==> LengthWithin(x, min, max)
  {
    LengthsWithin(Subjects(Attribute(inst, field)), min, max)
  }

  /** `preg_match($pattern, $subject)` for a `pattern` setting as a model
      file writes it. A string is handed to the regular-expression engine
      as it is. A number or a boolean is first converted to a string: a
      decimal numeral, `"1"` or `""`. None of those is a delimited pattern
      (it is empty, starts with an alphanumeric delimiter, or starts with
      a `-` that is never closed), so `preg_match` rejects it with a
      warning and returns false without matching anything. */
  predicate PregMatch(matches: Matcher, pattern: Setting, subject: string)
  {
    pattern.Text? && matches(pattern.t, subject)
  }

  /** The `foreach` of `validateFormatOf`: fail at the first string the
      pattern does not match. */
  function AllMatch(xs: seq<string>, pattern: Setting, matches: Matcher): (ok: bool)
    ensures ok <==> forall x :: x in xs ==> PregMatch(matches, pattern, x)
  {
    if xs == [] then true
    else if PregMatch(matches, pattern, xs[0]) then AllMatch(xs[1..], pattern, matches)
    else false
  }

  /** `validateFormatOf` (ldapOrm.php:705-717): every element of a list, or
      the scalar itself, matches the pattern. */
  function ValidateFormatOf(inst: Instance, field: string, pattern: Setting, matches: Matcher): (ok: bool)
    ensures ok <==> forall x :: x in Subjects(Attribute(inst, field)) ==> PregMatch(matches, pattern, x)
  {
    AllMatch(Subjects(Attribute(inst, field)), pattern, matches)
  }

  /** A pattern setting that is not a string fails every value but the
      empty list, whatever the regular-expression engine. */
  lemma NonTextPatternFails(inst: Instance, field: string, pattern: Setting, matches: Matcher)
    requires !pattern.Text?
    ensures ValidateFormatOf(inst, field, pattern, matches) <==> Attribute(inst, field) == List([])
  {
  }

  /** The lookup `validateUniquenessOf` issues. It goes through the engine
      object itself, whose search path and attribute list are empty: the
      whole tree under the base DN is searched for `field=value`. */
  function UniquenessQuery(inst: Instance, field: string, baseDn: string): (q: Query)
    ensures q.base == baseDn
    ensures q.filter == "(" + field + "=" + ToStr(Attribute(inst, field)) + ")"
    ensures q.attributes == []
  {
    var filter: Pairs<Value> := [(field, Attribute(inst, field))];
    var c := Component(filter[0]);
    assert Components(filter) == [c];
    assert Join([c]) == c + Prefixed([]);
    var q := FindOneByQuery([], [], filter, baseDn);
    assert q.filter == "(" + c + ")";
    AppendAssoc("(", field + "=", ToStr(Attribute(inst, field)));
    AppendAssoc("(", field, "=");
    q
  }

  /** `validateUniquenessOf` (ldapOrm.php:658-669): looks the value up
      under the base DN and compares the `cn` of the entry it finds. */
  predicate ValidateUniquenessOf(inst: Instance, field: string, env: Env)
  {
    var found := FindOneBy([], [], [(field, Attribute(inst, field))], env.baseDn, env.search);
    var existing := if found.Some? then found.value else [];
    if existing != [] then Lookup(existing, "cn") == Attribute(inst, "cn") else true
  }

  /** The uniqueness check passes when the lookup fails or finds nothing;
      when it finds an entry, it passes exactly when that entry's `cn` is
      identical (`===`) to the model's current `cn`. */
  lemma UniquenessVerdict(inst: Instance, field: string, env: Env)
    ensures ValidateUniquenessOf(inst, field, env) <==>
      match env.search(UniquenessQuery(inst, field, env.baseDn))
      case None => true
      case Some(es) => es == [] || es[0] == [] || Lookup(EntryToArray(es[0]), "cn") == Attribute(inst, "cn")
  {
  }

  /** Whether one check passes. */
  predicate Passes(inst: Instance, c: Check, env: Env)
  {
    if c.rule.Uniqueness? then ValidateUniquenessOf(inst, c.field, env) else PassesLocally(inst, c, env.matches)
  }

  /** Whether a check that needs no directory lookup passes. */
  predicate PassesLocally(inst: Instance, c: Check, matches: Matcher)
  {
    match c.rule
    case Presence => ValidatePresenceOf(inst, c.field)
    case MinLength(n) => ValidateLengthOf(inst, c.field, n, DefaultMaxLength)
    case MaxLength(n) => ValidateLengthOf(inst, c.field, 0, n)
    case Format(p) => ValidateFormatOf(inst, c.field, p, matches)
    case Uniqueness => true
  }

  /** The checks `validate` runs on a required field (ldapOrm.php:609-626):
      the rule that fails first, if any. */
  function RequiredFailure(inst: Instance, field: string, rules: Rules, env: Env): Option<Rule>
  {
    var min, max, pattern := Bound(rules, "minLength"), Bound(rules, "maxLength"), Get(rules, "pattern");
    if !Passes(inst, Check(field, Presence), env) then Some(Presence)
    else if min.Some? && !Passes(inst, Check(field, MinLength(min.value)), env) then Some(MinLength(min.value))
    else if max.Some? && !Passes(inst, Check(field, MaxLength(max.value)), env) then Some(MaxLength(max.value))
    else if pattern.Some? && !Passes(inst, Check(field, Format(pattern.value)), env) then Some(Format(pattern.value))
    else None
  }

  /** The body of `validate`'s loop for one field (ldapOrm.php:607-632):
      the required-field checks when the field is required, then the
      uniqueness check when it is marked unique. */
  function FieldFailure(inst: Instance, field: string, rules: Rules, env: Env): Option<Rule>
  {
    if Flagged(rules, "required") && RequiredFailure(inst, field, rules, env).Some? then
      RequiredFailure(inst, field, rules, env)
    else if Flagged(rules, "unique") && !Passes(inst, Check(field, Uniqueness), env) then Some(Uniqueness)
    else None
  }

  /** `validate`'s walk over the fields in declaration order, returning the
      first failing check; `validate` returns true exactly when there is
      none. */
  function FirstFailure(inst: Instance, fields: Pairs<Rules>, env: Env): Option<Check>
  {
    if fields == [] then None
    else match FieldFailure(inst, fields[0].0, fields[0].1, env)
      case Some(r) => Some(Check(fields[0].0, r))
      case None => FirstFailure(inst, fields[1..], env)
  }

  /** `validate` (ldapOrm.php:604-635). */
  predicate Validate(inst: Instance, fields: Pairs<Rules>, env: Env)
  {
    FirstFailure(inst, fields, env).None?
  }

  /** A check that is present or not. */
  function Optional(c: Option<Check>): seq<Check>
  {
    if c.Some? then [c.value] else []
  }

  function Lift(field: string, r: Option<Rule>): Option<Check>
  {
    if r.Some? then Some(Check(field, r.value)) else None
  }

  /** Reference order of a required field's checks: presence, then minimum
      length, maximum length and pattern, each when set. */
  function RequiredPlan(field: string, rules: Rules): seq<Check>
  {
    var min, max, pattern := Bound(rules, "minLength"), Bound(rules, "maxLength"), Get(rules, "pattern");
    [Check(field, Presence)]
    + Optional(Lift(field, if min.Some? then Some(MinLength(min.value)) else None))
    + Optional(Lift(field, if max.Some? then Some(MaxLength(max.value)) else None))
    + Optional(Lift(field, if pattern.Some? then Some(Format(pattern.value)) else None))
  }

  /** Reference order of one field's checks: the required-field checks when
      the field is required, then uniqueness when it is marked unique. */
  function FieldPlan(field: string, rules: Rules): seq<Check>
  {
    (if Flagged(rules, "required") then RequiredPlan(field, rules) else [])
    + (if Flagged(rules, "unique") then [Check(field, Uniqueness)] else [])
  }

  /** Reference order of all checks: each field's checks, fields in
      declaration order. */
  function Plan(fields: Pairs<Rules>): seq<Check>
  {
    if fields == [] then [] else FieldPlan(fields[0].0, fields[0].1) + Plan(fields[1..])
  }

  /** The verdict of every check on one model. */
  function PassesIn(inst: Instance, env: Env): Check -> bool
  {
    c => Passes(inst, c, env)
  }

  /** Position of the first check that fails, or the number of checks. */
  function FirstFailingIndex(ok: Check -> bool, checks: seq<Check>): (i: nat)
    ensures i <= |checks|
    ensures forall j :: 0 <= j < i ==> ok(checks[j])
    ensures i < |checks| ==> !ok(checks[i])
  {
    if checks == [] then 0
    else if !ok(checks[0]) then 0
    else
      var rest := FirstFailingIndex(ok, checks[1..]);
      assert forall j :: 1 <= j <= |checks[1..]| ==> checks[1..][j - 1] == checks[j];
      1 + rest
  }

  function FirstFailing(ok: Check -> bool, checks: seq<Check>): Option<Check>
  {
    var i := FirstFailingIndex(ok, checks);
    if i < |checks| then Some(checks[i]) else None
  }

  lemma {:induction false} FirstFailingIndexAppend(ok: Check -> bool, xs: seq<Check>, ys: seq<Check>)
    ensures FirstFailingIndex(ok, xs + ys) ==
      var i := FirstFailingIndex(ok, xs);
      if i < |xs| then i else |xs| + FirstFailingIndex(ok, ys)
    decreases |xs|
  {
    if xs == [] {
      assert xs + ys == ys;
    } else {
      var zs := xs + ys;
      assert zs[0] == xs[0];
      assert zs[1..] == xs[1..] + ys;
      if ok(xs[0]) {
        FirstFailingIndexAppend(ok, xs[1..], ys);
        assert FirstFailingIndex(ok, zs) == 1 + FirstFailingIndex(ok, xs[1..] + ys);
        assert FirstFailingIndex(ok, xs) == 1 + FirstFailingIndex(ok, xs[1..]);
      }
    }
  }

  lemma FirstFailingAppend(ok: Check -> bool, xs: seq<Check>, ys: seq<Check>)
    ensures FirstFailing(ok, xs + ys) ==
      if FirstFailing(ok, xs).Some? then FirstFailing(ok, xs) else FirstFailing(ok, ys)
  {
    FirstFailingIndexAppend(ok, xs, ys);
    if FirstFailingIndex(ok, xs) < |xs| {
      FirstFailingInFront(ok, xs, ys);
    } else {
      FirstFailingBehind(ok, xs, ys);
    }
  }

  lemma FirstFailingInFront(ok: Check -> bool, xs: seq<Check>, ys: seq<Check>)
    requires FirstFailingIndex(ok, xs) < |xs|
    requires FirstFailingIndex(ok, xs + ys) == FirstFailingIndex(ok, xs)
    ensures FirstFailing(ok, xs + ys) == FirstFailing(ok, xs)
  {
    var i := FirstFailingIndex(ok, xs);
    assert (xs + ys)[i] == xs[i];
  }

  lemma FirstFailingBehind(ok: Check -> bool, xs: seq<Check>, ys: seq<Check>)
    requires FirstFailingIndex(ok, xs) == |xs|
    requires FirstFailingIndex(ok, xs + ys) == |xs| + FirstFailingIndex(ok, ys)
    ensures FirstFailing(ok, xs) == None
    ensures FirstFailing(ok, xs + ys) == FirstFailing(ok, ys)
  {
    var j := FirstFailingIndex(ok, ys);
    if j < |ys| {
      assert (xs + ys)[|xs| + j] == ys[j];
    }
  }

  lemma FirstFailingSingle(ok: Check -> bool, c: Check)
    ensures FirstFailing(ok, [c]) == if ok(c) then None else Some(c)
  {
    if ok(c) {
      assert [c][1..] == [];
    }
  }

  /** Appending a check that may be absent. */
  lemma FirstFailingStep(ok: Check -> bool, xs: seq<Check>, c: Option<Check>)
    ensures FirstFailing(ok, xs + Optional(c)) ==
      if FirstFailing(ok, xs).Some? then FirstFailing(ok, xs)
      else if c.Some? && !ok(c.value) then c
      else None
  {
    FirstFailingAppend(ok, xs, Optional(c));
    if c.Some? {
      FirstFailingSingle(ok, c.value);
    } else {
      assert FirstFailing(ok, []) == None;
    }
  }

  /** A required field: the checks fail on exactly the first failing check
      of its reference order. */
  lemma RequiredFailureIsFirstFailing(inst: Instance, field: string, rules: Rules, env: Env)
    ensures FirstFailing(PassesIn(inst, env), RequiredPlan(field, rules)) == Lift(field, RequiredFailure(inst, field, rules, env))
  {
    var min, max, pattern := Bound(rules, "minLength"), Bound(rules, "maxLength"), Get(rules, "pattern");
    var c1 := Lift(field, if min.Some? then Some(MinLength(min.value)) else None);
    var c2 := Lift(field, if max.Some? then Some(MaxLength(max.value)) else None);
    var c3 := Lift(field, if pattern.Some? then Some(Format(pattern.value)) else None);
    var p0 := [Check(field, Presence)];
    var p1 := p0 + Optional(c1);
    var p2 := p1 + Optional(c2);
    var p3 := p2 + Optional(c3);
    assert RequiredPlan(field, rules) == p3;
    FirstFailingSingle(PassesIn(inst, env), Check(field, Presence));
    FirstFailingStep(PassesIn(inst, env), p0, c1);
    FirstFailingStep(PassesIn(inst, env), p1, c2);
    FirstFailingStep(PassesIn(inst, env), p2, c3);
  }

  /** One field: the loop body fails on exactly the first failing check of
      the field's reference order. */
  lemma FieldFailureIsFirstFailing(inst: Instance, field: string, rules: Rules, env: Env)
    ensures FirstFailing(PassesIn(inst, env), FieldPlan(field, rules)) == Lift(field, FieldFailure(inst, field, rules, env))
  {
    var req := if Flagged(rules, "required") then RequiredPlan(field, rules) else [];
    var uniq := if Flagged(rules, "unique") then Some(Check(field, Uniqueness)) else None;
    assert FieldPlan(field, rules) == req + Optional(uniq);
    FirstFailingStep(PassesIn(inst, env), req, uniq);
    if Flagged(rules, "required") {
      RequiredFailureIsFirstFailing(inst, field, rules, env);
    } else {
      assert FirstFailing(PassesIn(inst, env), []) == None;
    }
  }

  /** `validate`'s nested walk fails on exactly the first failing check of
      the reference order: every check before it passes, and when there is
      none, every check passes. */
  lemma {:induction false} FirstFailureIsFirstFailing(inst: Instance, fields: Pairs<Rules>, env: Env)
    ensures FirstFailure(inst, fields, env) == FirstFailing(PassesIn(inst, env), Plan(fields))
    decreases |fields|
  {
    if fields == [] {
      assert FirstFailing(PassesIn(inst, env), []) == None;
    } else {
      FieldFailureIsFirstFailing(inst, fields[0].0, fields[0].1, env);
      FirstFailingAppend(PassesIn(inst, env), FieldPlan(fields[0].0, fields[0].1), Plan(fields[1..]));
      FirstFailureIsFirstFailing(inst, fields[1..], env);
    }
  }

  /** `validate` returns true exactly when every check of every field, in
      the reference order, passes. */
  lemma ValidateIffAllPass(inst: Instance, fields: Pairs<Rules>, env: Env)
    ensures Validate(inst, fields, env) <==>
      forall i :: 0 <= i < |Plan(fields)| ==> Passes(inst, Plan(fields)[i], env)
  {
    FirstFailureIsFirstFailing(inst, fields, env);
  }

  /** The failure `validate` stops at is a check of the reference order
      that fails, and every check ordered before it passes. */
  lemma FirstFailureIsEarliest(inst: Instance, fields: Pairs<Rules>, env: Env)
    requires FirstFailure(inst, fields, env).Some?
    ensures var plan := Plan(fields);
      var i := FirstFailingIndex(PassesIn(inst, env), plan);
      && i < |plan|
      && plan[i] == FirstFailure(inst, fields, env).value
      && !Passes(inst, plan[i], env)
      && forall j :: 0 <= j < i ==> Passes(inst, plan[j], env)
  {
    FirstFailureIsFirstFailing(inst, fields, env);
  }

  /** `validate` returns true exactly when no field's checks fail. */
  lemma {:induction false} ValidateIffEveryField(inst: Instance, fields: Pairs<Rules>, env: Env)
    ensures Validate(inst, fields, env) <==>
      forall i :: 0 <= i < |fields| ==> FieldFailure(inst, fields[i].0, fields[i].1, env).None?
    decreases |fields|
  {
    if fields != [] {
      ValidateIffEveryField(inst, fields[1..], env);
      assert forall i :: 1 <= i < |fields| ==> fields[1..][i - 1] == fields[i];
      if FieldFailure(inst, fields[0].0, fields[0].1, env).None? {
        assert (forall i :: 0 <= i < |fields| ==> FieldFailure(inst, fields[i].0, fields[i].1, env).None?) <==>
          (forall i :: 0 <= i < |fields[1..]| ==> FieldFailure(inst, fields[1..][i].0, fields[1..][i].1, env).None?);
      }
    }
  }

  /** `validate` on a non-empty list: the first field passes and so does
      the rest. */
  lemma ValidateCons(inst: Instance, fields: Pairs<Rules>, env: Env)
    requires fields != []
    ensures Validate(inst, fields, env) <==>
      FieldFailure(inst, fields[0].0, fields[0].1, env).None? && Validate(inst, fields[1..], env)
  {
  }

  /** The loop body passes a field exactly when every check its settings
      call for passes. */
  lemma FieldPassesIff(inst: Instance, field: string, rules: Rules, env: Env)
    ensures FieldFailure(inst, field, rules, env).None? <==>
      && (Flagged(rules, "required") ==>
            && ValidatePresenceOf(inst, field)
            && (Bound(rules, "minLength").Some? ==>
                  ValidateLengthOf(inst, field, Bound(rules, "minLength").value, DefaultMaxLength))
            && (Bound(rules, "maxLength").Some? ==> ValidateLengthOf(inst, field, 0, Bound(rules, "maxLength").value))
            && (Get(rules, "pattern").Some? ==> ValidateFormatOf(inst, field, Get(rules, "pattern").value, env.matches)))
      && (Flagged(rules, "unique") ==> ValidateUniquenessOf(inst, field, env))
  {
    var min, max, pattern := Bound(rules, "minLength"), Bound(rules, "maxLength"), Get(rules, "pattern");
    PassesMeaning(inst, field, min, max, pattern, env);
  }

  /** A required field whose `pattern` setting is a number or a boolean
      never passes: if it is present it has a value to match, and the
      pattern matches nothing. */
  lemma RequiredNonTextPatternFails(inst: Instance, field: string, rules: Rules, env: Env)
    requires Flagged(rules, "required")
    requires Get(rules, "pattern").Some? && !Get(rules, "pattern").value.Text?
    ensures FieldFailure(inst, field, rules, env).Some?
  {
    FieldPassesIff(inst, field, rules, env);
    NonTextPatternFails(inst, field, Get(rules, "pattern").value, env.matches);
  }

  /** What each kind of check passing means, for the bounds a field sets. */
  lemma PassesMeaning(inst: Instance, field: string, min: Option<int>, max: Option<int>, pattern: Option<Setting>, env: Env)
    ensures Passes(inst, Check(field, Presence), env) == ValidatePresenceOf(inst, field)
    ensures Passes(inst, Check(field, Uniqueness), env) == ValidateUniquenessOf(inst, field, env)
    ensures min.Some? ==>
      Passes(inst, Check(field, MinLength(min.value)), env) == ValidateLengthOf(inst, field, min.value, DefaultMaxLength)
    ensures max.Some? ==>
      Passes(inst, Check(field, MaxLength(max.value)), env) == ValidateLengthOf(inst, field, 0, max.value)
    ensures pattern.Some? ==>
      Passes(inst, Check(field, Format(pattern.value)), env) == ValidateFormatOf(inst, field, pattern.value, env.matches)
  {
    PassesPresence(inst, field, env);
    PassesUniqueness(inst, field, env);
    if min.Some? { PassesMin(inst, field, min.value, env); }
    if max.Some? { PassesMax(inst, field, max.value, env); }
    if pattern.Some? { PassesFormat(inst, field, pattern.value, env); }
  }

  lemma PassesPresence(inst: Instance, field: string, env: Env)
    ensures Passes(inst, Check(field, Presence), env) == ValidatePresenceOf(inst, field)
  {
  }

  lemma PassesUniqueness(inst: Instance, field: string, env: Env)
    ensures Passes(inst, Check(field, Uniqueness), env) == ValidateUniquenessOf(inst, field, env)
  {
  }

  lemma PassesMin(inst: Instance, field: string, n: int, env: Env)
    ensures Passes(inst, Check(field, MinLength(n)), env) == ValidateLengthOf(inst, field, n, DefaultMaxLength)
  {
  }

  lemma PassesMax(inst: Instance, field: string, n: int, env: Env)
    ensures Passes(inst, Check(field, MaxLength(n)), env) == ValidateLengthOf(inst, field, 0, n)
  {
  }

  lemma PassesFormat(inst: Instance, field: string, p: Setting, env: Env)
    ensures Passes(inst, Check(field, Format(p)), env) == ValidateFormatOf(inst, field, p, env.matches)
  {
  }
}
