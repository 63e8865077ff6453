/** `save` and the writes it issues (`create`, `update`), the filter that
    turns the object array into a directory entry, and `populate`, which
    loads a model from the directory and remembers where it was found. */
module Persistence {
  import opened Php
  import opened PhpArray
  import opened Dn
  import opened Directory
  import opened Results
  import opened Schema
  import opened Validation

  /** The keys `save` adds for its own use; they are never stored. */
  predicate IsBookkeeping(k: string)
  {
    k == "actualDn" || k == "newRdn" || k == "newDn"
  }

  /** Whether `attributesArrayFilter` keeps an entry of the object array. */
  predicate Kept(p: (string, Value))
  {
    !IsBookkeeping(p.0) && !IsEmpty(p.1)
  }

  /** `attributesArrayFilter` (ldapOrm.php:509-529): the bookkeeping keys
      and every empty value (`null`, `""`, `"0"`, the empty list) are
      dropped; everything else is kept as it is, in order. */
  function AttributesArrayFilter(a: Pairs<Value>): (entry: Pairs<Value>)
    ensures |entry| <= |a|
    ensures forall p :: p in entry <==> p in a && Kept(p)
    ensures forall k :: k in Keys(entry) ==> k in Keys(a)
    decreases |a|
  {
    if a == [] then []
    else
      assert a == [a[0]] + a[1..];
      var rest := AttributesArrayFilter(a[1..]);
      if Kept(a[0]) then
        assert ([a[0]] + rest)[1..] == rest;
        [a[0]] + rest
      else rest
  }

  /** The filter works entry by entry, so it keeps the order. */
  lemma {:induction false} FilterAppend(a: Pairs<Value>, b: Pairs<Value>)
    ensures AttributesArrayFilter(a + b) == AttributesArrayFilter(a) + AttributesArrayFilter(b)
    decreases |a|
  {
    if a == [] {
      assert a + b == b;
    } else {
      assert (a + b)[0] == a[0];
      assert (a + b)[1..] == a[1..] + b;
      FilterAppend(a[1..], b);
    }
  }

  /** Filtering an already filtered array changes nothing. */
  lemma {:induction false} FilterIdempotent(a: Pairs<Value>)
    ensures AttributesArrayFilter(AttributesArrayFilter(a)) == AttributesArrayFilter(a)
    decreases |a|
  {
    if a != [] {
      FilterIdempotent(a[1..]);
      var rest := AttributesArrayFilter(a[1..]);
      if Kept(a[0]) {
        assert ([a[0]] + rest)[0] == a[0];
        assert ([a[0]] + rest)[1..] == rest;
      }
    }
  }

  /** What a key reads after filtering: nothing for a bookkeeping key or an
      empty value, the original value otherwise. */
  lemma {:induction false} FilterGet(a: Pairs<Value>, k: string)
    requires WellFormed(a)
    ensures Get(AttributesArrayFilter(a), k) ==
      if IsBookkeeping(k) || Get(a, k).None? || IsEmpty(Get(a, k).value) then None else Get(a, k)
    decreases |a|
  {
    if a != [] {
      assert WellFormed(a[1..]) by {
        var ks := Keys(a[1..]);
        forall p, q | 0 <= p < q < |ks| ensures ks[p] != ks[q] {
          assert ks[p] == Keys(a)[p + 1] && ks[q] == Keys(a)[q + 1];
        }
      }
      FilterGet(a[1..], k);
      var rest := AttributesArrayFilter(a[1..]);
      if a[0].0 == k {
        assert k !in Keys(a[1..]) by {
          forall j | 0 <= j < |a[1..]| ensures a[1..][j].0 != k {
            assert Keys(a)[0] != Keys(a)[j + 1];
          }
        }
        assert k !in Keys(rest);
      }
      if Kept(a[0]) {
        assert ([a[0]] + rest)[1..] == rest;
      }
    }
  }

  /** A well-formed array stays well formed. */
  lemma {:induction false} FilterWellFormed(a: Pairs<Value>)
    requires WellFormed(a)
    ensures WellFormed(AttributesArrayFilter(a))
    decreases |a|
  {
    if a != [] {
      assert WellFormed(a[1..]) by {
        var ks := Keys(a[1..]);
        forall p, q | 0 <= p < q < |ks| ensures ks[p] != ks[q] {
          assert ks[p] == Keys(a)[p + 1] && ks[q] == Keys(a)[q + 1];
        }
      }
      FilterWellFormed(a[1..]);
      var rest := AttributesArrayFilter(a[1..]);
      if Kept(a[0]) {
        assert a[0].0 !in Keys(a[1..]) by {
          forall j | 0 <= j < |a[1..]| ensures a[1..][j].0 != a[0].0 {
            assert Keys(a)[0] != Keys(a)[j + 1];
          }
        }
        var r := [a[0]] + rest;
        assert r[1..] == rest;
        var ks := Keys(r);
        forall p, q | 0 <= p < q < |ks| ensures ks[p] != ks[q] {
          if p == 0 {
            assert ks[q] == Keys(rest)[q - 1];
          } else {
            assert ks[p] == Keys(rest)[p - 1] && ks[q] == Keys(rest)[q - 1];
          }
        }
      }
    }
  }

  /** What `$entry` holds so far: `None` while the PHP variable has not been
      created. */
  function SoFar(entry: Option<Pairs<Value>>): Pairs<Value>
  {
    if entry.Some? then entry.value else []
  }

  /** One pass of the loop in `attributesArrayFilter` (ldapOrm.php:511-525)
      over `$entry`. A bookkeeping key leaves it alone, and so does an empty
      list, whose inner loop appends nothing. Any other value creates
      `$entry`: a scalar is stored and, when empty, unset again; a non-empty
      list has its elements appended one by one. */
  function FilterStep(entry: Option<Pairs<Value>>, p: (string, Value)): Option<Pairs<Value>>
  {
    if IsBookkeeping(p.0) || p.1 == List([]) then entry
    else if IsEmpty(p.1) then Some(SoFar(entry))
    else Some(SoFar(entry) + [p])
  }

  /** The loop from a given `$entry` over the rest of the array. */
  function FilterFrom(entry: Option<Pairs<Value>>, a: Pairs<Value>): Option<Pairs<Value>>
    decreases |a|
  {
    if a == [] then entry else FilterFrom(FilterStep(entry, a[0]), a[1..])
  }

  /** The loop is the filter appended to what `$entry` already held; it
      leaves `$entry` uncreated exactly when it never was and every
      non-bookkeeping value is an empty list. */
  lemma {:induction false} FilterFromMeaning(entry: Option<Pairs<Value>>, a: Pairs<Value>)
    ensures FilterFrom(entry, a) ==
      if entry.None? && forall i :: 0 <= i < |a| && !IsBookkeeping(a[i].0) ==> a[i].1 == List([])
      then None
      else Some(SoFar(entry) + AttributesArrayFilter(a))
    decreases |a|
  {
    if a == [] {
      assert SoFar(entry) + [] == SoFar(entry);
    } else {
      var step := FilterStep(entry, a[0]);
      var rest := AttributesArrayFilter(a[1..]);
      FilterFromMeaning(step, a[1..]);
      assert forall i :: 1 <= i < |a| ==> a[1..][i - 1] == a[i];
      if IsBookkeeping(a[0].0) || a[0].1 == List([]) {
        assert step == entry && AttributesArrayFilter(a) == rest;
      } else if IsEmpty(a[0].1) {
        assert step == Some(SoFar(entry)) && AttributesArrayFilter(a) == rest;
      } else {
        assert step == Some(SoFar(entry) + [a[0]]);
        assert AttributesArrayFilter(a) == [a[0]] + rest;
        AppendAssoc(SoFar(entry), [a[0]], rest);
      }
    }
  }

  /** The value `attributesArrayFilter` (ldapOrm.php:509-529) returns:
      `None` for PHP's `null`, which it returns when no value ever created
      `$entry` (every non-bookkeeping value is an empty list, or there is
      none); otherwise the filtered entry, which may be empty. */
  function FilteredEntry(a: Pairs<Value>): (r: Option<Pairs<Value>>)
    ensures r.None? <==> forall i :: 0 <= i < |a| && !IsBookkeeping(a[i].0) ==> a[i].1 == List([])
    ensures r.Some? ==> r.value == AttributesArrayFilter(a)
  {
    FilterFromMeaning(None, a);
    assert SoFar(None) + AttributesArrayFilter(a) == AttributesArrayFilter(a);
    FilterFrom(None, a)
  }

  /** Whenever the filter keeps something, `$entry` was created. */
  lemma FilteredEntryKeeps(a: Pairs<Value>)
    requires AttributesArrayFilter(a) != []
    ensures FilteredEntry(a) == Some(AttributesArrayFilter(a))
  {
    var p := AttributesArrayFilter(a)[0];
    assert p in a && Kept(p);
  }

  /** The entry as the server receives it: each attribute with its values. */
  function ToAttrs(entry: Pairs<Value>): Attrs
  {
    map k | k in Keys(entry) :: Expand(Lookup(entry, k))
  }

  /** The DN that RDN components name under a search path:
      `arrayToDn(array_merge($rdn, $searchPath)) . $baseDn`. */
  function DnOf(rdn: Pairs<Value>, searchPath: Pairs<Value>, baseDn: string): string
  {
    ArrayToDn(Merge(rdn, searchPath), true) + baseDn
  }

  /** No declared field collides with a key `save` sets itself. */
  predicate PlainFields(fields: seq<string>)
  {
    forall f :: f in fields ==> !IsBookkeeping(f) && f != "objectClass"
  }

  /** The keys `save` sets before the fields (ldapOrm.php:425-431), in
      order: the old DN when there is one, the new RDN, the new DN and the
      object classes. Each key is new to the array, so each assignment
      appends. */
  function Header(oldDn: Option<string>, newRdn: string, newDn: string, objectClass: Value): (h: Pairs<Value>)
    ensures forall k :: k in Keys(h) ==> IsBookkeeping(k) || k == "objectClass"
    ensures WellFormed(h)
    ensures Get(h, "newRdn") == Some(Str(newRdn))
    ensures Get(h, "newDn") == Some(Str(newDn))
    ensures Get(h, "objectClass") == Some(objectClass)
    ensures Get(h, "actualDn") == if oldDn.Some? then Some(Str(oldDn.value)) else None
  {
    var start: Pairs<Value> := if oldDn.Some? then [("actualDn", Str(oldDn.value))] else [];
    var tail: Pairs<Value> := [("newRdn", Str(newRdn)), ("newDn", Str(newDn)), ("objectClass", objectClass)];
    HeaderKeys(start, tail, oldDn, newRdn, newDn, objectClass);
    HeaderValues(start, tail, oldDn, newRdn, newDn, objectClass);
    start + tail
  }

  /** The header's keys: the bookkeeping keys and `objectClass`, each once. */
  lemma HeaderKeys(start: Pairs<Value>, tail: Pairs<Value>, oldDn: Option<string>, newRdn: string, newDn: string, objectClass: Value)
    requires start == if oldDn.Some? then [("actualDn", Str(oldDn.value))] else []
    requires tail == [("newRdn", Str(newRdn)), ("newDn", Str(newDn)), ("objectClass", objectClass)]
    ensures forall k :: k in Keys(start + tail) ==> IsBookkeeping(k) || k == "objectClass"
    ensures WellFormed(start + tail)
  {
    KeysAppend(start, tail);
    var ks := Keys(start + tail);
    assert Keys(tail) == ["newRdn", "newDn", "objectClass"];
    if oldDn.Some? {
      assert ks == ["actualDn", "newRdn", "newDn", "objectClass"];
    } else {
      assert ks == ["newRdn", "newDn", "objectClass"];
    }
    HeaderKeysDistinct(ks);
  }

  /** The header's values: the new RDN and DN, the object classes, and the
      old DN when there is one. */
  lemma HeaderValues(start: Pairs<Value>, tail: Pairs<Value>, oldDn: Option<string>, newRdn: string, newDn: string, objectClass: Value)
    requires start == if oldDn.Some? then [("actualDn", Str(oldDn.value))] else []
    requires tail == [("newRdn", Str(newRdn)), ("newDn", Str(newDn)), ("objectClass", objectClass)]
    ensures Get(start + tail, "newRdn") == Some(Str(newRdn))
    ensures Get(start + tail, "newDn") == Some(Str(newDn))
    ensures Get(start + tail, "objectClass") == Some(objectClass)
    ensures Get(start + tail, "actualDn") == if oldDn.Some? then Some(Str(oldDn.value)) else None
  {
    assert Keys(start) == [] || Keys(start) == ["actualDn"];
    assert tail[1..][1..] == [("objectClass", objectClass)];
    assert "objectClass" != "newRdn" && "objectClass" != "newDn";
    assert Get(tail[1..][1..], "objectClass") == Some(objectClass);
    assert Get(tail[1..], "objectClass") == Some(objectClass);
    GetAppend(start, tail, "newRdn");
    GetAppend(start, tail, "newDn");
    GetAppend(start, tail, "objectClass");
    GetAppend(start, tail, "actualDn");
  }

  /** The header keys have pairwise different lengths, hence differ. */
  lemma HeaderKeysDistinct(ks: seq<string>)
    requires ks == ["actualDn", "newRdn", "newDn", "objectClass"] || ks == ["newRdn", "newDn", "objectClass"]
    ensures Distinct(ks)
  {
    forall i, j | 0 <= i < j < |ks| ensures ks[i] != ks[j] {
      assert |ks[i]| != |ks[j]|;
    }
  }

  /** The `$objectArray` `save` builds (ldapOrm.php:425-434): the header
      from the model's (possibly hooked) identity pattern, search path and
      object classes, then every declared field with the model's value. */
  function ObjectArray(fields: seq<string>, m: Instance, baseDn: string): (a: Pairs<Value>)
    ensures WellFormed(a)
    ensures forall k :: k in Keys(a) ==> IsBookkeeping(k) || k == "objectClass" || k in fields
    ensures forall f :: f in fields ==> Get(a, f) == Some(Attribute(m, f))
    ensures PlainFields(fields) ==>
      && Get(a, "newRdn") == Some(Str(ArrayToDn(m.dnPattern, false)))
      && Get(a, "newDn") == Some(Str(DnOf(m.dnPattern, m.searchPath, baseDn)))
      && Get(a, "objectClass") == Some(m.objectClass)
      && Get(a, "actualDn") == if m.actualDn.Some? then Some(Str(DnOf(m.actualDn.value, m.searchPath, baseDn))) else None
  {
    var oldDn := if m.actualDn.Some? then Some(DnOf(m.actualDn.value, m.searchPath, baseDn)) else None;
    var h := Header(oldDn, ArrayToDn(m.dnPattern, false), DnOf(m.dnPattern, m.searchPath, baseDn), m.objectClass);
    var a := PutEach(h, fields, f => Attribute(m, f));
    assert forall k :: k in Keys(a) ==> Get(a, k).Some?;
    a
  }

  /** The texts `update` and `create` read back out of the object array. */
  lemma ObjectArrayTexts(fields: seq<string>, m: Instance, baseDn: string)
    requires PlainFields(fields)
    ensures var a := ObjectArray(fields, m, baseDn);
      && Text(a, "newRdn") == ArrayToDn(m.dnPattern, false)
      && Text(a, "newDn") == DnOf(m.dnPattern, m.searchPath, baseDn)
      && (m.actualDn.Some? ==> Text(a, "actualDn") == DnOf(m.actualDn.value, m.searchPath, baseDn))
  {
  }

  /** How a `save` ended. `save` itself returns nothing in every case; a
      refused write raises an exception from `ldapError`. */
  datatype Outcome =
    | Invalid(failure: Check)
    | Created
    | AddFailed
    | Updated
    | RenameFailed
    | ReplaceFailed

  /** The outcome, the write requests issued in order, and the server after. */
  datatype Effect = Effect(outcome: Outcome, calls: seq<Call>, server: Server)

  /** The value an object-array key holds, as a string. */
  function Text(a: Pairs<Value>, k: string): string
  {
    ToStr(Lookup(a, k))
  }

  /** `create` (ldapOrm.php:461-467): `ldap_add` of the filtered entry at
      `newDn`. When the filter returns `null`, `ldap_add` rejects its
      argument and fails without contacting the server; an empty entry is
      still sent. */
  function Create(a: Pairs<Value>, srv: Server): (e: Effect)
    ensures e.outcome == Created || e.outcome == AddFailed
    ensures e.outcome == Created <==>
      && FilteredEntry(a).Some? && ValidDn(Text(a, "newDn"))
      && Add(Text(a, "newDn")) !in srv.refused && Text(a, "newDn") !in srv.entries
    ensures e.outcome == Created ==>
      e.server.refused == srv.refused &&
      e.server.entries == srv.entries[Text(a, "newDn") := ToAttrs(AttributesArrayFilter(a))]
    ensures e.outcome == AddFailed ==> e.server == srv
    ensures e.calls == if FilteredEntry(a).None? then [] else [Add(Text(a, "newDn"))]
    ensures forall c :: c in e.calls ==> c.Add?
  {
    var dn := Text(a, "newDn");
    match FilteredEntry(a)
    case None => Effect(AddFailed, [], srv)
    case Some(entry) =>
      match AddEntry(srv, dn, ToAttrs(entry))
      case None => Effect(AddFailed, [Add(dn)], srv)
      case Some(s) => Effect(Created, [Add(dn)], s)
  }

  /** `update` (ldapOrm.php:476-487): rename the entry found at `actualDn`
      to `newRdn` under its old parent, deleting the old RDN value, then
      replace the filtered attributes at `newDn`. A failed rename leaves the
      server as it was; a failed replace, or a filter that returned `null`
      so that `ldap_mod_replace` rejects its argument, leaves the entry
      renamed. */
  function Update(a: Pairs<Value>, srv: Server): (e: Effect)
    ensures e.outcome == Updated || e.outcome == RenameFailed || e.outcome == ReplaceFailed
    ensures 1 <= |e.calls| <= 2 && e.calls[0] == Rename(Text(a, "actualDn"), Text(a, "newRdn"))
    ensures |e.calls| == 2 <==> e.outcome != RenameFailed && FilteredEntry(a).Some?
    ensures |e.calls| == 2 ==> e.calls[1] == Replace(Text(a, "newDn"))
    ensures forall i :: 0 <= i < |e.calls| ==> !e.calls[i].Add?
    ensures e.outcome == RenameFailed <==> RenameEntry(srv, Text(a, "actualDn"), Text(a, "newRdn")).None?
    ensures e.outcome == RenameFailed ==> e.server == srv
    ensures e.outcome != RenameFailed ==>
      var moved := RenameEntry(srv, Text(a, "actualDn"), Text(a, "newRdn")).value;
      && Text(a, "actualDn") in srv.entries
      && (e.outcome == ReplaceFailed ==> e.server == moved)
      && (e.outcome == Updated <==>
            FilteredEntry(a).Some? && ValidDn(Text(a, "newDn"))
            && Replace(Text(a, "newDn")) !in moved.refused && Text(a, "newDn") in moved.entries)
      && (e.outcome == Updated ==>
            e.server.entries == moved.entries[Text(a, "newDn") :=
              Replaced(moved.entries[Text(a, "newDn")], ToAttrs(AttributesArrayFilter(a)))])
  {
    var from, rdn, to := Text(a, "actualDn"), Text(a, "newRdn"), Text(a, "newDn");
    match RenameEntry(srv, from, rdn)
    case None => Effect(RenameFailed, [Rename(from, rdn)], srv)
    case Some(moved) => ReplaceAfterRename(moved, FilteredEntry(a), from, rdn, to)
  }

  /** The second half of `update` (ldapOrm.php:482-484), once the rename
      of `from` to `rdn` succeeded: no further request when the filter
      returned `null`, otherwise the replace at `to`. */
  function ReplaceAfterRename(moved: Server, entry: Option<Pairs<Value>>, from: string, rdn: string, to: string): (e: Effect)
    ensures e.outcome == Updated || e.outcome == ReplaceFailed
    ensures e.calls == if entry.None? then [Rename(from, rdn)] else [Rename(from, rdn), Replace(to)]
    ensures forall i :: 0 <= i < |e.calls| ==> !e.calls[i].Add?
    ensures e.outcome == ReplaceFailed ==> e.server == moved
    ensures e.outcome == Updated <==> entry.Some? && ValidDn(to) && Replace(to) !in moved.refused && to in moved.entries
    ensures e.outcome == Updated ==>
      to in moved.entries && e.server.entries == moved.entries[to := Replaced(moved.entries[to], ToAttrs(entry.value))]
  {
    match entry
    case None => Effect(ReplaceFailed, [Rename(from, rdn)], moved)
    case Some(sent) =>
      match ReplaceAttrs(moved, to, ToAttrs(sent))
      case None => Effect(ReplaceFailed, [Rename(from, rdn), Replace(to)], moved)
      case Some(s) => Effect(Updated, [Rename(from, rdn), Replace(to)], s)
  }

  /** The result of `save`: how it ended, the requests it issued, the server
      after, and the model object after its `beforeSave` hook ran. */
  datatype Saved = Saved(outcome: Outcome, calls: seq<Call>, server: Server, model: Instance)

  /** `save` (ldapOrm.php:420-447): run the `beforeSave` hook, build the
      object array, validate, and on success update a populated model or
      create a new one. `actualDn` is left as it was. */
  function Save(schema: Schema, inst: Instance, beforeSave: Instance -> Instance, env: Env, srv: Server): (r: Saved)
    ensures r.model == beforeSave(inst)
    ensures r.model.actualDn == beforeSave(inst).actualDn
    ensures r.outcome.Invalid? <==> !Validate(beforeSave(inst), schema.fields, env)
    ensures r.outcome.Invalid? ==>
      && r.outcome.failure == FirstFailure(beforeSave(inst), schema.fields, env).value
      && r.calls == [] && r.server == srv
    ensures (r.outcome.Created? || r.outcome.AddFailed?) <==>
      Validate(beforeSave(inst), schema.fields, env) && beforeSave(inst).actualDn.None?
    ensures forall c :: c in r.calls ==> (c.Add? <==> beforeSave(inst).actualDn.None?)
  {
    var m := beforeSave(inst);
    var a := ObjectArray(Keys(schema.fields), m, env.baseDn);
    match FirstFailure(m, schema.fields, env)
    case Some(c) => Saved(Invalid(c), [], srv, m)
    case None =>
      var e := Write(m.actualDn.Some?, a, srv);
      Saved(e.outcome, e.calls, e.server, m)
  }

  /** The write a valid `save` issues: `update` for a populated model,
      `create` otherwise. Only `create` adds. */
  function Write(populated: bool, a: Pairs<Value>, srv: Server): (e: Effect)
    ensures !e.outcome.Invalid?
    ensures (e.outcome.Created? || e.outcome.AddFailed?) <==> !populated
    ensures forall c :: c in e.calls ==> (c.Add? <==> !populated)
  {
    if populated then Update(a, srv) else Create(a, srv)
  }

  /** The identity bookkeeping of `populate` (ldapOrm.php:323-326): every
      key of the identity pattern that the found record holds is copied
      into `actualDn`, which springs into existence on the first copy. */
  function CaptureIdentity(prev: Option<Pairs<Value>>, keys: seq<string>, rec: Pairs<Value>): (r: Option<Pairs<Value>>)
    ensures r.None? <==> prev.None? && forall k :: k in keys ==> k !in Keys(rec)
    ensures r.Some? ==> forall k :: k in keys && k in Keys(rec) ==> Get(r.value, k) == Get(rec, k)
    ensures r.Some? ==> forall k :: k !in keys || k !in Keys(rec) ==>
      Get(r.value, k) == if prev.Some? then Get(prev.value, k) else None
    decreases |keys|
  {
    if keys == [] then prev
    else
      var n := |keys| - 1;
      assert keys == keys[..n] + [keys[n]];
      assert forall k :: k in keys ==> k in keys[..n] || k == keys[n];
      NoneFoundSnoc(keys, Keys(rec));
      var front := CaptureIdentity(prev, keys[..n], rec);
      if keys[n] in Keys(rec) then
        Some(Put(if front.Some? then front.value else [], keys[n], Lookup(rec, keys[n])))
      else front
  }

  /** None of `keys` is in `ks` exactly when none of its prefix is and its
      last one is not. */
  lemma NoneFoundSnoc(keys: seq<string>, ks: seq<string>)
    requires keys != []
    ensures var n := |keys| - 1;
      (forall k :: k in keys ==> k !in ks) <==> (forall k :: k in keys[..n] ==> k !in ks) && keys[n] !in ks
  {
    var n := |keys| - 1;
    assert keys == keys[..n] + [keys[n]];
  }

  /** `populate` (ldapOrm.php:314-327): look the model up with `findOneBy`
      under its search path, fetching its declared fields; copy every
      attribute of the record found onto the model, and record the identity.
      A failed search leaves the model as it was. */
  function Populate(schema: Schema, inst: Instance, filterArray: Pairs<Value>, env: Env): (r: Instance)
    ensures r.dnPattern == inst.dnPattern && r.searchPath == inst.searchPath && r.objectClass == inst.objectClass
    ensures var found := FindOneBy(inst.searchPath, AttributesToFetch(schema), filterArray, env.baseDn, env.search);
      match found
      case None => r == inst
      case Some(rec) =>
        && (forall k :: k in Keys(rec) ==> Attribute(r, k) == Lookup(rec, k))
        && (forall k :: k !in Keys(rec) ==> Attribute(r, k) == Attribute(inst, k))
        && r.actualDn == CaptureIdentity(inst.actualDn, Keys(schema.options.dnPattern), rec)
  {
    match FindOneBy(inst.searchPath, AttributesToFetch(schema), filterArray, env.baseDn, env.search)
    case None => inst
    case Some(rec) =>
      MergeReads(inst.values, rec);
      inst.(values := Merge(inst.values, rec),
            actualDn := CaptureIdentity(inst.actualDn, Keys(schema.options.dnPattern), rec))
  }

  /** The attributes `save` sends for a model: its object array, filtered. */
  function EntryOf(fields: seq<string>, m: Instance, baseDn: string): Attrs
  {
    ToAttrs(AttributesArrayFilter(ObjectArray(fields, m, baseDn)))
  }

  /** One key of a filtered, converted array: present exactly when the
      array sets it to a non-empty value and it is not bookkeeping, and
      then it holds that value's strings, at least one. */
  lemma SentAttribute(a: Pairs<Value>, k: string)
    requires WellFormed(a)
    ensures var sent := ToAttrs(AttributesArrayFilter(a));
      && (k in sent <==> !IsBookkeeping(k) && Get(a, k).Some? && !IsEmpty(Get(a, k).value))
      && (k in sent ==> sent[k] == Expand(Get(a, k).value) && sent[k] != [])
  {
    FilterGet(a, k);
  }

  /** What a save sends: every declared field whose value is not empty,
      with that value's strings (never none), the object classes unless
      empty, and nothing else; in particular no bookkeeping key. An empty
      field (`null`, `""`, `"0"`, no element) is not sent at all. */
  lemma EntryOfContents(fields: seq<string>, m: Instance, baseDn: string)
    requires PlainFields(fields)
    ensures var e := EntryOf(fields, m, baseDn);
      && (forall f :: f in fields ==> (f in e <==> !IsEmpty(Attribute(m, f))))
      && (forall f :: f in fields && f in e ==> e[f] == Expand(Attribute(m, f)) && e[f] != [])
      && ("objectClass" in e <==> !IsEmpty(m.objectClass))
      && ("objectClass" in e ==> e["objectClass"] == Expand(m.objectClass))
      && (forall k :: k in e ==> k in fields || k == "objectClass")
  {
    var a := ObjectArray(fields, m, baseDn);
    var e := EntryOf(fields, m, baseDn);
    assert e == ToAttrs(AttributesArrayFilter(a));
    forall f | f in fields
      ensures f in e <==> !IsEmpty(Attribute(m, f))
      ensures f in e ==> e[f] == Expand(Attribute(m, f)) && e[f] != []
    {
      SentAttribute(a, f);
    }
    SentAttribute(a, "objectClass");
    forall k | k in e
      ensures k in fields || k == "objectClass"
    {
      SentAttribute(a, k);
    }
  }

  /** A save of a valid model that was never populated issues at most one
      request, an add at the DN its identity pattern names under its search
      path, and succeeds exactly when that DN is well formed and the server
      takes the add; the new entry holds what the model sends. It never
      renames. */
  lemma SaveFreshCreates(schema: Schema, inst: Instance, beforeSave: Instance -> Instance, env: Env, srv: Server)
    requires PlainFields(Keys(schema.fields))
    requires beforeSave(inst).actualDn.None?
    requires Validate(beforeSave(inst), schema.fields, env)
    ensures var r := Save(schema, inst, beforeSave, env, srv);
      var m := beforeSave(inst);
      var dn := DnOf(m.dnPattern, m.searchPath, env.baseDn);
      && (r.calls == [] || r.calls == [Add(dn)])
      && (r.outcome.Created? <==> r.calls == [Add(dn)] && ValidDn(dn) && Add(dn) !in srv.refused && dn !in srv.entries)
      && (r.outcome.Created? ==> r.server.entries == srv.entries[dn := EntryOf(Keys(schema.fields), m, env.baseDn)])
      && (!r.outcome.Created? ==> r.outcome == AddFailed && r.server == srv)
  {
    var m := beforeSave(inst);
    var a := ObjectArray(Keys(schema.fields), m, env.baseDn);
    var e := Create(a, srv);
    assert Save(schema, inst, beforeSave, env, srv) == Saved(e.outcome, e.calls, e.server, m);
    ObjectArrayTexts(Keys(schema.fields), m, env.baseDn);
    var dn := Text(a, "newDn");
    assert e.calls == [] || e.calls == [Add(dn)];
  }

  /** An array whose non-bookkeeping keys are exactly `names` leaves
      `$entry` uncreated exactly when each of them holds an empty list. */
  lemma UncreatedIff(a: Pairs<Value>, names: seq<string>)
    requires WellFormed(a)
    requires forall k :: k in Keys(a) ==> IsBookkeeping(k) || k in names
    requires forall k :: k in names ==> !IsBookkeeping(k) && k in Keys(a)
    ensures FilteredEntry(a).None? <==> forall k :: k in names ==> Get(a, k) == Some(List([]))
  {
    if FilteredEntry(a).None? {
      forall k | k in names ensures Get(a, k) == Some(List([])) {
        var i :| 0 <= i < |a| && Keys(a)[i] == k;
        GetEntry(a, i);
      }
    } else {
      var i :| 0 <= i < |a| && !IsBookkeeping(a[i].0) && a[i].1 != List([]);
      assert Keys(a)[i] == a[i].0;
      GetEntry(a, i);
    }
  }

  /** The object array of a model leaves `$entry` uncreated exactly when
      its object classes and every declared field are empty lists. */
  lemma ObjectArrayUncreated(fields: seq<string>, m: Instance, baseDn: string)
    requires PlainFields(fields)
    ensures FilteredEntry(ObjectArray(fields, m, baseDn)).None? <==>
      m.objectClass == List([]) && forall f :: f in fields ==> Attribute(m, f) == List([])
  {
    var a := ObjectArray(fields, m, baseDn);
    var names := ["objectClass"] + fields;
    assert forall k :: k in names <==> k == "objectClass" || k in fields;
    UncreatedIff(a, names);
  }

  /** A valid new model sends nothing at all exactly when its object
      classes and every declared field are empty lists: the filter then
      returns `null`. A field that is `null`, `""` or `"0"` is dropped but
      still makes the add go out. */
  lemma SaveFreshSilent(schema: Schema, inst: Instance, beforeSave: Instance -> Instance, env: Env, srv: Server)
    requires PlainFields(Keys(schema.fields))
    requires beforeSave(inst).actualDn.None?
    requires Validate(beforeSave(inst), schema.fields, env)
    ensures Save(schema, inst, beforeSave, env, srv).calls == [] <==>
      beforeSave(inst).objectClass == List([]) &&
      forall f :: f in Keys(schema.fields) ==> Attribute(beforeSave(inst), f) == List([])
  {
    var m := beforeSave(inst);
    var a := ObjectArray(Keys(schema.fields), m, env.baseDn);
    assert Save(schema, inst, beforeSave, env, srv).calls == Create(a, srv).calls;
    ObjectArrayUncreated(Keys(schema.fields), m, env.baseDn);
  }

  /** An entry named by one attribute under a one-component container. */
  lemma OneLevelDn(k: string, v: string, ck: string, cv: string, baseDn: string)
    requires k != ck
    ensures DnOf([(k, Str(v))], [(ck, Str(cv))], baseDn) == k + "=" + v + "," + (ck + "=" + cv + "," + baseDn)
  {
    var rdn := [(k, Str(v))];
    var sp := [(ck, Str(cv))];
    assert Keys(sp) == [ck] && Keys(rdn) == [k];
    DnOfSplits(rdn, sp, baseDn);
    ArrayToDnSingle(rdn[0], false);
    ArrayToDnSingle(sp[0], true);
    assert ArrayToDn(rdn, false) == k + "=" + v by {
      assert k + "=" + v + "" == k + "=" + v;
    }
  }

  /** One declared field of the entry `save` sends: present exactly when
      the model's value is non-empty, and then holding that value's strings. */
  lemma EntryOfField(fields: seq<string>, m: Instance, baseDn: string, f: string)
    requires PlainFields(fields) && f in fields
    ensures var e := EntryOf(fields, m, baseDn);
      && (f in e <==> !IsEmpty(Attribute(m, f)))
      && (f in e ==> e[f] == Expand(Attribute(m, f)))
  {
    SentAttribute(ObjectArray(fields, m, baseDn), f);
  }

  /** The object classes of the entry `save` sends: the model's, when it
      has any. */
  lemma EntryOfClasses(fields: seq<string>, m: Instance, baseDn: string)
    requires PlainFields(fields)
    ensures var e := EntryOf(fields, m, baseDn);
      && ("objectClass" in e <==> !IsEmpty(m.objectClass))
      && ("objectClass" in e ==> e["objectClass"] == Expand(m.objectClass))
  {
    var a := ObjectArray(fields, m, baseDn);
    assert EntryOf(fields, m, baseDn) == ToAttrs(AttributesArrayFilter(a));
    assert Get(a, "objectClass") == Some(m.objectClass);
    SentAttribute(a, "objectClass");
  }

  /** A valid new model with a non-empty field `f` sends exactly one
      request, the add at its DN; when that succeeds the new entry holds
      `f`'s value and the model's object classes. */
  lemma SaveFreshSendsOneAdd(schema: Schema, inst: Instance, beforeSave: Instance -> Instance, env: Env, srv: Server, f: string)
    requires PlainFields(Keys(schema.fields))
    requires beforeSave(inst).actualDn.None?
    requires Validate(beforeSave(inst), schema.fields, env)
    requires f in Keys(schema.fields) && !IsEmpty(Attribute(beforeSave(inst), f))
    ensures var r := Save(schema, inst, beforeSave, env, srv);
      var m := beforeSave(inst);
      var dn := DnOf(m.dnPattern, m.searchPath, env.baseDn);
      && r.calls == [Add(dn)]
      && (r.outcome.Created? <==> ValidDn(dn) && Add(dn) !in srv.refused && dn !in srv.entries)
      && (!r.outcome.Created? ==> r.outcome == AddFailed && r.server == srv)
      && (r.outcome.Created? ==>
            && dn in r.server.entries
            && f in r.server.entries[dn] && r.server.entries[dn][f] == Expand(Attribute(m, f))
            && (!IsEmpty(m.objectClass) ==>
                  "objectClass" in r.server.entries[dn] && r.server.entries[dn]["objectClass"] == Expand(m.objectClass)))
  {
    var m := beforeSave(inst);
    var names := Keys(schema.fields);
    EntryOfField(names, m, env.baseDn, f);
    EntryOfClasses(names, m, env.baseDn);
    SaveFreshCreates(schema, inst, beforeSave, env, srv);
    var a := ObjectArray(names, m, env.baseDn);
    assert AttributesArrayFilter(a) != [] by {
      assert f in ToAttrs(AttributesArrayFilter(a));
    }
    FilteredEntryKeeps(a);
    assert Save(schema, inst, beforeSave, env, srv).calls == Create(a, srv).calls;
  }

  /** A save that created an entry put exactly the filtered object array
      at the model's DN. */
  lemma CreatedEntry(schema: Schema, inst: Instance, beforeSave: Instance -> Instance, env: Env, srv: Server)
    requires PlainFields(Keys(schema.fields))
    requires Save(schema, inst, beforeSave, env, srv).outcome == Created
    ensures var r := Save(schema, inst, beforeSave, env, srv);
      var m := beforeSave(inst);
      var dn := DnOf(m.dnPattern, m.searchPath, env.baseDn);
      && m.actualDn.None?
      && dn in r.server.entries && r.server.entries[dn] == EntryOf(Keys(schema.fields), m, env.baseDn)
  {
    SaveFreshCreates(schema, inst, beforeSave, env, srv);
  }

  /** A save of a valid populated model first renames the entry at its old
      DN to the new RDN and then, when that succeeds and something is left
      to send, replaces the attributes at the new DN. It never adds. */
  lemma SaveExistingRenamesThenReplaces(schema: Schema, inst: Instance, beforeSave: Instance -> Instance, env: Env, srv: Server)
    requires PlainFields(Keys(schema.fields))
    requires beforeSave(inst).actualDn.Some?
    requires Validate(beforeSave(inst), schema.fields, env)
    ensures var r := Save(schema, inst, beforeSave, env, srv);
      var m := beforeSave(inst);
      var oldDn := DnOf(m.actualDn.value, m.searchPath, env.baseDn);
      var newRdn := ArrayToDn(m.dnPattern, false);
      var newDn := DnOf(m.dnPattern, m.searchPath, env.baseDn);
      && (r.outcome == Updated || r.outcome == RenameFailed || r.outcome == ReplaceFailed)
      && 1 <= |r.calls| <= 2 && r.calls[0] == Rename(oldDn, newRdn)
      && (|r.calls| == 2 ==> r.calls[1] == Replace(newDn))
      && (r.outcome == RenameFailed ==> r.server == srv)
      && (r.outcome == Updated ==> r.calls == [Rename(oldDn, newRdn), Replace(newDn)])
  {
    var m := beforeSave(inst);
    var a := ObjectArray(Keys(schema.fields), m, env.baseDn);
    var e := Update(a, srv);
    assert Save(schema, inst, beforeSave, env, srv) == Saved(e.outcome, e.calls, e.server, m);
    ObjectArrayTexts(Keys(schema.fields), m, env.baseDn);
  }

  /** When no key of the RDN components is also a key of the search path,
      the DN is the components, a comma, then the search path and base. */
  lemma DnOfSplits(rdn: Pairs<Value>, searchPath: Pairs<Value>, baseDn: string)
    requires rdn != []
    requires WellFormed(searchPath)
    requires forall k :: k in Keys(searchPath) ==> k !in Keys(rdn)
    ensures DnOf(rdn, searchPath, baseDn) == ArrayToDn(rdn, false) + "," + (ArrayToDn(searchPath, true) + baseDn)
  {
    var r := ArrayToDn(rdn, false);
    var tail := ArrayToDn(searchPath, true);
    MergeDisjoint(rdn, searchPath);
    ArrayToDnAppend(rdn, searchPath);
    TrailingComma(rdn);
    assert DnOf(rdn, searchPath, baseDn) == (r + ",") + tail + baseDn;
    AppendAssoc(r + ",", tail, baseDn);
  }

  /** A one-component identity: the DN is that component, a comma, then
      the search path and base. */
  lemma DnOfSingle(prior: Pairs<Value>, searchPath: Pairs<Value>, baseDn: string)
    requires |prior| == 1
    requires WellFormed(searchPath)
    requires forall k :: k in Keys(searchPath) ==> k !in Keys(prior)
    ensures DnOf(prior, searchPath, baseDn) == Component(prior[0]) + "," + (ArrayToDn(searchPath, true) + baseDn)
  {
    DnOfSplits(prior, searchPath, baseDn);
    ArrayToDnSingle(prior[0], false);
    assert [prior[0]] == prior;
    assert Component(prior[0]) + "" == Component(prior[0]);
  }

  /** Renaming a DN whose first comma ends its first component keeps the
      rest as the parent. */
  lemma RenameKeepsParent(x: string, rest: string, r: string)
    requires ',' !in x
    ensures RenameTarget(x + "," + rest, r) == r + "," + rest
  {
    var dn := x + "," + rest;
    assert dn == x + [','] + rest;
    assert dn[|x|] == ',';
    AfterFirstSkips(x, rest, ',');
  }

  /** The rename `update` issues lands on the new DN when the old identity
      is one component whose text has no comma and neither identity shares
      a key with the search path. */
  lemma RenameLandsOnNewDn(prior: Pairs<Value>, rdn: Pairs<Value>, searchPath: Pairs<Value>, baseDn: string)
    requires |prior| == 1 && ',' !in Component(prior[0])
    requires rdn != []
    requires WellFormed(searchPath)
    requires forall k :: k in Keys(searchPath) ==> k !in Keys(prior) && k !in Keys(rdn)
    ensures RenameTarget(DnOf(prior, searchPath, baseDn), ArrayToDn(rdn, false)) == DnOf(rdn, searchPath, baseDn)
  {
    var rest := ArrayToDn(searchPath, true) + baseDn;
    DnOfSingle(prior, searchPath, baseDn);
    RenameKeepsParent(Component(prior[0]), rest, ArrayToDn(rdn, false));
    DnOfSplits(rdn, searchPath, baseDn);
  }

  /** Nothing is escaped, so a comma inside an identity value splits the
      DN in the wrong place: the text after that comma is taken for an RDN
      of its own, and with no `=` in it the DN is malformed. */
  lemma DnMalformedWithCommaInValue(prior: Pairs<Value>, searchPath: Pairs<Value>, baseDn: string, x: string, y: string)
    requires |prior| == 1 && Component(prior[0]) == x + "," + y
    requires ',' !in x && ',' !in y && '=' !in y
    requires WellFormed(searchPath)
    requires forall k :: k in Keys(searchPath) ==> k !in Keys(prior)
    ensures !ValidDn(DnOf(prior, searchPath, baseDn))
  {
    var rest := ArrayToDn(searchPath, true) + baseDn;
    DnOfSingle(prior, searchPath, baseDn);
    assert DnOf(prior, searchPath, baseDn) == x + [','] + y + [','] + rest;
    SplitMiddle(x, y, rest, ',');
    assert !ValidRdn(y);
  }

  /** A populated model whose old identity value holds a comma is never
      updated: a valid save issues the rename alone, which the server
      refuses, and nothing changes. */
  lemma SaveRefusedWithCommaInValue(schema: Schema, inst: Instance, beforeSave: Instance -> Instance, env: Env, srv: Server,
                                    x: string, y: string)
    requires PlainFields(Keys(schema.fields))
    requires var m := beforeSave(inst);
      && m.actualDn.Some? && |m.actualDn.value| == 1 && Component(m.actualDn.value[0]) == x + "," + y
      && WellFormed(m.searchPath) && (forall k :: k in Keys(m.searchPath) ==> k !in Keys(m.actualDn.value))
    requires ',' !in x && ',' !in y && '=' !in y
    requires Validate(beforeSave(inst), schema.fields, env)
    ensures var r := Save(schema, inst, beforeSave, env, srv);
      var m := beforeSave(inst);
      && r.outcome == RenameFailed
      && r.calls == [Rename(DnOf(m.actualDn.value, m.searchPath, env.baseDn), ArrayToDn(m.dnPattern, false))]
      && r.server == srv
  {
    var m := beforeSave(inst);
    var a := ObjectArray(Keys(schema.fields), m, env.baseDn);
    ObjectArrayTexts(Keys(schema.fields), m, env.baseDn);
    DnMalformedWithCommaInValue(m.actualDn.value, m.searchPath, env.baseDn, x, y);
    var e := Update(a, srv);
    assert Save(schema, inst, beforeSave, env, srv) == Saved(e.outcome, e.calls, e.server, m);
  }

  /** The case of a user filed as `cn=Doe, John` under `ou=users`: the DN
      the old identity names is malformed, so no rename from it succeeds. */
  lemma DoeJohnNeverRenamed(baseDn: string, srv: Server, newRdn: string)
    ensures RenameEntry(srv, DnOf([("cn", Str("Doe, John"))], [("ou", Str("users"))], baseDn), newRdn).None?
  {
    var prior := [("cn", Str("Doe, John"))];
    var searchPath := [("ou", Str("users"))];
    assert Keys(searchPath) == ["ou"] && Keys(prior) == ["cn"];
    assert Component(prior[0]) == "cn=Doe" + "," + " John";
    DnMalformedWithCommaInValue(prior, searchPath, baseDn, "cn=Doe", " John");
  }

  /** When the rename lands on the new DN, a successful update leaves the
      entry there, with its RDN values exchanged and then every attribute
      sent replaced, and no entry at the old DN if it differs. An attribute
      not sent and not named by either RDN keeps its stored values, and
      the values of one sent are exactly those sent. */
  lemma UpdateInPlace(a: Pairs<Value>, srv: Server)
    requires RenameTarget(Text(a, "actualDn"), Text(a, "newRdn")) == Text(a, "newDn")
    requires Update(a, srv).outcome == Updated
    ensures var from, rdn, to := Text(a, "actualDn"), Text(a, "newRdn"), Text(a, "newDn");
      var after := Update(a, srv).server;
      var sent := ToAttrs(AttributesArrayFilter(a));
      && from in srv.entries && to in after.entries
      && after.entries[to] == Replaced(MoveRdn(srv.entries[from], FirstRdn(from), rdn), sent)
      && (to != from ==> from !in after.entries)
      && (forall k :: k in sent ==> k in after.entries[to] && after.entries[to][k] == sent[k])
      && (forall k :: k !in sent && k != RdnType(FirstRdn(from)) && k != RdnType(rdn) ==>
            && (k in after.entries[to] <==> k in srv.entries[from])
            && (k in after.entries[to] ==> after.entries[to][k] == srv.entries[from][k]))
  {
    var from, rdn, to := Text(a, "actualDn"), Text(a, "newRdn"), Text(a, "newDn");
    var moved := RenameEntry(srv, from, rdn).value;
    assert moved.entries[to] == MoveRdn(srv.entries[from], FirstRdn(from), rdn);
    SentNonEmpty(AttributesArrayFilter(a));
  }

  /** Every attribute of a filtered entry carries at least one value. */
  lemma SentNonEmpty(entry: Pairs<Value>)
    requires forall p :: p in entry ==> Kept(p)
    ensures forall k :: k in ToAttrs(entry) ==> ToAttrs(entry)[k] != []
  {
    forall k | k in ToAttrs(entry) ensures ToAttrs(entry)[k] != [] {
      GetIn(entry, k);
    }
  }

  /** An updated model whose rename landed on its new DN keeps, for a field
      it has emptied, the values the renamed entry had: emptying a field
      never clears the attribute on the server. Unless the field is the
      attribute of the old or new RDN, those are the values stored before. */
  lemma SaveKeepsEmptiedField(schema: Schema, inst: Instance, beforeSave: Instance -> Instance, env: Env, srv: Server, f: string)
    requires PlainFields(Keys(schema.fields))
    requires f in Keys(schema.fields)
    requires var m := beforeSave(inst);
      && m.actualDn.Some?
      && IsEmpty(Attribute(m, f))
      && RenameTarget(DnOf(m.actualDn.value, m.searchPath, env.baseDn), ArrayToDn(m.dnPattern, false))
           == DnOf(m.dnPattern, m.searchPath, env.baseDn)
    requires Save(schema, inst, beforeSave, env, srv).outcome == Updated
    requires var m := beforeSave(inst);
      var oldDn := DnOf(m.actualDn.value, m.searchPath, env.baseDn);
      oldDn in srv.entries && f in srv.entries[oldDn]
    ensures var m := beforeSave(inst);
      var oldDn := DnOf(m.actualDn.value, m.searchPath, env.baseDn);
      var newRdn := ArrayToDn(m.dnPattern, false);
      var newDn := DnOf(m.dnPattern, m.searchPath, env.baseDn);
      var after := Save(schema, inst, beforeSave, env, srv).server;
      var moved := MoveRdn(srv.entries[oldDn], FirstRdn(oldDn), newRdn);
      && newDn in after.entries
      && (f in after.entries[newDn] <==> f in moved)
      && (f in moved ==> after.entries[newDn][f] == moved[f])
      && (f != RdnType(FirstRdn(oldDn)) && f != RdnType(newRdn) ==>
            f in after.entries[newDn] && after.entries[newDn][f] == srv.entries[oldDn][f])
  {
    var m := beforeSave(inst);
    var fields := Keys(schema.fields);
    var a := ObjectArray(fields, m, env.baseDn);
    ObjectArrayTexts(fields, m, env.baseDn);
    EntryOfField(fields, m, env.baseDn, f);
    assert f !in EntryOf(fields, m, env.baseDn);
    assert Save(schema, inst, beforeSave, env, srv).server == Update(a, srv).server;
    UpdateInPlace(a, srv);
  }

  /** `save` does not record where it stored a new model: after a
      successful create the model still has no `actualDn`. Saving it again
      (with a hook that is stable on its own result) validates afresh,
      against whatever the server's lookup `search2` now answers. If the
      model still validates, the same DN is added a second time and the
      server refuses it; if not, the save is reported invalid and nothing
      is sent. Either way the server is unchanged. */
  lemma SecondSaveAfterCreateFails(schema: Schema, inst: Instance, beforeSave: Instance -> Instance, env: Env, search2: Search, srv: Server)
    requires beforeSave(beforeSave(inst)) == beforeSave(inst)
    requires Save(schema, inst, beforeSave, env, srv).outcome == Created
    ensures var first := Save(schema, inst, beforeSave, env, srv);
      && first.model.actualDn.None?
      && Validate(first.model, schema.fields, env)
    ensures var first := Save(schema, inst, beforeSave, env, srv);
      var second := Save(schema, first.model, beforeSave, env.(search := search2), first.server);
      && second.server == first.server
      && (Validate(first.model, schema.fields, env.(search := search2)) ==>
            second.outcome == AddFailed && second.calls == first.calls)
      && (!Validate(first.model, schema.fields, env.(search := search2)) ==>
            second.outcome.Invalid? && second.calls == [])
  {
  }
}
