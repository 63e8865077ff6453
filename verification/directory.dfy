/** The directory server as the mapping layer uses it: entries addressed
    by DN, the three write requests `save` can issue, and the search
    interface. The server is a value threaded through the operations. */
module Directory {
  import opened Php
  import opened Dn

  /** The stored attributes of one entry: attribute name to its values. */
  type Attrs = map<string, seq<string>>

  /** A write request, as the server receives it. */
  datatype Call =
    | Add(dn: string)
    | Rename(dn: string, newRdn: string)
    | Replace(dn: string)

  /** The server's entries by DN, and the requests it refuses on grounds
      this model does not describe (schema violations, access control, a
      missing parent entry). */
  datatype Server = Server(entries: map<string, Attrs>, refused: set<Call>)

  /** The text before the first occurrence of `c`, or all of `s`: the
      longest prefix of `s` without `c`. */
  function BeforeFirst(s: string, c: char): (r: string)
    ensures |r| <= |s| && r == s[..|r|]
    ensures c !in r
    ensures c !in s ==> r == s
    ensures c in s ==> |r| < |s| && s[|r|] == c
    decreases |s|
  {
    if s == [] || s[0] == c then []
    else
      var rest := BeforeFirst(s[1..], c);
      assert s[..|rest| + 1] == [s[0]] + s[1..][..|rest|];
      assert c in s ==> c in s[1..];
      [s[0]] + rest
  }

  /** The text before and the text after the first `c`, with that `c`
      between them, make up the whole text. */
  lemma SplitAtFirst(s: string, c: char)
    requires c in s
    ensures s == BeforeFirst(s, c) + [c] + AfterFirst(s, c)
  {
    var r, a := BeforeFirst(s, c), AfterFirst(s, c);
    var p := |s| - |a| - 1;
    assert p == |r|;
    assert s == s[..p] + [s[p]] + s[p + 1..];
  }

  /** The text after the first occurrence of `c`, or the empty string when
      `c` does not occur: what follows a `c` whose prefix holds no `c`. */
  function AfterFirst(s: string, c: char): (r: string)
    ensures |r| <= |s|
    ensures c !in s ==> r == []
    ensures c in s ==> |r| < |s| && s[|s| - |r| - 1] == c && s[|s| - |r|..] == r && c !in s[..|s| - |r| - 1]
    decreases |s|
  {
    if s == [] then []
    else if s[0] == c then s[1..]
    else
      var r := AfterFirst(s[1..], c);
      assert c in s ==> c in s[1..];
      if c in s[1..] then
        var m := |s| - |r| - 1;
        assert s[1..][m - 1] == s[m];
        assert s[1..][m..] == s[m + 1..];
        assert s[..m] == [s[0]] + s[1..][..m - 1];
        r
      else r
  }

  lemma {:induction false} AfterFirstSkips(x: string, y: string, c: char)
    requires c !in x
    ensures AfterFirst(x + [c] + y, c) == y
    decreases |x|
  {
    if x == [] {
      assert x + [c] + y == [c] + y;
      assert ([c] + y)[1..] == y;
    } else {
      assert (x + [c] + y)[1..] == x[1..] + [c] + y;
      AfterFirstSkips(x[1..], y, c);
    }
  }

  /** The leading RDN of a DN: the text before its first comma (the DN is
      not unescaped). */
  function FirstRdn(dn: string): string
  {
    BeforeFirst(dn, ',')
  }

  /** The attribute type of an RDN `type=value`: the text before its first
      `=`. */
  function RdnType(rdn: string): string
  {
    BeforeFirst(rdn, '=')
  }

  /** The attribute value of an RDN `type=value`: the text after its first
      `=`. */
  function RdnValue(rdn: string): string
  {
    AfterFirst(rdn, '=')
  }

  /** An RDN as the string form of section 3 of RFC 4514 requires it, as far
      as this model reads it: a non-empty attribute type, an `=`, a value,
      and no comma. */
  predicate ValidRdn(rdn: string)
  {
    '=' in rdn && RdnType(rdn) != [] && ',' !in rdn
  }

  /** A DN in string form: each comma-separated component is an RDN. A
      text that is not one is refused by the server (invalidDNSyntax). */
  predicate ValidDn(dn: string)
  {
    forall part :: part in Split(dn, ',') ==> ValidRdn(part)
  }

  /** The values of `xs` other than `v`, in order. */
  function Without(xs: seq<string>, v: string): (r: seq<string>)
    ensures forall x :: x in r <==> x in xs && x != v
  {
    if xs == [] then []
    else
      assert xs == [xs[0]] + xs[1..];
      (if xs[0] == v then [] else [xs[0]]) + Without(xs[1..], v)
  }

  /** Deleting value `v` of attribute `t`; an attribute left with no value
      is removed. */
  function RemoveValue(attrs: Attrs, t: string, v: string): (r: Attrs)
    ensures forall k :: k != t ==> (k in r <==> k in attrs) && (k in r ==> r[k] == attrs[k])
    ensures t in r ==> t in attrs && forall x :: x in r[t] <==> x in attrs[t] && x != v
    ensures t in attrs && (exists x :: x in attrs[t] && x != v) ==> t in r
  {
    if t !in attrs then attrs
    else
      var rest := Without(attrs[t], v);
      if rest == [] then attrs - {t} else attrs[t := rest]
  }

  /** Adding value `v` to attribute `t`, unless it already holds it. */
  function AddValue(attrs: Attrs, t: string, v: string): (r: Attrs)
    ensures forall k :: k != t ==> (k in r <==> k in attrs) && (k in r ==> r[k] == attrs[k])
    ensures t in r && forall x :: x in r[t] <==> x == v || (t in attrs && x in attrs[t])
  {
    if t in attrs && v in attrs[t] then attrs
    else attrs[t := (if t in attrs then attrs[t] else []) + [v]]
  }

  /** An entry's attributes after a rename with `deleteoldrdn` set (section
      4.9 of RFC 4511): the old RDN value is deleted from its attribute and
      the new RDN value added to its own; nothing else changes. */
  function MoveRdn(attrs: Attrs, oldRdn: string, newRdn: string): (r: Attrs)
    ensures forall k :: k != RdnType(oldRdn) && k != RdnType(newRdn) ==>
      (k in r <==> k in attrs) && (k in r ==> r[k] == attrs[k])
    ensures RdnType(oldRdn) != RdnType(newRdn) || RdnValue(oldRdn) != RdnValue(newRdn) ==>
      && RdnType(newRdn) in r && RdnValue(newRdn) in r[RdnType(newRdn)]
      && (RdnType(oldRdn) in r ==> RdnValue(oldRdn) !in r[RdnType(oldRdn)])
  {
    var ot, ov, nt, nv := RdnType(oldRdn), RdnValue(oldRdn), RdnType(newRdn), RdnValue(newRdn);
    if ot == nt && ov == nv then attrs
    else AddValue(RemoveValue(attrs, ot, ov), nt, nv)
  }

  /** An entry's attributes after a replace (section 4.6 of RFC 4511): each
      attribute given takes exactly the given values, one given no value is
      removed, and every other attribute keeps its values. */
  function Replaced(prior: Attrs, given: Attrs): (r: Attrs)
    ensures forall k :: k in given && given[k] != [] ==> k in r && r[k] == given[k]
    ensures forall k :: k in given && given[k] == [] ==> k !in r
    ensures forall k :: k !in given ==> (k in r <==> k in prior) && (k in r ==> r[k] == prior[k])
  {
    map k | k in prior.Keys + given.Keys && (k in given ==> given[k] != []) :: if k in given then given[k] else prior[k]
  }

  /** `ldap_add`: creates the entry unless the DN is malformed or taken or
      the request is refused; no other entry changes. */
  function AddEntry(srv: Server, dn: string, attrs: Attrs): (r: Option<Server>)
    ensures r.Some? <==> ValidDn(dn) && Add(dn) !in srv.refused && dn !in srv.entries
    ensures r.Some? ==> r.value.refused == srv.refused && r.value.entries.Keys == srv.entries.Keys + {dn}
    ensures r.Some? ==> r.value.entries == srv.entries[dn := attrs]
  {
    if !ValidDn(dn) || Add(dn) in srv.refused || dn in srv.entries then None
    else Some(srv.(entries := srv.entries[dn := attrs]))
  }

  /** Where a rename with no new superior moves an entry: the new RDN under
      the old parent, the parent being everything after the first comma. */
  function RenameTarget(dn: string, newRdn: string): string
  {
    if ',' in dn then newRdn + "," + AfterFirst(dn, ',') else newRdn
  }

  /** `ldap_rename` with no new superior and `deleteoldrdn` set: when both
      names are well formed, the entry exists and the target is free (or is
      the entry itself), the entry moves to `RenameTarget` with its RDN
      values exchanged by `MoveRdn`; no other entry changes. */
  function RenameEntry(srv: Server, dn: string, newRdn: string): (r: Option<Server>)
    ensures r.Some? <==>
      && Rename(dn, newRdn) !in srv.refused && ValidDn(dn) && ValidRdn(newRdn) && dn in srv.entries
      && (RenameTarget(dn, newRdn) == dn || RenameTarget(dn, newRdn) !in srv.entries)
    ensures r.Some? ==> r.value.refused == srv.refused
    ensures r.Some? ==> dn in srv.entries && RenameTarget(dn, newRdn) in r.value.entries
    ensures r.Some? ==> r.value.entries[RenameTarget(dn, newRdn)] == MoveRdn(srv.entries[dn], FirstRdn(dn), newRdn)
    ensures r.Some? && RenameTarget(dn, newRdn) != dn ==> dn !in r.value.entries
    ensures r.Some? ==> forall d :: d != dn && d != RenameTarget(dn, newRdn) ==>
      (d in r.value.entries <==> d in srv.entries) && (d in srv.entries ==> r.value.entries[d] == srv.entries[d])
  {
    var target := RenameTarget(dn, newRdn);
    if Rename(dn, newRdn) in srv.refused || !ValidDn(dn) || !ValidRdn(newRdn) || dn !in srv.entries then None
    else if target != dn && target in srv.entries then None
    else Some(srv.(entries := (srv.entries - {dn})[target := MoveRdn(srv.entries[dn], FirstRdn(dn), newRdn)]))
  }

  /** `ldap_mod_replace`: when the DN is well formed, the entry exists and
      the request is not refused, the entry's attributes become `Replaced`;
      no entry is created, removed or otherwise changed. */
  function ReplaceAttrs(srv: Server, dn: string, attrs: Attrs): (r: Option<Server>)
    ensures r.Some? <==> ValidDn(dn) && Replace(dn) !in srv.refused && dn in srv.entries
    ensures r.Some? ==> r.value.refused == srv.refused && r.value.entries.Keys == srv.entries.Keys
    ensures r.Some? ==> r.value.entries == srv.entries[dn := Replaced(srv.entries[dn], attrs)]
  {
    if !ValidDn(dn) || Replace(dn) in srv.refused || dn !in srv.entries then None
    else Some(srv.(entries := srv.entries[dn := Replaced(srv.entries[dn], attrs)]))
  }

  /** One entry of a search result: attribute names, in the server's
      spelling and order, with their values. */
  type RawEntry = seq<(string, seq<string>)>

  /** The arguments of `ldap_search`: base DN, filter, attributes to fetch
      (empty for all). */
  datatype Query = Query(base: string, filter: string, attributes: seq<string>)

  /** `ldap_search`: the matching entries in the server's order, or `None`
      when the search itself fails. */
  type Search = Query -> Option<seq<RawEntry>>
}
