/** Reading entries back: the normalisation of raw search results into
    flat PHP arrays (`entryToArray`, `entriesToArray`) and the filter
    `findOneBy` builds. */
module Results {
  import opened Php
  import opened PhpArray
  import opened Dn
  import opened Directory

  /** How a value list is returned (ldapOrm.php:549-555): exactly one value
      becomes that scalar, any other number stays a list. Nothing is lost:
      expanding the result gives the values back. */
  function Collapse(values: seq<string>): (v: Value)
    ensures v.Str? <==> |values| == 1
    ensures !v.Null?
    ensures Expand(v) == values
  {
    if |values| == 1 then Str(values[0]) else List(values)
  }

  /** The values a scalar or list attribute stands for when it is sent to
      the server: a scalar is one value, a list its elements. */
  function Expand(v: Value): seq<string>
  {
    match v
    case Null => []
    case Str(s) => [s]
    case List(xs) => xs
  }

  /** Expanding then collapsing is the identity on every value a read can
      produce. */
  lemma CollapseExpand(v: Value)
    requires v.Str? || (v.List? && |v.items| != 1)
    ensures Collapse(Expand(v)) == v
  {
  }

  /** The lowercased attribute names of an entry, in order. */
  function LowerNames(e: RawEntry): (ns: seq<string>)
    ensures |ns| == |e|
    ensures forall i :: 0 <= i < |e| ==> ns[i] == Lower(e[i].0)
  {
    if e == [] then [] else [Lower(e[0].0)] + LowerNames(e[1..])
  }

  /** One entry normalised (ldapOrm.php:577-591): each attribute, in order,
      assigned under its lowercased name with its collapsed value list.
      The keys are exactly the lowercased names, each once. */
  function EntryToArray(e: RawEntry): (r: Pairs<Value>)
    ensures WellFormed(r)
    ensures forall k :: k in Keys(r) <==> k in LowerNames(e)
    ensures r == [] <==> e == []
    decreases |e|
  {
    if e == [] then []
    else
      var n := |e| - 1;
      var key := Lower(e[n].0);
      var front := EntryToArray(e[..n]);
      var r := Put(front, key, Collapse(e[n].1));
      PutWellFormed(front, key, Collapse(e[n].1));
      LowerNamesSnoc(e);
      assert key in Keys(r);
      r
  }

  lemma {:induction false} LowerNamesSnoc(e: RawEntry)
    requires e != []
    ensures LowerNames(e) == LowerNames(e[..|e| - 1]) + [Lower(e[|e| - 1].0)]
    decreases |e|
  {
    var n := |e| - 1;
    if n > 0 {
      var tail := e[1..];
      LowerNamesSnoc(tail);
      assert tail[..|tail| - 1] == e[..n][1..];
      assert tail[|tail| - 1] == e[n];
      assert LowerNames(e[..n]) == [Lower(e[0].0)] + LowerNames(e[..n][1..]);
      ConsAppend(Lower(e[0].0), LowerNames(e[..n][1..]), [Lower(e[n].0)]);
    }
  }

  lemma ConsAppend<T>(x: T, s: seq<T>, t: seq<T>)
    ensures [x] + (s + t) == [x] + s + t
  {
  }

  /** When no two attribute names differ only in case, every attribute is
      found under its lowercased name with its collapsed values. */
  lemma {:induction false} EntryToArrayGet(e: RawEntry, i: nat)
    requires Distinct(LowerNames(e))
    requires i < |e|
    ensures Get(EntryToArray(e), Lower(e[i].0)) == Some(Collapse(e[i].1))
    decreases |e|
  {
    var n := |e| - 1;
    var front := EntryToArray(e[..n]);
    var key := Lower(e[n].0);
    assert EntryToArray(e) == Put(front, key, Collapse(e[n].1));
    if i < n {
      var ns := LowerNames(e);
      assert ns[i] != ns[n];
      assert e[..n][i] == e[i];
      LowerNamesPrefixDistinct(e);
      EntryToArrayGet(e[..n], i);
    }
  }

  lemma LowerNamesPrefixDistinct(e: RawEntry)
    requires e != []
    requires Distinct(LowerNames(e))
    ensures Distinct(LowerNames(e[..|e| - 1]))
  {
    LowerNamesSnoc(e);
  }

  /** `entryToArray`: the first entry of a result normalised, or the empty
      array when the result has no entry. */
  function FirstEntryToArray(es: seq<RawEntry>): (r: Pairs<Value>)
    ensures es == [] ==> r == []
    ensures es != [] ==> (r == [] <==> es[0] == [])
    ensures es != [] ==> r == EntryToArray(es[0])
  {
    if es == [] then [] else EntryToArray(es[0])
  }

  /** `entriesToArray` (ldapOrm.php:538-563): every entry normalised, in
      order, except that an entry with no attributes yields no row. No row
      is empty, and when every entry has an attribute there is one row per
      entry. */
  function EntriesToArray(es: seq<RawEntry>): (rows: seq<Pairs<Value>>)
    ensures |rows| <= |es|
    ensures forall i :: 0 <= i < |rows| ==> rows[i] != []
  {
    if es == [] then []
    else
      var row := EntryToArray(es[0]);
      var rest := EntriesToArray(es[1..]);
      if row != [] then
        var rows := [row] + rest;
        assert forall i :: 0 < i < |rows| ==> rows[i] == rest[i - 1];
        rows
      else rest
  }

  /** When every entry has an attribute, there is one row per entry, each
      that entry normalised. */
  lemma {:induction false} EntriesToArrayEach(es: seq<RawEntry>)
    requires forall i :: 0 <= i < |es| ==> es[i] != []
    ensures var rows := EntriesToArray(es);
      |rows| == |es| && forall i :: 0 <= i < |es| ==> rows[i] == EntryToArray(es[i])
    decreases |es|
  {
    if es != [] {
      var rest := es[1..];
      assert forall i :: 0 <= i < |rest| ==> rest[i] == es[i + 1];
      EntriesToArrayEach(rest);
      var rows := EntriesToArray(es);
      assert EntryToArray(es[0]) != [];
      assert rows == [EntryToArray(es[0])] + EntriesToArray(rest);
      forall i | 0 <= i < |es| ensures rows[i] == EntryToArray(es[i]) {
        if i > 0 {
          assert rows[i] == EntriesToArray(rest)[i - 1];
        }
      }
    }
  }

  /** The entries that have at least one attribute, in their order. */
  function Attributed(es: seq<RawEntry>): (ne: seq<RawEntry>)
    ensures forall e :: e in ne <==> e in es && e != []
    ensures |ne| <= |es|
  {
    if es == [] then []
    else
      assert es == [es[0]] + es[1..];
      (if es[0] != [] then [es[0]] else []) + Attributed(es[1..])
  }

  /** Entries without attributes contribute nothing. */
  lemma {:induction false} EntriesToArraySkipsEmpty(es: seq<RawEntry>)
    ensures EntriesToArray(es) == EntriesToArray(Attributed(es))
    decreases |es|
  {
    if es != [] {
      EntriesToArraySkipsEmpty(es[1..]);
      var rest := Attributed(es[1..]);
      if es[0] != [] {
        var ne := [es[0]] + rest;
        assert Attributed(es) == ne;
        assert ne[0] == es[0] && ne[1..] == rest;
      } else {
        assert Attributed(es) == rest;
      }
    }
  }

  /** For any mix of entries, the rows are the entries that have an
      attribute, each normalised, one row per such entry, in order. */
  lemma EntriesToArrayRows(es: seq<RawEntry>)
    ensures var rows, ne := EntriesToArray(es), Attributed(es);
      |rows| == |ne| && forall i :: 0 <= i < |ne| ==> rows[i] == EntryToArray(ne[i])
  {
    var ne := Attributed(es);
    EntriesToArraySkipsEmpty(es);
    assert forall i :: 0 <= i < |ne| ==> ne[i] != [] by {
      forall i | 0 <= i < |ne| ensures ne[i] != [] {
        assert ne[i] in ne;
      }
    }
    EntriesToArrayEach(ne);
  }

  /** The search `findOneBy` issues (ldapOrm.php:397-403): under the search
      path, with the filter array rendered without a trailing comma and
      wrapped in parentheses. */
  function FindOneByQuery(searchPath: Pairs<Value>, attributesToFetch: seq<string>,
                          filterArray: Pairs<Value>, baseDn: string): (q: Query)
    ensures q.base == (if searchPath == [] then baseDn else Join(Components(searchPath)) + "," + baseDn)
    ensures q.filter == "(" + Join(Components(filterArray)) + ")"
    ensures q.attributes == attributesToFetch
  {
    Query(ArrayToDn(searchPath, true) + baseDn, "(" + ArrayToDn(filterArray, false) + ")", attributesToFetch)
  }

  /** `findOneBy`: the first matching entry normalised, the empty array
      when nothing matches, `None` when the search fails. */
  function FindOneBy(searchPath: Pairs<Value>, attributesToFetch: seq<string>,
                     filterArray: Pairs<Value>, baseDn: string, search: Search): (r: Option<Pairs<Value>>)
    ensures var res := search(FindOneByQuery(searchPath, attributesToFetch, filterArray, baseDn));
      && (r.None? <==> res.None?)
      && (r.Some? ==> (r.value == [] <==> res.value == [] || res.value[0] == []))
      && (r.Some? ==> WellFormed(r.value))
  {
    match search(FindOneByQuery(searchPath, attributesToFetch, filterArray, baseDn))
    case None => None
    case Some(es) => Some(FirstEntryToArray(es))
  }
}
