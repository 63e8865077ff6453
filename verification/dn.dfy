/** Distinguished-name and filter text built from PHP arrays of RDN
    components (`arrayToDn`), and the base DN derived from a domain.
    No value is escaped: a `,` or `=` inside a key or value is copied
    as it is. */
module Dn {
  import opened Php
  import opened PhpArray

  /** One `key=value` component, as string concatenation renders it. */
  function Component(e: (string, Value)): string
  {
    e.0 + "=" + ToStr(e.1)
  }

  function Components(a: Pairs<Value>): (cs: seq<string>)
    ensures |cs| == |a|
    ensures forall i :: 0 <= i < |a| ==> cs[i] == Component(a[i])
  {
    if a == [] then [] else [Component(a[0])] + Components(a[1..])
  }

  /** Every element preceded by one comma. */
  function Prefixed(xs: seq<string>): string
  {
    if xs == [] then "" else "," + xs[0] + Prefixed(xs[1..])
  }

  /** The elements separated by single commas: the reference layout of a DN. */
  function Join(xs: seq<string>): string
  {
    if xs == [] then "" else xs[0] + Prefixed(xs[1..])
  }

  /** A one-component array renders as that component alone. */
  lemma ArrayToDnSingle(e: (string, Value), trailingComma: bool)
    ensures ArrayToDn([e], trailingComma) == Component(e) + (if trailingComma then "," else "")
  {
    assert Components([e]) == [Component(e)];
    assert Join([Component(e)]) == Component(e) + Prefixed([]);
  }

  /** With the trailing comma, a non-empty array renders as without it,
      then a comma. */
  lemma TrailingComma(a: Pairs<Value>)
    requires a != []
    ensures ArrayToDn(a, true) == ArrayToDn(a, false) + ","
  {
    var j := Join(Components(a));
    assert j + "" == j;
  }

  /** Cuts a string at every occurrence of `sep`; the inverse of joining. */
  function Split(s: string, sep: char): (parts: seq<string>)
    ensures |parts| >= 1
  {
    if s == [] then [""]
    else
      var rest := Split(s[1..], sep);
      if s[0] == sep then [""] + rest else [[s[0]] + rest[0]] + rest[1..]
  }

  /** The `foreach` of `arrayToDn` from entry `i` on, `acc` being the text
      built so far: each entry is appended, preceded by a comma unless it
      is the first. */
  function AppendFrom(a: Pairs<Value>, i: nat, acc: string): string
    requires i <= |a|
    decreases |a| - i
  {
    if i == |a| then acc
    else AppendFrom(a, i + 1, acc + (if i == 0 then "" else ",") + Component(a[i]))
  }

  lemma {:induction false} AppendFromJoins(a: Pairs<Value>, i: nat, acc: string)
    requires 1 <= i <= |a|
    ensures AppendFrom(a, i, acc) == acc + Prefixed(Components(a)[i..])
    decreases |a| - i
  {
    var cs := Components(a);
    if i < |a| {
      AppendFromJoins(a, i + 1, acc + "," + Component(a[i]));
      assert cs[i..][1..] == cs[i + 1..];
      assert Prefixed(cs[i..]) == "," + cs[i] + Prefixed(cs[i + 1..]);
    } else {
      assert cs[i..] == [];
    }
  }

  /** `arrayToDn`: the empty array gives the empty string; otherwise the
      `key=value` components in array order, separated by commas, with one
      more comma at the end exactly when `trailingComma` is set. */
  function ArrayToDn(a: Pairs<Value>, trailingComma: bool): (r: string)
    ensures a == [] ==> r == ""
    ensures a != [] ==> r == Join(Components(a)) + (if trailingComma then "," else "")
  {
    if a == [] then ""
    else
      assert AppendFrom(a, 0, "") == AppendFrom(a, 1, Component(a[0])) by {
        assert "" + "" + Component(a[0]) == Component(a[0]);
      }
      AppendFromJoins(a, 1, Component(a[0]));
      AppendFrom(a, 0, "") + (if trailingComma then "," else "")
  }

  /** Splitting text that starts with a comma-free part. */
  lemma {:induction false} SplitPrefix(x: string, t: string, sep: char)
    requires sep !in x
    ensures Split(x + t, sep) == [x + Split(t, sep)[0]] + Split(t, sep)[1..]
    decreases |x|
  {
    if x != [] {
      assert (x + t)[1..] == x[1..] + t;
      SplitPrefix(x[1..], t, sep);
      assert [x[0]] + (x[1..] + Split(t, sep)[0]) == x + Split(t, sep)[0];
    } else {
      var st := Split(t, sep);
      assert x + t == t;
      assert x + st[0] == st[0];
      assert [st[0]] + st[1..] == st;
    }
  }

  /** Text that starts with a separator splits into an empty part first. */
  lemma SplitSep(t: string, sep: char)
    ensures Split([sep] + t, sep) == [""] + Split(t, sep)
  {
    assert ([sep] + t)[1..] == t;
  }

  /** A separator-free part between two separators is one of the parts. */
  lemma SplitMiddle(x: string, y: string, rest: string, sep: char)
    requires sep !in x && sep !in y
    ensures y in Split(x + [sep] + y + [sep] + rest, sep)
  {
    var t2 := [sep] + rest;
    var t1 := [sep] + (y + t2);
    assert x + [sep] + y + [sep] + rest == x + t1;
    SplitPrefix(x, t1, sep);
    SplitSep(y + t2, sep);
    SplitPrefix(y, t2, sep);
    SplitSep(rest, sep);
    assert y + "" == y;
    assert Split(x + t1, sep)[1] == y;
  }

  /** Joining comma-free parts and splitting at commas gives the parts back. */
  lemma {:induction false} SplitJoin(xs: seq<string>)
    requires xs != []
    requires forall i :: 0 <= i < |xs| ==> ',' !in xs[i]
    ensures Split(Join(xs), ',') == xs
    decreases |xs|
  {
    if |xs| == 1 {
      SplitPrefix(xs[0], "", ',');
      assert Split("", ',') == [""];
      assert Join(xs) == xs[0] + "";
      assert xs[0] + "" == xs[0];
      assert xs == [xs[0]];
    } else {
      var rest := xs[1..];
      SplitJoin(rest);
      assert Prefixed(rest) == "," + Join(rest);
      assert Join(xs) == xs[0] + ("," + Join(rest));
      SplitPrefix(xs[0], "," + Join(rest), ',');
      assert ("," + Join(rest))[1..] == Join(rest);
      assert Split("," + Join(rest), ',') == [""] + xs[1..];
      assert xs[0] + "" == xs[0];
      assert xs == [xs[0]] + xs[1..];
    }
  }

  /** The components of a DN built without a trailing comma are recovered
      by cutting it at commas, provided no component contains one. */
  lemma SplitArrayToDn(a: Pairs<Value>)
    requires a != []
    requires forall i :: 0 <= i < |a| ==> ',' !in Component(a[i])
    ensures Split(ArrayToDn(a, false), ',') == Components(a)
  {
    var cs := Components(a);
    assert ArrayToDn(a, false) == Join(cs) + "";
    assert Join(cs) + "" == Join(cs);
    SplitJoin(cs);
  }

  lemma {:induction false} PrefixedAppend(xs: seq<string>, ys: seq<string>)
    ensures Prefixed(xs + ys) == Prefixed(xs) + Prefixed(ys)
    decreases |xs|
  {
    if xs == [] {
      assert xs + ys == ys;
    } else {
      assert (xs + ys)[1..] == xs[1..] + ys;
      PrefixedAppend(xs[1..], ys);
    }
  }

  lemma {:induction false} ComponentsAppend(a: Pairs<Value>, b: Pairs<Value>)
    ensures Components(a + b) == Components(a) + Components(b)
  {
    var l := Components(a + b);
    var r := Components(a) + Components(b);
    assert |l| == |r|;
    forall i | 0 <= i < |l| ensures l[i] == r[i] {
      if i < |a| {
        assert (a + b)[i] == a[i];
      } else {
        assert (a + b)[i] == b[i - |a|];
      }
    }
  }

  /** Building a DN with trailing commas distributes over concatenation of
      the component arrays: this is how a leaf RDN is prefixed to a search
      path. */
  lemma ArrayToDnAppend(a: Pairs<Value>, b: Pairs<Value>)
    ensures ArrayToDn(a + b, true) == ArrayToDn(a, true) + ArrayToDn(b, true)
  {
    if a == [] {
      assert a + b == b;
    } else if b == [] {
      assert a + b == a;
    } else {
      ComponentsAppend(a, b);
      JoinAppend(Components(a), Components(b));
    }
  }

  lemma JoinAppend(xs: seq<string>, ys: seq<string>)
    requires xs != [] && ys != []
    ensures Join(xs + ys) == Join(xs) + "," + Join(ys)
  {
    var xys := xs + ys;
    assert xys[0] == xs[0];
    assert xys[1..] == xs[1..] + ys;
    PrefixedAppend(xs[1..], ys);
    assert Prefixed(ys) == "," + Join(ys);
  }

  /** The domain with each dot replaced by `,dc=`. */
  function ReplaceDots(s: string): string
  {
    if s == [] then "" else (if s[0] == '.' then ",dc=" else [s[0]]) + ReplaceDots(s[1..])
  }

  /** Each domain label as a `dc=` component. */
  function DcComponents(labels: seq<string>): (cs: seq<string>)
    ensures |cs| == |labels|
    ensures forall i :: 0 <= i < |labels| ==> cs[i] == "dc=" + labels[i]
  {
    if labels == [] then [] else ["dc=" + labels[0]] + DcComponents(labels[1..])
  }

  /** The base DN of a domain (ldapOrm.php:43): one `dc=` component per
      dot-separated label of the domain, in order, e.g. `foo.example.com`
      gives `dc=foo,dc=example,dc=com`. */
  function BaseDn(domain: string): (r: string)
    ensures r == Join(DcComponents(Split(domain, '.')))
  {
    ReplaceDotsLabels("dc=", domain);
    "dc=" + ReplaceDots(domain)
  }

  lemma {:induction false} ReplaceDotsLabels(p: string, s: string)
    ensures var ls := Split(s, '.');
      p + ReplaceDots(s) == p + ls[0] + Prefixed(DcComponents(ls[1..]))
    decreases |s|, 1
  {
    var ls := Split(s, '.');
    if s == [] {
      assert ls == [""];
      assert DcComponents(ls[1..]) == [];
    } else if s[0] == '.' {
      LabelsAfterDot(p, s);
    } else {
      LabelsAfterChar(p, s);
    }
  }

  /** A dot closes the current label and opens a `dc=` component. */
  lemma {:induction false} LabelsAfterDot(p: string, s: string)
    requires s != [] && s[0] == '.'
    ensures var ls := Split(s, '.');
      p + ReplaceDots(s) == p + ls[0] + Prefixed(DcComponents(ls[1..]))
    decreases |s|, 0
  {
    var ls := Split(s, '.');
    var t := Split(s[1..], '.');
    var r := ReplaceDots(s[1..]);
    var cs := DcComponents(t);
    var rest := Prefixed(cs[1..]);
    ReplaceDotsLabels("dc=", s[1..]);
    assert ls[0] == "" && ls[1..] == t;
    assert cs[1..] == DcComponents(t[1..]);
    assert "dc=" + r == cs[0] + rest;
    assert ReplaceDots(s) == ",dc=" + r;
    assert Prefixed(cs) == "," + cs[0] + rest;
    DotStep(p, r, cs[0] + rest);
    AppendAssoc(",", cs[0], rest);
  }

  /** Regrouping the text a dot turns into. */
  lemma DotStep(p: string, r: string, x: string)
    requires "dc=" + r == x
    ensures p + (",dc=" + r) == p + "" + ("," + x)
  {
    assert ",dc=" + r == "," + ("dc=" + r);
  }

  /** Any other character extends the current label. */
  lemma {:induction false} LabelsAfterChar(p: string, s: string)
    requires s != [] && s[0] != '.'
    ensures var ls := Split(s, '.');
      p + ReplaceDots(s) == p + ls[0] + Prefixed(DcComponents(ls[1..]))
    decreases |s|, 0
  {
    var ls := Split(s, '.');
    var t := Split(s[1..], '.');
    ReplaceDotsLabels(p + [s[0]], s[1..]);
    assert ls[0] == [s[0]] + t[0];
    assert ls[1..] == t[1..];
    assert ReplaceDots(s) == [s[0]] + ReplaceDots(s[1..]);
    assert p + ReplaceDots(s) == (p + [s[0]]) + ReplaceDots(s[1..]);
    assert p + ls[0] == (p + [s[0]]) + t[0];
  }
}
