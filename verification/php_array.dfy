/** PHP arrays with string keys: ordered maps whose assignment keeps an
    existing key at its position and appends a new one at the end. */
module PhpArray {
  import opened Php

  /** An array as its ordered sequence of key/value entries. */
  type Pairs<V> = seq<(string, V)>

  function Keys<V>(a: Pairs<V>): (ks: seq<string>)
    ensures |ks| == |a|
    ensures forall i :: 0 <= i < |a| ==> ks[i] == a[i].0
  {
    if a == [] then [] else [a[0].0] + Keys(a[1..])
  }

  ghost predicate Distinct(ks: seq<string>)
  {
    forall i, j :: 0 <= i < j < |ks| ==> ks[i] != ks[j]
  }

  /** A genuine PHP array: no key occurs twice. */
  ghost predicate WellFormed<V>(a: Pairs<V>)
  {
    Distinct(Keys(a))
  }

  /** `$a[$k]`, absent when the key is not set. */
  function Get<V>(a: Pairs<V>, k: string): (r: Option<V>)
    ensures r.None? <==> k !in Keys(a)
  {
    if a == [] then None
    else if a[0].0 == k then Some(a[0].1)
    else Get(a[1..], k)
  }

  /** `$a[$k]` where an unset key reads as `null`. */
  function Lookup(a: Pairs<Value>, k: string): (v: Value)
    ensures k !in Keys(a) ==> v == Null
  {
    match Get(a, k)
    case None => Null
    case Some(x) => x
  }

  /** In a well-formed array every entry is what its key reads. */
  lemma {:induction false} GetEntry<V>(a: Pairs<V>, i: nat)
    requires WellFormed(a)
    requires i < |a|
    ensures Get(a, a[i].0) == Some(a[i].1)
    decreases i
  {
    if i > 0 {
      assert Keys(a)[0] != Keys(a)[i];
      assert WellFormed(a[1..]) by {
        var ks := Keys(a[1..]);
        forall p, q | 0 <= p < q < |ks| ensures ks[p] != ks[q] {
          assert ks[p] == Keys(a)[p + 1] && ks[q] == Keys(a)[q + 1];
        }
      }
      GetEntry(a[1..], i - 1);
    }
  }

  /** A key that reads a value holds it in some entry. */
  lemma {:induction false} GetIn<V>(a: Pairs<V>, k: string)
    ensures Get(a, k).Some? ==> (k, Get(a, k).value) in a
    decreases |a|
  {
    if a != [] && a[0].0 != k {
      GetIn(a[1..], k);
    }
  }

  /** `$a[$k] = $v`: an existing key keeps its position and takes the new
      value, a new key is appended; no other key changes. */
  function Put<V>(a: Pairs<V>, k: string, v: V): (r: Pairs<V>)
    ensures Keys(r) == if k in Keys(a) then Keys(a) else Keys(a) + [k]
    ensures Get(r, k) == Some(v)
    ensures forall k' :: k' != k ==> Get(r, k') == Get(a, k')
  {
    if a == [] then [(k, v)]
    else if a[0].0 == k then
      var r := [(k, v)] + a[1..];
      assert r[1..] == a[1..];
      r
    else
      var rest := Put(a[1..], k, v);
      var r := [a[0]] + rest;
      assert r[1..] == rest;
      r
  }

  /** Assigning a key the value it already reads changes nothing. */
  lemma {:induction false} PutSame<V>(a: Pairs<V>, k: string, v: V)
    requires Get(a, k) == Some(v)
    ensures Put(a, k, v) == a
    decreases |a|
  {
    if a[0].0 != k {
      PutSame(a[1..], k, v);
    }
  }

  lemma PutWellFormed<V>(a: Pairs<V>, k: string, v: V)
    requires WellFormed(a)
    ensures WellFormed(Put(a, k, v))
  {
    var ks := Keys(Put(a, k, v));
    if k !in Keys(a) {
      forall i, j | 0 <= i < j < |ks| ensures ks[i] != ks[j] {
        if j == |ks| - 1 {
          assert ks[i] == Keys(a)[i];
        }
      }
    }
  }

  lemma PutWellFormedIf<V>(a: Pairs<V>, k: string, v: V)
    ensures WellFormed(a) ==> WellFormed(Put(a, k, v))
  {
    if WellFormed(a) {
      PutWellFormed(a, k, v);
    }
  }

  /** `foreach ($names as $k) $a[$k] = f($k);` */
  function PutEach<V>(a: Pairs<V>, names: seq<string>, f: string -> V): (r: Pairs<V>)
    ensures forall k :: k in names ==> Get(r, k) == Some(f(k))
    ensures forall k :: k !in names ==> Get(r, k) == Get(a, k)
    ensures WellFormed(a) ==> WellFormed(r)
    decreases |names|
  {
    if names == [] then a
    else
      var first := Put(a, names[0], f(names[0]));
      PutWellFormedIf(a, names[0], f(names[0]));
      assert forall k :: k in names ==> k == names[0] || k in names[1..];
      PutEach(first, names[1..], f)
  }

  /** The keys of `ks` not in `seen`, each at its first occurrence, in
      order: scanning from the front, a key is taken when it has not been
      seen and is then seen. */
  function Appended(seen: seq<string>, ks: seq<string>): seq<string>
    decreases |ks|
  {
    if ks == [] then []
    else if ks[0] in seen then Appended(seen, ks[1..])
    else [ks[0]] + Appended(seen + [ks[0]], ks[1..])
  }

  /** One more key at the back is taken exactly when it is new. */
  lemma {:induction false} AppendedSnoc(seen: seq<string>, ks: seq<string>, k: string)
    ensures Appended(seen, ks + [k]) ==
      Appended(seen, ks) + (if k in seen + Appended(seen, ks) then [] else [k])
    decreases |ks|
  {
    if ks == [] {
      assert ks + [k] == [k];
      assert seen + [] == seen;
    } else {
      var x := ks[0];
      var t := ks[1..];
      assert (ks + [k])[0] == x && (ks + [k])[1..] == t + [k];
      if x in seen {
        AppendedSnoc(seen, t, k);
      } else {
        AppendedSnoc(seen + [x], t, k);
        var rest := Appended(seen + [x], t);
        assert seen + ([x] + rest) == seen + [x] + rest;
        AppendAssoc([x], rest, if k in seen + [x] + rest then [] else [k]);
      }
    }
  }

  /** `array_merge($a, $b)` for string keys: `$a`'s keys keep their
      positions, `$b`'s new keys follow in the order they first occur in
      `$b`, and `$b` wins on a shared key. */
  function Merge<V>(a: Pairs<V>, b: Pairs<V>): (r: Pairs<V>)
    ensures Keys(r) == Keys(a) + Appended(Keys(a), Keys(b))
    ensures forall k :: k !in Keys(b) ==> Get(r, k) == Get(a, k)
    ensures forall k :: k in Keys(a) ==> k in Keys(r)
    ensures WellFormed(a) ==> WellFormed(r)
    decreases |b|
  {
    if b == [] then a
    else
      var n := |b| - 1;
      var front := Merge(a, b[..n]);
      PutWellFormedIf(front, b[n].0, b[n].1);
      KeysSnoc(b);
      MergeKeysStep(Keys(a), Keys(b[..n]), b[n].0, Keys(front));
      Put(front, b[n].0, b[n].1)
  }

  /** The key step of `Merge`: one more key of `$b` is appended exactly
      when it is new. */
  lemma MergeKeysStep(ka: seq<string>, kb: seq<string>, k: string, front: seq<string>)
    requires front == ka + Appended(ka, kb)
    ensures (if k in front then front else front + [k]) == ka + Appended(ka, kb + [k])
  {
    var ap := Appended(ka, kb);
    AppendedSnoc(ka, kb, k);
    if k in front {
      assert ap + [] == ap;
    } else {
      AppendAssoc(ka, ap, [k]);
    }
  }

  /** The keys of a non-empty array: those of its front, then its last. */
  lemma KeysSnoc<V>(b: Pairs<V>)
    requires b != []
    ensures Keys(b) == Keys(b[..|b| - 1]) + [b[|b| - 1].0]
  {
    var n := |b| - 1;
    var front, last := b[..n], [b[n]];
    assert front + last == b;
    KeysAppend(front, last);
    assert Keys(last) == [b[n].0];
  }

  lemma {:induction false} KeysAppend<V>(a: Pairs<V>, b: Pairs<V>)
    ensures Keys(a + b) == Keys(a) + Keys(b)
  {
    assert |Keys(a + b)| == |Keys(a) + Keys(b)|;
    forall i | 0 <= i < |a + b| ensures Keys(a + b)[i] == (Keys(a) + Keys(b))[i] {
      if i < |a| {
        assert (a + b)[i] == a[i];
      } else {
        assert (a + b)[i] == b[i - |a|];
      }
    }
  }

  lemma {:induction false} WellFormedPrefix<V>(b: Pairs<V>, n: nat)
    requires WellFormed(b)
    requires n <= |b|
    ensures WellFormed(b[..n])
  {
    var ks := Keys(b[..n]);
    forall p, q | 0 <= p < q < |ks| ensures ks[p] != ks[q] {
      assert ks[p] == Keys(b)[p] && ks[q] == Keys(b)[q];
    }
  }

  /** `$b` wins on every key it sets. */
  lemma {:induction false} MergeGet<V>(a: Pairs<V>, b: Pairs<V>, k: string)
    requires WellFormed(b)
    requires k in Keys(b)
    ensures Get(Merge(a, b), k) == Get(b, k)
    decreases |b|
  {
    var n := |b| - 1;
    var front := b[..n];
    assert b == front + [b[n]];
    KeysAppend(front, [b[n]]);
    if k == b[n].0 {
      GetEntry(b, n);
    } else {
      WellFormedPrefix(b, n);
      assert k in Keys(front);
      MergeGet(a, front, k);
      GetFront(b, n, k);
    }
  }

  /** After `array_merge($a, $b)` every key of `$b` reads `$b`'s value and
      every other key reads `$a`'s. */
  lemma MergeReads<V>(a: Pairs<V>, b: Pairs<V>)
    requires WellFormed(b)
    ensures forall k :: k in Keys(b) ==> Get(Merge(a, b), k) == Get(b, k)
    ensures forall k :: k !in Keys(b) ==> Get(Merge(a, b), k) == Get(a, k)
  {
    forall k | k in Keys(b) ensures Get(Merge(a, b), k) == Get(b, k) {
      MergeGet(a, b, k);
    }
  }

  /** A key of the front part reads from there, any other from the back. */
  lemma {:induction false} GetAppend<V>(a: Pairs<V>, b: Pairs<V>, k: string)
    ensures Get(a + b, k) == if k in Keys(a) then Get(a, k) else Get(b, k)
    decreases |a|
  {
    if a == [] {
      assert a + b == b;
    } else {
      assert (a + b)[1..] == a[1..] + b;
      GetAppend(a[1..], b, k);
    }
  }

  /** Dropping the last entry does not change a key that is not the last. */
  lemma {:induction false} GetFront<V>(b: Pairs<V>, n: nat, k: string)
    requires n == |b| - 1
    requires k != b[n].0
    ensures Get(b[..n], k) == Get(b, k)
    decreases |b|
  {
    if n > 0 && b[0].0 != k {
      assert b[1..][..n - 1] == b[..n][1..];
      GetFront(b[1..], n - 1, k);
    }
  }

  /** When the two arrays share no key, merging is concatenation. */
  lemma {:induction false} MergeDisjoint<V>(a: Pairs<V>, b: Pairs<V>)
    requires forall k :: k in Keys(b) ==> k !in Keys(a)
    requires WellFormed(b)
    ensures Merge(a, b) == a + b
    decreases |b|
  {
    if b != [] {
      var n := |b| - 1;
      var front := b[..n];
      var last := b[n];
      assert Keys(b) == Keys(front) + [last.0] by {
        assert b == front + [last];
        KeysAppend(front, [last]);
      }
      assert WellFormed(front) by {
        WellFormedPrefix(b, n);
      }
      MergeDisjoint(a, front);
      assert last.0 !in Keys(a + front) by {
        KeysAppend(a, front);
        LastKeyFresh(b);
      }
      assert Merge(a, b) == Put(a + front, last.0, last.1);
      PutNew(a + front, last.0, last.1);
      AppendSnoc(a, b);
    }
  }

  /** Appending a non-empty array is appending its front, then its last
      pair. */
  lemma AppendSnoc<V>(a: Pairs<V>, b: Pairs<V>)
    requires b != []
    ensures a + b == a + b[..|b| - 1] + [b[|b| - 1]]
  {
    assert b == b[..|b| - 1] + [b[|b| - 1]];
  }

  lemma LastKeyFresh<V>(b: Pairs<V>)
    requires WellFormed(b)
    requires b != []
    ensures b[|b| - 1].0 !in Keys(b[..|b| - 1])
  {
    var n := |b| - 1;
    var ks := Keys(b[..n]);
    forall j | 0 <= j < |ks| ensures ks[j] != b[n].0 {
      assert ks[j] == Keys(b)[j];
      assert Keys(b)[n] == b[n].0;
    }
  }

  /** Assigning a key that is not set appends it. */
  lemma {:induction false} PutNew<V>(a: Pairs<V>, k: string, v: V)
    requires k !in Keys(a)
    ensures Put(a, k, v) == a + [(k, v)]
    decreases |a|
  {
    if a != [] {
      assert a[0].0 != k && k !in Keys(a[1..]) by {
        assert Keys(a) == [a[0].0] + Keys(a[1..]);
      }
      PutNew(a[1..], k, v);
      assert Put(a, k, v) == [a[0]] + (a[1..] + [(k, v)]);
      ConsSnoc(a, (k, v));
    }
  }


  /** Re-attaching the head of a non-empty array before an append. */
  lemma ConsSnoc<T>(a: seq<T>, x: T)
    requires a != []
    ensures [a[0]] + (a[1..] + [x]) == a + [x]
  {
    assert a == [a[0]] + a[1..];
  }
}
