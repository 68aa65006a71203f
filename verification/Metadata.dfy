/**
  How keychain stores keep a caller's metadata apart from their own: prefixing keys on save, stripping them on load.
*/
module Metadata {
  import opened Wrappers

  const GROUP_KEY := "service:group"
  const NAME_KEY := "service:name"
  const ID_KEY := "id"

  const INTERNAL: set<string> := {GROUP_KEY, NAME_KEY, ID_KEY}

  function X(k: string): (r: string)
    ensures r != k && |r| == |k| + 2 && r[2..] == k
  {
    "x_" + k
  }

  predicate HasPrefix(k: string) {
    |k| >= 2 && k[0] == 'x' && k[1] == '_'
  }

  lemma PrefixedKeys(k: string)
    ensures HasPrefix(X(k))
    ensures HasPrefix(k) ==> X(k[2..]) == k
    ensures HasPrefix(k) ==> k !in INTERNAL
  {
  }

  /** An order in which a loop over the collected keys may visit them. */
  ghost predicate IsOrder(keys: seq<string>, s: set<string>) {
    && (forall i, j | 0 <= i < j < |keys| :: keys[i] != keys[j])
    && (forall k :: k in keys <==> k in s)
  }

  function Value(m: Attrs, k: string): string { if k in m then m[k] else "" }

  /** One turn of the prefixing loop, and the loop over a list of keys. */
  function PrefixOne(m: Attrs, k: string): Attrs { m[X(k) := Value(m, k)] - {k} }

  function PrefixAll(m: Attrs, keys: seq<string>): Attrs {
    if keys == [] then m else PrefixOne(PrefixAll(m, keys[..|keys| - 1]), keys[|keys| - 1])
  }

  function SetMetadata(m: Attrs, group: string, name: string, keys: seq<string>): Attrs {
    PrefixAll(m, keys)[GROUP_KEY := group][NAME_KEY := name]
  }

  function SetID(m: Attrs, id: string): Attrs {
    (if ID_KEY in m then m[X(ID_KEY) := m[ID_KEY]] else m)[ID_KEY := id]
  }

  /** One turn of the cleaning loop, and the loop over a list of keys. */
  function StripOne(m: Attrs, k: string): Attrs {
    (if HasPrefix(k) then m[k[2..] := Value(m, k)] else m) - {k}
  }

  function StripAll(m: Attrs, keys: seq<string>): Attrs {
    if keys == [] then m else StripOne(StripAll(m, keys[..|keys| - 1]), keys[|keys| - 1])
  }

  function CleanMetadata(m: Attrs, keys: seq<string>): Attrs {
    StripAll(m - INTERNAL, keys)
  }

  // ----- the loops as the code runs them -----

  class Attributes {
    var m: Attrs

    constructor (m: Attrs)
      ensures this.m == m
    {
      this.m := m;
    }

    /** maps.Keys in no particular order. */
    method CollectKeys() returns (keys: seq<string>)
      ensures IsOrder(keys, m.Keys)
    {
      keys := [];
      var todo := m.Keys;
      while todo != {}
        invariant todo <= m.Keys && IsOrder(keys, m.Keys - todo)
        decreases todo
      {
        var k :| k in todo;
        keys := keys + [k];
        todo := todo - {k};
      }
    }

    method SafelySetMetadata(group: string, name: string)
      modifies this
      ensures exists keys :: IsOrder(keys, old(m).Keys) && m == SetMetadata(old(m), group, name, keys)
    {
      var keys := CollectKeys();
      ghost var start := m;
      for i := 0 to |keys|
        invariant m == PrefixAll(start, keys[..i])
      {
        assert keys[..i + 1][..i] == keys[..i];
        m := m[X(keys[i]) := Value(m, keys[i])];
        m := m - {keys[i]};
      }
      assert keys[..|keys|] == keys;
      m := m[GROUP_KEY := group];
      m := m[NAME_KEY := name];
    }

    /** The identifier is stored under its key; an entry found there moves to the prefixed key; nothing else changes. */
    method SafelySetID(id: string)
      modifies this
      ensures ID_KEY in m && m[ID_KEY] == id
      ensures ID_KEY in old(m) ==> X(ID_KEY) in m && m[X(ID_KEY)] == old(m)[ID_KEY]
      ensures forall k | k != ID_KEY && !(k == X(ID_KEY) && ID_KEY in old(m)) ::
                (k in m <==> k in old(m)) && (k in m ==> m[k] == old(m)[k])
      ensures m == SetID(old(m), id)
    {
      if ID_KEY in m { m := m[X(ID_KEY) := m[ID_KEY]]; }
      m := m[ID_KEY := id];
    }

    method SafelyCleanMetadata()
      modifies this
      ensures exists keys :: IsOrder(keys, old(m).Keys - INTERNAL) && m == CleanMetadata(old(m), keys)
    {
      m := m - {GROUP_KEY};
      m := m - {NAME_KEY};
      m := m - {ID_KEY};
      ghost var start := m;
      assert start == old(m) - INTERNAL;
      var keys := CollectKeys();
      for i := 0 to |keys|
        invariant m == StripAll(start, keys[..i])
      {
        assert keys[..i + 1][..i] == keys[..i];
        var key := keys[i];
        if HasPrefix(key) { m := m[key[2..] := Value(m, key)]; }
        m := m - {key};
      }
      assert keys[..|keys|] == keys;
    }
  }

  // ----- what the loops compute, whatever the order -----

  /** No key stands beside its own prefixed form. */
  predicate NoShadow(m: Attrs) {
    forall k | k in m :: X(k) !in m
  }

  /** Where the entry at `y` comes from once the keys in `done` have been prefixed. */
  predicate Sourced(m: Attrs, done: set<string>, y: string) {
    (y in m && y !in done) || (HasPrefix(y) && y[2..] in done)
  }

  /** Part way through the prefixing loop. */
  ghost predicate HalfPrefixed(m: Attrs, done: set<string>, p: Attrs)
    requires done <= m.Keys
  {
    forall y ::
        (y in p <==> Sourced(m, done, y)) && (y in p ==> p[y] == if y in m && y !in done then m[y] else m[y[2..]])
  }

  function Elems(keys: seq<string>): set<string> { set k | k in keys }

  lemma {:induction false} PrefixAllWorks(m: Attrs, keys: seq<string>)
    requires NoShadow(m) && Elems(keys) <= m.Keys
    requires forall i, j | 0 <= i < j < |keys| :: keys[i] != keys[j]
    ensures HalfPrefixed(m, Elems(keys), PrefixAll(m, keys))
  {
    if keys != [] {
      var n := |keys| - 1;
      var k, done := keys[n], Elems(keys[..n]);
      assert Elems(keys) == done + {k} && k !in done;
      PrefixAllWorks(m, keys[..n]);
      PrefixStep(m, done, PrefixAll(m, keys[..n]), k);
    }
  }

  lemma PrefixStep(m: Attrs, done: set<string>, p: Attrs, k: string)
    requires NoShadow(m) && done <= m.Keys && k in m && k !in done && HalfPrefixed(m, done, p)
    ensures HalfPrefixed(m, done + {k}, PrefixOne(p, k))
  {
    var q := PrefixOne(p, k);
    PrefixedKeys(k);
    assert p[k] == m[k] && X(k) !in m;
    forall y
      ensures y in q <==> Sourced(m, done + {k}, y)
      ensures y in q ==> q[y] == if y in m && y !in done + {k} then m[y] else m[y[2..]]
    {
      PrefixedKeys(y);
      assert HasPrefix(y) && y[2..] == k ==> y == X(k);
      assert y in p <==> Sourced(m, done, y);
      if y == k && HasPrefix(y) { assert X(y[2..]) == y; }
    }
  }

  /** No prefixed key stands beside its own stripped form. */
  predicate NoClash(b: Attrs) {
    forall y | y in b :: X(y) !in b
  }

  predicate StripSourced(b: Attrs, done: set<string>, y: string) {
    (y in b && y !in done) || X(y) in done
  }

  /** Part way through the cleaning loop. */
  ghost predicate HalfStripped(b: Attrs, done: set<string>, p: Attrs)
    requires done <= b.Keys
  {
    forall y ::
        (y in p <==> StripSourced(b, done, y)) && (y in p ==> p[y] == if y in b && y !in done then b[y] else b[X(y)])
  }

  lemma {:induction false} StripAllWorks(b: Attrs, keys: seq<string>)
    requires NoClash(b) && Elems(keys) <= b.Keys
    requires forall i, j | 0 <= i < j < |keys| :: keys[i] != keys[j]
    ensures HalfStripped(b, Elems(keys), StripAll(b, keys))
  {
    if keys != [] {
      var n := |keys| - 1;
      var k, done := keys[n], Elems(keys[..n]);
      assert Elems(keys) == done + {k} && k !in done;
      StripAllWorks(b, keys[..n]);
      StripStep(b, done, StripAll(b, keys[..n]), k);
    }
  }

  lemma StripStep(b: Attrs, done: set<string>, p: Attrs, k: string)
    requires NoClash(b) && done <= b.Keys && k in b && k !in done && HalfStripped(b, done, p)
    ensures HalfStripped(b, done + {k}, StripOne(p, k))
  {
    var q := StripOne(p, k);
    PrefixedKeys(k);
    assert p[k] == b[k] && X(k) !in b;
    forall y
      ensures y in q <==> StripSourced(b, done + {k}, y)
      ensures y in q ==> q[y] == if y in b && y !in done + {k} then b[y] else b[X(y)]
    {
      PrefixedKeys(y);
      assert X(y) == k <==> HasPrefix(k) && y == k[2..];
      assert y in p <==> StripSourced(b, done, y);
    }
  }

  // ----- the round trip -----

  /** What the keychain holds after a save: the prefixed metadata, the internal keys, and what the backend adds. */
  function Stored(m: Attrs, extra: Attrs, group: string, name: string, id: string, keys: seq<string>): Attrs {
    SetID(SetMetadata(m, group, name, keys), id) + extra
  }

  /** Whatever the two loops' orders, loading gives back the metadata that was saved. */
  ghost predicate AlwaysRestored(m: Attrs, extra: Attrs, group: string, name: string, id: string) {
    forall o1, o2 | IsOrder(o1, m.Keys) && IsOrder(o2, Stored(m, extra, group, name, id, o1).Keys - INTERNAL) ::
      CleanMetadata(Stored(m, extra, group, name, id, o1), o2) == m
  }

  /** The backend's own attributes are unprefixed and not the store's internal keys. */
  predicate BackendKeys(extra: Attrs) {
    forall e | e in extra :: !HasPrefix(e) && e !in INTERNAL
  }

  type OwnAttrs = a: Attrs | BackendKeys(a) witness map[]

  lemma OrderElems(keys: seq<string>, s: set<string>)
    requires IsOrder(keys, s)
    ensures Elems(keys) == s
  {
  }

  /** After the prefixing loop only prefixed keys are left. */
  lemma {:induction false} PrefixAllPrefixes(m: Attrs, keys: seq<string>)
    ensures forall y | y in PrefixAll(m, keys) :: HasPrefix(y) || (y in m && y !in keys)
  {
    if keys != [] {
      var n := |keys| - 1;
      PrefixAllPrefixes(m, keys[..n]);
      PrefixedKeys(keys[n]);
      assert keys == keys[..n] + [keys[n]];
    }
  }

  /** After the prefixing loop the identifier's key is free, so storing the identifier moves nothing. */
  lemma IdentifierMovesNothing(m: Attrs, group: string, name: string, id: string, keys: seq<string>)
    requires IsOrder(keys, m.Keys)
    ensures SetID(SetMetadata(m, group, name, keys), id) == SetMetadata(m, group, name, keys)[ID_KEY := id]
  {
    PrefixAllPrefixes(m, keys);
    PrefixedKeys(ID_KEY);
  }

  /** The stored attributes without the internal keys: the prefixing loop's result and the backend's own. */
  lemma StoredBody(m: Attrs, extra: Attrs, group: string, name: string, id: string, keys: seq<string>)
    requires IsOrder(keys, m.Keys) && BackendKeys(extra)
    ensures Stored(m, extra, group, name, id, keys) - INTERNAL == PrefixAll(m, keys) + extra
  {
    PrefixAllPrefixes(m, keys);
    var p := PrefixAll(m, keys);
    forall k | k in INTERNAL ensures !HasPrefix(k) && k !in p { PrefixedKeys(k); }
    assert forall y :: y in Stored(m, extra, group, name, id, keys) - INTERNAL <==> y in p + extra;
  }

  /** A fully prefixed map: an entry at every prefixed key of `m`, and nothing else. */
  lemma FullyPrefixed(m: Attrs, p: Attrs, y: string)
    requires HalfPrefixed(m, m.Keys, p)
    ensures y in p <==> HasPrefix(y) && y[2..] in m
    ensures X(y) in p <==> y in m
    ensures y in m ==> p[X(y)] == m[y]
  {
    PrefixedKeys(y);
    assert y in p <==> Sourced(m, m.Keys, y);
    assert X(y) in p <==> Sourced(m, m.Keys, X(y));
  }

  lemma BodyHasNoClash(m: Attrs, extra: Attrs, p: Attrs)
    requires NoShadow(m) && extra.Keys !! m.Keys && BackendKeys(extra) && HalfPrefixed(m, m.Keys, p)
    ensures NoClash(p + extra)
  {
    var b := p + extra;
    forall y | y in b ensures X(y) !in b {
      PrefixedKeys(y);
      FullyPrefixed(m, p, y);
      if y in p {
        assert y[2..] in m && X(y[2..]) == y;
      }
    }
  }

  lemma StrippedBodyIs(m: Attrs, extra: Attrs, p: Attrs, r: Attrs)
    requires HalfPrefixed(m, m.Keys, p) && BackendKeys(extra) && HalfStripped(p + extra, (p + extra).Keys, r)
    ensures r == m
  {
    var b := p + extra;
    forall y ensures y in r <==> y in m ensures y in m ==> y in r && r[y] == m[y] {
      PrefixedKeys(y);
      FullyPrefixed(m, p, y);
      assert y in r <==> StripSourced(b, b.Keys, y);
    }
  }

  lemma Restored(m: Attrs, extra: Attrs, group: string, name: string, id: string, o1: seq<string>, o2: seq<string>)
    requires NoShadow(m) && extra.Keys !! m.Keys && BackendKeys(extra)
    requires IsOrder(o1, m.Keys) && IsOrder(o2, Stored(m, extra, group, name, id, o1).Keys - INTERNAL)
    ensures CleanMetadata(Stored(m, extra, group, name, id, o1), o2) == m
  {
    var p := PrefixAll(m, o1);
    OrderElems(o1, m.Keys);
    PrefixAllWorks(m, o1);
    StoredBody(m, extra, group, name, id, o1);
    BodyHasNoClash(m, extra, p);
    OrderElems(o2, (p + extra).Keys);
    StripAllWorks(p + extra, o2);
    StrippedBodyIs(m, extra, p, StripAll(p + extra, o2));
  }

  // ----- and when it fails -----

  lemma {:induction false} SomeOrder(s: set<string>) returns (keys: seq<string>)
    ensures IsOrder(keys, s)
  {
    if s == {} {
      keys := [];
    } else {
      var k :| k in s;
      var rest := SomeOrder(s - {k});
      keys := rest + [k];
    }
  }

  lemma OrderStartingWith(s: set<string>, a: string, b: string) returns (keys: seq<string>)
    requires a in s && b in s && a != b
    ensures IsOrder(keys, s) && |keys| >= 2 && keys[0] == a && keys[1] == b
  {
    var rest := SomeOrder(s - {a, b});
    keys := [a, b] + rest;
  }

  /** Visiting `k` before "x_" + `k` overwrites the latter and then moves the overwritten value on. */
  lemma {:induction false} ShadowedKeyLost(m: Attrs, k: string, keys: seq<string>)
    requires |keys| >= 2 && keys[0] == k && keys[1] == X(k)
    requires forall i, j | 0 <= i < j < |keys| :: keys[i] != keys[j]
    ensures X(k) !in PrefixAll(m, keys)
  {
    var n := |keys| - 1;
    if n > 1 {
      ShadowedKeyLost(m, k, keys[..n]);
      assert keys[n] != keys[0] && X(keys[n])[2..] == keys[n] && X(k)[2..] == k;
    }
  }

  /** A key whose prefixed form is not stored is not restored. */
  lemma {:induction false} NotRestored(b: Attrs, k: string, keys: seq<string>)
    requires X(k) !in keys
    ensures k in StripAll(b, keys) ==> k in b && k !in keys
  {
    if keys != [] {
      var n := |keys| - 1;
      NotRestored(b, k, keys[..n]);
      PrefixedKeys(keys[n]);
      assert keys[n] in keys && keys == keys[..n] + [keys[n]];
    }
  }

  /** Visiting "x_" + `k` before a stored `k` restores `k` and then deletes it. */
  lemma {:induction false} RestoredThenDeleted(b: Attrs, k: string, keys: seq<string>)
    requires |keys| >= 2 && keys[0] == X(k) && keys[1] == k
    requires forall i, j | 0 <= i < j < |keys| :: keys[i] != keys[j]
    ensures k !in StripAll(b, keys)
  {
    var n := |keys| - 1;
    if n > 1 {
      RestoredThenDeleted(b, k, keys[..n]);
      PrefixedKeys(keys[n]);
      assert keys[n] != keys[0];
    }
  }

  lemma ShadowBreaks(m: Attrs, extra: Attrs, group: string, name: string, id: string, k: string)
    requires k in m && X(k) in m && BackendKeys(extra)
    ensures !AlwaysRestored(m, extra, group, name, id)
  {
    var o1 := OrderStartingWith(m.Keys, k, X(k));
    ShadowedKeyLost(m, k, o1);
    StoredBody(m, extra, group, name, id, o1);
    PrefixedKeys(k);
    var b := PrefixAll(m, o1) + extra;
    var o2 := SomeOrder(b.Keys);
    NotRestored(b, k, o2);
    assert k !in CleanMetadata(Stored(m, extra, group, name, id, o1), o2);
  }

  lemma BackendKeyBreaks(m: Attrs, extra: Attrs, group: string, name: string, id: string, k: string)
    requires k in m && k in extra && BackendKeys(extra)
    ensures !AlwaysRestored(m, extra, group, name, id)
  {
    var o1 := SomeOrder(m.Keys);
    StoredBody(m, extra, group, name, id, o1);
    var b := PrefixAll(m, o1) + extra;
    var o2;
    if X(k) in b {
      o2 := OrderStartingWith(b.Keys, X(k), k);
      RestoredThenDeleted(b, k, o2);
    } else {
      o2 := SomeOrder(b.Keys);
      NotRestored(b, k, o2);
    }
    assert k !in CleanMetadata(Stored(m, extra, group, name, id, o1), o2);
  }

  /**
    Saving and loading restores the caller's metadata, in whatever orders the two loops visit the keys, exactly
    when no key stands beside its prefixed form and the backend adds no attribute under one of the caller's keys.
  */
  lemma MetadataRoundTrip(m: Attrs, extra: Attrs, group: string, name: string, id: string)
    requires BackendKeys(extra)
    ensures AlwaysRestored(m, extra, group, name, id) <==> NoShadow(m) && extra.Keys !! m.Keys
  {
    if NoShadow(m) && extra.Keys !! m.Keys {
      forall o1, o2 | IsOrder(o1, m.Keys) && IsOrder(o2, Stored(m, extra, group, name, id, o1).Keys - INTERNAL)
        ensures CleanMetadata(Stored(m, extra, group, name, id, o1), o2) == m
      {
        Restored(m, extra, group, name, id, o1, o2);
      }
    } else if !NoShadow(m) {
      var k :| k in m && X(k) in m;
      ShadowBreaks(m, extra, group, name, id, k);
    } else {
      var k :| k in m && k in extra;
      BackendKeyBreaks(m, extra, group, name, id, k);
    }
  }
}
