/** The Linux keychain store over a secret service whose collection may relock between any two calls. */
module LinuxKeychain {
  import opened Metadata
  import opened Wrappers
  import Identifiers

  type ObjectPath = nat

  datatype Item = Item(attrs: Attrs, secret: Bytes, title: string)

  type Items = map<ObjectPath, Item>

  datatype Outcome = Fine | IsLocked | Broken

  datatype Op =
    | CreateItem(attrs: Attrs, secret: Bytes, title: string)
    | SetItemSecret(path: ObjectPath, secret: Bytes)
    | SetItemAttributes(path: ObjectPath, attrs: Attrs)
    | SetItemLabel(path: ObjectPath, title: string)
    | DeleteItem(path: ObjectPath)
    | GetSecret(path: ObjectPath)

  /** The item carries every attribute of the query. */
  predicate Carries(attrs: Attrs, query: Attrs) {
    forall k | k in query :: k in attrs && attrs[k] == query[k]
  }

  /**
    A call that succeeded took the service's items from `s` to `t`. The service adds attributes of its own to those
    it is given; creation replaces an item of equal attributes.
  */
  ghost predicate Applied(s: Items, op: Op, added: Attrs, t: Items) {
    match op
    case CreateItem(attrs, secret, title) =>
      var a := attrs + added;
      exists p: ObjectPath :: t == s[p := Item(a, secret, title)] &&
        if exists q :: q in s && s[q].attrs == a then p in s && s[p].attrs == a else p !in s
    case SetItemSecret(p, secret) => p in s && t == s[p := s[p].(secret := secret)]
    case SetItemAttributes(p, attrs) => p in s && t == s[p := s[p].(attrs := attrs + added)]
    case SetItemLabel(p, title) => p in s && t == s[p := s[p].(title := title)]
    case DeleteItem(p) => p in s && t == s - {p}
    case GetSecret(p) => p in s && t == s
  }

  const MAX_RELOCK_RETRIES := 5
  const BASE_DELAY := 20
  const MAX_DELAY := 500

  /** The delays, in milliseconds, before the retries. */
  const DELAYS: seq<nat> := [20, 40, 80, 160, 320]

  class SecretService {
    var items: Items
    var slept: seq<nat>
    /** Every state of the items after a call that changed or kept them, in order. */
    ghost var history: seq<Items>
    /** What the service adds to the attributes of every item. */
    const added: OwnAttrs
    /** A dependable service fails no call on an item that exists but by relocking, and that a number of times. */
    const dependable: bool
    var relocks: nat
    /** A locked collection refuses every call until it is unlocked. */
    var locked: bool

    constructor (items: Items, added: OwnAttrs, dependable: bool, relocks: nat, locked: bool)
      ensures this.items == items && slept == [] && history == []
      ensures this.added == added && this.dependable == dependable && this.relocks == relocks && this.locked == locked
    {
      this.items, this.slept, this.history := items, [], [];
      this.added, this.dependable, this.relocks, this.locked := added, dependable, relocks, locked;
    }

    /** How many more calls may find the collection locked, if it is unlocked after each that does. */
    function Pressure(): nat
      reads this`relocks, this`locked
    {
      if locked then relocks + 1 else relocks
    }

    predicate Possible(op: Op)
      reads this`items
    {
      op.CreateItem? || op.path in items
    }

    /** One call of the service: it may find the collection relocked, or fail for any other reason. */
    method Perform(op: Op) returns (o: Outcome, value: Bytes)
      modifies this`items, this`history, this`relocks, this`locked
      ensures o.Fine? ==> Applied(old(items), op, added, items) && history == old(history) + [items]
      ensures !o.Fine? ==> items == old(items) && history == old(history)
      ensures o.Fine? && op.GetSecret? ==> value == items[op.path].secret
      ensures dependable && old(Possible(op)) ==> !o.Broken?
      ensures relocks <= old(relocks) && (o.IsLocked? <==> locked) && (old(locked) ==> o.IsLocked?)
      ensures dependable ==> Pressure() <= old(Pressure())
    {
      value := [];
      var relocked, fails := *, *;
      if locked { return IsLocked, value; }
      if relocked && (relocks > 0 || !dependable) {
        relocks, locked := if relocks > 0 then relocks - 1 else 0, true;
        return IsLocked, value;
      }
      if fails && !dependable { return Broken, value; }
      if op.CreateItem? {
        var item := Item(op.attrs + added, op.secret, op.title);
        if p :| p in items && items[p].attrs == item.attrs {
          items := items[p := item];
        } else {
          ghost var s := items;
          var p := NewPath();
          items := items[p := item];
          assert items == s[p := item] && p !in s;
        }
      } else if op.path !in items {
        return Broken, value;
      } else if op.DeleteItem? {
        items := items - {op.path};
      } else if op.GetSecret? {
        value := items[op.path].secret;
      } else {
        var item := items[op.path];
        items := items[op.path :=
          if op.SetItemSecret? then item.(secret := op.secret)
          else if op.SetItemAttributes? then item.(attrs := op.attrs + added)
          else item.(title := op.title)];
      }
      history := history + [items];
      o := Fine;
    }

    method NewPath() returns (p: ObjectPath)
      ensures p !in items
    {
      p := 0;
      var seen: set<ObjectPath> := {};
      while p in items
        invariant seen <= items.Keys && forall q :: q in seen <==> 0 <= q < p
        decreases items.Keys - seen
      {
        seen := seen + {p};
        p := p + 1;
      }
    }

    method Unlock() returns (ok: bool)
      modifies this`locked
      ensures locked == if ok then false else old(locked)
      ensures dependable ==> ok
    {
      ok := *;
      ok := ok || dependable;
      if ok { locked := false; }
    }

    /**
      Runs the call, unlocking and retrying with growing delays while the collection is found locked: at most
      six calls, the effect of at most one, and none unless the outcome is fine.
    */
    method WithRelockRetry(op: Op) returns (o: Outcome, value: Bytes)
      modifies this
      ensures o.Fine? ==> Applied(old(items), op, added, items) && history == old(history) + [items]
      ensures !o.Fine? ==> items == old(items) && history == old(history)
      ensures o.Fine? && op.GetSecret? ==> value == items[op.path].secret
      ensures exists n :: 0 <= n <= MAX_RELOCK_RETRIES && slept == old(slept) + DELAYS[..n]
      ensures o.IsLocked? ==> slept == old(slept) + DELAYS
      ensures dependable && old(Possible(op)) && old(Pressure()) <= MAX_RELOCK_RETRIES ==> o.Fine?
      ensures relocks <= old(relocks) && (dependable ==> Pressure() <= old(Pressure())) && (o.Fine? ==> !locked)
    {
      o, value := Perform(op);
      var delay := BASE_DELAY;
      var attempt := 0;
      assert slept == old(slept) + DELAYS[..0];
      while attempt < MAX_RELOCK_RETRIES && o.IsLocked?
        invariant 0 <= attempt <= MAX_RELOCK_RETRIES
        invariant attempt < MAX_RELOCK_RETRIES ==> delay == DELAYS[attempt]
        invariant slept == old(slept) + DELAYS[..attempt]
        invariant dependable && old(Possible(op)) ==> !o.Broken?
        invariant relocks <= old(relocks) && (o.IsLocked? <==> locked)
        invariant dependable ==> Pressure() <= old(Pressure()) && (o.IsLocked? ==> relocks + attempt < old(Pressure()))
        invariant o.Fine? ==> Applied(old(items), op, added, items) && history == old(history) + [items]
        invariant !o.Fine? ==> items == old(items) && history == old(history)
        invariant o.Fine? && op.GetSecret? ==> value == items[op.path].secret
        decreases MAX_RELOCK_RETRIES - attempt
      {
        slept := slept + [delay];
        assert DELAYS[..attempt + 1] == DELAYS[..attempt] + [DELAYS[attempt]];
        delay := if delay * 2 < MAX_DELAY then delay * 2 else MAX_DELAY;
        var unlocked := Unlock();
        if !unlocked { return Broken, []; }
        o, value := Perform(op);
        attempt := attempt + 1;
      }
      assert DELAYS[..MAX_RELOCK_RETRIES] == DELAYS;
    }

    /** The paths of the items that carry the query, each once, in no particular order. */
    method SearchCollection(query: Attrs) returns (ok: bool, paths: seq<ObjectPath>)
      ensures ok ==> (forall p :: p in paths <==> p in items && Carries(items[p].attrs, query))
      ensures forall i, j | 0 <= i < j < |paths| :: paths[i] != paths[j]
      ensures dependable ==> ok
    {
      ok := *;
      ok := ok || dependable;
      paths := [];
      var todo := items.Keys;
      while todo != {}
        invariant todo <= items.Keys
        invariant forall p :: p in paths <==> p in items && p !in todo && Carries(items[p].attrs, query)
        invariant forall i, j | 0 <= i < j < |paths| :: paths[i] != paths[j]
        decreases todo
      {
        var p :| p in todo;
        if Carries(items[p].attrs, query) { paths := paths + [p]; }
        todo := todo - {p};
      }
    }

    method GetAttributes(p: ObjectPath) returns (ok: bool, attrs: Attrs)
      ensures ok ==> p in items && attrs == items[p].attrs
      ensures dependable && p in items ==> ok
    {
      ok := *;
      ok := p in items && (ok || dependable);
      attrs := if ok then items[p].attrs else map[];
    }
  }

  // ----- the store's view of the items -----

  /** A secret as its caller saved it. */
  datatype Entry = Entry(secret: Bytes, metadata: Attrs)

  /** What the items of one service group and name hold, as a map from identifiers. */
  type View = map<string, Entry>

  /** A use of the store. */
  datatype Command =
    | Save(id: string, secret: Bytes, metadata: Attrs)
    | Delete(id: string)
    | Get(id: string)
    | Filter(pattern: string)

  datatype Answer =
    | Done(ok: bool)
    | Got(one: Result<(Bytes, Attrs), Failure>)
    | Found(all: Result<map<string, (Bytes, Attrs)>, Failure>)

  function Ident(group: string, name: string, id: string): Attrs {
    map[GROUP_KEY := group, NAME_KEY := name, ID_KEY := id]
  }

  class Keychain {
    const group: string
    const name: string
    const service: SecretService

    constructor (group: string, name: string, service: SecretService)
      ensures this.group == group && this.name == name && this.service == service
    {
      this.group, this.name, this.service := group, name, service;
    }

    predicate Is(item: Item, id: string) { Carries(item.attrs, Ident(group, name, id)) }

    ghost predicate Has(s: Items, id: string) { exists p :: p in s && Is(s[p], id) }

    /** At most one item per identity. */
    ghost predicate NoDuplicates(s: Items) {
      forall p, q, id | p in s && q in s && Is(s[p], id) && Is(s[q], id) :: p == q
    }

    /** Items of other identities are as they were, and no new ones have appeared. */
    predicate OnlyFor(s: Items, t: Items, id: string) {
      && (forall p | p in s && !Is(s[p], id) :: p in t && t[p] == s[p])
      && (forall p | p in t && !Is(t[p], id) :: p in s && s[p] == t[p])
    }

    /** The attributes in which the service keeps a caller's metadata. */
    ghost predicate Keeps(attrs: Attrs, id: string, metadata: Attrs) {
      exists keys :: IsOrder(keys, metadata.Keys) && attrs == Stored(metadata, service.added, group, name, id, keys)
    }

    ghost predicate Holds(item: Item, id: string, e: Entry) {
      item.secret == e.secret && Keeps(item.attrs, id, e.metadata)
    }

    /** The items hold exactly the entries of the map, each in one item. */
    ghost predicate Represents(s: Items, v: View) {
      && NoDuplicates(s)
      && (forall id :: id in v <==> Has(s, id))
      && (forall p, id | p in s && Is(s[p], id) :: Holds(s[p], id, v[id]))
    }

    lemma OneIdentity(item: Item, id: string, other: string)
      requires Is(item, id) && Is(item, other)
      ensures id == other
    {
      assert ID_KEY in Ident(group, name, id) && ID_KEY in Ident(group, name, other);
    }

    lemma EmptyOrder(keys: seq<string>)
      requires IsOrder(keys, {})
      ensures keys == []
    {
      SomeMember(keys);
    }

    lemma SomeMember(keys: seq<string>)
      ensures keys != [] ==> exists k :: k in keys
    {
      if keys != [] { assert keys[0] in keys; }
    }

    method Identity(id: string) returns (ident: Attrs)
      ensures ident == Ident(group, name, id)
    {
      var a := new Attributes(map[]);
      a.SafelySetMetadata(group, name);
      ghost var keys :| IsOrder(keys, {}) && a.m == SetMetadata(map[], group, name, keys);
      EmptyOrder(keys);
      a.SafelySetID(id);
      ident := a.m;
    }

    /** The stored form of the metadata carries the identity. */
    method Stamp(metadata: Attrs, id: string) returns (attrs: Attrs)
      ensures Keeps(attrs + service.added, id, metadata)
      ensures Carries(attrs + service.added, Ident(group, name, id))
    {
      var a := new Attributes(metadata);
      a.SafelySetMetadata(group, name);
      ghost var keys :| IsOrder(keys, metadata.Keys) && a.m == SetMetadata(metadata, group, name, keys);
      a.SafelySetID(id);
      attrs := a.m;
      StampCarries(metadata, id, keys);
      hide Stored, SetID, SetMetadata, Carries;
    }

    lemma StampCarries(metadata: Attrs, id: string, keys: seq<string>)
      ensures var attrs := SetID(SetMetadata(metadata, group, name, keys), id);
              && attrs + service.added == Stored(metadata, service.added, group, name, id, keys)
              && Carries(attrs + service.added, Ident(group, name, id))
    {
      hide PrefixAll;
    }

    // ----- what each operation does to the items -----

    /** A fresh item for an identity that had none. */
    ghost predicate Created(s: Items, t: Items, id: string, item: Item) {
      exists p: ObjectPath :: p !in s && t == s[p := item] && Is(item, id)
    }

    /**
      The first match rewritten in place: always the new value, the new attributes unless their best-effort refresh
      failed, and no item of the identity beside those there before.
    */
    predicate Rewritten(s: Items, t: Items, id: string, p: ObjectPath, item: Item) {
      && p in s && Is(s[p], id) && p in t && Is(t[p], id)
      && t[p].secret == item.secret && (t[p].attrs == item.attrs || t[p].attrs == s[p].attrs)
      && OnlyFor(s, t, id)
      && (forall q | q in t && Is(t[q], id) :: q in s && Is(s[q], id))
    }

    /**
      All of the update took effect: one item is left, at the first match's path, with the new value and attributes.
    */
    ghost predicate Collapsed(t: Items, id: string, p: ObjectPath, item: Item) {
      p in t && t[p] == item && forall q | q in t && Is(t[q], id) :: q == p
    }

    /** Since position `n` of the history the identity always had an item, and other identities were left alone. */
    ghost predicate NeverAbsent(s: Items, h: seq<Items>, n: nat, id: string) {
      n <= |h| && forall i | n <= i < |h| :: Has(h[i], id) && OnlyFor(s, h[i], id)
    }

    /** New attributes or a new label for the first match. */
    lemma RewriteStep(s: Items, t: Items, u: Items, id: string, p: ObjectPath, item: Item, op: Op)
      requires Rewritten(s, t, id, p, item) && Applied(t, op, service.added, u)
      requires Carries(item.attrs, Ident(group, name, id))
      requires || (op.SetItemAttributes? && op.path == p && op.attrs + service.added == item.attrs)
               || op == SetItemLabel(p, item.title)
      ensures Rewritten(s, u, id, p, item) && Has(u, id) && OnlyFor(s, u, id) && u.Keys == t.Keys
      ensures p in t && u[p].secret == item.secret
      ensures op.SetItemAttributes? ==> u[p].attrs == item.attrs && u[p].title == t[p].title
      ensures op.SetItemLabel? ==> u[p].title == item.title && u[p].attrs == t[p].attrs
    {
      hide Carries, Ident;
    }

    /** One duplicate less. */
    lemma DrainStep(s: Items, t: Items, u: Items, id: string, p: ObjectPath, item: Item, q: ObjectPath)
      requires Rewritten(s, t, id, p, item) && Applied(t, DeleteItem(q), service.added, u)
      requires q != p && q in s && Is(s[q], id)
      ensures Rewritten(s, u, id, p, item) && Has(u, id) && OnlyFor(s, u, id)
      ensures p in t && p in u && u == t - {q}
    {
      hide Carries, Ident;
    }

    lemma NothingYet(s: Items, h: seq<Items>, id: string)
      ensures NeverAbsent(s, h, |h|, id)
    {
    }

    lemma HistoryStep(s: Items, h: seq<Items>, n: nat, id: string, u: Items)
      requires NeverAbsent(s, h, n, id) && Has(u, id) && OnlyFor(s, u, id)
      ensures NeverAbsent(s, h + [u], n, id)
    {
    }

    lemma FirstRewrite(s: Items, t: Items, id: string, p: ObjectPath, item: Item)
      requires p in s && Is(s[p], id) && Applied(s, SetItemSecret(p, item.secret), service.added, t)
      ensures Rewritten(s, t, id, p, item) && Has(t, id) && OnlyFor(s, t, id)
      ensures t.Keys == s.Keys && t[p].secret == item.secret
    {
    }

    lemma CreateStep(s: Items, t: Items, id: string, attrs: Attrs, item: Item)
      requires !Has(s, id) && Is(item, id) && item.attrs == attrs + service.added
      requires Applied(s, CreateItem(attrs, item.secret, item.title), service.added, t)
      ensures Created(s, t, id, item)
    {
      assert forall q | q in s :: !Is(s[q], id);
    }

    lemma AllDrained(s: Items, t: Items, id: string, p: ObjectPath, item: Item, paths: seq<ObjectPath>)
      requires Rewritten(s, t, id, p, item) && p in t && t[p] == item
      requires |paths| > 0 && paths[0] == p && forall q | q in s && Is(s[q], id) :: q in paths
      requires forall j | 1 <= j < |paths| :: paths[j] !in t
      ensures Collapsed(t, id, p, item)
    {
    }

    /** Collections, aliases, sessions and the first unlock: any of them may fail before the items are touched. */
    method Connect() returns (ok: bool)
      modifies service`locked
      ensures ok ==> !service.locked
      ensures service.dependable ==> ok
    {
      ok := *;
      ok := ok || service.dependable;
      if ok && service.locked { ok := service.Unlock(); }
    }

    /** The service relocks no more often than one call retries. */
    predicate Steady()
      reads service
    {
      service.dependable && service.relocks <= MAX_RELOCK_RETRIES
    }

    /**
      Save creates the item of a new identity and updates the first match of a known one; duplicates are collapsed.
      Only the write of the value can fail it, and then nothing has changed; while it updates, the identity is
      never without an item.
    */
    method Save(id: string, secret: Bytes, metadata: Attrs)
      returns (ok: bool, ghost clean: bool, ghost primary: ObjectPath, ghost item: Item)
      modifies service
      ensures !ok ==> service.items == old(service.items)
      ensures ok ==> Holds(item, id, Entry(secret, metadata)) && item.title == group + ":" + name + ":" + id
      ensures ok && !Has(old(service.items), id) ==> Created(old(service.items), service.items, id, item)
      ensures ok && Has(old(service.items), id) ==> Rewritten(old(service.items), service.items, id, primary, item)
      ensures ok && Has(old(service.items), id) && clean ==> Collapsed(service.items, id, primary, item)
      ensures Has(old(service.items), id) ==>
                NeverAbsent(old(service.items), service.history, |old(service.history)|, id)
      ensures old(Steady()) ==> ok && (old(service.relocks) == 0 ==> clean)
      ensures service.relocks <= old(service.relocks)
    {
      hide NeverAbsent, Rewritten, Created, Collapsed, OnlyFor, Keeps, Applied, Ident;
      ok, clean, primary, item := false, true, 0, Item(map[], [], "");
      NothingYet(service.items, service.history, id);
      var connected := Connect();
      if !connected { return; }
      var attributes := Stamp(metadata, id);
      var title := group + ":" + name + ":" + id;
      var ident := Identity(id);
      item := Item(attributes + service.added, secret, title);
      var found, items := service.SearchCollection(ident);
      if !found { return; }
      ghost var s, n := service.items, |service.history|;
      if |items| == 0 {
        assert forall p | p in s :: p !in items;
        var o, _ := service.WithRelockRetry(CreateItem(attributes, secret, title));
        ok := o.Fine?;
        if ok { CreateStep(s, service.items, id, attributes, item); }
        return;
      }
      primary := items[0];
      assert primary in items;
      var o, _ := service.WithRelockRetry(SetItemSecret(items[0], secret));
      if !o.Fine? { return; }
      ok := true;
      HistoryStep(s, old(service.history), n, id, service.items) by {
        FirstRewrite(s, service.items, id, primary, item);
      }
      FirstRewrite(s, service.items, id, primary, item);
      clean := Refresh(id, items, attributes, title, item, s, n);
    }

    /** The best-effort part of an update: attributes, label, and the duplicates after the first match. */
    method Refresh(id: string, items: seq<ObjectPath>, attributes: Attrs, title: string,
                   ghost item: Item, ghost s: Items, ghost n: nat)
      returns (ghost clean: bool)
      requires item.attrs == attributes + service.added && item.title == title
      requires |items| > 0 && (forall p :: p in items <==> p in s && Is(s[p], id))
      requires forall i, j | 0 <= i < j < |items| :: items[i] != items[j]
      requires Carries(item.attrs, Ident(group, name, id)) && forall p | p in items :: p in service.items
      requires Rewritten(s, service.items, id, items[0], item) && NeverAbsent(s, service.history, n, id)
      modifies service
      ensures Rewritten(s, service.items, id, items[0], item) && NeverAbsent(s, service.history, n, id)
      ensures clean ==> Collapsed(service.items, id, items[0], item)
      ensures service.dependable && old(service.Pressure()) == 0 ==> clean
      ensures service.relocks <= old(service.relocks)
    {
      hide OnlyFor, Has, Applied, Collapsed, Rewritten, NeverAbsent, Carries;
      clean := true;
      assert forall j | 0 <= j < |items| :: items[j] in items;
      ghost var t, h := service.items, service.history;
      var o1, _ := service.Perform(SetItemAttributes(items[0], attributes));
      if o1.Fine? {
        RewriteStep(s, t, service.items, id, items[0], item, SetItemAttributes(items[0], attributes));
        HistoryStep(s, h, n, id, service.items);
      } else {
        clean := false;
      }
      t, h := service.items, service.history;
      var o2, _ := service.Perform(SetItemLabel(items[0], title));
      if o2.Fine? {
        RewriteStep(s, t, service.items, id, items[0], item, SetItemLabel(items[0], title));
        HistoryStep(s, h, n, id, service.items);
      } else {
        clean := false;
      }
      var drained := Drain(id, items, item, s, n);
      clean := clean && drained;
      if clean { AllDrained(s, service.items, id, items[0], item, items); }
    }

    /** Deletes the duplicates after the first match, each as far as it goes. */
    method Drain(id: string, items: seq<ObjectPath>, ghost item: Item, ghost s: Items, ghost n: nat)
      returns (ghost drained: bool)
      requires |items| > 0 && (forall p :: p in items <==> p in s && Is(s[p], id))
      requires forall i, j | 0 <= i < j < |items| :: items[i] != items[j]
      requires Carries(item.attrs, Ident(group, name, id)) && forall j | 0 <= j < |items| :: items[j] in service.items
      requires Rewritten(s, service.items, id, items[0], item) && NeverAbsent(s, service.history, n, id)
      modifies service
      ensures Rewritten(s, service.items, id, items[0], item) && NeverAbsent(s, service.history, n, id)
      ensures items[0] in service.items && service.items[items[0]] == old(service.items[items[0]])
      ensures drained ==> forall j | 1 <= j < |items| :: items[j] !in service.items
      ensures service.dependable && old(service.Pressure()) == 0 ==> drained
      ensures service.relocks <= old(service.relocks)
    {
      hide OnlyFor, Has, Applied, Rewritten, NeverAbsent, Carries;
      drained := true;
      for k := 1 to |items|
        invariant Rewritten(s, service.items, id, items[0], item) && NeverAbsent(s, service.history, n, id)
        invariant items[0] in service.items && service.items[items[0]] == old(service.items[items[0]])
        invariant drained ==> forall j | 1 <= j < k :: items[j] !in service.items
        invariant forall j | k <= j < |items| :: items[j] in service.items
        invariant service.relocks <= old(service.relocks)
        invariant service.dependable ==> service.Pressure() <= old(service.Pressure())
        invariant service.dependable && old(service.Pressure()) == 0 ==> drained
      {
        ghost var t, h := service.items, service.history;
        assert items[k] in items && items[k] != items[0];
        var o, _ := service.WithRelockRetry(DeleteItem(items[k]));
        if o.Fine? {
          DrainStep(s, t, service.items, id, items[0], item, items[k]);
          HistoryStep(s, h, n, id, service.items);
        } else {
          drained := false;
        }
      }
    }

    /** Delete removes the first match and nothing else; the identity is gone exactly if it had no second item. */
    method Delete(id: string) returns (ok: bool)
      modifies service
      ensures !ok ==> service.items == old(service.items)
      ensures ok && !Has(old(service.items), id) ==> service.items == old(service.items)
      ensures ok && Has(old(service.items), id) ==>
                exists p ::
                  && p in old(service.items) && Is(old(service.items)[p], id)
                  && service.items == old(service.items) - {p}
      ensures ok ==> (Has(service.items, id) <==> Duplicated(old(service.items), id))
      ensures old(Steady()) ==> ok
      ensures service.relocks <= old(service.relocks)
    {
      ok := Connect();
      if !ok { return; }
      var ident := Identity(id);
      var found, items := service.SearchCollection(ident);
      if !found { return false; }
      if |items| == 0 {
        assert forall p | p in service.items :: p !in items;
        return true;
      }
      assert items[0] in items;
      ghost var s := service.items;
      var o, _ := service.WithRelockRetry(DeleteItem(items[0]));
      ok := o.Fine?;
      if ok { FirstOfSeveralGone(s, id, items[0]); }
    }

    ghost predicate Duplicated(s: Items, id: string) {
      exists p, q :: p in s && q in s && p != q && Is(s[p], id) && Is(s[q], id)
    }

    lemma FirstOfSeveralGone(s: Items, id: string, p: ObjectPath)
      requires p in s && Is(s[p], id)
      ensures Has(s - {p}, id) <==> Duplicated(s, id)
    {
      if q, r :| q in s && r in s && q != r && Is(s[q], id) && Is(s[r], id) {
        assert if q == p then r in s - {p} else q in s - {p};
      }
    }

    /** A value and metadata as read off some item of the identity: its secret, and its attributes cleaned. */
    ghost predicate Loads(s: Items, id: string, value: (Bytes, Attrs)) {
      exists p, keys :: p in s && Is(s[p], id) && IsOrder(keys, s[p].attrs.Keys - INTERNAL)
                        && value == (s[p].secret, CleanMetadata(s[p].attrs, keys))
    }

    /** Get returns the value of the first match and its attributes cleaned of all but the caller's keys. */
    method Get(id: string) returns (r: Result<(Bytes, Attrs), Failure>)
      modifies service
      ensures service.items == old(service.items)
      ensures r == Err(NotFound) ==> !Has(service.items, id)
      ensures r.Ok? ==> Loads(service.items, id, r.value)
      ensures old(Steady()) ==> r.Ok? || r == Err(NotFound)
      ensures old(Steady()) ==> (r == Err(NotFound) <==> !Has(service.items, id))
      ensures service.relocks <= old(service.relocks)
    {
      var ok := Connect();
      if !ok { return Err(Unavailable); }
      var ident := Identity(id);
      var found, items := service.SearchCollection(ident);
      if !found { return Err(Unavailable); }
      if |items| == 0 {
        assert forall p | p in service.items :: p !in items;
        return Err(NotFound);
      }
      assert items[0] in items;
      var got, attributes := service.GetAttributes(items[0]);
      if !got { return Err(Unavailable); }
      var loaded, value := LoadSecret(items[0], attributes, id);
      r := if loaded then Ok(value) else Err(Unavailable);
    }

    method Select(pattern: string, id: string) returns (b: bool)
      ensures b == Identifiers.Selected(pattern, id)
    {
      b := Identifiers.ValidIdentifier(id);
      if b { b := Identifiers.Match(Identifiers.Split(pattern), Identifiers.Split(id)); }
    }

    /** Loads the value of an item whose attributes have been read. */
    method LoadSecret(p: ObjectPath, attributes: Attrs, ghost id: string) returns (ok: bool, value: (Bytes, Attrs))
      requires p in service.items && attributes == service.items[p].attrs && Is(service.items[p], id)
      modifies service
      ensures service.items == old(service.items) && service.relocks <= old(service.relocks)
      ensures ok ==> Loads(service.items, id, value) && !service.locked
      ensures old(Steady() && !service.locked) ==> ok
    {
      var o, secret := service.WithRelockRetry(GetSecret(p));
      var a := new Attributes(attributes);
      a.SafelyCleanMetadata();
      ghost var keys :| IsOrder(keys, attributes.Keys - INTERNAL) && a.m == CleanMetadata(attributes, keys);
      ok, value := o.Fine?, (secret, a.m);
    }

    /**
      Filter loads an item of each stored identity that is a valid identifier and matches the pattern, and no others.
    */
    method Filter(pattern: string) returns (r: Result<map<string, (Bytes, Attrs)>, Failure>)
      modifies service
      ensures service.items == old(service.items)
      ensures r.Ok? ==>
                forall id | id in r.value :: Identifiers.Selected(pattern, id) && Loads(service.items, id, r.value[id])
      ensures r.Ok? ==>
                forall p, id | p in service.items && Is(service.items[p], id) && Identifiers.Selected(pattern, id) ::
                  id in r.value
      ensures r == Err(NotFound) ==>
                forall p, id | p in service.items && Is(service.items[p], id) :: !Identifiers.Selected(pattern, id)
      ensures (r.Ok? ==> r.value != map[]) && (r.Err? ==> r.error != NoLock)
      ensures old(Steady()) ==> r != Err(Unavailable)
      ensures service.relocks <= old(service.relocks)
    {
      hide Loads, Identifiers.Selected;
      var ok := Connect();
      if !ok { return Err(Unavailable); }
      var found, paths := service.SearchCollection(map[GROUP_KEY := group, NAME_KEY := name]);
      if !found { return Err(Unavailable); }
      ghost var s := service.items;
      forall p, id | p in s && Is(s[p], id) ensures p in paths { InOwnService(s[p], id); }
      var credentials: map<string, (Bytes, Attrs)> := map[];
      for k := 0 to |paths|
        invariant service.items == s && !service.locked && service.relocks <= old(service.relocks)
        invariant forall id | id in credentials :: Identifiers.Selected(pattern, id) && Loads(s, id, credentials[id])
        invariant forall p, id | p in paths[..k] && p in s && Is(s[p], id) && Identifiers.Selected(pattern, id) ::
                  id in credentials
      {
        var p := paths[k];
        assert p in paths && paths[..k + 1] == paths[..k] + [p];
        var got, attributes := service.GetAttributes(p);
        if !got { return Err(Unavailable); }
        forall id | Is(s[p], id) ensures ID_KEY in attributes && attributes[ID_KEY] == id {
          assert ID_KEY in Ident(group, name, id);
        }
        if ID_KEY !in attributes { continue; }
        var id := attributes[ID_KEY];
        var selected := Select(pattern, id);
        if !selected { continue; }
        assert Is(s[p], id);
        var loaded, value := LoadSecret(p, attributes, id);
        if !loaded { return Err(Unavailable); }
        credentials := credentials[id := value];
      }
      assert paths[..|paths|] == paths;
      r := if |credentials| == 0 then Err(NotFound) else Ok(credentials);
    }

    lemma InOwnService(item: Item, id: string)
      requires Is(item, id)
      ensures Carries(item.attrs, map[GROUP_KEY := group, NAME_KEY := name])
    {
      assert GROUP_KEY in Ident(group, name, id) && NAME_KEY in Ident(group, name, id);
    }

    // ----- refinement of a map, when no identity has two items -----

    /** Items that differ only for one identity, which now has the single item `p`. */
    lemma OneEntryChanged(s: Items, t: Items, id: string, p: ObjectPath, v: View, e: Entry)
      requires Represents(s, v) && OnlyFor(s, t, id)
      requires p in t && Is(t[p], id) && Holds(t[p], id, e) && forall q | q in t && Is(t[q], id) :: q == p
      ensures Represents(t, v[id := e])
    {
      hide Is, Holds;
      forall q, i | q in t && Is(t[q], i) && i != id ensures q in s && s[q] == t[q] {
        if Is(t[q], id) { OneIdentity(t[q], i, id); }
      }
      forall i ensures i in v[id := e] <==> Has(t, i) {
        if i != id && Has(s, i) {
          var q :| q in s && Is(s[q], i);
          if Is(s[q], id) { OneIdentity(s[q], i, id); }
          assert q in t && Is(t[q], i);
        }
      }
      forall q, i | q in t && Is(t[q], i) ensures Holds(t[q], i, v[id := e][i]) {
        if i == id { assert q == p; } else { assert q in s && Is(s[q], i); }
      }
    }

    lemma CreateRefines(s: Items, t: Items, id: string, item: Item, v: View, e: Entry)
      requires Represents(s, v) && Holds(item, id, e) && Created(s, t, id, item) && !Has(s, id)
      ensures Represents(t, v[id := e])
    {
      hide Is, Holds, Represents;
      var p: ObjectPath :| p !in s && t == s[p := item] && Is(item, id);
      assert forall q | q in s :: t[q] == s[q] && !Is(s[q], id);
      assert OnlyFor(s, t, id) && forall q | q in t && Is(t[q], id) :: q == p;
      hide OnlyFor;
      OneEntryChanged(s, t, id, p, v, e);
    }

    /** A successful save puts the new value under the identifier, with the new or at worst the earlier metadata. */
    lemma SaveRefines(s: Items, t: Items, id: string, p: ObjectPath, item: Item, v: View, e: Entry)
      requires Represents(s, v) && Holds(item, id, e)
      requires if Has(s, id) then Rewritten(s, t, id, p, item) else Created(s, t, id, item)
      ensures Represents(t, v[id := e]) || (id in v && Represents(t, v[id := e.(metadata := v[id].metadata)]))
      ensures (Has(s, id) ==> Collapsed(t, id, p, item)) ==> Represents(t, v[id := e])
    {
      if !Has(s, id) {
        CreateRefines(s, t, id, item, v, e);
      } else {
        var kept := e.(metadata := v[id].metadata);
        assert Holds(s[p], id, v[id]);
        assert Holds(t[p], id, e) || Holds(t[p], id, kept);
        assert forall q | q in t && Is(t[q], id) :: q == p;
        hide Is, Holds, OnlyFor, NoDuplicates, Represents;
        if Holds(t[p], id, e) {
          OneEntryChanged(s, t, id, p, v, e);
        } else {
          OneEntryChanged(s, t, id, p, v, kept);
        }
      }
    }

    /** Without duplicates, deleting the first match deletes the identity. */
    lemma DeleteRefines(s: Items, t: Items, id: string, p: ObjectPath, v: View)
      requires Represents(s, v) && p in s && Is(s[p], id) && t == s - {p}
      ensures Represents(t, v - {id})
    {
      hide Is, Holds;
      forall i ensures i in v - {id} <==> Has(t, i) {
        if i != id && Has(s, i) {
          var q :| q in s && Is(s[q], i);
          if q == p { OneIdentity(s[q], i, id); }
          assert q in t;
        }
      }
    }

    /** Metadata that survives its storage: no key beside its prefixed form, and none that the service adds. */
    predicate Restorable(metadata: Attrs) { NoShadow(metadata) && service.added.Keys !! metadata.Keys }

    /** What a reader gets for an entry of the map: the secret, and the metadata if it survives. */
    predicate Reads(e: Entry, value: (Bytes, Attrs)) {
      value.0 == e.secret && (Restorable(e.metadata) ==> value.1 == e.metadata)
    }

    /** What is loaded is the entry of the map, in whatever order the attributes are cleaned. */
    lemma LoadRefines(s: Items, v: View, id: string, value: (Bytes, Attrs))
      requires Represents(s, v) && Loads(s, id, value)
      ensures id in v && Reads(v[id], value)
    {
      var p, o2 :| p in s && Is(s[p], id) && IsOrder(o2, s[p].attrs.Keys - INTERNAL)
                   && value == (s[p].secret, CleanMetadata(s[p].attrs, o2));
      assert Has(s, id) && Holds(s[p], id, v[id]);
      var m := v[id].metadata;
      var o1 :| IsOrder(o1, m.Keys) && s[p].attrs == Stored(m, service.added, group, name, id, o1);
      if Restorable(m) { Restored(m, service.added, group, name, id, o1, o2); }
    }

    /** What one command may answer, and do to the map. Only a save that could not refresh keeps earlier metadata. */
    ghost predicate Follows(v: View, c: Command, a: Answer, w: View) {
      match c
      case Save(id, secret, metadata) =>
        && a.Done? && if !a.ok then w == v
           else || w == v[id := Entry(secret, metadata)]
                || (id in v && w == v[id := Entry(secret, v[id].metadata)])
      case Delete(id) => a.Done? && w == if a.ok then v - {id} else v
      case Get(id) =>
        && a.Got? && w == v
        && (a.one.Ok? ==> id in v && Reads(v[id], a.one.value))
        && (a.one == Err(NotFound) ==> id !in v)
      case Filter(pattern) =>
        && a.Found? && w == v
        && (a.all.Ok? ==> a.all.value != map[])
        && (a.all.Ok? ==> forall id :: id in a.all.value <==> id in v && Identifiers.Selected(pattern, id))
        && (a.all.Ok? ==> forall id | id in a.all.value :: Reads(v[id], a.all.value[id]))
        && (a.all == Err(NotFound) ==> forall id | id in v :: !Identifiers.Selected(pattern, id))
    }

    /** A command succeeds, as far as there is something to read. */
    ghost predicate Succeeds(v: View, c: Command, a: Answer) {
      match c
      case Save(_, _, _) => a == Done(true)
      case Delete(_) => a == Done(true)
      case Get(id) => a.Got? && if id in v then a.one.Ok? else a.one == Err(NotFound)
      case Filter(pattern) =>
        && a.Found?
        && if exists id :: id in v && Identifiers.Selected(pattern, id) then a.all.Ok? else a.all == Err(NotFound)
    }

    /** A save replaces all of the entry, its metadata too. */
    predicate Exact(v: View, c: Command, w: View) { c.Save? ==> w == v[c.id := Entry(c.secret, c.metadata)] }

    /** Each operation, whatever it meets, takes the map one step. */
    method Serve(c: Command, ghost v: View) returns (a: Answer, ghost w: View)
      requires Represents(service.items, v)
      modifies service
      ensures Represents(service.items, w) && Follows(v, c, a, w)
      ensures old(Steady()) ==> Succeeds(v, c, a)
      ensures old(Steady()) && old(service.relocks) == 0 ==> Exact(v, c, w)
      ensures service.relocks <= old(service.relocks)
    {
      hide NoDuplicates, Rewritten, Created, Collapsed, OnlyFor, Loads, Holds, Is, NeverAbsent, Identifiers.Selected;
      ghost var s := service.items;
      w := v;
      match c
      case Save(id, secret, metadata) =>
        var ok;
        ghost var clean, p, item;
        ok, clean, p, item := Save(id, secret, metadata);
        a := Done(ok);
        if ok { w := AfterSave(s, service.items, id, p, item, v, Entry(secret, metadata), clean); }
      case Delete(id) =>
        var ok := Delete(id);
        a := Done(ok);
        if ok { AfterDelete(s, service.items, id, v); }
        w := if ok then v - {id} else v;
      case Get(id) =>
        var one := Get(id);
        a := Got(one);
        if one.Ok? { LoadRefines(s, v, id, one.value); }
      case Filter(pattern) =>
        var all := Filter(pattern);
        a := Found(all);
        AfterFilter(s, v, pattern, all);
    }

    lemma AfterSave(s: Items, t: Items, id: string, p: ObjectPath, item: Item, v: View, e: Entry, clean: bool)
      returns (w: View)
      requires Represents(s, v) && Holds(item, id, e)
      requires if Has(s, id) then Rewritten(s, t, id, p, item) else Created(s, t, id, item)
      requires Has(s, id) && clean ==> Collapsed(t, id, p, item)
      ensures Represents(t, w) && (w == v[id := e] || (id in v && w == v[id := e.(metadata := v[id].metadata)]))
      ensures clean ==> w == v[id := e]
    {
      hide Rewritten, Created, Collapsed, Represents, Holds, Has;
      SaveRefines(s, t, id, p, item, v, e);
      w := if Represents(t, v[id := e]) then v[id := e] else v[id := e.(metadata := v[id].metadata)];
    }

    lemma AfterDelete(s: Items, t: Items, id: string, v: View)
      requires Represents(s, v)
      requires !Has(s, id) ==> t == s
      requires Has(s, id) ==> exists p :: p in s && Is(s[p], id) && t == s - {p}
      ensures Represents(t, v - {id})
    {
      if Has(s, id) {
        var p :| p in s && Is(s[p], id) && t == s - {p};
        DeleteRefines(s, t, id, p, v);
      } else {
        assert v - {id} == v;
      }
    }

    lemma AfterFilter(s: Items, v: View, pattern: string, r: Result<map<string, (Bytes, Attrs)>, Failure>)
      requires Represents(s, v)
      requires r.Ok? ==> forall id | id in r.value :: Identifiers.Selected(pattern, id) && Loads(s, id, r.value[id])
      requires r.Ok? ==> forall p, id | p in s && Is(s[p], id) && Identifiers.Selected(pattern, id) :: id in r.value
      requires r == Err(NotFound) ==> forall p, id | p in s && Is(s[p], id) :: !Identifiers.Selected(pattern, id)
      requires r.Ok? ==> r.value != map[]
      ensures Follows(v, Command.Filter(pattern), Found(r), v)
    {
      hide Loads, Is, Holds, Reads, NoDuplicates, Identifiers.Selected;
      if r.Ok? {
        forall id | id in r.value ensures id in v && Reads(v[id], r.value[id]) { LoadRefines(s, v, id, r.value[id]); }
      }
    }

    /**
      In every run of commands the store answers as the map does; it succeeds throughout if the service relocks no
      more often than one call retries, and saves replace all of their entries if it does not relock at all.
    */
    method Run(cs: seq<Command>, ghost v: View) returns (answers: seq<Answer>, ghost views: seq<View>)
      requires Represents(service.items, v)
      modifies service
      ensures |answers| == |cs| && |views| == |cs| + 1 && views[0] == v && Represents(service.items, views[|cs|])
      ensures forall i | 0 <= i < |cs| :: Follows(views[i], cs[i], answers[i], views[i + 1])
      ensures old(Steady()) ==> forall i | 0 <= i < |cs| :: Succeeds(views[i], cs[i], answers[i])
      ensures old(Steady()) && old(service.relocks) == 0 ==>
                forall i | 0 <= i < |cs| :: Exact(views[i], cs[i], views[i + 1])
    {
      hide Represents, Follows, Succeeds, Exact;
      answers, views := [], [v];
      for n := 0 to |cs|
        invariant |answers| == n && |views| == n + 1 && views[0] == v && Represents(service.items, views[n])
        invariant service.relocks <= old(service.relocks)
        invariant forall i | 0 <= i < n :: Follows(views[i], cs[i], answers[i], views[i + 1])
        invariant old(Steady()) ==> forall i | 0 <= i < n :: Succeeds(views[i], cs[i], answers[i])
        invariant old(Steady()) && old(service.relocks) == 0 ==>
                    forall i | 0 <= i < n :: Exact(views[i], cs[i], views[i + 1])
      {
        var a;
        ghost var w;
        a, w := Serve(cs[n], views[n]);
        answers, views := answers + [a], views + [w];
      }
    }

    /** The same from a service without items and an empty map. */
    method RunAfresh(cs: seq<Command>) returns (answers: seq<Answer>, ghost views: seq<View>)
      requires service.items == map[]
      modifies service
      ensures |answers| == |cs| && |views| == |cs| + 1 && views[0] == map[] && Represents(service.items, views[|cs|])
      ensures forall i | 0 <= i < |cs| :: Follows(views[i], cs[i], answers[i], views[i + 1])
      ensures old(Steady()) ==> forall i | 0 <= i < |cs| :: Succeeds(views[i], cs[i], answers[i])
    {
      assert Represents(service.items, map[]);
      hide Represents, Follows, Succeeds;
      answers, views := Run(cs, map[]);
    }
  }
}
