/** The posixage store: secrets sealed to groups of keys, one directory each, refining a map from identifiers. */
module AgeStore {
  import opened DirNames
  import opened Identifiers
  import opened SecretFiles
  import opened Wrappers

  // ----- keys -----

  /** White space as Unicode has it. */
  predicate IsSpace(c: char) {
    || '\t' <= c <= '\r' || c == ' ' || c == '\U{0085}' || c == '\U{00A0}' || c == '\U{1680}'
    || '\U{2000}' <= c <= '\U{200A}' || c == '\U{2028}' || c == '\U{2029}'
    || c == '\U{202F}' || c == '\U{205F}' || c == '\U{3000}'
  }

  const BLANKS := "\t\n\U{000B}\U{000C}\r \U{0085}\U{00A0}\U{1680}\U{2028}\U{2029}\U{202F}\U{205F}\U{3000}"
  const SPACINGS := "\U{2000}\U{2001}\U{2002}\U{2003}\U{2004}\U{2005}\U{2006}\U{2007}\U{2008}\U{2009}\U{200A}"

  /** Its 25 characters one by one. */
  lemma SpacesListed(c: char)
    ensures IsSpace(c) <==> c in BLANKS || c in SPACINGS
  {
    assert c in SPACINGS <==> '\U{2000}' <= c <= '\U{200A}';
  }

  function TrimSpace(s: string): string {
    if s == "" then ""
    else if IsSpace(s[0]) then TrimSpace(s[1..])
    else if IsSpace(s[|s| - 1]) then TrimSpace(s[..|s| - 1])
    else s
  }

  predicate AllSpace(s: string) { forall i | 0 <= i < |s| :: IsSpace(s[i]) }

  /** Trimming takes off white space, on both sides, and all of it. */
  lemma {:induction false} TrimSpaceTrims(s: string) returns (a: string, b: string)
    ensures s == a + TrimSpace(s) + b && AllSpace(a) && AllSpace(b)
    ensures var t := TrimSpace(s); t != "" ==> !IsSpace(t[0]) && !IsSpace(t[|t| - 1])
  {
    hide IsSpace;
    a, b := "", "";
    if s != "" && IsSpace(s[0]) {
      var c;
      c, b := TrimSpaceTrims(s[1..]);
      a := [s[0]] + c;
    } else if s != "" && IsSpace(s[|s| - 1]) {
      var c;
      a, c := TrimSpaceTrims(s[..|s| - 1]);
      b := c + [s[|s| - 1]];
    }
  }

  /** What the registered functions answer in one operation: a key each, or an error. */
  type Answers = seq<Option<string>>

  /** The keys of one type, trimmed, in the order the functions were registered. */
  function KeysOf(types: seq<string>, answers: Answers, k: string): seq<string>
    requires |answers| == |types|
  {
    if types == [] then []
    else
      var n := |types| - 1;
      KeysOf(types[..n], answers[..n], k)
      + if types[n] == k && answers[n].Some? then [TrimSpace(answers[n].value)] else []
  }

  /** Every function answered, and with more than white space. */
  predicate AllKeys(answers: Answers) {
    forall i | 0 <= i < |answers| :: answers[i].Some? && TrimSpace(answers[i].value) != ""
  }

  method PromptForEncryptionKeys(types: seq<string>, answers: Answers) returns (ok: bool, m: map<string, seq<string>>)
    requires |answers| == |types|
    ensures ok <==> AllKeys(answers)
    ensures ok ==> forall k :: k in m <==> k in types
    ensures ok ==> forall k | k in m :: m[k] == KeysOf(types, answers, k)
  {
    hide KeysOf, TrimSpace;
    m := map[];
    forall k ensures KeysOf([], [], k) == [] { NoKeys(k); }
    for i := 0 to |types|
      invariant AllKeys(answers[..i])
      invariant forall k :: k in m <==> k in types[..i]
      invariant forall k :: (if k in m then m[k] else []) == KeysOf(types[..i], answers[..i], k)
    {
      forall k { NextKey(types, answers, i, k); }
      assert types[..i + 1] == types[..i] + [types[i]];
      assert answers[..i + 1] == answers[..i] + [answers[i]];
      if answers[i].None? { return false, m; }
      var raw := TrimSpace(answers[i].value);
      if raw == "" { return false, m; }
      var group := types[i];
      m := m[group := (if group in m then m[group] else []) + [raw]];
    }
    assert types[..|types|] == types && answers[..|answers|] == answers;
    ok := true;
  }

  lemma NoKeys(k: string)
    ensures KeysOf([], [], k) == []
  {
  }

  lemma NextKey(types: seq<string>, answers: Answers, i: nat, k: string)
    requires i < |types| == |answers|
    ensures KeysOf(types[..i + 1], answers[..i + 1], k)
            == KeysOf(types[..i], answers[..i], k)
               + if types[i] == k && answers[i].Some? then [TrimSpace(answers[i].value)] else []
  {
    assert types[..i + 1][..i] == types[..i] && answers[..i + 1][..i] == answers[..i];
  }

  /** Of a type that only one function asks for, its answer is the only key. */
  lemma {:induction false} OnlyKey(types: seq<string>, answers: Answers, i: nat)
    requires i < |types| == |answers| && answers[i].Some?
    requires forall j | 0 <= j < |types| && j != i :: types[j] != types[i]
    ensures KeysOf(types, answers, types[i]) == [TrimSpace(answers[i].value)]
  {
    var n := |types| - 1;
    if i < n {
      OnlyKey(types[..n], answers[..n], i);
    } else {
      NoKeyOf(types[..n], answers[..n], types[i]);
    }
  }

  lemma {:induction false} NoKeyOf(types: seq<string>, answers: Answers, k: string)
    requires |types| == |answers| && k !in types
    ensures KeysOf(types, answers, k) == []
  {
    if types != [] { NoKeyOf(types[..|types| - 1], answers[..|types| - 1], k); }
  }

  /** There are as many keys of a type as functions that ask for it. */
  lemma {:induction false} KeyCount(types: seq<string>, answers: Answers, k: string)
    requires |types| == |answers| && AllKeys(answers)
    ensures |KeysOf(types, answers, k)| == multiset(types)[k]
  {
    if types != [] {
      var n := |types| - 1;
      assert types == types[..n] + [types[n]];
      KeyCount(types[..n], answers[..n], k);
    }
  }

  // ----- what the store holds, as a map -----

  datatype Entry = Entry(plain: Bytes, metadata: Attrs, recipients: map<string, seq<string>>)

  /**
    What the store holds, but for identifiers whose directory a failed removal may have left in any state; and the
    directories that are not an identifier's own, which the store never writes.
  */
  datatype View = View(entries: map<string, Entry>, doubt: set<string>, foreign: set<string>)

  /** The directory of an entry: its metadata, and the plaintext sealed to each group of keys. */
  function DirOf(e: Entry): Dir {
    map f | f in {METADATA_FILE} + set k | k in e.recipients :: SECRET_FILE + k ::
      if f == METADATA_FILE then Json(e.metadata) else Sealed(e.recipients[f[6..]], e.plain)
  }

  /** Every entry has the directory that is its own, and no other identifier has one, but for those in doubt. */
  ghost predicate Represents(dirs: Dirs, v: View) {
    && v.entries.Keys !! v.doubt
    && v.foreign == Foreign(dirs)
    && (forall id | ValidId(id) && id !in v.doubt :: id in v.entries <==> IDToDirName(id) in dirs)
    && (forall id | id in v.entries ::
          ValidId(id) && dirs[IDToDirName(id)] == DirOf(v.entries[id]) && v.entries[id].recipients.Keys <= KEY_TYPES)
  }

  function Foreign(dirs: Dirs): set<string> { set n | n in dirs && !IsOwn(n) }

  function With(v: View, id: string, e: Entry): View { v.(entries := v.entries[id := e], doubt := v.doubt - {id}) }

  function Without(v: View, id: string): View { v.(entries := v.entries - {id}, doubt := v.doubt - {id}) }

  function Doubting(v: View, id: string): View { v.(entries := v.entries - {id}, doubt := v.doubt + {id}) }

  /** A directory that a walk takes for an identifier's: its own, or a foreign one whose name decodes to it. */
  predicate Visits(v: View, n: string, id: string) {
    DirNameToID(n) == Some(id) && (n == IDToDirName(id) || n in v.foreign)
  }

  /** A use of the store, with what the registered functions answer in it; for a filter, by visited directory. */
  datatype Command =
    | Save(id: string, plain: Bytes, metadata: Attrs, given: Answers)
    | Delete(id: string)
    | Get(id: string, given: Answers)
    | Filter(pattern: string, byDirectory: string -> Answers)

  datatype Answer =
    | Done(ok: bool)
    | Got(one: Result<(Bytes, Attrs), Failure>)
    | Filtered(all: Result<map<string, (Bytes, Attrs)>, Failure>)

  // ----- the store -----

  class Store {
    const fs: Root
    const encryption: seq<string>
    const decryption: seq<string>
    /** Whether a key of a type opens what was sealed to a recipient. */
    const fits: (string, string, string) -> bool
    /** Whether a key parses as a recipient of a type. */
    const parses: (string, string) -> bool
    /** Whether the store's lock is always granted and sealing to recipients that go together always works. */
    const dependable: bool

    constructor (fs: Root, encryption: seq<string>, decryption: seq<string>, fits: (string, string, string) -> bool,
                 parses: (string, string) -> bool, dependable: bool)
      ensures this.fs == fs && this.encryption == encryption && this.decryption == decryption
      ensures this.fits == fits && this.parses == parses && this.dependable == dependable
    {
      this.fs, this.encryption, this.decryption, this.fits := fs, encryption, decryption, fits;
      this.parses, this.dependable := parses, dependable;
    }

    predicate OnlyKeyTypes() { forall k | k in encryption :: k in KEY_TYPES }

    method TryLock() returns (ok: bool)
      ensures dependable ==> ok
    {
      ok := *;
      ok := ok || dependable;
    }

    /** All keys parse, and a password is the only recipient of its file. */
    predicate CanSeal(keyType: string, keys: seq<string>) {
      (forall key | key in keys :: parses(keyType, key)) && (keyType == PASSWORD ==> |keys| <= 1)
    }

    /** Parsing the keys and sealing to them may fail, and then nothing has been written. */
    method Encrypt(keyType: string, keys: seq<string>, plain: Bytes) returns (ok: bool, data: Content)
      ensures ok ==> CanSeal(keyType, keys) && data == Sealed(keys, plain)
      ensures dependable ==> (ok <==> CanSeal(keyType, keys))
    {
      ok := *;
      ok := CanSeal(keyType, keys) && (ok || dependable);
      data := if ok then Sealed(keys, plain) else Partial;
    }

    /** The answers give a key for every function, and each group of keys can be sealed to. */
    ghost predicate Sealable(answers: Answers)
      requires |answers| == |encryption|
    {
      AllKeys(answers) && forall k | k in encryption :: CanSeal(k, KeysOf(encryption, answers, k))
    }

    /** So no save ever works when two functions ask for a password; otherwise all depends on the keys themselves. */
    lemma SealableIff(answers: Answers)
      requires |answers| == |encryption|
      ensures Sealable(answers) <==>
                && AllKeys(answers) && multiset(encryption)[PASSWORD] <= 1
                && forall k | k in encryption :: forall key | key in KeysOf(encryption, answers, k) :: parses(k, key)
    {
      if AllKeys(answers) {
        KeyCount(encryption, answers, PASSWORD);
        assert PASSWORD in encryption || multiset(encryption)[PASSWORD] == 0;
      }
    }

    function Open(keyType: string, key: string, data: Content): Option<Bytes> {
      if data.Sealed? && exists r | r in data.recipients :: fits(keyType, key, r) then Some(data.plain) else None
    }

    /** The entry a save writes. */
    function Sealing(plain: Bytes, metadata: Attrs, answers: Answers): Entry
      requires |answers| == |encryption|
    {
      Entry(plain, metadata, map k | k in encryption :: KeysOf(encryption, answers, k))
    }

    /**
      A save that succeeds leaves the new entry, sealed to all keys of each type; one that fails leaves what was
      there or, at worst, nothing. No other directory changes.
    */
    method Save(id: string, plain: Bytes, metadata: Attrs, answers: Answers) returns (ok: bool)
      requires ValidId(id) && OnlyKeyTypes() && |answers| == |encryption|
      modifies fs
      ensures ok ==>
                && Sealable(answers)
                && fs.dirs == old(fs.dirs)[IDToDirName(id) := DirOf(Sealing(plain, metadata, answers))]
      ensures fs.dirs - {IDToDirName(id)} == old(fs.dirs) - {IDToDirName(id)}
      ensures !ok && fs.removeWorks ==> fs.dirs == old(fs.dirs) || fs.dirs == old(fs.dirs) - {IDToDirName(id)}
      ensures dependable && fs.removeWorks && fs.readsWork && fs.writesWork ==> (ok <==> Sealable(answers))
    {
      ok := TryLock();
      if !ok { return; }
      var keyGroups;
      ok, keyGroups := PromptForEncryptionKeys(encryption, answers);
      if !ok { return; }
      ghost var e := Sealing(plain, metadata, answers);
      var secrets;
      ok, secrets := SealAll(keyGroups, plain, e);
      if !ok { return; }
      WrittenIsDirOf(secrets, e);
      ghost var made;
      ghost var s := fs.dirs;
      ok, made := fs.Persist(id, metadata, secrets);
      if !ok && made && fs.removeWorks { Removed(s, fs.dirs, IDToDirName(id)); }
    }

    /** Seals the plaintext to each group of keys, in no particular order of the groups. */
    method SealAll(keyGroups: map<string, seq<string>>, plain: Bytes, ghost e: Entry)
      returns (ok: bool, secrets: seq<EncryptedSecret>)
      requires keyGroups == e.recipients && plain == e.plain
      ensures ok ==> SealedTo(secrets, keyGroups.Keys, e) && forall k | k in keyGroups :: CanSeal(k, keyGroups[k])
      ensures dependable && !ok ==> exists k :: k in keyGroups && !CanSeal(k, keyGroups[k])
    {
      ok, secrets := true, [];
      var todo := keyGroups.Keys;
      while todo != {}
        invariant ok && todo <= keyGroups.Keys && SealedTo(secrets, keyGroups.Keys - todo, e)
        invariant forall k | k in keyGroups && k !in todo :: CanSeal(k, keyGroups[k])
        decreases todo
      {
        var k :| k in todo;
        var data;
        ok, data := Encrypt(k, keyGroups[k], plain);
        if !ok { return; }
        ghost var before := secrets;
        secrets := secrets + [EncryptedSecret(k, data)];
        assert secrets[|before|].keyType == k && forall s | s in before :: s in secrets;
        assert keyGroups.Keys - (todo - {k}) == (keyGroups.Keys - todo) + {k};
        todo := todo - {k};
      }
      assert keyGroups.Keys - todo == keyGroups.Keys;
    }

    lemma Removed(s: Dirs, t: Dirs, name: string)
      requires t - {name} == s - {name} && name !in t
      ensures t == s - {name}
    {
      assert t == t - {name};
    }

    /** Deleting removes the directory and nothing else. */
    method Delete(id: string) returns (ok: bool)
      requires ValidId(id)
      modifies fs
      ensures ok ==> fs.dirs == old(fs.dirs) - {IDToDirName(id)}
      ensures fs.dirs - {IDToDirName(id)} == old(fs.dirs) - {IDToDirName(id)}
      ensures !ok && fs.removeWorks ==> fs.dirs == old(fs.dirs)
      ensures dependable && fs.removeWorks ==> ok
    {
      ok := TryLock();
      if !ok { return; }
      ghost var s := fs.dirs;
      ok := fs.RemoveAll(IDToDirName(id));
      if ok { Removed(s, fs.dirs, IDToDirName(id)); }
    }

    /** The secrets hold one of the type, and the answer opens the first such one. */
    ghost predicate OpensAt(j: nat, answers: Answers, secrets: seq<EncryptedSecret>, plain: Bytes)
      requires j < |decryption| == |answers|
    {
      exists i | 0 <= i < |secrets| ::
        && secrets[i].keyType == decryption[j] && (forall k | 0 <= k < i :: secrets[k].keyType != decryption[j])
        && answers[j].Some? && Open(decryption[j], answers[j].value, secrets[i].data) == Some(plain)
    }

    /** A function answered for a type the secrets have, but does not open. */
    ghost predicate Passed(j: nat, answers: Answers, secrets: seq<EncryptedSecret>)
      requires j < |decryption| == |answers|
    {
      && answers[j].Some? && (exists s :: s in secrets && s.keyType == decryption[j])
      && forall plain :: !OpensAt(j, answers, secrets, plain)
    }

    /** The decryption functions are tried in order, past those that do not open, up to one that does. */
    ghost predicate Decrypts(answers: Answers, secrets: seq<EncryptedSecret>, plain: Bytes)
      requires |decryption| == |answers|
    {
      exists j: nat | j < |decryption| ::
          OpensAt(j, answers, secrets, plain) && forall i: nat | i < j :: Passed(i, answers, secrets)
    }

    method DecryptSecret(secrets: seq<EncryptedSecret>, answers: Answers) returns (r: Option<Bytes>)
      requires |decryption| == |answers|
      ensures r.Some? ==> Decrypts(answers, secrets, r.value)
      ensures r.None? ==> forall plain :: !Decrypts(answers, secrets, plain)
    {
      for j := 0 to |decryption|
        invariant forall i: nat | i < j :: Passed(i, answers, secrets)
      {
        var keyType := decryption[j];
        var index := 0;
        while index < |secrets| && secrets[index].keyType != keyType
          invariant 0 <= index <= |secrets| && forall k | 0 <= k < index :: secrets[k].keyType != keyType
        {
          index := index + 1;
        }
        if index == |secrets| {
          Stuck(j, answers, secrets);
          return None;
        }
        assert secrets[index] in secrets;
        if answers[j].None? {
          Stuck(j, answers, secrets);
          return None;
        }
        var plain := Open(keyType, answers[j].value, secrets[index].data);
        if plain.None? { continue; }
        assert OpensAt(j, answers, secrets, plain.value);
        return plain;
      }
      Stuck(|decryption|, answers, secrets);
      r := None;
    }

    /**
      A function that opens, or is passed by, has answered for a type the secrets have; it does only one of the two.
    */
    lemma Applies(j: nat, answers: Answers, secrets: seq<EncryptedSecret>, plain: Bytes)
      requires j < |decryption| == |answers| && (OpensAt(j, answers, secrets, plain) || Passed(j, answers, secrets))
      ensures answers[j].Some? && exists s :: s in secrets && s.keyType == decryption[j]
      ensures !OpensAt(j, answers, secrets, plain) || !Passed(j, answers, secrets)
    {
      if OpensAt(j, answers, secrets, plain) {
        var i :| 0 <= i < |secrets| && secrets[i].keyType == decryption[j] && answers[j].Some?;
        assert secrets[i] in secrets;
      }
    }

    lemma Stuck(j: nat, answers: Answers, secrets: seq<EncryptedSecret>)
      requires j <= |decryption| == |answers| && forall i: nat | i < j :: Passed(i, answers, secrets)
      requires j < |decryption| ==> answers[j].None? || forall s | s in secrets :: s.keyType != decryption[j]
      ensures forall plain :: !Decrypts(answers, secrets, plain)
    {
      hide OpensAt, Passed;
      forall plain ensures !Decrypts(answers, secrets, plain) {
        forall n: nat | n < |decryption| && OpensAt(n, answers, secrets, plain)
          ensures exists i: nat :: i < n && !Passed(i, answers, secrets)
        {
          Applies(n, answers, secrets, plain);
          if j < n && Passed(j, answers, secrets) { Applies(j, answers, secrets, plain); }
        }
      }
    }

    /** What a directory yields: its metadata, and the plaintext its readable secrets decrypt to. */
    ghost predicate Yields(dir: Dir, answers: Answers, plain: Bytes, metadata: Attrs)
      requires |decryption| == |answers|
    {
      exists secrets ::
        && Restored(dir, secrets, metadata) && (fs.readsWork ==> AllRestored(dir, secrets))
        && Decrypts(answers, secrets, plain)
    }

    /** Restores and decrypts what the directory of an identifier holds. */
    method Load(id: string, answers: Answers) returns (found: bool, plain: Option<Bytes>, metadata: Attrs)
      requires ValidId(id) && |decryption| == |answers|
      ensures found ==> IDToDirName(id) in fs.dirs
      ensures fs.readsWork ==> (found <==> IDToDirName(id) in fs.dirs && HasMetadata(fs.dirs[IDToDirName(id)]))
      ensures found && plain.Some? ==> Yields(fs.dirs[IDToDirName(id)], answers, plain.value, metadata)
      ensures found && plain.None? && fs.readsWork ==> Unreadable(fs.dirs[IDToDirName(id)], answers)
    {
      plain := None;
      var secrets;
      ghost var listed;
      found, secrets, metadata, listed := fs.RestoreSecret(id);
      if found { plain := DecryptSecret(secrets, answers); }
    }

    method Get(id: string, answers: Answers) returns (r: Result<(Bytes, Attrs), Failure>)
      requires ValidId(id) && |decryption| == |answers|
      ensures r.Ok? ==> IDToDirName(id) in fs.dirs && Yields(fs.dirs[IDToDirName(id)], answers, r.value.0, r.value.1)
      ensures r == Err(Unavailable) && fs.readsWork && IDToDirName(id) in fs.dirs &&
                HasMetadata(fs.dirs[IDToDirName(id)]) ==>
                Unreadable(fs.dirs[IDToDirName(id)], answers)
      ensures r != Err(NotFound) && (dependable ==> r != Err(NoLock))
    {
      var ok := TryLock();
      if !ok { return Err(NoLock); }
      var found, plain, metadata := Load(id, answers);
      if !found || plain.None? { return Err(Unavailable); }
      r := Ok((plain.value, metadata));
    }

    /** Some complete reading of the directory does not decrypt. */
    ghost predicate Unreadable(dir: Dir, answers: Answers)
      requires |decryption| == |answers|
    {
      exists secrets, metadata ::
        && Restored(dir, secrets, metadata) && AllRestored(dir, secrets)
        && forall plain :: !Decrypts(answers, secrets, plain)
    }

    ghost predicate Readable(dir: Dir, answers: Answers)
      requires |decryption| == |answers|
    {
      exists plain, metadata :: Yields(dir, answers, plain, metadata)
    }

    /** A value read for an identifier, from its own directory, in a visit of some directory named after it. */
    ghost predicate Loads(dirs: Dirs, id: string, answers: string -> Answers, value: (Bytes, Attrs))
      requires forall n :: |answers(n)| == |decryption|
    {
      ValidId(id) && IDToDirName(id) in dirs && exists n ::
        n in dirs && DirNameToID(n) == Some(id) && Yields(dirs[IDToDirName(id)], answers(n), value.0, value.1)
    }

    /** There is something to read under an identifier that the pattern matches. */
    predicate Found(dirs: Dirs, pattern: string, id: string) {
      Selected(pattern, id) && IDToDirName(id) in dirs && HasMetadata(dirs[IDToDirName(id)])
    }

    lemma NamesAreValid(name: string, id: string)
      requires DirNameToID(name) == Some(id)
      ensures ValidId(id)
    {
    }

    /**
      Reads every identifier that matches; it fails if one of them does not decrypt. `answers` is by visited
      directory.
    */
    method Filter(pattern: string, answers: string -> Answers) returns (r: Result<map<string, (Bytes, Attrs)>, Failure>)
      requires forall n :: |answers(n)| == |decryption|
      ensures r.Ok? ==> forall id | id in r.value :: Selected(pattern, id) && Loads(fs.dirs, id, answers, r.value[id])
      ensures r.Ok? ==> r.value != map[]
      ensures r.Ok? && fs.readsWork ==> forall id | Found(fs.dirs, pattern, id) :: id in r.value
      ensures r == Err(NotFound) && fs.readsWork ==> forall id :: !Found(fs.dirs, pattern, id)
      ensures dependable ==> r != Err(NoLock)
      ensures r == Err(Unavailable) && fs.readsWork ==> exists n, id ::
                && n in fs.dirs && DirNameToID(n) == Some(id) && Found(fs.dirs, pattern, id)
                && Unreadable(fs.dirs[IDToDirName(id)], answers(n))
      ensures r.Ok? && fs.readsWork ==>
                forall n, id | n in fs.dirs && DirNameToID(n) == Some(id) && Found(fs.dirs, pattern, id) ::
                  Readable(fs.dirs[IDToDirName(id)], answers(n))
    {
      hide Split, Matches, ValidId, IDToDirName, Yields, Unreadable, HasMetadata, DirNameToID;
      forall n, id | DirNameToID(n) == Some(id) ensures ValidId(id) { NamesAreValid(n, id); }
      var ok := TryLock();
      if !ok { return Err(NoLock); }
      var secrets: map<string, (Bytes, Attrs)> := map[];
      var todo := fs.dirs.Keys;
      while todo != {}
        invariant todo <= fs.dirs.Keys
        invariant forall id | id in secrets :: Selected(pattern, id) && Loads(fs.dirs, id, answers, secrets[id])
        invariant fs.readsWork ==> forall id | Found(fs.dirs, pattern, id) && IDToDirName(id) !in todo :: id in secrets
        invariant fs.readsWork ==>
                    forall n, id |
                      n in fs.dirs && n !in todo && DirNameToID(n) == Some(id) && Found(fs.dirs, pattern, id) ::
                      Readable(fs.dirs[IDToDirName(id)], answers(n))
        decreases todo
      {
        var name :| name in todo;
        todo := todo - {name};
        forall id | ValidId(id) && IDToDirName(id) == name ensures DirNameToID(name) == Some(id) { NameRoundTrip(id); }
        var id := DirNameToID(name);
        if id.None? { continue; }
        var selected := Match(Split(pattern), Split(id.value));
        if !selected { continue; }
        var found, plain, metadata := Load(id.value, answers(name));
        if !found { continue; }
        if plain.None? { return Err(Unavailable); }
        secrets := secrets[id.value := (plain.value, metadata)];
      }
      r := if |secrets| == 0 then Err(NotFound) else Ok(secrets);
    }

    // ----- refinement of a map -----

    /** The functions' answers open an entry: up to one whose key fits, all have a group of their type and answer. */
    ghost predicate Opens(e: Entry, answers: Answers)
      requires |decryption| == |answers|
    {
      exists j: nat | j < |decryption| ::
          FitsAt(e, answers, j) && forall i: nat | i < j :: decryption[i] in e.recipients && answers[i].Some?
    }

    ghost predicate FitsAt(e: Entry, answers: Answers, j: nat)
      requires j < |decryption| == |answers|
    {
      decryption[j] in e.recipients && answers[j].Some?
      && exists r :: r in e.recipients[decryption[j]] && fits(decryption[j], answers[j].value, r)
    }

    lemma SecretFileOf(e: Entry, f: string) returns (k: string)
      requires e.recipients.Keys <= KEY_TYPES && f in DirOf(e) && IsSecretFile(f)
      ensures k in e.recipients && KeyTypeOf(f) == k && DirOf(e)[f] == Sealed(e.recipients[k], e.plain)
    {
      assert METADATA_FILE[0] == 'm' && SECRET_FILE[0] == 's';
      k :| k in e.recipients && f == SECRET_FILE + k;
      KeyTypesReadBack(k);
      assert f[6..] == k;
    }

    /** What is read from an entry's directory is the entry. */
    lemma EntryRestored(e: Entry, secrets: seq<EncryptedSecret>, metadata: Attrs)
      requires e.recipients.Keys <= KEY_TYPES && Restored(DirOf(e), secrets, metadata)
      ensures metadata == e.metadata
      ensures forall s | s in secrets :: s.keyType in e.recipients && s.data == Sealed(e.recipients[s.keyType], e.plain)
      ensures AllRestored(DirOf(e), secrets) ==>
                forall k | k in e.recipients :: exists s :: s in secrets && s.keyType == k
    {
      var dir := DirOf(e);
      forall s | s in secrets ensures s.keyType in e.recipients && s.data == Sealed(e.recipients[s.keyType], e.plain) {
        var f :| f in dir && IsSecretFile(f) && s == EncryptedSecret(KeyTypeOf(f), dir[f]);
        var k := SecretFileOf(e, f);
      }
      if AllRestored(dir, secrets) {
        forall k | k in e.recipients ensures exists s :: s in secrets && s.keyType == k {
          KeyTypesReadBack(k);
          assert SECRET_FILE + k in dir;
          assert EncryptedSecret(KeyTypeOf(SECRET_FILE + k), dir[SECRET_FILE + k]) in secrets;
        }
      }
    }

    /**
      Only the entry's own plaintext and metadata can come out of its directory, whatever could be read and was
      answered.
    */
    lemma GetRefines(e: Entry, answers: Answers, plain: Bytes, metadata: Attrs)
      requires e.recipients.Keys <= KEY_TYPES && |decryption| == |answers| && Yields(DirOf(e), answers, plain, metadata)
      ensures plain == e.plain && metadata == e.metadata
      ensures Opens(e, answers)
    {
      var secrets: seq<EncryptedSecret> :| Restored(DirOf(e), secrets, metadata) &&
          (fs.readsWork ==> AllRestored(DirOf(e), secrets)) && Decrypts(answers, secrets, plain);
      EntryRestored(e, secrets, metadata);
      OpenedIs(e, answers, secrets, plain);
    }

    lemma OpenedIs(e: Entry, answers: Answers, secrets: seq<EncryptedSecret>, plain: Bytes)
      requires |decryption| == |answers| && Decrypts(answers, secrets, plain)
      requires forall s | s in secrets ::
                s.keyType in e.recipients && s.data == Sealed(e.recipients[s.keyType], e.plain)
      ensures plain == e.plain && Opens(e, answers)
    {
      var j: nat :| j < |decryption| && OpensAt(j, answers, secrets, plain) &&
          forall i: nat | i < j :: Passed(i, answers, secrets);
      var i: int :| 0 <= i < |secrets| && secrets[i].keyType == decryption[j] &&
          Open(decryption[j], answers[j].value, secrets[i].data) == Some(plain);
      assert secrets[i] in secrets;
      assert FitsAt(e, answers, j);
      assert forall n: nat | n < j :: Passed(n, answers, secrets) ==> decryption[n] in e.recipients && answers[n].Some?;
    }

    /** When everything can be read, an entry is unreadable only if the answers do not open it. */
    lemma UnreadableIsLocked(e: Entry, answers: Answers)
      requires e.recipients.Keys <= KEY_TYPES && |decryption| == |answers| && Unreadable(DirOf(e), answers)
      ensures !Opens(e, answers)
    {
      var secrets, metadata :| Restored(DirOf(e), secrets, metadata) && AllRestored(DirOf(e), secrets) &&
          forall plain :: !Decrypts(answers, secrets, plain);
      EntryRestored(e, secrets, metadata);
      if j: nat :|
          j < |decryption| && FitsAt(e, answers, j) &&
          forall i: nat | i < j :: decryption[i] in e.recipients && answers[i].Some? {
        OpenedBy(e, answers, secrets, j);
      }
    }

    /** The first function whose key fits opens the entry. */
    lemma {:induction false} OpenedBy(e: Entry, answers: Answers, secrets: seq<EncryptedSecret>, j: nat)
      requires |decryption| == |answers| && j < |decryption| && FitsAt(e, answers, j)
      requires forall i: nat | i < j :: decryption[i] in e.recipients && answers[i].Some?
      requires forall s | s in secrets ::
                s.keyType in e.recipients && s.data == Sealed(e.recipients[s.keyType], e.plain)
      requires forall k | k in e.recipients :: exists s :: s in secrets && s.keyType == k
      ensures Decrypts(answers, secrets, e.plain)
    {
      if i: nat :| i < j && FitsAt(e, answers, i) {
        OpenedBy(e, answers, secrets, i);
      } else {
        FirstOfType(secrets, decryption[j]);
        forall i: nat | i < j ensures Passed(i, answers, secrets) { assert !FitsAt(e, answers, i); }
        assert OpensAt(j, answers, secrets, e.plain);
      }
    }

    lemma {:induction false} FirstOfType(secrets: seq<EncryptedSecret>, k: string)
      requires exists s :: s in secrets && s.keyType == k
      ensures exists i ::
                && 0 <= i < |secrets| && secrets[i] in secrets && secrets[i].keyType == k
                && forall m | 0 <= m < i :: secrets[m].keyType != k
    {
      if secrets[0].keyType != k {
        var rest := secrets[1..];
        assert forall s | s in secrets :: s == secrets[0] || s in rest;
        FirstOfType(rest, k);
        var i :| 0 <= i < |rest| && rest[i].keyType == k && forall m | 0 <= m < i :: rest[m].keyType != k;
        assert secrets[i + 1] == rest[i] && forall m | 1 <= m < i + 1 :: secrets[m] == rest[m - 1];
      }
    }

    /**
      Every decryption type is an encryption type, all functions answer, and one key fits: then a saved entry opens.
    */
    lemma SavedOpens(plain: Bytes, metadata: Attrs, saved: Answers, answers: Answers, j: nat)
      requires |saved| == |encryption| && |answers| == |decryption| && AllKeys(saved)
      requires (forall k | k in decryption :: k in encryption) && forall a | a in answers :: a.Some?
      requires j < |decryption| &&
                exists r :: r in KeysOf(encryption, saved, decryption[j]) && fits(decryption[j], answers[j].value, r)
      ensures Opens(Sealing(plain, metadata, saved), answers)
    {
      assert FitsAt(Sealing(plain, metadata, saved), answers, j);
    }

    /**
      The one password a store seals to, given again on reading, fits exactly if it has no white space around it; so
      where only a password is asked for on reading, the secret opens exactly then.
    */
    lemma PasswordOpensIfTrimmed(saved: Answers, answers: Answers, i: nat, j: nat, key: string, plain: Bytes,
                                 metadata: Attrs)
      requires i < |encryption| == |saved| && j < |decryption| == |answers|
      requires encryption[i] == decryption[j] == PASSWORD && saved[i] == answers[j] == Some(key)
      requires forall n | 0 <= n < |encryption| && n != i :: encryption[n] != PASSWORD
      requires forall a, b :: fits(PASSWORD, a, b) <==> a == b
      ensures var e := Sealing(plain, metadata, saved);
              && (FitsAt(e, answers, j) <==> TrimSpace(key) == key)
              && (decryption == [PASSWORD] ==> (Opens(e, answers) <==> TrimSpace(key) == key))
    {
      OnlyKey(encryption, saved, i);
      var e := Sealing(plain, metadata, saved);
      assert e.recipients[PASSWORD] == [TrimSpace(key)] && TrimSpace(key) in e.recipients[PASSWORD];
      if decryption == [PASSWORD] { assert Opens(e, answers) <==> FitsAt(e, answers, 0); }
    }

    lemma ForeignKept(s: Dirs, t: Dirs, id: string)
      requires ValidId(id) && t - {IDToDirName(id)} == s - {IDToDirName(id)}
      ensures Foreign(t) == Foreign(s)
    {
      NameRoundTrip(id);
      hide IDToDirName, DirNameToID, ValidId;
      var name := IDToDirName(id);
      forall n | n != name ensures n in t <==> n in s {
        assert n in t <==> n in t - {name};
        assert n in s <==> n in s - {name};
      }
    }

    lemma SaveRefines(s: Dirs, t: Dirs, v: View, id: string, e: Entry)
      requires Represents(s, v) && ValidId(id) && e.recipients.Keys <= KEY_TYPES && t == s[IDToDirName(id) := DirOf(e)]
      ensures Represents(t, With(v, id, e))
    {
      hide DirOf, IDToDirName, ValidId, Foreign;
      assert t - {IDToDirName(id)} == s - {IDToDirName(id)};
      ForeignKept(s, t, id);
      forall i | ValidId(i) ensures IDToDirName(i) == IDToDirName(id) <==> i == id { NamesAreDistinct(i, id); }
    }

    /** So does a delete, and a save that failed after it had removed the old directory. */
    lemma DeleteRefines(s: Dirs, t: Dirs, v: View, id: string)
      requires Represents(s, v) && ValidId(id) && t == s - {IDToDirName(id)}
      ensures Represents(t, Without(v, id))
    {
      hide DirOf, IDToDirName, ValidId, Foreign;
      assert t - {IDToDirName(id)} == s - {IDToDirName(id)};
      ForeignKept(s, t, id);
      forall i | ValidId(i) ensures IDToDirName(i) == IDToDirName(id) <==> i == id { NamesAreDistinct(i, id); }
    }

    /** Whatever became of one directory, the other entries are as they were. */
    lemma DoubtRefines(s: Dirs, t: Dirs, v: View, id: string)
      requires Represents(s, v) && ValidId(id) && t - {IDToDirName(id)} == s - {IDToDirName(id)}
      ensures Represents(t, Doubting(v, id))
    {
      hide DirOf, IDToDirName, ValidId, Foreign;
      assert t - {IDToDirName(id)} == s - {IDToDirName(id)};
      ForeignKept(s, t, id);
      forall i | ValidId(i) ensures IDToDirName(i) == IDToDirName(id) <==> i == id { NamesAreDistinct(i, id); }
      forall i | ValidId(i) && i != id
        ensures IDToDirName(i) in t <==> IDToDirName(i) in s
        ensures IDToDirName(i) in t ==> t[IDToDirName(i)] == s[IDToDirName(i)]
      {
        assert IDToDirName(i) in t <==> IDToDirName(i) in t - {IDToDirName(id)};
        assert IDToDirName(i) in s <==> IDToDirName(i) in s - {IDToDirName(id)};
        assert IDToDirName(i) in t ==> (t - {IDToDirName(id)})[IDToDirName(i)] == t[IDToDirName(i)];
        assert IDToDirName(i) in s ==> (s - {IDToDirName(id)})[IDToDirName(i)] == s[IDToDirName(i)];
      }
    }

    /** What a filter returned is in the map, and with working reads all that matches. */
    lemma FilterRefines(dirs: Dirs, v: View, pattern: string, answers: string -> Answers,
                        r: map<string, (Bytes, Attrs)>)
      requires Represents(dirs, v) && forall n :: |answers(n)| == |decryption|
      requires forall id | id in r :: Selected(pattern, id) && Loads(dirs, id, answers, r[id])
      ensures forall id | id in r && id !in v.doubt ::
                id in v.entries && Selected(pattern, id) && r[id] == (v.entries[id].plain, v.entries[id].metadata)
      ensures (forall id | Found(dirs, pattern, id) :: id in r) ==>
                forall id | id in v.entries && Selected(pattern, id) :: id in r
    {
      hide Decrypts, Restored, AllRestored, ValidId, IDToDirName, Selected;
      forall id | id in r && id !in v.doubt
        ensures id in v.entries && r[id] == (v.entries[id].plain, v.entries[id].metadata)
      {
        var n :| n in dirs && Yields(dirs[IDToDirName(id)], answers(n), r[id].0, r[id].1);
        GetRefines(v.entries[id], answers(n), r[id].0, r[id].1);
      }
      forall id | id in v.entries && Selected(pattern, id) ensures Found(dirs, pattern, id) {
        assert HasMetadata(DirOf(v.entries[id]));
      }
    }

    ghost predicate WellFormed(c: Command) {
      match c
      case Save(id, _, _, given) => ValidId(id) && |given| == |encryption|
      case Delete(id) => ValidId(id)
      case Get(id, given) => ValidId(id) && |given| == |decryption|
      case Filter(_, byDirectory) => forall n :: |byDirectory(n)| == |decryption|
    }

    /** What one command may answer, and do to the map. A failed save may lose the entry, but puts in no other. */
    ghost predicate Follows(v: View, c: Command, a: Answer, w: View)
      requires WellFormed(c)
    {
      match c
      case Save(id, plain, metadata, given) =>
        && a.Done?
        && if a.ok then Sealable(given) && w == With(v, id, Sealing(plain, metadata, given))
           else w == v || w == Without(v, id) || (!fs.removeWorks && w == Doubting(v, id))
      case Delete(id) =>
        a.Done? && if a.ok then w == Without(v, id) else w == v || (!fs.removeWorks && w == Doubting(v, id))
      case Get(id, given) =>
        && a.Got? && w == v
        && (a.one.Ok? && id !in v.doubt ==>
              && id in v.entries && Opens(v.entries[id], given)
              && a.one.value == (v.entries[id].plain, v.entries[id].metadata))
        && (a.one == Err(Unavailable) && fs.readsWork && id in v.entries ==> !Opens(v.entries[id], given))
      case Filter(pattern, byDirectory) =>
        && a.Filtered? && w == v
        && (a.all.Ok? ==> a.all.value != map[])
        && (a.all.Ok? ==> forall id | id in a.all.value && id !in v.doubt ::
              && id in v.entries && Selected(pattern, id)
              && a.all.value[id] == (v.entries[id].plain, v.entries[id].metadata))
        && (a.all.Ok? && fs.readsWork ==> forall id | id in v.entries && Selected(pattern, id) :: id in a.all.value)
        && (a.all.Ok? && fs.readsWork ==> forall id, n | id in v.entries && Selected(pattern, id) && Visits(v, n, id) ::
              Opens(v.entries[id], byDirectory(n)))
        && (a.all == Err(NotFound) && fs.readsWork ==> forall id | id in v.entries :: !Selected(pattern, id))
        && (a.all == Err(Unavailable) && fs.readsWork ==> exists id, n ::
              && Selected(pattern, id) && Visits(v, n, id)
              && (id in v.doubt || (id in v.entries && !Opens(v.entries[id], byDirectory(n)))))
    }

    /** A save, a delete and a get do what can be done, when nothing fails. */
    ghost predicate Succeeds(v: View, c: Command, a: Answer)
      requires WellFormed(c)
    {
      match c
      case Save(_, _, _, given) => a == Done(Sealable(given))
      case Delete(_) => a == Done(true)
      case Get(id, given) =>
        && a.Got?
        && (id !in v.doubt ==> (a.one.Ok? <==> id in v.entries && Opens(v.entries[id], given)))
      case Filter(_, _) => a.Filtered? && a.all != Err(NoLock)
    }

    predicate Working() { dependable && fs.removeWorks && fs.readsWork && fs.writesWork }

    lemma SaveFollows(s: Dirs, t: Dirs, v: View, c: Command, ok: bool) returns (w: View)
      requires Represents(s, v) && OnlyKeyTypes() && c.Save? && WellFormed(c)
      requires ok ==> Sealable(c.given) && t == s[IDToDirName(c.id) := DirOf(Sealing(c.plain, c.metadata, c.given))]
      requires t - {IDToDirName(c.id)} == s - {IDToDirName(c.id)}
      requires !ok && fs.removeWorks ==> t == s || t == s - {IDToDirName(c.id)}
      ensures Represents(t, w) && Follows(v, c, Done(ok), w)
    {
      hide Represents, Sealable;
      if ok {
        SaveRefines(s, t, v, c.id, Sealing(c.plain, c.metadata, c.given));
        w := With(v, c.id, Sealing(c.plain, c.metadata, c.given));
      } else if t == s {
        w := v;
      } else if t == s - {IDToDirName(c.id)} {
        DeleteRefines(s, t, v, c.id);
        w := Without(v, c.id);
      } else {
        DoubtRefines(s, t, v, c.id);
        w := Doubting(v, c.id);
      }
    }

    lemma DeleteFollows(s: Dirs, t: Dirs, v: View, c: Command, ok: bool) returns (w: View)
      requires Represents(s, v) && c.Delete? && WellFormed(c)
      requires ok ==> t == s - {IDToDirName(c.id)}
      requires t - {IDToDirName(c.id)} == s - {IDToDirName(c.id)} && (!ok && fs.removeWorks ==> t == s)
      ensures Represents(t, w) && Follows(v, c, Done(ok), w)
    {
      hide Represents, Sealable;
      if ok {
        DeleteRefines(s, t, v, c.id);
        w := Without(v, c.id);
      } else if t == s {
        w := v;
      } else {
        DoubtRefines(s, t, v, c.id);
        w := Doubting(v, c.id);
      }
    }

    /** What the directories yield for an identifier that is not in doubt is the map's. */
    lemma YieldsEntry(dirs: Dirs, v: View, id: string, given: Answers, plain: Bytes, metadata: Attrs)
      requires Represents(dirs, v) && ValidId(id) && id !in v.doubt && |given| == |decryption|
      requires IDToDirName(id) in dirs && Yields(dirs[IDToDirName(id)], given, plain, metadata)
      ensures id in v.entries && Opens(v.entries[id], given)
      ensures plain == v.entries[id].plain && metadata == v.entries[id].metadata
    {
      GetRefines(v.entries[id], given, plain, metadata);
    }

    lemma EntryHasMetadata(dirs: Dirs, v: View, id: string)
      requires Represents(dirs, v) && id in v.entries
      ensures ValidId(id) && IDToDirName(id) in dirs && HasMetadata(dirs[IDToDirName(id)])
    {
    }

    lemma EntryLocked(dirs: Dirs, v: View, id: string, given: Answers)
      requires Represents(dirs, v) && id in v.entries && |given| == |decryption|
      requires Unreadable(dirs[IDToDirName(id)], given)
      ensures !Opens(v.entries[id], given)
    {
      UnreadableIsLocked(v.entries[id], given);
    }

    lemma EntryReadable(dirs: Dirs, v: View, id: string, given: Answers)
      requires Represents(dirs, v) && id in v.entries && |given| == |decryption|
      requires Readable(dirs[IDToDirName(id)], given)
      ensures Opens(v.entries[id], given)
    {
      var plain, metadata :| Yields(dirs[IDToDirName(id)], given, plain, metadata);
      GetRefines(v.entries[id], given, plain, metadata);
    }

    lemma VisitedName(dirs: Dirs, v: View, n: string, id: string)
      requires Represents(dirs, v) && n in dirs && DirNameToID(n) == Some(id)
      ensures Visits(v, n, id)
    {
    }

    /** What a command promises for the directories it finds and leaves, whatever map the former represent. */
    ghost predicate Obeys(s: Dirs, c: Command, a: Answer, t: Dirs)
      requires WellFormed(c)
    {
      forall v | Represents(s, v) :: Steps(s, c, a, t, v)
    }

    ghost predicate Steps(s: Dirs, c: Command, a: Answer, t: Dirs, v: View)
      requires WellFormed(c)
    {
      exists w :: Represents(t, w) && Follows(v, c, a, w) && (Working() ==> Succeeds(v, c, a))
    }

    /** Each operation, whatever fails, takes the map one step; a read changes nothing, a write its own directory. */
    method Perform(c: Command) returns (a: Answer)
      requires OnlyKeyTypes() && WellFormed(c)
      modifies fs
      ensures Obeys(old(fs.dirs), c, a, fs.dirs)
      ensures if c.Save? || c.Delete? then fs.dirs - {IDToDirName(c.id)} == old(fs.dirs) - {IDToDirName(c.id)}
              else fs.dirs == old(fs.dirs)
    {
      hide Represents, Opens, Yields, Unreadable, Readable, Loads, Found, Selected, ValidId, IDToDirName, HasMetadata,
           DirOf, DirNameToID, Sealable;
      ghost var s := fs.dirs;
      match c
      case Save(id, plain, metadata, given) =>
        var ok := Save(id, plain, metadata, given);
        a := Done(ok);
        forall v | Represents(s, v) ensures Steps(s, c, a, fs.dirs, v) {
          var w := SaveFollows(s, fs.dirs, v, c, ok);
        }
      case Delete(id) =>
        var ok := Delete(id);
        a := Done(ok);
        forall v | Represents(s, v) ensures Steps(s, c, a, fs.dirs, v) {
          var w := DeleteFollows(s, fs.dirs, v, c, ok);
        }
      case Get(id, given) =>
        var one := Get(id, given);
        a := Got(one);
        forall v | Represents(s, v) ensures Steps(s, c, a, fs.dirs, v) { GetFollows(s, v, c, one); }
      case Filter(pattern, byDirectory) =>
        var all := Filter(pattern, byDirectory);
        a := Filtered(all);
        forall v | Represents(s, v) ensures Steps(s, c, a, fs.dirs, v) { FilterFollows(s, v, c, all); }
    }

    method Serve(c: Command, ghost v: View) returns (a: Answer, ghost w: View)
      requires Represents(fs.dirs, v) && OnlyKeyTypes() && WellFormed(c)
      modifies fs
      ensures Represents(fs.dirs, w) && Follows(v, c, a, w)
      ensures Working() ==> Succeeds(v, c, a)
    {
      ghost var s := fs.dirs;
      a := Perform(c);
      hide Represents, Follows, Succeeds, WellFormed;
      assert Steps(s, c, a, fs.dirs, v);
      w :| Represents(fs.dirs, w) && Follows(v, c, a, w) && (Working() ==> Succeeds(v, c, a));
    }

    lemma GetFollows(dirs: Dirs, v: View, c: Command, r: Result<(Bytes, Attrs), Failure>)
      requires Represents(dirs, v) && c.Get? && WellFormed(c)
      requires r.Ok? ==> IDToDirName(c.id) in dirs && Yields(dirs[IDToDirName(c.id)], c.given, r.value.0, r.value.1)
      requires r == Err(Unavailable) && fs.readsWork && IDToDirName(c.id) in dirs &&
                HasMetadata(dirs[IDToDirName(c.id)]) ==>
                 Unreadable(dirs[IDToDirName(c.id)], c.given)
      requires r != Err(NotFound) && (dependable ==> r != Err(NoLock))
      ensures Follows(v, c, Got(r), v) && (Working() ==> Succeeds(v, c, Got(r)))
    {
      hide Represents, Opens, Yields, Unreadable, ValidId, IDToDirName, HasMetadata, DirOf;
      if r.Ok? && c.id !in v.doubt { YieldsEntry(dirs, v, c.id, c.given, r.value.0, r.value.1); }
      if c.id in v.entries {
        EntryHasMetadata(dirs, v, c.id);
        if r == Err(Unavailable) && fs.readsWork { EntryLocked(dirs, v, c.id, c.given); }
      }
      assert r.Err? ==> r.error.NotFound? || r.error.NoLock? || r.error.Unavailable?;
    }

    lemma FilterFollows(dirs: Dirs, v: View, c: Command, r: Result<map<string, (Bytes, Attrs)>, Failure>)
      requires Represents(dirs, v) && c.Filter? && WellFormed(c)
      requires r.Ok? ==>
                forall id | id in r.value :: Selected(c.pattern, id) && Loads(dirs, id, c.byDirectory, r.value[id])
      requires r.Ok? ==> r.value != map[]
      requires r.Ok? && fs.readsWork ==> forall id | Found(dirs, c.pattern, id) :: id in r.value
      requires r == Err(NotFound) && fs.readsWork ==> forall id :: !Found(dirs, c.pattern, id)
      requires r == Err(Unavailable) && fs.readsWork ==> exists n, id ::
                 && n in dirs && DirNameToID(n) == Some(id) && Found(dirs, c.pattern, id)
                 && Unreadable(dirs[IDToDirName(id)], c.byDirectory(n))
      requires r.Ok? && fs.readsWork ==>
                 forall n, id | n in dirs && DirNameToID(n) == Some(id) && Found(dirs, c.pattern, id) ::
                   Readable(dirs[IDToDirName(id)], c.byDirectory(n))
      ensures Follows(v, c, Filtered(r), v)
    {
      hide Opens, Yields, Unreadable, Readable, Loads, ValidId, IDToDirName, HasMetadata, DirOf, DirNameToID;
      if r.Ok? {
        FilterRefines(dirs, v, c.pattern, c.byDirectory, r.value);
        if fs.readsWork {
          forall id, n | id in v.entries && Selected(c.pattern, id) && Visits(v, n, id)
            ensures Opens(v.entries[id], c.byDirectory(n))
          {
            EntryHasMetadata(dirs, v, id);
            assert n in dirs && Found(dirs, c.pattern, id);
            EntryReadable(dirs, v, id, c.byDirectory(n));
          }
        }
      } else if fs.readsWork && r.error == NotFound {
        forall id | id in v.entries ensures !Selected(c.pattern, id) {
          EntryHasMetadata(dirs, v, id);
          assert !Found(dirs, c.pattern, id);
        }
      } else if fs.readsWork && r.error == Unavailable {
        var n, id :|
          && n in dirs && DirNameToID(n) == Some(id) && Found(dirs, c.pattern, id)
          && Unreadable(dirs[IDToDirName(id)], c.byDirectory(n));
        VisitedName(dirs, v, n, id);
        if id !in v.doubt { EntryLocked(dirs, v, id, c.byDirectory(n)); }
        assert Selected(c.pattern, id) && Visits(v, n, id) &&
            (id in v.doubt || (id in v.entries && !Opens(v.entries[id], c.byDirectory(n))));
      }
    }

    /**
      In every run of commands, whatever fails, the store answers as the map does, and it succeeds when nothing fails.
    */
    method Run(cs: seq<Command>, ghost v: View) returns (answers: seq<Answer>, ghost views: seq<View>)
      requires Represents(fs.dirs, v) && OnlyKeyTypes() && forall i | 0 <= i < |cs| :: WellFormed(cs[i])
      modifies fs
      ensures |answers| == |cs| && |views| == |cs| + 1 && views[0] == v && Represents(fs.dirs, views[|cs|])
      ensures forall i | 0 <= i < |cs| :: Follows(views[i], cs[i], answers[i], views[i + 1])
      ensures Working() ==> forall i | 0 <= i < |cs| :: Succeeds(views[i], cs[i], answers[i])
    {
      hide Represents, Follows, WellFormed, Succeeds;
      answers, views := [], [v];
      for n := 0 to |cs|
        invariant |answers| == n && |views| == n + 1 && views[0] == v && Represents(fs.dirs, views[n])
        invariant forall i | 0 <= i < n :: Follows(views[i], cs[i], answers[i], views[i + 1])
        invariant Working() ==> forall i | 0 <= i < n :: Succeeds(views[i], cs[i], answers[i])
      {
        var a;
        ghost var w;
        a, w := Serve(cs[n], views[n]);
        answers, views := answers + [a], views + [w];
      }
    }

    /** The same from an empty directory and an empty map. */
    method RunAfresh(cs: seq<Command>) returns (answers: seq<Answer>, ghost views: seq<View>)
      requires fs.dirs == map[] && OnlyKeyTypes() && forall i | 0 <= i < |cs| :: WellFormed(cs[i])
      modifies fs
      ensures |answers| == |cs| && |views| == |cs| + 1 && views[0] == View(map[], {}, {})
      ensures Represents(fs.dirs, views[|cs|])
      ensures forall i | 0 <= i < |cs| :: Follows(views[i], cs[i], answers[i], views[i + 1])
      ensures Working() ==> forall i | 0 <= i < |cs| :: Succeeds(views[i], cs[i], answers[i])
    {
      assert Represents(fs.dirs, View(map[], {}, {}));
      hide Represents, Follows, WellFormed, Succeeds;
      answers, views := Run(cs, View(map[], {}, {}));
    }
  }

  /** The secrets are those of the entry for the given types, each once. */
  predicate SealedTo(secrets: seq<EncryptedSecret>, done: set<string>, e: Entry) {
    && done <= e.recipients.Keys
    && (forall s | s in secrets :: s.keyType in done && s.data == Sealed(e.recipients[s.keyType], e.plain))
    && (forall k | k in done :: exists s :: s in secrets && s.keyType == k)
  }

  /** Whatever the order in which the types were sealed, the directory written is the entry's. */
  lemma {:induction false} WrittenFile(metadata: Attrs, secrets: seq<EncryptedSecret>, f: string)
    requires forall s | s in secrets :: s.keyType in KEY_TYPES
    ensures f in Written(metadata, secrets) <==>
              f == METADATA_FILE || exists s :: s in secrets && f == SECRET_FILE + s.keyType
    ensures f == METADATA_FILE ==> Written(metadata, secrets)[f] == Json(metadata)
    ensures f in Written(metadata, secrets) && f != METADATA_FILE ==>
              exists s :: s in secrets && f == SECRET_FILE + s.keyType && Written(metadata, secrets)[f] == s.data
  {
    if secrets != [] {
      var n := |secrets| - 1;
      WrittenFile(metadata, secrets[..n], f);
      assert secrets == secrets[..n] + [secrets[n]];
      assert (SECRET_FILE + secrets[n].keyType)[0] == 's' && METADATA_FILE[0] == 'm';
    }
  }

  lemma WrittenIsDirOf(secrets: seq<EncryptedSecret>, e: Entry)
    requires SealedTo(secrets, e.recipients.Keys, e) && e.recipients.Keys <= KEY_TYPES
    ensures forall s | s in secrets :: s.keyType in KEY_TYPES
    ensures Written(e.metadata, secrets) == DirOf(e)
  {
    forall f ensures f in Written(e.metadata, secrets) <==> f in DirOf(e)
      ensures f in DirOf(e) ==> Written(e.metadata, secrets)[f] == DirOf(e)[f]
    {
      WrittenFile(e.metadata, secrets, f);
      if f in DirOf(e) && f != METADATA_FILE {
        var k :| k in e.recipients && f == SECRET_FILE + k;
        var s :| s in secrets && s.keyType == k;
        assert f[6..] == k;
      }
    }
  }
}
