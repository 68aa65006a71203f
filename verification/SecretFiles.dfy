/** Secrets as directories of files: writing one all or nothing under failing calls, and reading one back. */
module SecretFiles {
  import opened DirNames
  import opened Identifiers
  import opened Wrappers

  /** What a file holds: unfinished data, metadata in JSON, or a plaintext that age sealed to recipients. */
  datatype Content = Partial | Json(metadata: Attrs) | Sealed(recipients: seq<string>, plain: Bytes)

  type Dir = map<string, Content>
  type Dirs = map<string, Dir>

  const METADATA_FILE := "metadata.json"
  const SECRET_FILE := "secret"

  const PASSWORD := "pass"
  const AGE := "age"
  const SSH := "ssh"
  const KEY_TYPES: set<string> := {PASSWORD, AGE, SSH}

  datatype EncryptedSecret = EncryptedSecret(keyType: string, data: Content)

  // ----- the file system below a root, any of whose calls may fail -----

  class Root {
    var dirs: Dirs
    /** Whether removing a directory, finding, opening and reading what is there, and writing always works. */
    const removeWorks: bool
    const readsWork: bool
    const writesWork: bool
    /** Files, by directory and name, whose latest content may not have reached the disk. */
    ghost var unsynced: set<(string, string)>

    constructor (dirs: Dirs, removeWorks: bool, readsWork: bool, writesWork: bool)
      ensures this.dirs == dirs && unsynced == {}
      ensures this.removeWorks == removeWorks && this.readsWork == readsWork && this.writesWork == writesWork
    {
      this.dirs, this.removeWorks, this.readsWork, this.writesWork := dirs, removeWorks, readsWork, writesWork;
      unsynced := {};
    }

    method Stat(name: string) returns (ok: bool)
      ensures ok ==> name in dirs
      ensures readsWork ==> (ok <==> name in dirs)
    {
      ok := *;
      ok := name in dirs && (ok || readsWork);
    }

    /** A failed removal may have removed some of the files. */
    method RemoveAll(name: string) returns (ok: bool)
      modifies this
      ensures dirs - {name} == old(dirs) - {name} && unsynced == old(unsynced)
      ensures ok ==> name !in dirs
      ensures removeWorks ==> ok
    {
      var fails, lost := *, *;
      ok := removeWorks || !fails;
      if ok {
        dirs := dirs - {name};
      } else if name in dirs && lost in dirs[name] {
        dirs := dirs[name := dirs[name] - {lost}];
      }
    }

    method Mkdir(name: string) returns (ok: bool)
      modifies this
      ensures ok ==> name !in old(dirs) && dirs == old(dirs)[name := map[]]
      ensures (!ok ==> dirs == old(dirs)) && unsynced == old(unsynced)
      ensures writesWork ==> (ok <==> name !in old(dirs))
    {
      ok := *;
      ok := name !in dirs && (ok || writesWork);
      if ok { dirs := dirs[name := map[]]; }
    }

    method OpenRoot(name: string) returns (ok: bool)
      ensures ok ==> name in dirs
      ensures readsWork ==> (ok <==> name in dirs)
    {
      ok := *;
      ok := name in dirs && (ok || readsWork);
    }

    method Create(name: string, file: string) returns (ok: bool)
      requires name in dirs
      modifies this
      ensures name in dirs && dirs - {name} == old(dirs) - {name}
      ensures dirs[name] == if ok then old(dirs)[name][file := Partial] else old(dirs)[name]
      ensures unsynced == old(unsynced) + {(name, file)}
      ensures writesWork ==> ok
    {
      unsynced := unsynced + {(name, file)};
      ok := *;
      ok := ok || writesWork;
      if ok { dirs := dirs[name := dirs[name][file := Partial]]; }
    }

    /** A failed write leaves the file unfinished. */
    method Write(name: string, file: string, data: Content) returns (ok: bool)
      requires name in dirs
      modifies this
      ensures name in dirs && dirs - {name} == old(dirs) - {name}
      ensures dirs[name] == old(dirs)[name][file := if ok then data else Partial]
      ensures unsynced == old(unsynced) + {(name, file)}
      ensures writesWork ==> ok
    {
      unsynced := unsynced + {(name, file)};
      ok := *;
      ok := ok || writesWork;
      dirs := dirs[name := dirs[name][file := if ok then data else Partial]];
    }

    method Sync(name: string, file: string) returns (ok: bool)
      modifies this`unsynced
      ensures unsynced == if ok then old(unsynced) - {(name, file)} else old(unsynced)
      ensures writesWork ==> ok
    {
      ok := *;
      ok := ok || writesWork;
      if ok { unsynced := unsynced - {(name, file)}; }
    }

    method Rename(name: string, from: string, to: string) returns (ok: bool)
      requires name in dirs && from in dirs[name] && from != to
      modifies this
      ensures name in dirs && dirs - {name} == old(dirs) - {name}
      ensures dirs[name] == if ok then old(dirs)[name][to := old(dirs)[name][from]] - {from} else old(dirs)[name]
      ensures unsynced ==
              if !ok then old(unsynced)
              else if (name, from) in old(unsynced) then old(unsynced) - {(name, from)} + {(name, to)}
              else old(unsynced) - {(name, to)}
      ensures writesWork ==> ok
    {
      ok := *;
      ok := ok || writesWork;
      if ok {
        unsynced := if (name, from) in unsynced then unsynced - {(name, from)} + {(name, to)}
                    else unsynced - {(name, to)};
      }
      if ok { dirs := dirs[name := dirs[name][to := dirs[name][from]] - {from}]; }
    }

    method ReadDir(name: string) returns (ok: bool, files: seq<string>)
      requires name in dirs
      ensures ok ==> forall f :: f in files <==> f in dirs[name]
      ensures readsWork ==> ok
    {
      ok := *;
      ok := ok || readsWork;
      files := [];
      var todo := dirs[name].Keys;
      while todo != {}
        invariant todo <= dirs[name].Keys && forall f :: f in files <==> f in dirs[name] && f !in todo
        decreases todo
      {
        var f :| f in todo;
        files, todo := files + [f], todo - {f};
      }
    }

    method ReadFile(name: string, file: string) returns (ok: bool, data: Content)
      requires name in dirs
      ensures ok ==> file in dirs[name] && data == dirs[name][file]
      ensures readsWork ==> (ok <==> file in dirs[name])
    {
      ok := *;
      ok := file in dirs[name] && (ok || readsWork);
      data := if ok then dirs[name][file] else Partial;
    }

    // ----- writing -----

    /** The file gets its new content in one step, the rename; until then only a temporary file differs. */
    method AtomicWrite(name: string, file: string, data: Content) returns (ok: bool)
      requires name in dirs
      modifies this
      ensures name in dirs && dirs - {name} == old(dirs) - {name}
      ensures var d := if ok then old(dirs)[name][file := data] else old(dirs)[name];
              dirs[name] - {file + ".tmp"} == d - {file + ".tmp"}
      ensures ok ==> file + ".tmp" !in dirs[name] && (name, file) !in unsynced
      ensures unsynced - {(name, file + ".tmp")} <= old(unsynced)
      ensures writesWork ==> ok
    {
      var tmp := file + ".tmp";
      assert |tmp| == |file| + 4;
      TemporaryGone(dirs[name], file, tmp, data);
      ok := Create(name, tmp);
      if !ok { return; }
      ok := Write(name, tmp, data);
      if !ok { return; }
      ok := Sync(name, tmp);
      if !ok { return; }
      ok := Rename(name, tmp, file);
    }

    lemma TemporaryGone(d: Dir, file: string, tmp: string, data: Content)
      requires tmp != file
      ensures (d[tmp := Partial][tmp := data][file := data] - {tmp}) - {tmp} == d[file := data] - {tmp}
      ensures d[tmp := Partial] - {tmp} == d - {tmp} && d[tmp := Partial][tmp := data] - {tmp} == d - {tmp}
      ensures d[tmp := Partial][tmp := Partial] - {tmp} == d - {tmp}
    {
    }

    /**
      Replaces a secret's directory. Whatever fails, other directories are as they were; once the directory has
      been made, it is complete or, if removing works, gone.
    */
    method Persist(id: string, metadata: Attrs, secrets: seq<EncryptedSecret>) returns (ok: bool, ghost made: bool)
      requires ValidId(id)
      requires forall s | s in secrets :: s.keyType in KEY_TYPES
      modifies this
      ensures ok ==> made && dirs == old(dirs)[IDToDirName(id) := Written(metadata, secrets)]
      ensures ok ==> forall f | f in Written(metadata, secrets) :: (IDToDirName(id), f) !in unsynced
      ensures dirs - {IDToDirName(id)} == old(dirs) - {IDToDirName(id)}
      ensures !ok && made && removeWorks ==> IDToDirName(id) !in dirs
      ensures !made && removeWorks ==> dirs == old(dirs) || dirs == old(dirs) - {IDToDirName(id)}
      ensures removeWorks && readsWork && writesWork ==> ok
    {
      made := false;
      var name := IDToDirName(id);
      var present := Stat(name);
      if present {
        ok := RemoveAll(name);
        if !ok { return; }
      }
      ok := Mkdir(name);
      if !ok { return; }
      made := true;
      ok := Fill(name, metadata, secrets);
      if ok {
        OnlyOne(old(dirs), dirs, name);
      } else {
        var _ := RemoveAll(name);
      }
    }

    /** What Persist does under its rollback: writes the metadata, then each secret. */
    method Fill(name: string, metadata: Attrs, secrets: seq<EncryptedSecret>) returns (ok: bool)
      requires name in dirs && dirs[name] == map[]
      requires forall s | s in secrets :: s.keyType in KEY_TYPES
      modifies this
      ensures dirs - {name} == old(dirs) - {name}
      ensures ok ==> name in dirs && dirs[name] == Written(metadata, secrets)
      ensures ok ==> forall f | f in Written(metadata, secrets) :: (name, f) !in unsynced
      ensures readsWork && writesWork ==> ok
    {
      ok := OpenRoot(name);
      if !ok { return; }
      ok := AtomicWrite(name, METADATA_FILE, Json(metadata));
      if !ok { return; }
      assert dirs[name] == Written(metadata, []) by { NoTemporary(dirs[name], METADATA_FILE, map[], Json(metadata)); }
      for i := 0 to |secrets|
        invariant ok && name in dirs && dirs - {name} == old(dirs) - {name}
        invariant dirs[name] == Written(metadata, secrets[..i])
        invariant forall f | f in Written(metadata, secrets[..i]) :: (name, f) !in unsynced
      {
        ghost var before := dirs[name];
        var s := secrets[i];
        assert s in secrets && secrets[..i + 1][..i] == secrets[..i];
        ok := AtomicWrite(name, SECRET_FILE + s.keyType, s.data);
        if !ok { return; }
        WrittenFiles(metadata, secrets[..i]);
        forall f | f in before ensures f != SECRET_FILE + s.keyType + ".tmp" {
          NotTemporary(f, SECRET_FILE + s.keyType);
        }
        NoTemporary(dirs[name], SECRET_FILE + s.keyType, before, s.data);
      }
      assert secrets[..|secrets|] == secrets;
    }

    // ----- reading -----

    /**
      The secret files that could be read, and the metadata. Once the metadata has been read and the files listed,
      nothing more fails it: a secret file that cannot be read is skipped.
    */
    method RestoreSecret(id: string)
      returns (ok: bool, secrets: seq<EncryptedSecret>, metadata: Attrs, ghost listed: bool)
      requires ValidId(id)
      ensures ok <==> listed
      ensures ok ==> IDToDirName(id) in dirs && Restored(dirs[IDToDirName(id)], secrets, metadata)
      ensures ok && readsWork ==> AllRestored(dirs[IDToDirName(id)], secrets)
      ensures readsWork ==> (ok <==> IDToDirName(id) in dirs && HasMetadata(dirs[IDToDirName(id)]))
    {
      secrets, metadata, listed := [], map[], false;
      var name := IDToDirName(id);
      ok := OpenRoot(name);
      if !ok { return; }
      ok, metadata := RestoreMetadata(name);
      if !ok { return; }
      var files;
      ok, files := ReadDir(name);
      if !ok { return; }
      listed := true;
      for i := 0 to |files|
        invariant ok && Restored(dirs[name], secrets, metadata)
        invariant readsWork ==> forall f | f in files[..i] && IsSecretFile(f) ::
                  EncryptedSecret(KeyTypeOf(f), dirs[name][f]) in secrets
      {
        var f := files[i];
        assert f in files && files[..i + 1] == files[..i] + [f];
        if !IsSecretFile(f) { continue; }
        var read, data := ReadFile(name, f);
        if !read { continue; }
        secrets := secrets + [EncryptedSecret(KeyTypeOf(f), data)];
      }
      assert files[..|files|] == files;
    }

    method RestoreMetadata(name: string) returns (ok: bool, metadata: Attrs)
      requires name in dirs
      ensures ok ==> HasMetadata(dirs[name]) && metadata == dirs[name][METADATA_FILE].metadata
      ensures readsWork ==> (ok <==> HasMetadata(dirs[name]))
    {
      metadata := map[];
      var data;
      ok, data := ReadFile(name, METADATA_FILE);
      if ok && data.Json? {
        metadata := data.metadata;
      } else {
        ok := false;
      }
    }
  }

  lemma OnlyOne(s: Dirs, t: Dirs, name: string)
    requires t - {name} == s - {name} && name in t
    ensures t == s[name := t[name]]
  {
    forall n ensures n in t <==> n in s[name := t[name]] ensures n in t ==> t[n] == s[name := t[name]][n] {
      assert n in t - {name} <==> n in s - {name};
      assert n in t - {name} ==> (t - {name})[n] == t[n] && (s - {name})[n] == s[n];
    }
  }

  // ----- the files of a secret -----

  function Written(metadata: Attrs, secrets: seq<EncryptedSecret>): Dir {
    if secrets == [] then map[METADATA_FILE := Json(metadata)]
    else
      var n := |secrets| - 1;
      Written(metadata, secrets[..n])[SECRET_FILE + secrets[n].keyType := secrets[n].data]
  }

  lemma {:induction false} WrittenFiles(metadata: Attrs, secrets: seq<EncryptedSecret>)
    requires forall s | s in secrets :: s.keyType in KEY_TYPES
    ensures forall f | f in Written(metadata, secrets) :: f == METADATA_FILE || f in SecretFileNames()
  {
    if secrets != [] {
      WrittenFiles(metadata, secrets[..|secrets| - 1]);
      assert secrets[|secrets| - 1] in secrets;
    }
  }

  function SecretFileNames(): set<string> { set k | k in KEY_TYPES :: SECRET_FILE + k }

  lemma LastLetter(f: string)
    requires f == METADATA_FILE || f in SecretFileNames()
    ensures f != "" && f[|f| - 1] != 'p'
  {
    if f in SecretFileNames() {
      var k :| k in KEY_TYPES && f == SECRET_FILE + k;
      assert f[|f| - 1] == k[|k| - 1];
    }
  }

  lemma NotTemporary(f: string, file: string)
    requires f == METADATA_FILE || f in SecretFileNames()
    ensures f != file + ".tmp"
  {
    LastLetter(f);
    assert (file + ".tmp")[|file| + 3] == 'p';
  }

  /** No temporary file has the name of a finished one. */
  lemma NoTemporary(dir: Dir, file: string, before: Dir, data: Content)
    requires file == METADATA_FILE || file in SecretFileNames()
    requires forall f | f in before :: f == METADATA_FILE || f in SecretFileNames()
    requires dir - {file + ".tmp"} == before[file := data] - {file + ".tmp"} && file + ".tmp" !in dir
    ensures dir == before[file := data]
  {
    var tmp := file + ".tmp";
    assert tmp[|tmp| - 1] == 'p';
    hide *;
    if tmp in before { LastLetter(tmp); }
    if tmp == file { LastLetter(file); }
    SameWithout(dir, before[file := data], tmp);
  }

  lemma SameWithout(d: Dir, e: Dir, f: string)
    requires d - {f} == e - {f} && f !in d && f !in e
    ensures d == e
  {
    assert d == d - {f} && e == e - {f};
  }

  predicate IsSecretFile(f: string) { SECRET_FILE <= f }

  /** A file name with every occurrence of "secret" dropped. */
  function KeyTypeOf(f: string): string {
    if f == "" then ""
    else if SECRET_FILE <= f then KeyTypeOf(f[6..])
    else [f[0]] + KeyTypeOf(f[1..])
  }

  /** Every "secret" at the front of a name goes, not the first only. */
  lemma FrontDropped(f: string)
    ensures KeyTypeOf(SECRET_FILE + f) == KeyTypeOf(f)
  {
    assert (SECRET_FILE + f)[6..] == f;
  }

  lemma KeyTypesReadBack(k: string)
    requires k in KEY_TYPES
    ensures KeyTypeOf(SECRET_FILE + k) == k && IsSecretFile(SECRET_FILE + k)
  {
    assert (SECRET_FILE + k)[6..] == k;
    assert k[0] != 's' || k[1] != 'e';
    assert k[1..][0] != 's' || k[1..] == "sh";
    assert k[1..][1..] == [k[2]] || k[1..][1..] == [k[2], k[3]];
    assert KeyTypeOf(k) == k;
  }

  predicate HasMetadata(dir: Dir) { METADATA_FILE in dir && dir[METADATA_FILE].Json? }

  /** The metadata of the directory, and secrets each read from one of its files. */
  ghost predicate Restored(dir: Dir, secrets: seq<EncryptedSecret>, metadata: Attrs) {
    && HasMetadata(dir) && metadata == dir[METADATA_FILE].metadata
    && forall s | s in secrets :: exists f :: f in dir && IsSecretFile(f) && s == EncryptedSecret(KeyTypeOf(f), dir[f])
  }

  ghost predicate AllRestored(dir: Dir, secrets: seq<EncryptedSecret>) {
    forall f | f in dir && IsSecretFile(f) :: EncryptedSecret(KeyTypeOf(f), dir[f]) in secrets
  }
}
