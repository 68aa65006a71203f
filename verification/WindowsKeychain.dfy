/**
  The Windows keychain store: secrets over a table of named credentials of bounded size, split in chunks when too
  long.
*/
module WindowsKeychain {
  import opened Metadata
  import opened Wrappers

  const MAX_BLOB_SIZE: nat := 2560

  const CHUNK_COUNT_KEY := "chunk:count"
  const CHUNK_INDEX_KEY := "chunk:index"

  // ----- decimal numbers -----

  predicate Digit(c: char) { '0' <= c <= '9' }

  predicate Digits(s: string) { forall i | 0 <= i < |s| :: Digit(s[i]) }

  function Itoa(n: nat): (s: string)
    ensures |s| >= 1 && Digits(s)
  {
    var c := ('0' as int + n % 10) as char;
    if n < 10 then [c] else Itoa(n / 10) + [c]
  }

  function Number(s: string): nat
    requires Digits(s)
  {
    if s == "" then 0 else Number(s[..|s| - 1]) * 10 + (s[|s| - 1] as int - '0' as int)
  }

  /** strconv.Atoi on what fits an int: an optional sign and at least one digit. */
  function Atoi(s: string): Option<int> {
    var digits := if s != "" && (s[0] == '+' || s[0] == '-') then s[1..] else s;
    if digits == "" || !Digits(digits) then None
    else
      var n: int := Number(digits);
      Some(if s[0] == '-' then -n else n)
  }

  lemma {:induction false} NumberOfItoa(n: nat)
    ensures Number(Itoa(n)) == n
  {
    if n >= 10 {
      NumberOfItoa(n / 10);
      assert Itoa(n)[..|Itoa(n)| - 1] == Itoa(n / 10);
    } else {
      assert Itoa(n)[..0] == "";
    }
  }

  lemma AtoiOfItoa(n: nat)
    ensures Atoi(Itoa(n)) == Some(n)
  {
    NumberOfItoa(n);
    assert Digit(Itoa(n)[0]);
  }

  /** One sign may stand in front, and there must be a digit. */
  lemma AtoiOfSigned(n: nat)
    ensures Atoi("-" + Itoa(n)).Some? && Atoi("-" + Itoa(n)).value + n == 0 && Atoi("+" + Itoa(n)) == Some(n)
    ensures Atoi("") == None && Atoi("-") == None && Atoi("--" + Itoa(n)) == None
  {
    NumberOfItoa(n);
    assert ("-" + Itoa(n))[1..] == Itoa(n) && ("+" + Itoa(n))[1..] == Itoa(n);
    assert ("--" + Itoa(n))[1..][0] == '-';
  }

  // ----- chunks -----

  function Flat(chunks: seq<Bytes>): Bytes {
    if chunks == [] then [] else Flat(chunks[..|chunks| - 1]) + chunks[|chunks| - 1]
  }

  /**
    Splits a blob of any length: the pieces in order give it back, each is non-empty and at most `size` long, all but
    the last exactly.
  */
  method ChunkBlob(blob: Bytes, size: nat) returns (chunks: seq<Bytes>)
    requires size > 0
    ensures Flat(chunks) == blob
    ensures forall i | 0 <= i < |chunks| :: 0 < |chunks[i]| <= size && (i < |chunks| - 1 ==> |chunks[i]| == size)
  {
    chunks := [];
    var rest := blob;
    while |rest| > 0
      invariant Flat(chunks) + rest == blob
      invariant forall i | 0 <= i < |chunks| ::
          0 < |chunks[i]| <= size && (i < |chunks| - 1 || rest != [] ==> |chunks[i]| == size)
      decreases |rest|
    {
      var n := if size < |rest| then size else |rest|;
      ghost var before := chunks;
      chunks := chunks + [rest[..n]];
      assert chunks[..|chunks| - 1] == before && rest == rest[..n] + rest[n..];
      rest := rest[n..];
    }
  }

  // ----- the credential table -----

  datatype Credential = Credential(user: string, blob: Bytes, attrs: Attrs)

  type Table = map<string, Credential>

  datatype Outcome = Fine | Missing | Broken

  class CredentialManager {
    var table: Table
    /** Whether deleting an existing credential, reading one, and writing one always works. */
    const deletesWork: bool
    const readsWork: bool
    const writesWork: bool

    constructor (table: Table, deletesWork: bool, readsWork: bool, writesWork: bool)
      ensures this.table == table
      ensures this.deletesWork == deletesWork && this.readsWork == readsWork && this.writesWork == writesWork
    {
      this.table, this.deletesWork, this.readsWork, this.writesWork := table, deletesWork, readsWork, writesWork;
    }

    /** A blob over the limit is refused. */
    method Write(target: string, cred: Credential) returns (ok: bool)
      modifies this
      ensures table == if ok then old(table)[target := cred] else old(table)
      ensures ok ==> |cred.blob| <= MAX_BLOB_SIZE
      ensures writesWork ==> (ok <==> |cred.blob| <= MAX_BLOB_SIZE)
    {
      ok := *;
      ok := |cred.blob| <= MAX_BLOB_SIZE && (ok || writesWork);
      if ok { table := table[target := cred]; }
    }

    method Delete(target: string) returns (o: Outcome)
      modifies this
      ensures o.Fine? ==> target in old(table) && table == old(table) - {target}
      ensures !o.Fine? ==> table == old(table)
      ensures o.Missing? ==> target !in table
      ensures deletesWork ==> !o.Broken?
    {
      var fails := *;
      if fails && !deletesWork { return Broken; }
      if target !in table { return Missing; }
      table := table - {target};
      o := Fine;
    }

    method Read(target: string) returns (o: Outcome, cred: Credential)
      ensures o.Fine? ==> target in table && cred == table[target]
      ensures o.Missing? ==> target !in table
      ensures readsWork ==> !o.Broken?
    {
      var fails := *;
      cred := Credential("", [], map[]);
      if fails && !readsWork { return Broken, cred; }
      if target !in table { return Missing, cred; }
      return Fine, table[target];
    }
  }

  /** What is known of an identifier: no secret, a secret as its caller saved it, or nothing. */
  datatype Slot = Absent | Present(blob: Bytes, metadata: Attrs) | Unknown

  type View = map<string, Slot>

  /** A use of the store. */
  datatype Command =
    | Save(id: string, blob: Bytes, metadata: Attrs)
    | Delete(id: string)
    | Get(id: string)

  datatype Answer = Done(ok: bool) | Got(one: Result<(Bytes, Attrs), Failure>)

  class Keychain {
    const group: string
    const name: string
    const cm: CredentialManager

    constructor (group: string, name: string, cm: CredentialManager)
      ensures this.group == group && this.name == name && this.cm == cm
    {
      this.group, this.name, this.cm := group, name, cm;
    }

    // ----- target names -----

    /** The three parts after one another, parted by colons. */
    function ItemLabel(id: string): (r: string)
      ensures |r| == |group| + 1 + |name| + 1 + |id|
      ensures r[..|group|] == group && r[|r| - |id|..] == id
      ensures r[|group| + 1..|r| - |id| - 1] == name
      ensures r[|group|] == ':' && r[|r| - |id| - 1] == ':'
    {
      group + ":" + name + ":" + id
    }

    function ChunkLabel(id: string, i: nat): string { ItemLabel(id) + ":chunk:" + Itoa(i) }

    /** An identifier that reads like the name of a chunk of another. */
    ghost predicate NamesChunkOf(y: string, x: string) {
      exists i: nat :: y == x + ":chunk:" + Itoa(i)
    }

    ghost predicate Owns(id: string, target: string) {
      target == ItemLabel(id) || exists i: nat :: target == ChunkLabel(id, i)
    }

    /** A number after the last colon can only be read one way. */
    lemma ColonSplits(a: string, d: string, b: string, e: string)
      requires a + ":" + d == b + ":" + e && Digits(d) && Digits(e)
      ensures a == b && d == e
    {
      var s := a + ":" + d;
      assert s[|a|] == ':' && s[|b|] == ':' by { assert s == b + ":" + e; }
      assert forall i | |a| < i < |s| :: Digit(s[i]) by {
        assert forall i | |a| < i < |s| :: s[i] == d[i - |a| - 1];
      }
      assert forall i | |b| < i < |s| :: Digit(s[i]) by {
        assert s == b + ":" + e && forall i | |b| < i < |s| :: s[i] == e[i - |b| - 1];
      }
      assert a == s[..|a|] && b == s[..|b|] && d == s[|a| + 1..] && e == s[|b| + 1..];
    }

    lemma SuffixCancels(a: string, b: string, t: string)
      requires a + t == b + t
      ensures a == b
    {
      assert a == (a + t)[..|a|] && b == (b + t)[..|b|];
    }

    lemma PrefixCancels(t: string, a: string, b: string)
      requires t + a == t + b
      ensures a == b
    {
      assert a == (t + a)[|t|..] && b == (t + b)[|t|..];
    }

    /** Chunk names determine the identifier and the index. */
    lemma ChunkLabelInjective(x: string, i: nat, y: string, j: nat)
      requires ChunkLabel(x, i) == ChunkLabel(y, j)
      ensures x == y && i == j
    {
      assert ChunkLabel(x, i) == ItemLabel(x) + ":chunk" + ":" + Itoa(i);
      assert ChunkLabel(y, j) == ItemLabel(y) + ":chunk" + ":" + Itoa(j);
      ColonSplits(ItemLabel(x) + ":chunk", Itoa(i), ItemLabel(y) + ":chunk", Itoa(j));
      SuffixCancels(ItemLabel(x), ItemLabel(y), ":chunk");
      PrefixCancels(group + ":" + name + ":", x, y);
      NumberOfItoa(i);
      NumberOfItoa(j);
    }

    lemma ItemLabelInjective(x: string, y: string)
      requires ItemLabel(x) == ItemLabel(y)
      ensures x == y
    {
      PrefixCancels(group + ":" + name + ":", x, y);
    }

    lemma ItemIsChunk(y: string, x: string, i: nat)
      ensures ItemLabel(y) == ChunkLabel(x, i) <==> y == x + ":chunk:" + Itoa(i)
    {
      var head := group + ":" + name + ":";
      assert ChunkLabel(x, i) == head + (x + ":chunk:" + Itoa(i));
      if ItemLabel(y) == ChunkLabel(x, i) { PrefixCancels(head, y, x + ":chunk:" + Itoa(i)); }
    }

    /** Two identifiers share a target name exactly when one reads like a chunk of the other. */
    lemma SharedTargets(x: string, y: string)
      requires x != y
      ensures (exists target :: Owns(x, target) && Owns(y, target)) <==> NamesChunkOf(x, y) || NamesChunkOf(y, x)
    {
      if target :| Owns(x, target) && Owns(y, target) {
        if target == ItemLabel(x) && target == ItemLabel(y) {
          ItemLabelInjective(x, y);
        } else if target == ItemLabel(x) {
          var i: nat :| target == ChunkLabel(y, i);
          ItemIsChunk(x, y, i);
        } else if target == ItemLabel(y) {
          var i: nat :| target == ChunkLabel(x, i);
          ItemIsChunk(y, x, i);
        } else {
          var i: nat :| target == ChunkLabel(x, i);
          var j: nat :| target == ChunkLabel(y, j);
          ChunkLabelInjective(x, i, y, j);
        }
      }
      if NamesChunkOf(x, y) {
        var i: nat :| x == y + ":chunk:" + Itoa(i);
        ItemIsChunk(x, y, i);
        assert Owns(x, ItemLabel(x)) && Owns(y, ItemLabel(x));
      }
      if NamesChunkOf(y, x) {
        var i: nat :| y == x + ":chunk:" + Itoa(i);
        ItemIsChunk(y, x, i);
        assert Owns(x, ItemLabel(y)) && Owns(y, ItemLabel(y));
      }
    }

    // ----- what a table holds for an identifier -----

    /** The targets of the first n chunks. */
    ghost function Chunks(id: string, n: nat): set<string> {
      set i | 0 <= i < n :: ChunkLabel(id, i)
    }

    /** The chunks present are those with an index below k. */
    ghost predicate ChunksUpTo(t: Table, id: string, k: nat) {
      forall i: nat :: ChunkLabel(id, i) in t <==> i < k
    }

    ghost predicate Contiguous(t: Table, id: string) {
      exists k: nat :: ChunksUpTo(t, id, k)
    }

    /** Nothing but the credentials of one identifier differs. */
    ghost predicate OnlyFor(s: Table, t: Table, id: string) {
      forall target | !Owns(id, target) :: (target in s <==> target in t) && (target in s ==> t[target] == s[target])
    }

    /** The value of the first n chunks, if they are all there. */
    ghost function Chunked(t: Table, id: string, n: nat): Option<Bytes> {
      if n == 0 then Some([])
      else if Chunked(t, id, n - 1).None? || ChunkLabel(id, n - 1) !in t then None
      else Some(Chunked(t, id, n - 1).value + t[ChunkLabel(id, n - 1)].blob)
    }

    /** The value an identifier has in a table. */
    ghost function Value(t: Table, id: string): Option<Bytes> {
      if ItemLabel(id) !in t then None
      else
        var c := t[ItemLabel(id)];
        if CHUNK_COUNT_KEY !in c.attrs then Some(c.blob)
        else
          match Atoi(c.attrs[CHUNK_COUNT_KEY])
          case None => None
          case Some(n) => Chunked(t, id, if n < 0 then 0 else n)
    }

    /** The primary credential has a chunk count that is no number. */
    ghost predicate Malformed(t: Table, id: string) {
      && ItemLabel(id) in t && CHUNK_COUNT_KEY in t[ItemLabel(id)].attrs
      && Atoi(t[ItemLabel(id)].attrs[CHUNK_COUNT_KEY]).None?
    }

    ghost predicate HasChunks(t: Table, id: string, chunks: seq<Bytes>) {
      forall i | 0 <= i < |chunks| ::
        ChunkLabel(id, i) in t && t[ChunkLabel(id, i)] == Credential(id, chunks[i], map[CHUNK_INDEX_KEY := Itoa(i)])
    }

    predicate FitsTable(chunks: seq<Bytes>) { forall i | 0 <= i < |chunks| :: 0 < |chunks[i]| <= MAX_BLOB_SIZE }

    /** The chunk count, which the store adds to a primary credential whose value is in chunks. */
    ghost function Count(n: nat): Attrs { map[CHUNK_COUNT_KEY := Itoa(n)] }

    /** The value is in n chunks, each of which fits. */
    ghost predicate InChunks(t: Table, id: string, blob: Bytes, n: nat) {
      exists chunks :: |chunks| == n && Flat(chunks) == blob && FitsTable(chunks) && HasChunks(t, id, chunks)
    }

    /** A table that stores a value in n chunks, or in the primary credential if n is 0. */
    ghost predicate Stores(t: Table, id: string, blob: Bytes, metadata: Attrs, order: seq<string>, n: nat) {
      && ItemLabel(id) in t && t[ItemLabel(id)].user == id && IsOrder(order, metadata.Keys)
      && (n > 0 <==> |blob| > MAX_BLOB_SIZE)
      && t[ItemLabel(id)].attrs == Stored(metadata, if n > 0 then Count(n) else map[], group, name, id, order)
      && if n == 0 then t[ItemLabel(id)].blob == blob
         else t[ItemLabel(id)].blob == [] && InChunks(t, id, blob, n)
    }

    /** No credential is over the limit. */
    ghost predicate Bounded(t: Table) { forall target | target in t :: |t[target].blob| <= MAX_BLOB_SIZE }

    ghost predicate SamePrimary(s: Table, t: Table, id: string) {
      (ItemLabel(id) in s <==> ItemLabel(id) in t) && (ItemLabel(id) in s ==> t[ItemLabel(id)] == s[ItemLabel(id)])
    }

    /** What a failed save leaves behind: the earlier primary credential, and the first n pieces of the new value. */
    ghost predicate LeftBehind(s: Table, t: Table, id: string, blob: Bytes, pieces: seq<Bytes>, n: nat) {
      && SamePrimary(s, t, id)
      && n <= |pieces| && (pieces != [] ==> Flat(pieces) == blob)
      && HasChunks(t, id, pieces[..n]) && ChunksUpTo(t, id, n)
    }

    // ----- the operations -----

    /** Deletes the chunks before the first missing index; if a delete fails, those before the failing one. */
    method DeleteChunks(id: string) returns (ok: bool, ghost n: nat)
      modifies cm
      ensures cm.table == old(cm.table) - Chunks(id, n)
      ensures forall i: nat | i < n :: ChunkLabel(id, i) in old(cm.table)
      ensures ok ==> ChunkLabel(id, n) !in old(cm.table)
      ensures old(Bounded(cm.table)) ==> Bounded(cm.table)
      ensures cm.deletesWork ==> ok
    {
      n := 0;
      var i := 0;
      while true
        invariant i == n && cm.table == old(cm.table) - Chunks(id, n)
        invariant forall i: nat | i < n :: ChunkLabel(id, i) in old(cm.table)
        decreases |cm.table|
      {
        ghost var t := cm.table;
        NotAmongEarlier(id, n);
        var o := cm.Delete(ChunkLabel(id, i));
        if o.Missing? { return true, n; }
        if o.Broken? { return false, n; }
        OneLess(t, ChunkLabel(id, i));
        i, n := i + 1, n + 1;
        assert cm.table == old(cm.table) - Chunks(id, n);
      }
    }

    lemma OneLess(t: Table, target: string)
      requires target in t
      ensures |t - {target}| < |t|
    {
      assert t == (t - {target})[target := t[target]];
    }

    lemma NotAmongEarlier(id: string, n: nat)
      ensures ChunkLabel(id, n) !in Chunks(id, n)
      ensures Chunks(id, n + 1) == Chunks(id, n) + {ChunkLabel(id, n)}
    {
      if i :| 0 <= i < n && ChunkLabel(id, i) == ChunkLabel(id, n) { ChunkLabelInjective(id, i, id, n); }
    }

    lemma ItemIsNoChunk(id: string)
      ensures forall i: nat :: ItemLabel(id) != ChunkLabel(id, i)
    {
    }

    /** The table once the chunks before index n are gone. */
    lemma AfterChunks(s: Table, id: string, n: nat)
      requires forall i: nat | i < n :: ChunkLabel(id, i) in s
      ensures OnlyFor(s, s - Chunks(id, n), id) && SamePrimary(s, s - Chunks(id, n), id)
      ensures forall i: nat :: ChunkLabel(id, i) in s - Chunks(id, n) <==> ChunkLabel(id, i) in s && i >= n
      ensures ChunkLabel(id, n) !in s ==>
                (Contiguous(s, id) <==> forall i: nat :: ChunkLabel(id, i) !in s - Chunks(id, n))
    {
      forall i: nat ensures ChunkLabel(id, i) in Chunks(id, n) <==> i < n {
        if j :| 0 <= j < n && ChunkLabel(id, j) == ChunkLabel(id, i) { ChunkLabelInjective(id, j, id, i); }
      }
      assert forall target | target in Chunks(id, n) :: Owns(id, target);
      ItemIsNoChunk(id);
      var t := s - Chunks(id, n);
      if Contiguous(s, id) {
        var k: nat :| ChunksUpTo(s, id, k);
        assert n > 0 ==> ChunkLabel(id, n - 1) in s;
        assert ChunkLabel(id, n) !in s ==> k == n;
      }
      if forall i: nat :: ChunkLabel(id, i) !in t {
        assert ChunksUpTo(s, id, n);
      }
    }

    /** After a delete no credential of the identifier is left, exactly if its chunks had no gap. */
    method Delete(id: string) returns (ok: bool)
      modifies cm
      ensures OnlyFor(old(cm.table), cm.table, id)
      ensures ok ==> ItemLabel(id) !in cm.table && ChunkLabel(id, 0) !in cm.table
      ensures ok ==> (Contiguous(old(cm.table), id) <==> forall target | target in cm.table :: !Owns(id, target))
      ensures !ok ==> SamePrimary(old(cm.table), cm.table, id)
      ensures cm.deletesWork && Contiguous(old(cm.table), id) ==> Contiguous(cm.table, id)
      ensures cm.deletesWork ==> ok
      ensures old(Bounded(cm.table)) ==> Bounded(cm.table)
    {
      ghost var s := cm.table;
      ghost var n;
      ok, n := DeleteChunks(id);
      AfterChunks(s, id, n);
      if !ok { return; }
      ghost var t := cm.table;
      var o := cm.Delete(ItemLabel(id));
      ok := !o.Broken?;
      ItemIsNoChunk(id);
      assert forall i: nat :: ChunkLabel(id, i) in cm.table <==> ChunkLabel(id, i) in t;
      assert Contiguous(s, id) ==> ChunksUpTo(cm.table, id, 0);
    }

    /** Concatenates the chunks in order. */
    method ReadChunks(id: string, count: int) returns (r: Result<Bytes, Failure>)
      ensures r.Ok? ==> Chunked(cm.table, id, if count < 0 then 0 else count) == Some(r.value)
      ensures r == Err(NotFound) ==> Chunked(cm.table, id, if count < 0 then 0 else count) == None
      ensures r.Err? ==> r == Err(NotFound) || (r == Err(Unavailable) && !cm.readsWork)
    {
      var blob: Bytes := [];
      var i := 0;
      while i < count
        invariant 0 <= i && (i <= count || i == 0) && Chunked(cm.table, id, i) == Some(blob)
      {
        var o, c := cm.Read(ChunkLabel(id, i));
        if o.Missing? {
          ChunkedStops(cm.table, id, i, count);
          return Err(NotFound);
        }
        if o.Broken? { return Err(Unavailable); }
        blob := blob + c.blob;
        i := i + 1;
      }
      r := Ok(blob);
    }

    lemma {:induction false} ChunkedStops(t: Table, id: string, i: nat, n: nat)
      requires i < n && ChunkLabel(id, i) !in t
      ensures Chunked(t, id, n) == None
    {
      if i < n - 1 { ChunkedStops(t, id, i, n - 1); }
    }

    /** Get returns the value and the cleaned attributes; with working reads it fails only if there is no value. */
    method Get(id: string) returns (r: Result<(Bytes, Attrs), Failure>)
      ensures r.Ok? ==> Value(cm.table, id) == Some(r.value.0) && exists keys ::
                          && IsOrder(keys, cm.table[ItemLabel(id)].attrs.Keys - INTERNAL)
                          && r.value.1 == CleanMetadata(cm.table[ItemLabel(id)].attrs, keys)
      ensures r == Err(NotFound) ==> Value(cm.table, id) == None
      ensures cm.readsWork ==> (r.Ok? <==> Value(cm.table, id).Some?)
      ensures cm.readsWork && Value(cm.table, id).None? ==>
                r == Err(if Malformed(cm.table, id) then Unavailable else NotFound)
    {
      var o, gc := cm.Read(ItemLabel(id));
      if o.Missing? { return Err(NotFound); }
      if o.Broken? { return Err(Unavailable); }
      var rawBlob := gc.blob;
      if CHUNK_COUNT_KEY in gc.attrs {
        var count := Atoi(gc.attrs[CHUNK_COUNT_KEY]);
        if count.None? { return Err(Unavailable); }
        var read := ReadChunks(id, count.value);
        if read.Err? { return Err(read.error); }
        rawBlob := read.value;
      }
      var a := new Attributes(gc.attrs);
      a.SafelyCleanMetadata();
      r := Ok((rawBlob, a.m));
    }

    /** The attributes of a primary credential. */
    method Stamp(id: string, metadata: Attrs) returns (attributes: Attrs, ghost order: seq<string>)
      ensures IsOrder(order, metadata.Keys) && attributes == Stored(metadata, map[], group, name, id, order)
    {
      var a := new Attributes(metadata);
      a.SafelySetMetadata(group, name);
      order :| IsOrder(order, metadata.Keys) && a.m == SetMetadata(metadata, group, name, order);
      a.SafelySetID(id);
      attributes := a.m;
      assert attributes == attributes + map[];
    }

    /** Writes the chunks in order, up to the first write that fails. */
    method WriteChunks(id: string, chunks: seq<Bytes>) returns (ok: bool, ghost n: nat)
      modifies cm
      ensures OnlyFor(old(cm.table), cm.table, id)
      ensures n <= |chunks| && (ok ==> n == |chunks|) && HasChunks(cm.table, id, chunks[..n])
      ensures forall i: nat :: ChunkLabel(id, i) in cm.table <==> i < n || ChunkLabel(id, i) in old(cm.table)
      ensures SamePrimary(old(cm.table), cm.table, id) && (old(Bounded(cm.table)) ==> Bounded(cm.table))
      ensures cm.writesWork && FitsTable(chunks) ==> ok
    {
      n := 0;
      ItemIsNoChunk(id);
      for i := 0 to |chunks|
        invariant n == i && OnlyFor(old(cm.table), cm.table, id) && HasChunks(cm.table, id, chunks[..n])
        invariant SamePrimary(old(cm.table), cm.table, id) && (old(Bounded(cm.table)) ==> Bounded(cm.table))
        invariant forall i: nat :: ChunkLabel(id, i) in cm.table <==> i < n || ChunkLabel(id, i) in old(cm.table)
      {
        forall j: nat ensures ChunkLabel(id, j) == ChunkLabel(id, i) ==> j == i {
          if ChunkLabel(id, j) == ChunkLabel(id, i) { ChunkLabelInjective(id, j, id, i); }
        }
        ok := cm.Write(ChunkLabel(id, i), Credential(id, chunks[i], map[CHUNK_INDEX_KEY := Itoa(i)]));
        if !ok { return; }
        n := n + 1;
      }
      ok := true;
    }

    /**
      A successful save stores the value, whatever was there before. However it ends, other targets are as they
      were, and if deletes work the chunks have no gap, a failed write in the middle included.
    */
    method Save(id: string, blob: Bytes, metadata: Attrs)
      returns (ok: bool, ghost order: seq<string>, ghost n: nat, ghost pieces: seq<Bytes>)
      modifies cm
      ensures OnlyFor(old(cm.table), cm.table, id)
      ensures ok ==> Stores(cm.table, id, blob, metadata, order, n)
      ensures ok && Contiguous(old(cm.table), id) ==> ChunksUpTo(cm.table, id, n)
      ensures cm.deletesWork && Contiguous(old(cm.table), id) ==> Contiguous(cm.table, id)
      ensures !ok ==> SamePrimary(old(cm.table), cm.table, id)
      ensures !ok && cm.deletesWork && Contiguous(old(cm.table), id) ==>
                LeftBehind(old(cm.table), cm.table, id, blob, pieces, n)
      ensures cm.deletesWork && cm.writesWork ==> ok
      ensures old(Bounded(cm.table)) ==> Bounded(cm.table)
    {
      hide OnlyFor, Stores, HasChunks, ChunksUpTo, Chunks, Stored, SamePrimary;
      ghost var s := cm.table;
      var attributes;
      attributes, order := Stamp(id, metadata);
      ghost var gone;
      ok, gone := DeleteChunks(id);
      n, pieces := 0, [];
      AfterChunks(s, id, gone);
      if !ok { return; }
      ghost var t := cm.table;
      NoChunks(t, id);
      var primary: Bytes := [];
      if |blob| > MAX_BLOB_SIZE {
        var chunks := ChunkBlob(blob, MAX_BLOB_SIZE);
        ghost var written;
        ok, written := WriteChunks(id, chunks);
        OnlyForBoth(s, t, cm.table, id);
        ChunksWritten(t, cm.table, id, written);
        SamePrimaryBoth(s, t, cm.table, id);
        n, pieces := written, chunks;
        if !ok { return; }
        assert chunks[..|chunks|] == chunks;
        attributes := Counted(attributes, metadata, id, order, |chunks|);
        assert chunks != [];
      } else {
        primary := blob;
      }
      ghost var c := Credential(id, primary, attributes);
      PrimaryWritten(s, cm.table, id, blob, metadata, order, pieces, c);
      ok := cm.Write(ItemLabel(id), Credential(id, primary, attributes));
    }

    method Counted(attributes: Attrs, ghost metadata: Attrs, id: string, ghost order: seq<string>, n: nat)
      returns (a: Attrs)
      requires attributes == Stored(metadata, map[], group, name, id, order)
      ensures a == Stored(metadata, Count(n), group, name, id, order)
    {
      a := attributes[CHUNK_COUNT_KEY := Itoa(n)];
    }

    lemma NoChunks(t: Table, id: string)
      ensures HasChunks(t, id, [])
      ensures (forall i: nat :: ChunkLabel(id, i) !in t) ==> ChunksUpTo(t, id, 0)
    {
    }

    lemma OnlyForBoth(s: Table, t: Table, u: Table, id: string)
      requires OnlyFor(s, t, id) && OnlyFor(t, u, id)
      ensures OnlyFor(s, u, id)
    {
    }

    lemma SamePrimaryBoth(s: Table, t: Table, u: Table, id: string)
      requires SamePrimary(s, t, id) && SamePrimary(t, u, id)
      ensures SamePrimary(s, u, id)
    {
    }

    lemma ChunksWritten(t: Table, u: Table, id: string, n: nat)
      requires forall i: nat :: ChunkLabel(id, i) in u <==> i < n || ChunkLabel(id, i) in t
      ensures (forall i: nat :: ChunkLabel(id, i) !in t) ==> ChunksUpTo(u, id, n)
    {
    }

    /** Writing the primary credential touches no chunk, nor anybody else's credentials. */
    lemma PrimaryAlone(u: Table, id: string, c: Credential)
      ensures var t := u[ItemLabel(id) := c];
              && OnlyFor(u, t, id)
              && forall i: nat :: (ChunkLabel(id, i) in t <==> ChunkLabel(id, i) in u)
                                  && (ChunkLabel(id, i) in u ==> t[ChunkLabel(id, i)] == u[ChunkLabel(id, i)])
    {
      ItemIsNoChunk(id);
      hide ChunkLabel, ItemLabel;
      assert Owns(id, ItemLabel(id));
    }

    lemma PrimaryWritten(s: Table, u: Table, id: string, blob: Bytes, metadata: Attrs, order: seq<string>,
                         pieces: seq<Bytes>, c: Credential)
      requires OnlyFor(s, u, id) && HasChunks(u, id, pieces) && FitsTable(pieces) && IsOrder(order, metadata.Keys) &&
                c.user == id
      requires (pieces != [] <==> |blob| > MAX_BLOB_SIZE) &&
                if pieces != [] then Flat(pieces) == blob && c.blob == [] else c.blob == blob
      requires c.attrs == Stored(metadata, if pieces != [] then Count(|pieces|) else map[], group, name, id, order)
      ensures OnlyFor(s, u[ItemLabel(id) := c], id)
      ensures Stores(u[ItemLabel(id) := c], id, blob, metadata, order, |pieces|)
      ensures ChunksUpTo(u, id, |pieces|) ==> ChunksUpTo(u[ItemLabel(id) := c], id, |pieces|)
    {
      hide Itoa, ChunkLabel, ItemLabel, Stored, Count, IsOrder, Flat, OnlyFor, FitsTable;
      var t := u[ItemLabel(id) := c];
      PrimaryAlone(u, id, c);
      OnlyForBoth(s, u, t, id);
      assert HasChunks(t, id, pieces);
      if pieces != [] { assert InChunks(t, id, blob, |pieces|); }
      hide HasChunks, InChunks;
    }

    // ----- what the operations promise together -----

    lemma {:induction false} ChunkedIsFlat(t: Table, id: string, chunks: seq<Bytes>)
      requires HasChunks(t, id, chunks)
      ensures Chunked(t, id, |chunks|) == Some(Flat(chunks))
    {
      if chunks != [] {
        ChunkedIsFlat(t, id, chunks[..|chunks| - 1]);
      }
    }

    /** A backend's unprefixed key is in the stored attributes only if the backend put it there. */
    lemma CountOnlyIfChunked(metadata: Attrs, extra: Attrs, id: string, order: seq<string>)
      requires IsOrder(order, metadata.Keys) && BackendKeys(extra)
      ensures var a := Stored(metadata, extra, group, name, id, order);
              CHUNK_COUNT_KEY in a <==> CHUNK_COUNT_KEY in extra
    {
      PrefixAllPrefixes(metadata, order);
      assert !HasPrefix(CHUNK_COUNT_KEY);
    }

    /** What a primary credential with stored attributes says of the value. */
    lemma ValueByCount(t: Table, id: string, metadata: Attrs, order: seq<string>, n: nat)
      requires ItemLabel(id) in t && IsOrder(order, metadata.Keys)
      requires t[ItemLabel(id)].attrs == Stored(metadata, if n > 0 then Count(n) else map[], group, name, id, order)
      ensures Value(t, id) == if n > 0 then Chunked(t, id, n) else Some(t[ItemLabel(id)].blob)
    {
      var extra := if n > 0 then Count(n) else map[];
      CountOnlyIfChunked(metadata, extra, id, order);
      AtoiOfItoa(n);
      hide ItemLabel, Itoa, Atoi, Chunked;
    }

    /** What a save stored has the saved value, whatever its length. */
    lemma SavedValue(t: Table, id: string, blob: Bytes, metadata: Attrs, order: seq<string>, n: nat)
      requires Stores(t, id, blob, metadata, order, n)
      ensures Value(t, id) == Some(blob)
    {
      hide Stored, Count, Value, ItemLabel, IsOrder;
      ValueByCount(t, id, metadata, order, n);
      if n > 0 {
        var chunks :| |chunks| == n && Flat(chunks) == blob && HasChunks(t, id, chunks);
        ChunkedIsFlat(t, id, chunks);
      }
    }

    /**
      The metadata of what a save stored comes back, whatever the orders, exactly when no key stands beside its
      prefixed form and a value in chunks has no metadata under the key of the chunk count.
    */
    lemma SavedMetadata(blob: Bytes, metadata: Attrs, id: string, n: nat)
      ensures var extra := if n > 0 then Count(n) else map[];
              AlwaysRestored(metadata, extra, group, name, id)
              <==> NoShadow(metadata) && (n > 0 ==> CHUNK_COUNT_KEY !in metadata)
    {
      MetadataRoundTrip(metadata, if n > 0 then Count(n) else map[], group, name, id);
    }

    /** Two identifiers neither of which reads like a chunk of the other. */
    ghost predicate Apart(x: string, y: string) {
      x != y && !NamesChunkOf(x, y) && !NamesChunkOf(y, x)
    }

    /** What changes only one identifier's credentials leaves alone those of every identifier apart from it. */
    lemma OthersKept(s: Table, t: Table, x: string, y: string)
      requires OnlyFor(s, t, x) && Apart(x, y)
      ensures forall target | Owns(y, target) ::
                (target in s <==> target in t) && (target in s ==> t[target] == s[target])
      ensures Value(t, y) == Value(s, y)
      ensures Contiguous(s, y) <==> Contiguous(t, y)
    {
      SharedTargets(x, y);
      assert Owns(y, ItemLabel(y));
      forall i: nat ensures !Owns(x, ChunkLabel(y, i)) { assert Owns(y, ChunkLabel(y, i)); }
      assert forall k: nat :: ChunksUpTo(s, y, k) <==> ChunksUpTo(t, y, k);
      forall n: nat ensures Chunked(t, y, n) == Chunked(s, y, n) { SameChunked(s, t, y, n); }
    }

    lemma OthersStored(s: Table, t: Table, x: string, y: string, blob: Bytes, metadata: Attrs, order: seq<string>,
                       n: nat)
      requires OnlyFor(s, t, x) && Apart(x, y) && Stores(s, y, blob, metadata, order, n)
      ensures Stores(t, y, blob, metadata, order, n)
    {
      hide Itoa, ChunkLabel, ItemLabel, Stored, Count, IsOrder, Flat, FitsTable;
      OthersKept(s, t, x, y);
      assert Owns(y, ItemLabel(y));
      assert forall i: nat :: Owns(y, ChunkLabel(y, i));
      if n > 0 {
        var chunks :| |chunks| == n && Flat(chunks) == blob && FitsTable(chunks) && HasChunks(s, y, chunks);
        assert HasChunks(t, y, chunks);
      }
    }

    lemma {:induction false} SameChunked(s: Table, t: Table, id: string, n: nat)
      requires forall i: nat :: ChunkLabel(id, i) in s <==> ChunkLabel(id, i) in t
      requires forall i: nat | ChunkLabel(id, i) in s :: s[ChunkLabel(id, i)] == t[ChunkLabel(id, i)]
      ensures Chunked(t, id, n) == Chunked(s, id, n)
    {
      if n > 0 { SameChunked(s, t, id, n - 1); }
    }

    /**
      Identifiers that are not apart do clash: once the first n chunks of `x` are gone, the identifier that reads like
      chunk i has kept its value exactly if i is not among them, or it had no value.
    */
    lemma ClashLosesValue(s: Table, x: string, n: nat, i: nat)
      requires forall j: nat | j < n :: ChunkLabel(x, j) in s
      ensures var y := x + ":chunk:" + Itoa(i);
              Value(s - Chunks(x, n), y) == Value(s, y) <==> n <= i || Value(s, y) == None
    {
      var y, t := x + ":chunk:" + Itoa(i), s - Chunks(x, n);
      assert |x| < |y|;
      ItemIsChunk(y, x, i);
      AfterChunks(s, x, n);
      forall j: nat ensures ChunkLabel(y, j) !in Chunks(x, n) {
        if m :| 0 <= m < n && ChunkLabel(x, m) == ChunkLabel(y, j) {
          ChunkLabelInjective(x, m, y, j);
        }
      }
      forall m: nat ensures Chunked(t, y, m) == Chunked(s, y, m) { SameChunked(s, t, y, m); }
    }

    /**
      A delete that fails at chunk n, with some chunk deleted, leaves a gap exactly if a chunk is left. No later
      delete then gets to that chunk: none starts where the first chunk is missing.
    */
    lemma FailedDeleteStrands(s: Table, id: string, k: nat, n: nat)
      requires ChunksUpTo(s, id, k) && 0 < n <= k
      ensures var t := s - Chunks(id, n);
              && (Contiguous(t, id) <==> n == k)
              && (n < k ==> ChunkLabel(id, n) in t)
              && forall m: nat | forall i: nat | i < m :: ChunkLabel(id, i) in t :: t - Chunks(id, m) == t
    {
      AfterChunks(s, id, n);
      var t := s - Chunks(id, n);
      assert ChunkLabel(id, 0) !in t && (ChunkLabel(id, n) in t <==> n < k);
      if n == k { assert ChunksUpTo(t, id, 0); }
      if Contiguous(t, id) {
        var m: nat :| ChunksUpTo(t, id, m);
        assert ChunkLabel(id, n) in t ==> n < m && 0 < m;
      }
      forall m: nat | forall i: nat | i < m :: ChunkLabel(id, i) in t ensures t - Chunks(id, m) == t {
        assert m == 0;
        assert Chunks(id, 0) == {};
      }
    }

    /**
      A failed save is not atomic. An earlier value in the primary credential survives it; one in m chunks is gone if
      fewer than m pieces were written, and otherwise reads as the first m pieces of the new value.
    */
    lemma FailedSaveTears(s: Table, t: Table, id: string, earlier: Bytes, metadata: Attrs, order: seq<string>, m: nat,
                          blob: Bytes, pieces: seq<Bytes>, n: nat)
      requires Stores(s, id, earlier, metadata, order, m) && LeftBehind(s, t, id, blob, pieces, n)
      ensures Value(t, id) == if m == 0 then Some(earlier) else if m <= n then Some(Flat(pieces[..m])) else None
    {
      hide Stored, Count, Value, ItemLabel, IsOrder, InChunks;
      ValueByCount(t, id, metadata, order, m);
      if 0 < m <= n {
        assert pieces[..n][..m] == pieces[..m];
        assert HasChunks(t, id, pieces[..m]) by {
          assert forall i | 0 <= i < m :: pieces[..n][i] == pieces[..m][i];
        }
        ChunkedIsFlat(t, id, pieces[..m]);
      } else if n < m {
        ChunkedStops(t, id, n, m);
      }
    }

    // ----- refinement of a map, for identifiers apart from one another -----

    ghost predicate Separate(ids: set<string>) { forall x, y | x in ids && y in ids && x != y :: Apart(x, y) }

    ghost predicate Shows(t: Table, id: string, slot: Slot) {
      match slot
      case Absent => ItemLabel(id) !in t
      case Present(blob, metadata) => exists order, n :: Stores(t, id, blob, metadata, order, n)
      case Unknown => true
    }

    /** The credentials of each identifier show what the map says of it. */
    ghost predicate Represents(t: Table, v: View) {
      Separate(v.Keys) && forall id | id in v :: Shows(t, id, v[id])
    }

    ghost predicate Gapless(t: Table, v: View) { forall id | id in v :: Contiguous(t, id) }

    /** What a failed operation leaves of a value: a value in one credential stays, one in chunks is in doubt. */
    function Shaken(slot: Slot): Slot {
      if slot.Present? && |slot.blob| > MAX_BLOB_SIZE then Unknown else slot
    }

    predicate Restorable(blob: Bytes, metadata: Attrs) {
      NoShadow(metadata) && (|blob| > MAX_BLOB_SIZE ==> CHUNK_COUNT_KEY !in metadata)
    }

    ghost predicate Follows(v: View, c: Command, a: Answer, w: View)
      requires c.id in v
    {
      match c
      case Save(id, blob, metadata) => a.Done? && w == v[id := if a.ok then Present(blob, metadata) else Shaken(v[id])]
      case Delete(id) => a.Done? && w == v[id := if a.ok then Absent else Shaken(v[id])]
      case Get(id) =>
        && a.Got? && w == v
        && (a.one.Ok? ==> v[id] != Absent)
        && (a.one.Ok? && v[id].Present? ==>
              && a.one.value.0 == v[id].blob
              && (Restorable(v[id].blob, v[id].metadata) ==> a.one.value.1 == v[id].metadata))
        && (a.one == Err(NotFound) ==> !v[id].Present?)
    }

    /** One identifier's slot changed with its credentials. */
    lemma SlotChanged(s: Table, t: Table, v: View, id: string, slot: Slot)
      requires Represents(s, v) && id in v && OnlyFor(s, t, id) && Shows(t, id, slot)
      ensures Represents(t, v[id := slot])
      ensures Gapless(s, v) && Contiguous(t, id) ==> Gapless(t, v[id := slot])
    {
      hide OnlyFor, Stores, Owns, Apart, Contiguous;
      var w := v[id := slot];
      assert w.Keys == v.Keys;
      forall y | y in v && y != id ensures Shows(t, y, w[y]) && (Contiguous(s, y) ==> Contiguous(t, y)) {
        OthersShown(s, t, id, y, v[y]);
      }
    }

    lemma OthersShown(s: Table, t: Table, x: string, y: string, slot: Slot)
      requires OnlyFor(s, t, x) && Apart(x, y) && Shows(s, y, slot)
      ensures Shows(t, y, slot) && (Contiguous(s, y) ==> Contiguous(t, y))
    {
      OthersKept(s, t, x, y);
      hide OnlyFor, Stores, Apart, Contiguous;
      match slot
      case Absent => assert Owns(y, ItemLabel(y));
      case Present(blob, metadata) =>
        var order, n :| Stores(s, y, blob, metadata, order, n);
        OthersStored(s, t, x, y, blob, metadata, order, n);
      case Unknown =>
    }

    lemma ShakenShown(s: Table, t: Table, id: string, slot: Slot)
      requires Shows(s, id, slot) && SamePrimary(s, t, id)
      ensures Shows(t, id, Shaken(slot))
    {
      hide Stored, IsOrder, HasChunks, Flat;
      if slot.Present? && |slot.blob| <= MAX_BLOB_SIZE {
        var order, n :| Stores(s, id, slot.blob, slot.metadata, order, n);
        assert Stores(t, id, slot.blob, slot.metadata, order, n);
      }
    }

    lemma GetRefines(t: Table, id: string, slot: Slot, value: (Bytes, Attrs), keys: seq<string>)
      requires Shows(t, id, slot) && slot.Present? && Value(t, id) == Some(value.0)
      requires IsOrder(keys, t[ItemLabel(id)].attrs.Keys - INTERNAL)
      requires value.1 == CleanMetadata(t[ItemLabel(id)].attrs, keys)
      ensures value.0 == slot.blob && (Restorable(slot.blob, slot.metadata) ==> value.1 == slot.metadata)
    {
      var order, n :| Stores(t, id, slot.blob, slot.metadata, order, n);
      SavedValue(t, id, slot.blob, slot.metadata, order, n);
      hide Stored, CleanMetadata, Value, InChunks, ItemLabel, IsOrder, NoShadow, Count;
      if Restorable(slot.blob, slot.metadata) {
        CleanedIs(t[ItemLabel(id)].attrs, slot.metadata, n, id, order, keys);
      }
    }

    lemma CleanedIs(attrs: Attrs, metadata: Attrs, n: nat, id: string, order: seq<string>, keys: seq<string>)
      requires attrs == Stored(metadata, if n > 0 then Count(n) else map[], group, name, id, order)
      requires IsOrder(order, metadata.Keys) && IsOrder(keys, attrs.Keys - INTERNAL)
      requires NoShadow(metadata) && (n > 0 ==> CHUNK_COUNT_KEY !in metadata)
      ensures CleanMetadata(attrs, keys) == metadata
    {
      hide Stored, CleanMetadata, Itoa, IsOrder, NoShadow;
      var extra := if n > 0 then Count(n) else map[];
      assert extra.Keys !! metadata.Keys && BackendKeys(extra);
      Restored(metadata, extra, group, name, id, order, keys);
    }

    lemma PresentHasValue(t: Table, id: string, slot: Slot)
      requires Shows(t, id, slot) && slot.Present?
      ensures Value(t, id).Some?
    {
      var order, n :| Stores(t, id, slot.blob, slot.metadata, order, n);
      SavedValue(t, id, slot.blob, slot.metadata, order, n);
    }

    /** What works is enough for the command to succeed, as far as there is something to read. */
    predicate Succeeds(v: View, c: Command, a: Answer)
      requires c.id in v
    {
      match c
      case Save(_, _, _) => cm.deletesWork && cm.writesWork ==> a == Done(true)
      case Delete(_) => cm.deletesWork ==> a == Done(true)
      case Get(id) =>
        && a.Got?
        && (cm.readsWork && v[id].Present? ==> a.one.Ok?)
        && (cm.readsWork && v[id] == Absent ==> a.one == Err(NotFound))
    }

    /**
      Each operation, whatever fails, takes the map one step; if deletes work, no gap ever comes up, and then a
      successful delete leaves no credential behind.
    */
    method Serve(c: Command, ghost v: View) returns (a: Answer, ghost w: View)
      requires Represents(cm.table, v) && c.id in v
      modifies cm
      ensures w.Keys == v.Keys && Represents(cm.table, w) && Follows(v, c, a, w)
      ensures cm.deletesWork && old(Gapless(cm.table, v)) ==> Gapless(cm.table, w)
      ensures old(Bounded(cm.table)) ==> Bounded(cm.table)
      ensures c.Delete? && a == Done(true) && old(Gapless(cm.table, v)) ==>
                forall target | target in cm.table :: !Owns(c.id, target)
      ensures Succeeds(v, c, a)
    {
      hide OnlyFor, Stores, Owns, SamePrimary, Contiguous, Value, Separate;
      ghost var s := cm.table;
      w := v;
      match c
      case Save(id, blob, metadata) =>
        var ok;
        ghost var order, n, pieces;
        ok, order, n, pieces := Save(id, blob, metadata);
        a := Done(ok);
        ghost var slot := if ok then Present(blob, metadata) else Shaken(v[id]);
        if !ok { ShakenShown(s, cm.table, id, v[id]); }
        SlotChanged(s, cm.table, v, id, slot);
        w := v[id := slot];
      case Delete(id) =>
        var ok := Delete(id);
        a := Done(ok);
        ghost var slot := if ok then Absent else Shaken(v[id]);
        if !ok { ShakenShown(s, cm.table, id, v[id]); }
        SlotChanged(s, cm.table, v, id, slot);
        w := v[id := slot];
      case Get(id) =>
        var one := Get(id);
        a := Got(one);
        if v[id].Present? { PresentHasValue(s, id, v[id]); }
        if one.Ok? {
          HasPrimary(s, id);
          ghost var keys :| IsOrder(keys, s[ItemLabel(id)].attrs.Keys - INTERNAL)
                            && one.value.1 == CleanMetadata(s[ItemLabel(id)].attrs, keys);
          if v[id].Present? { GetRefines(s, id, v[id], one.value, keys); }
        }
    }

    lemma HasPrimary(t: Table, id: string)
      requires Value(t, id).Some?
      ensures ItemLabel(id) in t
    {
    }

    /** In every run of commands the store answers as the map does, and if deletes work no chunks ever have a gap. */
    method Run(cs: seq<Command>, ghost v: View) returns (answers: seq<Answer>, ghost views: seq<View>)
      requires Represents(cm.table, v) && forall c | c in cs :: c.id in v
      modifies cm
      ensures |answers| == |cs| && |views| == |cs| + 1 && views[0] == v && Represents(cm.table, views[|cs|])
      ensures forall i | 0 <= i <= |cs| :: views[i].Keys == v.Keys
      ensures forall i | 0 <= i < |cs| :: Follows(views[i], cs[i], answers[i], views[i + 1])
      ensures forall i | 0 <= i < |cs| :: Succeeds(views[i], cs[i], answers[i])
      ensures cm.deletesWork && old(Gapless(cm.table, v)) ==> Gapless(cm.table, views[|cs|])
      ensures old(Bounded(cm.table)) ==> Bounded(cm.table)
    {
      hide Represents, Follows, Succeeds, Gapless;
      answers, views := [], [v];
      for n := 0 to |cs|
        invariant |answers| == n && |views| == n + 1 && views[0] == v && Represents(cm.table, views[n])
        invariant forall i | 0 <= i <= n :: views[i].Keys == v.Keys
        invariant forall i | 0 <= i < n :: Follows(views[i], cs[i], answers[i], views[i + 1])
        invariant forall i | 0 <= i < n :: Succeeds(views[i], cs[i], answers[i])
        invariant cm.deletesWork && old(Gapless(cm.table, v)) ==> Gapless(cm.table, views[n])
        invariant old(Bounded(cm.table)) ==> Bounded(cm.table)
      {
        var a;
        ghost var w;
        assert cs[n] in cs;
        a, w := Serve(cs[n], views[n]);
        answers, views := answers + [a], views + [w];
      }
    }

    /** The same from an empty table, in which no identifier has a secret. */
    method RunAfresh(cs: seq<Command>, ghost ids: set<string>) returns (answers: seq<Answer>, ghost views: seq<View>)
      requires cm.table == map[] && Separate(ids) && forall c | c in cs :: c.id in ids
      modifies cm
      ensures |answers| == |cs| && |views| == |cs| + 1 && views[0] == map id | id in ids :: Absent
      ensures Represents(cm.table, views[|cs|]) && (cm.deletesWork ==> Gapless(cm.table, views[|cs|]))
      ensures Bounded(cm.table)
      ensures forall i | 0 <= i <= |cs| :: views[i].Keys == ids
      ensures forall i | 0 <= i < |cs| :: Follows(views[i], cs[i], answers[i], views[i + 1])
      ensures forall i | 0 <= i < |cs| :: Succeeds(views[i], cs[i], answers[i])
    {
      ghost var v: View := map id | id in ids :: Absent;
      assert v.Keys == ids;
      forall id ensures Contiguous(cm.table, id) { assert ChunksUpTo(cm.table, id, 0); }
      assert Represents(cm.table, v) && Gapless(cm.table, v);
      hide Represents, Follows, Succeeds, Gapless;
      answers, views := Run(cs, v);
    }
  }
}
