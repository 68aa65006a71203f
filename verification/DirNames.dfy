/** Directory names of secrets: the base64 of section 4 of RFC 4648 over an identifier's bytes. */
module DirNames {
  import opened Identifiers
  import opened Wrappers

  type Byte = b: int | 0 <= b < 256
  type Sextet = v: int | 0 <= v < 64

  const LOCK_FILE := ".posixage.lock"

  // ----- the alphabet -----

  function Symbol(v: Sextet): (c: char) {
    if v < 26 then ('A' as int + v) as char
    else if v < 52 then ('a' as int + v - 26) as char
    else if v < 62 then ('0' as int + v - 52) as char
    else if v == 62 then '+' else '/'
  }

  function Unsymbol(c: char): Option<Sextet> {
    if 'A' <= c <= 'Z' then Some(c as int - 'A' as int)
    else if 'a' <= c <= 'z' then Some(c as int - 'a' as int + 26)
    else if '0' <= c <= '9' then Some(c as int - '0' as int + 52)
    else if c == '+' then Some(62)
    else if c == '/' then Some(63)
    else None
  }

  /** The symbols are those of table 1 of RFC 4648: three runs of consecutive characters, and two by themselves. */
  lemma SymbolsInOrder(v: Sextet)
    ensures Symbol(0) == 'A' && Symbol(26) == 'a' && Symbol(52) == '0' && Symbol(62) == '+' && Symbol(63) == '/'
    ensures v !in {25, 51, 61, 62, 63} ==> Symbol(v + 1) as int == Symbol(v) as int + 1
  {
  }

  lemma SymbolPairs(v: Sextet, c: char)
    ensures Unsymbol(Symbol(v)) == Some(v)
    ensures Unsymbol(c).Some? ==> Symbol(Unsymbol(c).value) == c
    ensures Symbol(v) !in "=\r\n"
  {
  }

  // ----- three bytes as four sextets -----

  function Pack(a: Byte, b: Byte, c: Byte): (r: seq<Sextet>)
    ensures |r| == 4
  {
    [a / 4, a % 4 * 16 + b / 16, b % 16 * 4 + c / 64, c % 64]
  }

  function Unpack(v: Sextet, w: Sextet, x: Sextet, y: Sextet): (r: seq<Byte>)
    ensures |r| == 3
  {
    [v * 4 + w / 16, w % 16 * 16 + x / 4, x % 4 * 64 + y]
  }

  lemma Digits(q: nat, r: nat, n: nat)
    requires n in {4, 16, 64} && r < n
    ensures (q * n + r) / n == q && (q * n + r) % n == r
  {
  }

  lemma UnpackUndoesPack(a: Byte, b: Byte, c: Byte)
    ensures var r := Pack(a, b, c); Unpack(r[0], r[1], r[2], r[3]) == [a, b, c]
    ensures c == 0 ==> Pack(a, b, c)[3] == 0
    ensures b == 0 && c == 0 ==> Pack(a, b, c)[2] == 0
  {
    var r := Pack(a, b, c);
    assert r[1] / 16 == a % 4 && r[1] % 16 == b / 16 by { Digits(a % 4, b / 16, 16); }
    assert r[2] / 4 == b % 16 && r[2] % 4 == c / 64 by { Digits(b % 16, c / 64, 4); }
    assert a == a / 4 * 4 + a % 4 && b == b / 16 * 16 + b % 16 && c == c / 64 * 64 + c % 64;
  }

  function OfBytes(a: int, b: int, c: int): int { (a * 256 + b) * 256 + c }

  function OfSextets(v: int, w: int, x: int, y: int): int { ((v * 64 + w) * 64 + x) * 64 + y }

  /** The same 24 bits, cut in six instead of eight. */
  lemma SameBits(a: Byte, b: Byte, c: Byte)
    ensures var r := Pack(a, b, c); OfBytes(a, b, c) == OfSextets(r[0], r[1], r[2], r[3])
  {
    var r := Pack(a, b, c);
    var v: int, w: int, x: int, y: int := r[0], r[1], r[2], r[3];
    assert v == a / 4 && w == a % 4 * 16 + b / 16 && x == b % 16 * 4 + c / 64 && y == c % 64;
    assert a == v * 4 + a % 4 && b == b / 16 * 16 + b % 16 && c == c / 64 * 64 + y;
  }

  lemma PackUndoesUnpack(v: Sextet, w: Sextet, x: Sextet, y: Sextet)
    ensures var r := Unpack(v, w, x, y); Pack(r[0], r[1], r[2]) == [v, w, x, y]
  {
    var r := Unpack(v, w, x, y);
    assert r[0] / 4 == v && r[0] % 4 == w / 16 by { Digits(v, w / 16, 4); }
    assert r[1] / 16 == w % 16 && r[1] % 16 == x / 4 by { Digits(w % 16, x / 4, 16); }
    assert r[2] / 64 == x % 4 && r[2] % 64 == y by { Digits(x % 4, y, 64); }
    assert w == w / 16 * 16 + w % 16 && x == x / 4 * 4 + x % 4;
  }

  /** Packing what a padded group unpacks to clears the bits the padding leaves unused. */
  lemma PaddedUnpack(v: Sextet, w: Sextet, x: Sextet)
    ensures Pack(Unpack(v, w, 0, 0)[0], 0, 0) == [v, w - w % 16, 0, 0]
    ensures Pack(Unpack(v, w, x, 0)[0], Unpack(v, w, x, 0)[1], 0) == [v, w, x - x % 4, 0]
  {
    assert Unpack(v, w - w % 16, 0, 0) == [Unpack(v, w, 0, 0)[0], 0, 0];
    assert Unpack(v, w, x - x % 4, 0) == [Unpack(v, w, x, 0)[0], Unpack(v, w, x, 0)[1], 0];
    hide Pack, Unpack;
    PackUndoesUnpack(v, w - w % 16, 0, 0);
    PackUndoesUnpack(v, w, x - x % 4, 0);
  }

  // ----- encoding -----

  function Symbols(vs: seq<Sextet>): (s: string)
    ensures |s| == |vs| && forall i | 0 <= i < |vs| :: s[i] == Symbol(vs[i])
  {
    seq(|vs|, i requires 0 <= i < |vs| => Symbol(vs[i]))
  }

  function Encode(bs: seq<Byte>): string {
    if |bs| == 0 then ""
    else if |bs| == 1 then Symbols(Pack(bs[0], 0, 0)[..2]) + "=="
    else if |bs| == 2 then Symbols(Pack(bs[0], bs[1], 0)[..3]) + "="
    else Symbols(Pack(bs[0], bs[1], bs[2])) + Encode(bs[3..])
  }

  // ----- decoding -----

  /** Line ends are skipped wherever they stand. */
  function SkipNewlines(s: string): string {
    if s == "" then ""
    else if s[0] == '\r' || s[0] == '\n' then SkipNewlines(s[1..])
    else [s[0]] + SkipNewlines(s[1..])
  }

  /** Groups of four; only the last may be padded, and the bits its padding leaves unused are ignored. */
  function DecodeGroups(s: string): Option<seq<Byte>> {
    if s == "" then Some([])
    else if |s| < 4 || Unsymbol(s[0]).None? || Unsymbol(s[1]).None? then None
    else
      var v, w := Unsymbol(s[0]).value, Unsymbol(s[1]).value;
      if |s| == 4 && s[2] == '=' && s[3] == '=' then Some(Unpack(v, w, 0, 0)[..1])
      else if Unsymbol(s[2]).None? then None
      else
        var x := Unsymbol(s[2]).value;
        if |s| == 4 && s[3] == '=' then Some(Unpack(v, w, x, 0)[..2])
        else if Unsymbol(s[3]).None? then None
        else
          var rest := DecodeGroups(s[4..]);
          if rest.None? then None else Some(Unpack(v, w, x, Unsymbol(s[3]).value) + rest.value)
  }

  function Decode(s: string): Option<seq<Byte>> { DecodeGroups(SkipNewlines(s)) }

  // ----- encoding is undone -----

  lemma {:induction false} EncodeHasNoNewlines(bs: seq<Byte>)
    ensures |Encode(bs)| == (|bs| + 2) / 3 * 4
    ensures forall i | 0 <= i < |Encode(bs)| :: Encode(bs)[i] != '\r' && Encode(bs)[i] != '\n'
  {
    hide Symbol, Pack;
    SymbolsPair();
    if |bs| >= 3 { EncodeHasNoNewlines(bs[3..]); }
  }

  /** Line ends are gone, and everything else is still there in its order. */
  lemma {:induction false} OnlyNewlinesSkipped(s: string, t: string)
    ensures forall i | 0 <= i < |SkipNewlines(s)| :: SkipNewlines(s)[i] != '\r' && SkipNewlines(s)[i] != '\n'
    ensures SkipNewlines(s + t) == SkipNewlines(s) + SkipNewlines(t)
  {
    if s == "" {
      assert s + t == t;
    } else {
      assert (s + t)[1..] == s[1..] + t;
      OnlyNewlinesSkipped(s[1..], t);
    }
  }

  lemma {:induction false} NothingSkipped(s: string)
    requires forall i | 0 <= i < |s| :: s[i] != '\r' && s[i] != '\n'
    ensures SkipNewlines(s) == s
  {
    if s != "" { NothingSkipped(s[1..]); }
  }

  lemma {:induction false} GroupsUndoEncode(bs: seq<Byte>)
    ensures DecodeGroups(Encode(bs)) == Some(bs)
  {
    hide Symbol, Unsymbol, Pack, Unpack;
    SymbolsPair();
    if bs != [] {
      var b := if |bs| > 1 then bs[1] else 0;
      var c := if |bs| > 2 then bs[2] else 0;
      UnpackUndoesPack(bs[0], b, c);
      if |bs| >= 3 {
        GroupsUndoEncode(bs[3..]);
        assert Encode(bs)[4..] == Encode(bs[3..]);
        assert bs == [bs[0], b, c] + bs[3..];
      } else {
        assert bs == [bs[0], b, c][..|bs|];
      }
    }
  }

  /** Decoding undoes encoding, on all byte strings. */
  lemma DecodeUndoesEncode(bs: seq<Byte>)
    ensures Decode(Encode(bs)) == Some(bs)
  {
    EncodeHasNoNewlines(bs);
    NothingSkipped(Encode(bs));
    GroupsUndoEncode(bs);
  }

  // ----- which names decode to the same bytes -----

  /** The name with the bits that the padding of its last group leaves unused set to zero. */
  function Cleared(s: string): string {
    var n := |s|;
    if n < 4 || s[n - 1] != '=' then s
    else if s[n - 2] == '=' then
      if Unsymbol(s[n - 3]).None? then s
      else var v := Unsymbol(s[n - 3]).value; s[..n - 3] + [Symbol(v - v % 16)] + "=="
    else if Unsymbol(s[n - 2]).None? then s
    else var v := Unsymbol(s[n - 2]).value; s[..n - 2] + [Symbol(v - v % 4)] + "="
  }

  lemma ClearedAfterGroup(s: string)
    requires |s| >= 8
    ensures Cleared(s) == s[..4] + Cleared(s[4..])
  {
    hide Symbol, Unsymbol;
    var n, r := |s|, s[4..];
    assert s == s[..4] + r;
    assert r[n - 5] == s[n - 1] && r[n - 6] == s[n - 2] && r[n - 7] == s[n - 3];
    assert s[..n - 3] == s[..4] + r[..n - 7] && s[..n - 2] == s[..4] + r[..n - 6];
  }

  lemma {:induction false} DecodableLength(s: string)
    requires DecodeGroups(s).Some?
    ensures |s| % 4 == 0
  {
    hide Unsymbol, Unpack;
    if |s| > 4 { DecodableLength(s[4..]); }
  }

  /** A decodable name without line ends is the encoding of its bytes but for the unused bits. */
  lemma {:induction false} ClearedIsEncoding(s: string)
    requires DecodeGroups(s).Some?
    ensures Encode(DecodeGroups(s).value) == Cleared(s)
  {
    hide Symbol, Unsymbol, Pack, Unpack;
    if s != "" {
      SymbolsPair();
      UnsymbolPair(s);
      DecodableLength(s);
      var v, w := Unsymbol(s[0]).value, Unsymbol(s[1]).value;
      if |s| == 4 && s[2] == '=' && s[3] == '=' {
        PaddedUnpack(v, w, 0);
        assert s == [s[0], s[1], '=', '='];
      } else {
        var x := Unsymbol(s[2]).value;
        if |s| == 4 && s[3] == '=' {
          PaddedUnpack(v, w, x);
          assert s == [s[0], s[1], s[2], '='];
        } else {
          FullGroupCleared(s);
        }
      }
    }
  }

  lemma {:induction false} FullGroupCleared(s: string)
    requires |s| >= 4 && forall i | 0 <= i < 4 :: Unsymbol(s[i]).Some?
    requires DecodeGroups(s).Some?
    ensures Encode(DecodeGroups(s).value) == Cleared(s)
    decreases s, 0
  {
    hide Symbol, Unsymbol, Pack, Unpack;
    SymbolsPair();
    UnsymbolPair(s);
    DecodableLength(s);
    var v, w, x, y := Unsymbol(s[0]).value, Unsymbol(s[1]).value, Unsymbol(s[2]).value, Unsymbol(s[3]).value;
    PackUndoesUnpack(v, w, x, y);
    var rest, bs := s[4..], DecodeGroups(s).value;
    ClearedIsEncoding(rest);
    assert bs[3..] == DecodeGroups(rest).value;
    assert Encode(bs) == s[..4] + Encode(bs[3..]);
    if rest == "" {
      assert s == s[..4] + rest && s[3] != '=';
    } else {
      ClearedAfterGroup(s);
    }
  }

  /** Names decode to the same bytes exactly if they differ in no more than line ends and unused bits. */
  lemma SameBytesIff(s: string, t: string)
    requires Decode(s).Some? && Decode(t).Some?
    ensures Decode(s) == Decode(t) <==> Cleared(SkipNewlines(s)) == Cleared(SkipNewlines(t))
  {
    ClearedIsEncoding(SkipNewlines(s));
    ClearedIsEncoding(SkipNewlines(t));
    DecodeUndoesEncode(Decode(s).value);
    DecodeUndoesEncode(Decode(t).value);
  }

  lemma SymbolsPair()
    ensures forall v: Sextet :: Unsymbol(Symbol(v)) == Some(v)
    ensures forall v: Sextet :: Symbol(v) !in "=\r\n"
  {
    forall v: Sextet ensures Unsymbol(Symbol(v)) == Some(v) && Symbol(v) !in "=\r\n" { SymbolPairs(v, 'A'); }
  }

  lemma UnsymbolPair(s: string)
    ensures forall i | 0 <= i < |s| && Unsymbol(s[i]).Some? :: Symbol(Unsymbol(s[i]).value) == s[i] && s[i] != '='
  {
    forall i | 0 <= i < |s| && Unsymbol(s[i]).Some? ensures Symbol(Unsymbol(s[i]).value) == s[i] && s[i] != '=' {
      SymbolPairs(0, s[i]);
    }
  }

  // ----- identifiers -----

  predicate Ascii(s: string) { forall i | 0 <= i < |s| :: s[i] < 128 as char }

  /** The bytes of a string; of a string beyond ASCII they are not needed. */
  function ToBytes(s: string): seq<Byte>
    requires Ascii(s)
  {
    seq(|s|, i requires 0 <= i < |s| => s[i] as int)
  }

  function FromBytes(bs: seq<Byte>): string { seq(|bs|, i requires 0 <= i < |bs| => bs[i] as char) }

  lemma {:induction false} CharactersOfComponents(s: string)
    requires forall i | 0 <= i < |SplitSlash(s)| :: AllRunes(SplitSlash(s)[i])
    ensures forall i | 0 <= i < |s| :: IsValidRune(s[i]) || s[i] == '/'
  {
    if s != "" {
      var cs, rest := SplitSlash(s), SplitSlash(s[1..]);
      if s[0] == '/' {
        assert forall i | 0 <= i < |rest| :: rest[i] == cs[i + 1];
      } else {
        assert rest[0] == cs[0][1..] && cs[0][0] == s[0];
        assert forall i | 1 <= i < |rest| :: rest[i] == cs[i];
      }
      CharactersOfComponents(s[1..]);
    }
  }

  lemma ValidIdCharacters(id: string)
    requires ValidId(id)
    ensures id != "" && Ascii(id) && forall i | 0 <= i < |id| :: IsValidRune(id[i]) || id[i] == '/'
  {
    assert ValidComponent(SplitSlash(id)[0]);
    CharactersOfComponents(id);
  }

  function IDToDirName(id: string): string
    requires ValidId(id)
  {
    ValidIdCharacters(id);
    Encode(ToBytes(id))
  }

  function DirNameToID(name: string): Option<string> {
    var bs := Decode(name);
    if bs.Some? && ValidId(FromBytes(bs.value)) then Some(FromBytes(bs.value)) else None
  }

  predicate HasPlusOrSlash(name: string) { exists i | 0 <= i < |name| :: name[i] in "+/" }

  predicate HasHighThird(bs: seq<Byte>) { exists i | 0 <= i < |bs| :: i % 3 == 2 && bs[i] % 64 >= 62 }

  /**
    Of text below 128, the two symbols that are no letter or digit come up exactly for a third byte ending in six bits
    above 61.
  */
  lemma {:induction false} PlusAndSlash(bs: seq<Byte>)
    requires forall i | 0 <= i < |bs| :: bs[i] < 128
    ensures HasPlusOrSlash(Encode(bs)) <==> HasHighThird(bs)
  {
    hide Symbol, Pack;
    if |bs| >= 3 {
      PlusAndSlash(bs[3..]);
      PlusAndSlashOfGroup(bs[0], bs[1], bs[2]);
      EitherPart(Symbols(Pack(bs[0], bs[1], bs[2])), Encode(bs[3..]));
      assert bs[2] % 64 >= 62 ==> HasHighThird(bs);
      assert HasHighThird(bs) <==> bs[2] % 64 >= 62 || HasHighThird(bs[3..]) by {
        assert forall i | 3 <= i < |bs| :: bs[i] == bs[3..][i - 3];
        assert forall i | 0 <= i < |bs[3..]| :: bs[3..][i] == bs[i + 3];
      }
      assert HasPlusOrSlash(Symbols(Pack(bs[0], bs[1], bs[2]))) <==> bs[2] % 64 >= 62 by {
        assert Symbols(Pack(bs[0], bs[1], bs[2]))[3] == Symbol(Pack(bs[0], bs[1], bs[2])[3]);
      }
    } else if |bs| > 0 {
      PlusAndSlashOfGroup(bs[0], if |bs| == 2 then bs[1] else 0, 0);
    }
  }

  lemma EitherPart(s: string, t: string)
    ensures HasPlusOrSlash(s + t) <==> HasPlusOrSlash(s) || HasPlusOrSlash(t)
  {
    assert forall i | 0 <= i < |s| :: (s + t)[i] == s[i];
    assert forall i | 0 <= i < |t| :: (s + t)[i + |s|] == t[i];
  }

  lemma PlusAndSlashOfGroup(a: Byte, b: Byte, c: Byte)
    requires a < 128 && b < 128 && c < 128
    ensures forall i | 0 <= i < 4 :: Symbol(Pack(a, b, c)[i]) in "+/" <==> i == 3 && c % 64 >= 62
  {
  }

  predicate NameCharacter(c: char) { 'A' <= c <= 'Z' || 'a' <= c <= 'z' || '0' <= c <= '9' || c == '=' }

  lemma {:induction false} EncodedCharacters(bs: seq<Byte>)
    ensures forall i | 0 <= i < |Encode(bs)| :: NameCharacter(Encode(bs)[i]) || Encode(bs)[i] in "+/"
  {
    hide Pack;
    if |bs| >= 3 { EncodedCharacters(bs[3..]); }
  }

  /** The name of a valid identifier is one path element of letters, digits and '=', and not the lock file's. */
  lemma NameIsOneElement(id: string)
    requires ValidId(id)
    ensures var name := IDToDirName(id);
            && name != "" && name != LOCK_FILE && |name| == (|id| + 2) / 3 * 4
            && forall i | 0 <= i < |name| :: NameCharacter(name[i])
  {
    ValidIdCharacters(id);
    var bs := ToBytes(id);
    forall i | 0 <= i < |bs| ensures bs[i] < 128 && bs[i] % 64 < 62 { assert IsValidRune(id[i]) || id[i] == '/'; }
    PlusAndSlash(bs);
    assert !HasPlusOrSlash(Encode(bs));
    EncodedCharacters(bs);
    EncodeHasNoNewlines(bs);
    assert LOCK_FILE[0] == '.';
  }

  /** A directory's name gives back the identifier. */
  lemma NameRoundTrip(id: string)
    requires ValidId(id)
    ensures DirNameToID(IDToDirName(id)) == Some(id)
  {
    ValidIdCharacters(id);
    DecodeUndoesEncode(ToBytes(id));
    assert FromBytes(ToBytes(id)) == id;
  }

  /** Distinct identifiers never share a directory. */
  lemma NamesAreDistinct(a: string, b: string)
    requires ValidId(a) && ValidId(b)
    ensures IDToDirName(a) == IDToDirName(b) <==> a == b
  {
    NameRoundTrip(a);
    NameRoundTrip(b);
  }

  /**
    Of all the names that decode to an identifier, its own is the one that leaves no unused bit set and has no line
    end.
  */
  lemma OwnName(name: string, id: string)
    requires DirNameToID(name) == Some(id)
    ensures name == IDToDirName(id) <==> Cleared(name) == name && SkipNewlines(name) == name
  {
    ValidIdCharacters(id);
    var bs := Decode(name).value;
    assert ToBytes(id) == bs;
    ClearedIsEncoding(SkipNewlines(name));
    EncodeHasNoNewlines(bs);
    if name == Encode(bs) { NothingSkipped(name); }
  }

  /** A name that is some identifier's own. */
  predicate IsOwn(name: string) {
    var id := DirNameToID(name);
    id.Some? && IDToDirName(id.value) == name
  }

  /** Names that decode to one identifier are those that differ from its own in line ends and unused bits only. */
  lemma NamesOfOneId(s: string, t: string)
    requires DirNameToID(s).Some? && DirNameToID(t).Some?
    ensures DirNameToID(s) == DirNameToID(t) <==> Cleared(SkipNewlines(s)) == Cleared(SkipNewlines(t))
  {
    SameBytesIff(s, t);
    var a, b := Decode(s).value, Decode(t).value;
    if FromBytes(a) == FromBytes(b) {
      ValidIdCharacters(FromBytes(a));
      assert a == ToBytes(FromBytes(a)) && b == ToBytes(FromBytes(b));
    }
  }
}
