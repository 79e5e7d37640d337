/** The best-effort reader of the node's `mempool.dat`. */
module Dat {
  import opened Types
  import opened Bytes

  const VERSION_NO_XOR: nat := 1
  const VERSION_XOR: nat := 2
  const KEY_LEN: nat := 8

  /** The body of a transaction. What it hashes to is a parameter of the reader. */
  type Body = seq<byte>
  type Hash = Body -> Txid

  datatype MempoolDat = MempoolDat(txs: map<Txid, Body>, declared: nat, truncatedAt: Option<nat>)

  datatype ReadError =
    | TooShort(len: nat)
    | UnsupportedVersion(version: nat)
    | BadXorKeyLen(keyLen: nat)

  datatype ReadResult = Read(dat: MempoolDat) | Error(error: ReadError)

  // ---------------------------------------------------------------- obfuscation

  /** `buf` masked with the key, as if its first byte stood at file offset `offset`. */
  ghost function Xored(buf: seq<byte>, key: seq<byte>, offset: nat): (r: seq<byte>)
    requires |key| == KEY_LEN
    ensures |r| == |buf|
    ensures forall i :: 0 <= i < |buf| ==> r[i] == Xor(buf[i], key[(offset + i) % KEY_LEN])
  {
    seq(|buf|, i requires 0 <= i < |buf| => Xor(buf[i], key[(offset + i) % KEY_LEN]))
  }

  /** Masking by absolute offset is its own inverse. */
  lemma XoredTwice(buf: seq<byte>, key: seq<byte>, offset: nat)
    requires |key| == KEY_LEN
    ensures Xored(Xored(buf, key, offset), key, offset) == buf
  {
    forall i | 0 <= i < |buf| ensures Xored(Xored(buf, key, offset), key, offset)[i] == buf[i] {
      XorTwice(buf[i], key[(offset + i) % KEY_LEN]);
    }
  }

  /** A cut masked region is the mask of the cut region. */
  lemma XoredPrefix(buf: seq<byte>, key: seq<byte>, offset: nat, n: nat)
    requires |key| == KEY_LEN && n <= |buf|
    ensures Xored(buf, key, offset)[..n] == Xored(buf[..n], key, offset)
  {
  }

  lemma XoredByZero(buf: seq<byte>, key: seq<byte>, offset: nat)
    requires |key| == KEY_LEN && forall i :: 0 <= i < KEY_LEN ==> key[i] == 0
    ensures Xored(buf, key, offset) == buf
  {
    forall i | 0 <= i < |buf| ensures Xored(buf, key, offset)[i] == buf[i] {
      XorTwice(buf[i], 0);
    }
  }

  /** De-obfuscates the buffer from `from` on; `startOffset` is the file position of the first byte touched. */
  method ApplyXor(buf: array<byte>, from: nat, key: seq<byte>, startOffset: nat)
    requires from <= buf.Length && |key| == KEY_LEN
    modifies buf
    ensures buf[..] == old(buf[..from]) + Xored(old(buf[from..]), key, startOffset)
  {
    hide Xored, Xor;
    ghost var was := buf[..];
    var n := buf.Length - from;
    for i := 0 to n
      invariant forall j :: 0 <= j < from || from + i <= j < buf.Length ==> buf[j] == was[j]
      invariant forall j :: from <= j < from + i ==>
                  buf[j] == Xor(was[j], key[(startOffset + (j - from)) % KEY_LEN])
    {
      buf[from + i] := Xor(buf[from + i], key[(startOffset + i) % KEY_LEN]);
    }
    MaskedTail(was, buf[..], from, key, startOffset);
  }

  lemma MaskedTail(was: seq<byte>, now: seq<byte>, from: nat, key: seq<byte>, offset: nat)
    requires |key| == KEY_LEN && from <= |was| == |now|
    requires forall j :: 0 <= j < from ==> now[j] == was[j]
    requires forall j :: from <= j < |was| ==> now[j] == Xor(was[j], key[(offset + (j - from)) % KEY_LEN])
    ensures now == was[..from] + Xored(was[from..], key, offset)
  {
    hide Xor;
  }

  // ---------------------------------------------------------------- entries

  // A stand-in for the consensus encoding of transactions, which is library code: a version byte, the length of the
  // body, the body. Like the real encoding it delimits itself.
  const TX_VERSION: byte := 2
  const TX_HEADER_LEN: nat := 5
  const METADATA_LEN: nat := 16

  /** A body with the entry time and the fee delta that follow it. */
  type Entry = (Body, seq<byte>)

  ghost predicate Encodable(e: Entry) {
    |e.0| < 0x1_0000_0000 && |e.1| == METADATA_LEN
  }

  ghost function EncodeTx(b: Body): seq<byte> {
    [TX_VERSION] + ToLe(|b|, 4) + b
  }

  ghost function EncodeEntry(e: Entry): seq<byte> {
    EncodeTx(e.0) + e.1
  }

  ghost function EncodeEntries(entries: seq<Entry>): seq<byte> {
    if entries == [] then [] else EncodeEntry(entries[0]) + EncodeEntries(entries[1..])
  }

  function DecodeTx(buf: seq<byte>): Option<(Body, seq<byte>)> {
    if |buf| < TX_HEADER_LEN || buf[0] != TX_VERSION then None else
    var len := FromLe(buf[1..TX_HEADER_LEN]);
    if |buf| < TX_HEADER_LEN + len then None
    else Some((buf[TX_HEADER_LEN..TX_HEADER_LEN + len], buf[TX_HEADER_LEN + len..]))
  }

  /** A tx and its metadata, which is skipped but must be there. */
  ghost function DecodeEntry(buf: seq<byte>): Option<(Body, seq<byte>)> {
    match DecodeTx(buf)
    case None => None
    case Some((b, rest)) => if |rest| < METADATA_LEN then None else Some((b, rest[METADATA_LEN..]))
  }

  /** An encoded tx is read back, whatever follows it. */
  lemma TxRoundTrip(b: Body, rest: seq<byte>)
    requires |b| < 0x1_0000_0000
    ensures DecodeTx(EncodeTx(b) + rest) == Some((b, rest))
  {
    var buf := EncodeTx(b) + rest;
    Pow256Four();
    LeRoundTrip(|b|, 4);
    assert buf[1..TX_HEADER_LEN] == ToLe(|b|, 4);
    assert buf[TX_HEADER_LEN..TX_HEADER_LEN + |b|] == b;
    assert buf[TX_HEADER_LEN + |b|..] == rest;
  }

  /** No proper prefix of an encoded tx decodes. */
  lemma TxCut(b: Body, n: nat)
    requires |b| < 0x1_0000_0000 && n < |EncodeTx(b)|
    ensures DecodeTx(EncodeTx(b)[..n]) == None
  {
    var whole, buf := EncodeTx(b), EncodeTx(b)[..n];
    if n >= TX_HEADER_LEN {
      Pow256Four();
      LeRoundTrip(|b|, 4);
      assert whole[1..TX_HEADER_LEN] == ToLe(|b|, 4);
      assert buf[1..TX_HEADER_LEN] == whole[1..TX_HEADER_LEN];
    }
  }

  lemma EntryRoundTrip(e: Entry, rest: seq<byte>)
    requires Encodable(e)
    ensures DecodeEntry(EncodeEntry(e) + rest) == Some((e.0, rest))
  {
    hide EncodeTx, DecodeTx;
    assert EncodeEntry(e) + rest == EncodeTx(e.0) + (e.1 + rest);
    TxRoundTrip(e.0, e.1 + rest);
    assert (e.1 + rest)[METADATA_LEN..] == rest;
  }

  lemma EntryCut(e: Entry, n: nat)
    requires Encodable(e) && n < |EncodeEntry(e)|
    ensures DecodeEntry(EncodeEntry(e)[..n]) == None
  {
    hide EncodeTx, DecodeTx;
    var buf := EncodeEntry(e)[..n];
    if n < |EncodeTx(e.0)| {
      TxCut(e.0, n);
      assert buf == EncodeTx(e.0)[..n];
    } else {
      var rest := e.1[..n - |EncodeTx(e.0)|];
      assert buf == EncodeTx(e.0) + rest;
      TxRoundTrip(e.0, rest);
    }
  }

  /** The entries that decode from the front of the buffer, at most `count` of them. */
  ghost function Decoded(buf: seq<byte>, count: nat): seq<Body>
    decreases count
  {
    if count == 0 then [] else
    match DecodeEntry(buf)
    case None => []
    case Some((b, rest)) => [b] + Decoded(rest, count - 1)
  }

  /** How many entries lie wholly within the first `n` bytes. */
  ghost function WholeEntries(entries: seq<Entry>, n: nat): nat {
    if entries == [] || n < |EncodeEntry(entries[0])| then 0
    else 1 + WholeEntries(entries[1..], n - |EncodeEntry(entries[0])|)
  }

  lemma {:induction false} WholeBounds(entries: seq<Entry>, n: nat)
    ensures WholeEntries(entries, n) <= |entries|
    ensures WholeEntries(entries, n) == |entries| <==> |EncodeEntries(entries)| <= n
  {
    if entries != [] && n >= |EncodeEntry(entries[0])| {
      WholeBounds(entries[1..], n - |EncodeEntry(entries[0])|);
    }
  }

  ghost function Bodies(entries: seq<Entry>): (r: seq<Body>)
    ensures |r| == |entries|
  {
    seq(|entries|, i requires 0 <= i < |entries| => entries[i].0)
  }

  ghost predicate AllEncodable(entries: seq<Entry>) {
    forall e :: e in entries ==> Encodable(e)
  }

  /** However the bytes are cut, decoding yields exactly the entries that lie wholly within the cut. */
  lemma {:induction false} DecodedCut(entries: seq<Entry>, tail: seq<byte>, n: nat, count: nat)
    requires AllEncodable(entries) && n <= |EncodeEntries(entries) + tail|
    requires count <= |entries| || n <= |EncodeEntries(entries)|
    ensures WholeEntries(entries, n) <= |entries|
    ensures Decoded((EncodeEntries(entries) + tail)[..n], count) ==
            Bodies(entries)[..Min(count, WholeEntries(entries, n))]
    decreases |entries|
  {
    hide EncodeEntry, DecodeEntry, Encodable;
    WholeBounds(entries, n);
    var buf := (EncodeEntries(entries) + tail)[..n];
    if count == 0 {
    } else if entries == [] {
      assert buf == [];
      NothingDecodes();
    } else {
      var first, rest := EncodeEntry(entries[0]), EncodeEntries(entries[1..]);
      assert EncodeEntries(entries) + tail == first + (rest + tail);
      if n < |first| {
        assert buf == first[..n];
        EntryCut(entries[0], n);
      } else {
        assert buf == first + (rest + tail)[..n - |first|];
        EntryRoundTrip(entries[0], (rest + tail)[..n - |first|]);
        DecodedCut(entries[1..], tail, n - |first|, count - 1);
        assert Bodies(entries) == [entries[0].0] + Bodies(entries[1..]);
      }
    }
  }

  lemma NothingDecodes()
    ensures DecodeEntry([]) == None
  {
  }

  // ---------------------------------------------------------------- reading

  ghost function MapOf(bodies: seq<Body>, hash: Hash): map<Txid, Body> {
    if bodies == [] then map[] else
    var last := bodies[|bodies| - 1];
    MapOf(bodies[..|bodies| - 1], hash)[hash(last) := last]
  }

  /** Bodies with distinct txids are all there, and nothing else is. */
  lemma {:induction false} MapOfDistinct(bodies: seq<Body>, hash: Hash)
    requires forall i, j :: 0 <= i < j < |bodies| ==> hash(bodies[i]) != hash(bodies[j])
    ensures MapOf(bodies, hash).Keys == set b | b in bodies :: hash(b)
    ensures forall b :: b in bodies ==> hash(b) in MapOf(bodies, hash) && MapOf(bodies, hash)[hash(b)] == b
    ensures |MapOf(bodies, hash)| == |bodies|
  {
    if bodies != [] {
      var front, last := bodies[..|bodies| - 1], bodies[|bodies| - 1];
      assert bodies == front + [last];
      MapOfDistinct(front, hash);
      assert hash(last) !in MapOf(front, hash);
    }
  }

  ghost function ReadBody(file: seq<byte>, start: nat, key: seq<byte>, hash: Hash): ReadResult
    requires |key| == KEY_LEN && start <= |file|
  {
    if |file| < start + 8 then Error(TooShort(|file|)) else
    var body := Xored(file[start..], key, start);
    var declared := FromLe(body[..8]);
    var bodies := Decoded(body[8..], declared);
    Read(MempoolDat(MapOf(bodies, hash), declared, if |bodies| < declared then Some(|bodies|) else None))
  }

  const NO_KEY: seq<byte> := [0, 0, 0, 0, 0, 0, 0, 0]

  /** What reading a file yields. */
  ghost function ReadOf(file: seq<byte>, hash: Hash): ReadResult {
    if |file| < 8 then Error(TooShort(|file|)) else
    var version := FromLe(file[..8]);
    if version == VERSION_NO_XOR then ReadBody(file, 8, NO_KEY, hash)
    else if version == VERSION_XOR then
      if |file| < 9 then Error(TooShort(|file|))
      else if file[8] != KEY_LEN then Error(BadXorKeyLen(file[8]))
      else if |file| < 17 then Error(TooShort(|file|))
      else ReadBody(file, 17, file[9..17], hash)
    else Error(UnsupportedVersion(version))
  }

  method ReadMempoolDat(file: seq<byte>, hash: Hash) returns (r: ReadResult)
    ensures r == ReadOf(file, hash)
  {
    hide Xored, Decoded, MapOf, FromLe;
    if |file| < 8 {
      return Error(TooShort(|file|));
    }
    var version := FromLe(file[..8]);
    var start, key := 8, NO_KEY;
    if version == VERSION_XOR {
      if |file| < 9 {
        return Error(TooShort(|file|));
      }
      if file[8] != KEY_LEN {
        return Error(BadXorKeyLen(file[8]));
      }
      if |file| < 17 {
        return Error(TooShort(|file|));
      }
      start, key := 17, file[9..17];
    } else if version != VERSION_NO_XOR {
      return Error(UnsupportedVersion(version));
    }
    if |file| < start + 8 {
      return Error(TooShort(|file|));
    }
    var body := Unmasked(file, start, key);
    var declared := FromLe(body[..8]);
    var txs, truncatedAt := DecodeEntries(body[8..], declared, hash);
    return Read(MempoolDat(txs, declared, truncatedAt));
  }

  /** The bytes from `start` on, de-obfuscated in a buffer. */
  method Unmasked(file: seq<byte>, start: nat, key: seq<byte>) returns (body: seq<byte>)
    requires start <= |file| && |key| == KEY_LEN
    ensures body == Xored(file[start..], key, start)
  {
    hide Xored;
    var buf := new byte[|file|](i requires 0 <= i < |file| => file[i]);
    assert buf[..] == file;
    assert buf[..start] == file[..start] && buf[start..] == file[start..];
    ApplyXor(buf, start, key, start);
    XoredLength(file[start..], key, start);
    body := buf[start..];
    assert body == buf[..][start..];
  }

  lemma XoredLength(buf: seq<byte>, key: seq<byte>, offset: nat)
    requires |key| == KEY_LEN
    ensures |Xored(buf, key, offset)| == |buf|
  {
  }

  /** Walks the cursor over the entries until the count is reached or one does not decode. */
  method DecodeEntries(buf: seq<byte>, declared: nat, hash: Hash)
    returns (txs: map<Txid, Body>, truncatedAt: Option<nat>)
    ensures txs == MapOf(Decoded(buf, declared), hash)
    ensures truncatedAt == if |Decoded(buf, declared)| < declared then Some(|Decoded(buf, declared)|) else None
  {
    hide DecodeTx, Decoded, MapOf;
    var cursor := buf;
    var index := 0;
    ghost var bodies: seq<Body> := [];
    txs, truncatedAt := map[], None;
    NoBodies(hash);
    while index < declared
      invariant |bodies| == index <= declared && txs == MapOf(bodies, hash)
      invariant Decoded(buf, declared) == bodies + Decoded(cursor, declared - index)
    {
      DecodedStep(cursor, declared - index);
      var decoded := DecodeTx(cursor);
      if decoded.None? || |decoded.value.1| < METADATA_LEN {
        assert bodies + [] == bodies;
        return txs, Some(index);
      }
      var tx := decoded.value.0;
      MapOfMore(bodies, tx, hash);
      cursor := decoded.value.1[METADATA_LEN..];
      Regroup(bodies, tx, Decoded(cursor, declared - index - 1));
      txs := txs[hash(tx) := tx];
      bodies := bodies + [tx];
      index := index + 1;
    }
    DecodedNone(cursor);
    assert bodies + [] == bodies;
  }

  lemma Regroup(front: seq<Body>, b: Body, rest: seq<Body>)
    ensures front + ([b] + rest) == (front + [b]) + rest
  {
  }

  lemma NoBodies(hash: Hash)
    ensures MapOf([], hash) == map[]
  {
  }

  lemma MapOfMore(bodies: seq<Body>, tx: Body, hash: Hash)
    ensures MapOf(bodies + [tx], hash) == MapOf(bodies, hash)[hash(tx) := tx]
  {
    assert (bodies + [tx])[..|bodies|] == bodies;
  }

  lemma DecodedNone(buf: seq<byte>)
    ensures Decoded(buf, 0) == []
  {
  }

  lemma DecodedStep(buf: seq<byte>, count: nat)
    requires count > 0
    ensures
      var d := DecodeTx(buf);
      Decoded(buf, count) ==
      if d.None? || |d.value.1| < METADATA_LEN then []
      else [d.value.0] + Decoded(d.value.1[METADATA_LEN..], count - 1)
  {
    hide DecodeTx;
  }

  // ---------------------------------------------------------------- the dump

  ghost function Header(key: Option<seq<byte>>): seq<byte> {
    match key
    case None => ToLe(VERSION_NO_XOR, 8)
    case Some(k) => ToLe(VERSION_XOR, 8) + [KEY_LEN] + k
  }

  /** A dump as the node writes it: header, count, entries, and whatever follows, masked when there is a key. */
  ghost function Dump(key: Option<seq<byte>>, declared: nat, entries: seq<Entry>, tail: seq<byte>): seq<byte>
    requires key.Some? ==> |key.value| == KEY_LEN
  {
    var body := ToLe(declared, 8) + (EncodeEntries(entries) + tail);
    Header(key) + match key { case None => body case Some(k) => Xored(body, k, |Header(key)|) }
  }

  /** A dump cut anywhere after its count reads as the entries wholly inside the cut, at most as many as declared. */
  lemma CutDumpReads(key: Option<seq<byte>>, declared: nat, entries: seq<Entry>, tail: seq<byte>, n: nat, hash: Hash)
    requires key.Some? ==> |key.value| == KEY_LEN
    requires AllEncodable(entries) && declared < Pow256(8)
    requires |Header(key)| + 8 <= n <= |Dump(key, declared, entries, tail)|
    requires declared <= |entries| || n <= |Header(key)| + 8 + |EncodeEntries(entries)|
    ensures
      var whole := Min(declared, WholeEntries(entries, n - |Header(key)| - 8));
      && whole <= |entries|
      && ReadOf(Dump(key, declared, entries, tail)[..n], hash) ==
         Read(MempoolDat(MapOf(Bodies(entries)[..whole], hash), declared,
                         if whole < declared then Some(whole) else None))
  {
    hide Xored, EncodeEntries, Decoded, MapOf, Bodies, WholeEntries, AllEncodable, ToLe, FromLe, Header, Dump, ReadOf;
    var header := Header(key);
    var data := EncodeEntries(entries) + tail;
    var m := n - |header| - 8;
    var k := if key.Some? then key.value else NO_KEY;
    CutFile(key, declared, entries, tail, n, k);
    LeRoundTrip(declared, 8);
    WholeBounds(entries, m);
    DecodedCut(entries, tail, m, declared);
    HeaderReads(key, k, Dump(key, declared, entries, tail)[..n], hash);
  }

  /** The cut file is its header, then the mask of the count and of the cut data. */
  lemma CutFile(key: Option<seq<byte>>, declared: nat, entries: seq<Entry>, tail: seq<byte>, n: nat, k: seq<byte>)
    requires key.Some? ==> |key.value| == KEY_LEN
    requires k == if key.Some? then key.value else NO_KEY
    requires |Header(key)| + 8 <= n <= |Dump(key, declared, entries, tail)|
    ensures
      var file := Dump(key, declared, entries, tail)[..n];
      var start := |Header(key)|;
      var data := EncodeEntries(entries) + tail;
      && file[..start] == Header(key) && n - start - 8 <= |data|
      && Xored(file[start..], k, start) == ToLe(declared, 8) + data[..n - start - 8]
  {
    hide Xored, EncodeEntries, ToLe, Header;
    var start := |Header(key)|;
    var body := ToLe(declared, 8) + (EncodeEntries(entries) + tail);
    var file := Dump(key, declared, entries, tail)[..n];
    XoredLength(body, k, start);
    XoredPrefix(body, k, start, n - start);
    XoredTwice(body[..n - start], k, start);
    if key.None? {
      XoredByZero(body[..n - start], k, start);
    }
    assert file[start..] == if key.Some? then Xored(body[..n - start], k, start) else body[..n - start];
    assert body[..n - start] == ToLe(declared, 8) + (EncodeEntries(entries) + tail)[..n - start - 8];
  }

  lemma HeaderReads(key: Option<seq<byte>>, k: seq<byte>, file: seq<byte>, hash: Hash)
    requires key.Some? ==> |key.value| == KEY_LEN
    requires k == if key.Some? then key.value else NO_KEY
    requires |Header(key)| <= |file| && file[..|Header(key)|] == Header(key)
    ensures ReadOf(file, hash) == ReadBody(file, |Header(key)|, k, hash)
  {
    hide ReadBody, ToLe, FromLe;
    Pow256Eight();
    LeRoundTrip(VERSION_NO_XOR, 8);
    LeRoundTrip(VERSION_XOR, 8);
    var header := Header(key);
    assert file[..8] == header[..8];
    if key.Some? {
      assert header[..8] == ToLe(VERSION_XOR, 8);
      assert file[8] == header[8];
      assert file[9..17] == header[9..17] == key.value;
    } else {
      assert header[..8] == header;
    }
  }

  /** A whole dump, with either version and any key, reads back as exactly the txs written, whatever follows them. */
  lemma DumpRoundTrip(key: Option<seq<byte>>, entries: seq<Entry>, tail: seq<byte>, hash: Hash)
    requires key.Some? ==> |key.value| == KEY_LEN
    requires AllEncodable(entries) && |entries| < Pow256(8)
    requires forall i, j :: 0 <= i < j < |entries| ==> hash(entries[i].0) != hash(entries[j].0)
    ensures
      var r := ReadOf(Dump(key, |entries|, entries, tail), hash);
      && r.Read? && r.dat.declared == |entries| && r.dat.truncatedAt == None
      && |r.dat.txs| == |entries|
      && (forall e :: e in entries ==> hash(e.0) in r.dat.txs && r.dat.txs[hash(e.0)] == e.0)
  {
    hide Xored, EncodeEntries, Decoded, MapOf, WholeEntries, AllEncodable, ToLe, FromLe, Header, ReadOf, Dump, Bodies;
    var file := Dump(key, |entries|, entries, tail);
    DumpLength(key, |entries|, entries, tail);
    CutDumpReads(key, |entries|, entries, tail, |file|, hash);
    assert file[..|file|] == file;
    WholeBounds(entries, |file| - |Header(key)| - 8);
    assert Bodies(entries)[..|entries|] == Bodies(entries);
    AllMapped(entries, hash);
  }

  lemma AllMapped(entries: seq<Entry>, hash: Hash)
    requires forall i, j :: 0 <= i < j < |entries| ==> hash(entries[i].0) != hash(entries[j].0)
    ensures |MapOf(Bodies(entries), hash)| == |entries|
    ensures forall e :: e in entries ==>
              hash(e.0) in MapOf(Bodies(entries), hash) && MapOf(Bodies(entries), hash)[hash(e.0)] == e.0
  {
    hide MapOf;
    var bodies := Bodies(entries);
    MapOfDistinct(bodies, hash);
    forall e | e in entries ensures e.0 in bodies {
      var i :| 0 <= i < |entries| && entries[i] == e;
      assert bodies[i] == e.0;
    }
  }

  lemma DumpLength(key: Option<seq<byte>>, declared: nat, entries: seq<Entry>, tail: seq<byte>)
    requires key.Some? ==> |key.value| == KEY_LEN
    ensures |Dump(key, declared, entries, tail)| == |Header(key)| + 8 + |EncodeEntries(entries)| + |tail|
  {
    hide EncodeEntries, Header;
  }

  lemma SmallLe(n: nat)
    requires n < 256
    ensures ToLe(n, 8) == [n, 0, 0, 0, 0, 0, 0, 0] && ToLe(n, 4) == [n, 0, 0, 0]
  {
    assert ToLe(0, 1) == [0] && ToLe(0, 2) == [0, 0] && ToLe(0, 3) == [0, 0, 0] && ToLe(0, 4) == [0, 0, 0, 0];
    assert ToLe(0, 5) == [0, 0, 0, 0, 0] && ToLe(0, 6) == [0, 0, 0, 0, 0, 0] && ToLe(0, 7) == [0, 0, 0, 0, 0, 0, 0];
    assert n / 256 == 0 && n % 256 == n;
  }

  lemma TwoEntries(x: byte, y: byte, z: byte, m: seq<byte>, m': seq<byte>)
    ensures EncodeEntries([([x], m), ([y, z], m')]) == [2, 1, 0, 0, 0, x] + m + [2, 2, 0, 0, 0, y, z] + m'
  {
    hide ToLe;
    var entries: seq<Entry> := [([x], m), ([y, z], m')];
    SmallLe(1);
    SmallLe(2);
    assert entries[1..] == [([y, z], m')] && entries[1..][1..] == [];
    assert EncodeEntries(entries[1..]) == EncodeEntry(([y, z], m')) + EncodeEntries([]);
    assert EncodeEntry(([x], m)) == [2, 1, 0, 0, 0, x] + m;
    assert EncodeEntry(([y, z], m')) == [2, 2, 0, 0, 0, y, z] + m';
  }

  /** Two dumps of two entries, byte by byte: the masked one of version 2 with its key, and the plain one of version 1. The
      16 bytes after each tx are its two numbers. */
  lemma LiteralDumpsRead(key: seq<byte>, x: byte, y: byte, z: byte, m: seq<byte>, m': seq<byte>, hash: Hash)
    requires |key| == 8 && |m| == |m'| == 16 && hash([x]) != hash([y, z])
    ensures
      var body := [2, 0, 0, 0, 0, 0, 0, 0] + ([2, 1, 0, 0, 0, x] + m + [2, 2, 0, 0, 0, y, z] + m');
      var txs := map[hash([x]) := [x], hash([y, z]) := [y, z]];
      && ReadOf([2, 0, 0, 0, 0, 0, 0, 0] + [8] + key + Xored(body, key, 17), hash) == Read(MempoolDat(txs, 2, None))
      && ReadOf([1, 0, 0, 0, 0, 0, 0, 0] + body, hash) == Read(MempoolDat(txs, 2, None))
  {
    hide Xored, EncodeEntries, ReadOf, MapOf, ToLe, Bodies;
    var entries: seq<Entry> := [([x], m), ([y, z], m')];
    var body := [2, 0, 0, 0, 0, 0, 0, 0] + ([2, 1, 0, 0, 0, x] + m + [2, 2, 0, 0, 0, y, z] + m');
    SmallLe(1);
    SmallLe(2);
    TwoEntries(x, y, z, m, m');
    assert EncodeEntries(entries) + [] == EncodeEntries(entries);
    assert Dump(Some(key), 2, entries, []) == [2, 0, 0, 0, 0, 0, 0, 0] + [8] + key + Xored(body, key, 17);
    assert Dump(None, 2, entries, []) == [1, 0, 0, 0, 0, 0, 0, 0] + body;
    WholeDumpReads(Some(key), entries, hash);
    WholeDumpReads(None, entries, hash);
    TwoBodies(x, y, z, m, m', hash);
  }

  lemma WholeDumpReads(key: Option<seq<byte>>, entries: seq<Entry>, hash: Hash)
    requires key.Some? ==> |key.value| == KEY_LEN
    requires AllEncodable(entries) && |entries| < Pow256(8)
    ensures ReadOf(Dump(key, |entries|, entries, []), hash) ==
            Read(MempoolDat(MapOf(Bodies(entries), hash), |entries|, None))
  {
    hide Xored, EncodeEntries, Decoded, MapOf, WholeEntries, AllEncodable, ToLe, FromLe, Header, ReadOf, Dump, Bodies;
    var file := Dump(key, |entries|, entries, []);
    DumpLength(key, |entries|, entries, []);
    CutDumpReads(key, |entries|, entries, [], |file|, hash);
    assert file[..|file|] == file;
    WholeBounds(entries, |file| - |Header(key)| - 8);
    BodiesLength(entries);
    assert Bodies(entries)[..|entries|] == Bodies(entries);
  }

  lemma BodiesLength(entries: seq<Entry>)
    ensures |Bodies(entries)| == |entries|
  {
  }

  lemma TwoBodies(x: byte, y: byte, z: byte, m: seq<byte>, m': seq<byte>, hash: Hash)
    requires |m| == |m'| == METADATA_LEN
    ensures Bodies([([x], m), ([y, z], m')]) == [[x], [y, z]] && AllEncodable([([x], m), ([y, z], m')]) && 2 < Pow256(8)
    ensures MapOf([[x], [y, z]], hash) == map[hash([x]) := [x], hash([y, z]) := [y, z]]
  {
    Pow256Eight();
    var bodies: seq<Body> := [[x], [y, z]];
    assert bodies[..1] == [[x]] && bodies[..1][..0] == [];
    assert MapOf([[x]], hash) == map[hash([x]) := [x]];
  }
}
