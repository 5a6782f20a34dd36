/**
  A sequential XDF file: records one behind the other, each followed by a postfix that points back to it, and a mark
  at the end. The disk is the words of the file, address 1 first. One cursor, cur_addr, serves searches, skips and
  puts alike.
 */
module XdfSequentialFile {
  import opened Words
  import opened XdfSequential
  import D = XdfDirectory
  import F = XdfFile

  const ERR_NO_POSTFIX: int := -39
  const NO_ADDRESS: Word := 0xFFFF_FFFF    // the address in a postfix
  const DELETED: nat := 255
  const EOF_TYPE: nat := 127

  // ----- words on the disk -----

  /** Type and length in the first word of a header. */
  function IdTyp(w: Word): (t: nat)
    ensures t < 0x100
  {
    w / 0x100_0000
  }

  function Lng(w: Word): (n: nat)
    ensures n < 0x100_0000
  {
    w % 0x100_0000
  }

  function HeadWord(idtyp: nat, lng: nat): (w: Word)
    requires idtyp < 0x100 && lng < 0x100_0000
    ensures IdTyp(w) == idtyp && Lng(w) == lng
  {
    idtyp * 0x100_0000 + lng
  }

  /** WDTO64(address - 1) + 1 */
  function Unit(address: nat): int {
    (address - 1) / 2 + 1
  }

  /** W64TOWD(unit - 1) + 1 */
  function AddressOf(unit: int): int {
    2 * (unit - 1) + 1
  }

  /** What c_wawrit leaves on the disk. */
  function Written(d: seq<Word>, at: nat, ws: seq<Word>): (r: seq<Word>)
    requires 1 <= at <= |d| + 1
    ensures |r| == if at - 1 + |ws| > |d| then at - 1 + |ws| else |d|
  {
    d[..at - 1] + ws + if at - 1 + |ws| < |d| then d[at - 1 + |ws|..] else []
  }

  ghost predicate OnDisk(d: seq<Word>, at: nat, ws: seq<Word>) {
    1 <= at && at - 1 + |ws| <= |d| && d[at - 1..at - 1 + |ws|] == ws
  }

  lemma WrittenThere(d: seq<Word>, at: nat, ws: seq<Word>)
    requires 1 <= at <= |d| + 1
    ensures OnDisk(Written(d, at, ws), at, ws) && Written(d, at, ws)[..at - 1] == d[..at - 1]
  {
  }

  /** What lies in a part of the disk that stays is still there. */
  lemma OnDiskKept(d: seq<Word>, d': seq<Word>, at: nat, ws: seq<Word>, n: nat)
    requires OnDisk(d, at, ws) && at - 1 + |ws| <= n <= |d| && n <= |d'| && d'[..n] == d[..n]
    ensures OnDisk(d', at, ws)
  {
    assert d[at - 1..at - 1 + |ws|] == d[..n][at - 1..at - 1 + |ws|];
    assert d'[at - 1..at - 1 + |ws|] == d'[..n][at - 1..at - 1 + |ws|];
  }

  // ----- records and their postfixes -----

  /** A record: the address of its first word, and its words with length and address filled in. */
  datatype Record = Record(addr: nat, words: seq<Word>) {
    function Type(): nat {
      if words == [] then 0 else IdTyp(words[0])
    }

    /** Its header and primary keys. */
    function Keys(primary_len: nat): seq<Word> {
      if |words| >= 2 * primary_len then words[..2 * primary_len] else words
    }

    function Handle(file_index: nat): nat {
      if addr >= 1 then MakeSeqHandle(addr, file_index) else 0
    }

    /** Where its postfix is. */
    function End(): nat { addr + |words| }

    /** Where the next record is. */
    function Next(): nat { End() + 4 }
  }

  predicate RecordOk(r: Record, primary_len: nat) {
    && Aligned(r.addr) && r.addr % 2 == 1 && primary_len >= 1 && |r.words| >= 2 * primary_len
    && |r.words| == 2 * Lng(r.words[0]) && r.words[1] == Unit(r.addr)
    && (r.Type() <= 126 || r.Type() == DELETED)
  }

  /** The words of a postfix: type 0, two units, no address; then type, length and address of the record. */
  function Postfix(typeAndLng: Word, addr: Word): (ws: seq<Word>)
    ensures |ws| == 4
  {
    [HeadWord(0, 2), NO_ADDRESS, typeAndLng, addr]
  }

  /** The words of a postfix, and of the end mark with the address in units behind it. */
  lemma PostfixIs(typeAndLng: Word, addr: Word)
    ensures var ws := Postfix(typeAndLng, addr);
      ws[0] == 2 && ws[1] == 0xFFFF_FFFF && ws[2] == typeAndLng && ws[3] == addr
    ensures HeadWord(EOF_TYPE, 1) == 0x7F00_0001
  {
  }

  /** The record and its postfix are on the disk; the type in the postfix is the one the record was written with. */
  ghost predicate Stored(d: seq<Word>, r: Record) {
    && |r.words| >= 2 && OnDisk(d, r.addr, r.words)
    && exists w: Word :: Lng(w) == Lng(r.words[0]) && OnDisk(d, r.End(), Postfix(w, r.words[1]))
  }

  lemma StoredKept(d: seq<Word>, d': seq<Word>, r: Record, n: nat)
    requires Stored(d, r) && r.Next() - 1 <= n <= |d| && n <= |d'| && d'[..n] == d[..n]
    ensures Stored(d', r)
  {
    hide OnDisk, Postfix, Lng;
    OnDiskKept(d, d', r.addr, r.words, n);
    var w: Word :| Lng(w) == Lng(r.words[0]) && OnDisk(d, r.End(), Postfix(w, r.words[1]));
    OnDiskKept(d, d', r.End(), Postfix(w, r.words[1]), n);
  }

  /** Where record k starts, or where it would: behind the one before. */
  function Start(rs: seq<Record>, first: nat, k: nat): nat
    requires k <= |rs|
  {
    if k == 0 then first else rs[k - 1].Next()
  }

  ghost predicate Placed(d: seq<Word>, rs: seq<Record>, first: nat, primary_len: nat, k: nat)
    requires k < |rs|
  {
    RecordOk(rs[k], primary_len) && rs[k].addr == Start(rs, first, k) && Stored(d, rs[k])
  }

  /** The records lie on the disk one behind the other. */
  ghost predicate Chain(d: seq<Word>, rs: seq<Record>, first: nat, primary_len: nat) {
    forall k :: 0 <= k < |rs| ==> Placed(d, rs, first, primary_len, k)
  }

  lemma {:induction false} StartsRise(d: seq<Word>, rs: seq<Record>, first: nat, primary_len: nat, j: nat, k: nat)
    requires Chain(d, rs, first, primary_len) && j <= k <= |rs|
    ensures Start(rs, first, j) <= Start(rs, first, k) && (j < k ==> rs[j].Next() <= Start(rs, first, k))
    decreases k
  {
    hide RecordOk, Stored;
    if j < k {
      StartsRise(d, rs, first, primary_len, j, k - 1);
      assert Placed(d, rs, first, primary_len, k - 1);
    }
  }

  /** The chain up to record k, on a disk that is the same up to there. */
  lemma ChainKept(d: seq<Word>, d': seq<Word>, rs: seq<Record>, first: nat, primary_len: nat, k: nat)
    requires Chain(d, rs, first, primary_len) && k <= |rs| && first >= 1
    requires var n := Start(rs, first, k) - 1; n <= |d| && n <= |d'| && d'[..n] == d[..n]
    ensures Chain(d', rs[..k], first, primary_len)
  {
    hide RecordOk, Stored;
    forall j | 0 <= j < k ensures Placed(d', rs[..k], first, primary_len, j) {
      assert Placed(d, rs, first, primary_len, j);
      StartsRise(d, rs, first, primary_len, j, k);
      StoredKept(d, d', rs[j], Start(rs, first, k) - 1);
    }
  }

  lemma ChainLonger(d: seq<Word>, rs: seq<Record>, first: nat, primary_len: nat, r: Record)
    requires Chain(d, rs, first, primary_len) && r.addr == Start(rs, first, |rs|)
    requires RecordOk(r, primary_len) && Stored(d, r)
    ensures Chain(d, rs + [r], first, primary_len) && Start(rs + [r], first, |rs| + 1) == r.Next()
  {
    hide RecordOk, Stored;
    forall j | 0 <= j < |rs| + 1 ensures Placed(d, rs + [r], first, primary_len, j) {
      if j < |rs| { assert Placed(d, rs, first, primary_len, j); }
    }
  }

  /**
    The file header is skipped like a record of type 0, and its last words are no postfix: the last byte of a key is
    reserved, and zero.
   */
  ghost predicate Headed(d: seq<Word>, first: nat, primary_len: nat) {
    && first % 2 == 1 && Aligned(first) && 17 <= first && 2 * primary_len < first <= |d| + 1
    && IdTyp(d[0]) == 0 && 2 * Lng(d[0]) == first - 1 && d[first - 4] != NO_ADDRESS
  }

  /** At the end there is a mark of type 127, or, before anything has been put, nothing. */
  ghost predicate Ended(d: seq<Word>, end: nat, empty: bool) {
    && 1 <= end
    && ((empty && |d| == end - 1) || (|d| > end && d[end - 1] == HeadWord(EOF_TYPE, 1) && d[end] == Unit(end)))
  }

  // ----- searches -----

  /** A search stops at a header of one of these types. */
  predicate Stops(r: Record) {
    r.Type() >= 112
  }

  predicate Selected(r: Record, primary_len: nat, target: seq<Word>, mask: seq<Word>) {
    && 1 <= r.Type() < 112 && 2 * primary_len <= |r.words| && |target| == |mask| == 2 * primary_len
    && D.Matches(r.Keys(primary_len), target, mask)
  }

  /** Where a search from record k comes to an end: at a match, at a type that stops it, or behind the last record. */
  function Reached(rs: seq<Record>, k: nat, primary_len: nat, target: seq<Word>, mask: seq<Word>): (m: nat)
    requires k <= |rs|
    ensures k <= m <= |rs|
    decreases |rs| - k
  {
    if k == |rs| || Stops(rs[k]) || Selected(rs[k], primary_len, target, mask) then k
    else Reached(rs, k + 1, primary_len, target, mask)
  }

  /** What c_waread2 finds: fewer words at the end of the file. */
  function ReadAt(d: seq<Word>, at: nat, n: nat): (ws: seq<Word>)
    requires 1 <= at <= |d| + 1
    ensures |ws| == if at - 1 + n <= |d| then n else |d| - at + 1
  {
    d[at - 1..if at - 1 + n <= |d| then at - 1 + n else |d|]
  }

  /** File header, records and end mark. */
  ghost predicate Laid(d: seq<Word>, rs: seq<Record>, first: nat, primary_len: nat, nxtadr: nat) {
    && Headed(d, first, primary_len) && Chain(d, rs, first, primary_len)
    && nxtadr == Start(rs, first, |rs|) && Ended(d, nxtadr, rs == []) && Aligned(nxtadr) && nxtadr % 2 == 1
    && primary_len >= 1
  }

  /**
    The next record that a reader at this address will come to is number k: the file header and postfixes are skipped.
   */
  predicate Before(rs: seq<Record>, first: nat, at: nat, k: nat) {
    k <= |rs| && (at == Start(rs, first, k) || (if k == 0 then at == 1 else at == rs[k - 1].End()))
  }

  /** The words a reader finds at record k. */
  lemma ReadRecord(d: seq<Word>, rs: seq<Record>, first: nat, primary_len: nat, nxtadr: nat, k: nat)
    requires Laid(d, rs, first, primary_len, nxtadr) && k < |rs|
    ensures var at := Start(rs, first, k);
      && RecordOk(rs[k], primary_len) && rs[k].addr == at && 1 <= at && rs[k].Next() - 1 <= |d|
      && |rs[k].words| >= 2 * primary_len && |rs[k].words| == 2 * Lng(rs[k].words[0])
      && ReadAt(d, at, 2 * primary_len) == rs[k].Keys(primary_len)
  {
    hide Aligned, Lng;
    assert Placed(d, rs, first, primary_len, k);
    var r := rs[k];
    ReadPart(d, r.addr, r.words, 2 * primary_len);
  }

  lemma ReadPart(d: seq<Word>, at: nat, ws: seq<Word>, n: nat)
    requires OnDisk(d, at, ws) && n <= |ws|
    ensures ReadAt(d, at, n) == ws[..n]
  {
    assert d[at - 1..at - 1 + n] == d[at - 1..at - 1 + |ws|][..n];
  }

  /** The first word a reader finds at the postfix of record k - 1, or at the file header. */
  lemma ReadBetween(d: seq<Word>, rs: seq<Record>, first: nat, primary_len: nat, nxtadr: nat, at: nat, k: nat)
    requires Laid(d, rs, first, primary_len, nxtadr) && Before(rs, first, at, k) && at != Start(rs, first, k)
    ensures 1 <= at && Start(rs, first, k) - 1 <= |d| && at < Start(rs, first, k)
    ensures IdTyp(d[at - 1]) == 0 && at + 2 * Lng(d[at - 1]) == Start(rs, first, k)
    ensures k < |rs| ==> |ReadAt(d, at, 2 * primary_len)| == 2 * primary_len
    ensures |ReadAt(d, at, 2 * primary_len)| < 2 * primary_len ==> k == |rs| > 0 && at == rs[k - 1].End()
  {
    hide RecordOk, Stored, Lng, IdTyp, Aligned, ReadAt;
    if k < |rs| { ReadRecord(d, rs, first, primary_len, nxtadr, k); }
    if k > 0 {
      assert Placed(d, rs, first, primary_len, k - 1);
      ReadPostfix(d, rs[k - 1]);
    }
    ReadLength(d, at, 2 * primary_len);
  }

  lemma ReadLength(d: seq<Word>, at: nat, n: nat)
    requires 1 <= at <= |d| + 1
    ensures |ReadAt(d, at, n)| < n <==> at - 1 + n > |d|
  {
  }

  lemma ReadPostfix(d: seq<Word>, r: Record)
    requires Stored(d, r)
    ensures 1 <= r.End() <= |d| && r.Next() - 1 <= |d|
    ensures IdTyp(d[r.End() - 1]) == 0 && Lng(d[r.End() - 1]) == 2
  {
    var w: Word :| Lng(w) == Lng(r.words[0]) && OnDisk(d, r.End(), Postfix(w, r.words[1]));
    assert d[r.End() - 1] == Postfix(w, r.words[1])[0];
  }

  lemma ReadEnd(d: seq<Word>, rs: seq<Record>, first: nat, primary_len: nat, nxtadr: nat)
    requires Laid(d, rs, first, primary_len, nxtadr)
    ensures 1 <= nxtadr <= |d| + 1 && nxtadr == Start(rs, first, |rs|) && primary_len >= 1
    ensures (rs == [] && |d| == nxtadr - 1) || (nxtadr < |d| && IdTyp(d[nxtadr - 1]) == EOF_TYPE)
  {
  }

  /** What a reader at an address before record k has read when it asked for the keys of a record and got nw words. */
  ghost predicate HeadTells(d: seq<Word>, rs: seq<Record>, first: nat, primary_len: nat, nxtadr: nat, cur: nat, k: nat,
      nw: nat, keys: seq<Word>) {
    && k <= |rs| && |keys| == 2 * primary_len >= 2 && nw <= 2 * primary_len && cur <= |d| + 1
    && var at := Start(rs, first, k);
    && cur <= at && (k == |rs| ==> at == nxtadr)
    && (cur == at && k < |rs| ==>
      nw == 2 * primary_len && keys == rs[k].Keys(primary_len) && RecordOk(rs[k], primary_len) && rs[k].addr == at)
    && (cur == at && k == |rs| ==> IdTyp(keys[0]) == EOF_TYPE || (nw == 0 && IdTyp(keys[0]) == 0))
    && (cur != at ==> IdTyp(keys[0]) == 0 && (nw == 2 * primary_len ==> cur + 2 * Lng(keys[0]) == at))
    && (cur != at && nw < 2 * primary_len ==>
      k == |rs| > 0 && cur == rs[k - 1].End() && cur - 1 + 2 * primary_len > |d|)
  }

  lemma HeadIsRead(d: seq<Word>, rs: seq<Record>, first: nat, primary_len: nat, nxtadr: nat, cur: nat, k: nat,
      keys: seq<Word>)
    requires Laid(d, rs, first, primary_len, nxtadr) && Before(rs, first, cur, k) && |keys| == 2 * primary_len
    requires |d| == nxtadr - 1 ==> IdTyp(keys[0]) == 0
    ensures 1 <= cur <= |d| + 1 && |ReadAt(d, cur, 2 * primary_len)| <= |keys|
    ensures var ws := ReadAt(d, cur, 2 * primary_len);
      && HeadTells(d, rs, first, primary_len, nxtadr, cur, k, |ws|, ws + keys[|ws|..])
      && (|d| == nxtadr - 1 ==> IdTyp((ws + keys[|ws|..])[0]) == 0)
  {
    hide Laid, RecordOk, Lng, IdTyp;
    ReadEnd(d, rs, first, primary_len, nxtadr);
    if cur != Start(rs, first, k) {
      ReadBetween(d, rs, first, primary_len, nxtadr, cur, k);
    } else if k < |rs| {
      ReadRecord(d, rs, first, primary_len, nxtadr, k);
    }
  }

  /** What the first words of record k tell. */
  lemma KeysTell(rs: seq<Record>, first: nat, primary_len: nat, k: nat, keys: seq<Word>, target: seq<Word>,
      mask: seq<Word>)
    requires k < |rs| && RecordOk(rs[k], primary_len) && keys == rs[k].Keys(primary_len)
    requires rs[k].addr == Start(rs, first, k) && |target| == |mask| == 2 * primary_len
    ensures |keys| == 2 * primary_len >= 2 && IdTyp(keys[0]) == rs[k].Type() && rs[k].addr >= 1 && Lng(keys[0]) >= 1
    ensures rs[k].addr + 2 * Lng(keys[0]) == rs[k].End() && rs[k].Next() == Start(rs, first, k + 1)
    ensures 1 <= rs[k].Type() < 112 ==> (Selected(rs[k], primary_len, target, mask) <==> D.Matches(keys, target, mask))
    ensures rs[k].Type() == 0 ==> !Selected(rs[k], primary_len, target, mask) && !Stops(rs[k])
  {
    hide D.Matches, Lng, IdTyp;
  }

  /** The records that a search from record k on gives, one after the other, until it stops. */
  function Hits(rs: seq<Record>, k: nat, primary_len: nat, target: seq<Word>, mask: seq<Word>): (hits: seq<nat>)
    decreases |rs| - k
  {
    if k >= |rs| || Stops(rs[k]) then []
    else (if Selected(rs[k], primary_len, target, mask) then [k] else []) + Hits(rs, k + 1, primary_len, target, mask)
  }

  /** The hits of a search that has come to record m. */
  function HitsFrom(rs: seq<Record>, m: nat, primary_len: nat, target: seq<Word>, mask: seq<Word>): seq<nat> {
    if m < |rs| && !Stops(rs[m]) then [m] + Hits(rs, m + 1, primary_len, target, mask) else []
  }

  lemma {:induction false} HitsFromReached(rs: seq<Record>, k: nat, primary_len: nat, target: seq<Word>,
      mask: seq<Word>)
    requires k <= |rs|
    ensures Hits(rs, k, primary_len, target, mask)
      == HitsFrom(rs, Reached(rs, k, primary_len, target, mask), primary_len, target, mask)
    decreases |rs| - k
  {
    hide Selected, Stops;
    if k < |rs| && !Stops(rs[k]) && !Selected(rs[k], primary_len, target, mask) {
      HitsFromReached(rs, k + 1, primary_len, target, mask);
    }
  }

  lemma HitAdded(rs: seq<Record>, hits: seq<nat>, m: nat, primary_len: nat, target: seq<Word>, mask: seq<Word>)
    requires m < |rs| && !Stops(rs[m])
    ensures hits + HitsFrom(rs, m, primary_len, target, mask)
      == (hits + [m]) + Hits(rs, m + 1, primary_len, target, mask)
  {
    hide Hits, Stops;
  }

  /** The header and keys of the record have the bits of the target wherever the mask has a bit. */
  ghost predicate Agrees(r: Record, target: seq<Word>, mask: seq<Word>) {
    && |r.words| >= |mask| == |target|
    && forall i: nat, b: nat ::
      i < |mask| && b < 32 && Shr(mask[i], b) % 2 == 1 ==> Shr(r.words[i], b) % 2 == Shr(target[i], b) % 2
  }

  lemma SelectedAgrees(r: Record, primary_len: nat, target: seq<Word>, mask: seq<Word>)
    requires |r.words| >= 2 * primary_len == |target| == |mask|
    ensures Selected(r, primary_len, target, mask) <==> 1 <= r.Type() < 112 && Agrees(r, target, mask)
  {
    hide D.Matches, Shr;
    var keys := r.Keys(primary_len);
    D.MatchesBits(keys, target, mask);
    if D.Matches(keys, target, mask) {
      forall i: nat, b: nat | i < |mask| && b < 32 && Shr(mask[i], b) % 2 == 1
        ensures Shr(r.words[i], b) % 2 == Shr(target[i], b) % 2
      {
        assert Shr(keys[i], b) % 2 == Shr(target[i], b) % 2;
      }
    }
  }

  /**
    The hits of a search from the start are the records of types 1 to 111 that agree with the target and have no record
    of a type above 111 before them.
   */
  lemma HitsAgree(d: seq<Word>, rs: seq<Record>, first: nat, primary_len: nat, target: seq<Word>, mask: seq<Word>)
    requires Chain(d, rs, first, primary_len) && |target| == |mask| == 2 * primary_len
    ensures forall m: nat :: m < |rs| ==> (m in Hits(rs, 0, primary_len, target, mask) <==>
      1 <= rs[m].Type() && Agrees(rs[m], target, mask) && forall j :: 0 <= j <= m ==> rs[j].Type() < 112)
  {
    hide Hits, Agrees, Selected, RecordOk, Stored;
    HitsAreTheMatches(rs, 0, primary_len, target, mask);
    forall m: nat | m < |rs|
      ensures m in Hits(rs, 0, primary_len, target, mask) <==>
        1 <= rs[m].Type() && Agrees(rs[m], target, mask) && forall j :: 0 <= j <= m ==> rs[j].Type() < 112
    {
      assert Placed(d, rs, first, primary_len, m);
      KeysInRecord(rs[m], primary_len);
      SelectedAgrees(rs[m], primary_len, target, mask);
    }
  }

  lemma KeysInRecord(r: Record, primary_len: nat)
    requires RecordOk(r, primary_len)
    ensures |r.words| >= 2 * primary_len
  {
    hide Aligned;
  }

  /** The handles of the records with these numbers. */
  ghost predicate HandlesOf(handles: seq<int>, rs: seq<Record>, hits: seq<nat>, file_index: nat) {
    && |handles| == |hits|
    && forall i :: 0 <= i < |hits| ==> hits[i] < |rs| && handles[i] == rs[hits[i]].Handle(file_index)
  }

  lemma NoHandles(rs: seq<Record>, file_index: nat)
    ensures HandlesOf([], rs, [], file_index)
  {
  }

  lemma HandleAdded(handles: seq<int>, rs: seq<Record>, hits: seq<nat>, file_index: nat, m: nat)
    requires HandlesOf(handles, rs, hits, file_index) && m < |rs|
    ensures HandlesOf(handles + [rs[m].Handle(file_index)], rs, hits + [m], file_index)
  {
    hide Record.Handle;
  }

  /** No record from k on stops a search before it comes to record m. */
  ghost predicate Clear(rs: seq<Record>, k: nat, m: nat) {
    forall j :: k <= j < m && j < |rs| ==> !Stops(rs[j])
  }

  lemma ClearStep(rs: seq<Record>, k: nat)
    requires k < |rs|
    ensures Clear(rs, k, k)
    ensures forall m: nat :: m > k ==> (Clear(rs, k, m) <==> !Stops(rs[k]) && Clear(rs, k + 1, m))
  {
    hide Stops;
  }

  /** A search finds the records that match and have no record that stops it before them, each once and in order. */
  lemma {:induction false} HitsAreTheMatches(rs: seq<Record>, k: nat, primary_len: nat, target: seq<Word>,
      mask: seq<Word>)
    ensures var hits := Hits(rs, k, primary_len, target, mask);
      && (forall m: nat :: m in hits <==>
        k <= m < |rs| && Selected(rs[m], primary_len, target, mask) && Clear(rs, k, m))
      && forall i, j :: 0 <= i < j < |hits| ==> hits[i] < hits[j]
    decreases |rs| - k
  {
    hide Selected, Clear, Stops;
    if k < |rs| {
      ClearStep(rs, k);
      if Stops(rs[k]) {
        StopsNoMatch(rs[k], primary_len, target, mask);
      } else {
        HitsAreTheMatches(rs, k + 1, primary_len, target, mask);
        var rest := Hits(rs, k + 1, primary_len, target, mask);
        var hits := Hits(rs, k, primary_len, target, mask);
        assert forall m: nat :: m in hits <==> (m == k && Selected(rs[k], primary_len, target, mask)) || m in rest;
        assert forall j :: 0 <= j < |rest| ==> rest[j] in rest;
      }
    }
  }

  lemma StopsNoMatch(r: Record, primary_len: nat, target: seq<Word>, mask: seq<Word>)
    requires Stops(r)
    ensures !Selected(r, primary_len, target, mask)
  {
    hide D.Matches;
  }

  // ----- puts and deletions on the disk -----

  /** The words a record takes, the next one being aligned. */
  function Padded(at: nat, words: nat): int
    requires at >= 1
  {
    NextClusterAddr(at, words) - at - 4 + 1
  }

  lemma PaddedBounds(at: nat, words: nat)
    requires at % 2 == 1 && words % 2 == 0
    ensures words <= Padded(at, words) < words + 128 && Padded(at, words) % 2 == 0
    ensures Aligned(at + Padded(at, words) + 4) && (at + Padded(at, words) + 4) % 2 == 1
  {
    hide Aligned, NextClusterAddr, ClusterSize;
    NextIsAligned(at, words);
    EvenAddress(NextClusterAddr(at, words));
    FourSizes(at - 1 + words + 4);
  }

  /** The three writes of a put: the record, its postfix, the end mark. */
  function PutOnDisk(d: seq<Word>, r: Record, mark: Word): (d': seq<Word>)
    requires 1 <= r.addr <= |d| + 1 && |r.words| >= 2
  {
    Written(Written(Written(d, r.addr, r.words), r.End(), Postfix(r.words[0], r.words[1])), r.Next(),
      [HeadWord(EOF_TYPE, 1), mark])
  }

  lemma PutIsStored(d: seq<Word>, r: Record, mark: Word)
    requires 1 <= r.addr <= |d| + 1 && |r.words| >= 2
    ensures var d' := PutOnDisk(d, r, mark);
      && Stored(d', r) && OnDisk(d', r.Next(), [HeadWord(EOF_TYPE, 1), mark]) && |d'| >= r.addr - 1
      && OnDisk(d', r.addr, r.words) && OnDisk(d', r.End(), Postfix(r.words[0], r.words[1]))
      && d'[..r.addr - 1] == d[..r.addr - 1]
  {
    hide Written, OnDisk, HeadWord;
    var d1 := Written(d, r.addr, r.words);
    var d2 := Written(d1, r.End(), Postfix(r.words[0], r.words[1]));
    var d3 := PutOnDisk(d, r, mark);
    WrittenThere(d, r.addr, r.words);
    WrittenThere(d1, r.End(), Postfix(r.words[0], r.words[1]));
    WrittenThere(d2, r.Next(), [HeadWord(EOF_TYPE, 1), mark]);
    Prefix(d1, d2, r.End() - 1, r.End() - 1);
    Prefix(d2, d3, r.Next() - 1, r.End() - 1);
    OnDiskKept(d1, d2, r.addr, r.words, r.End() - 1);
    OnDiskKept(d2, d3, r.addr, r.words, r.End() - 1);
    OnDiskKept(d2, d3, r.End(), Postfix(r.words[0], r.words[1]), r.Next() - 1);
    Prefix(d1, d2, r.End() - 1, r.addr - 1);
    Prefix(d2, d3, r.Next() - 1, r.addr - 1);
  }

  /** The disk after the three writes of a put, which end with the mark at the next address. */
  ghost predicate PutTraced(d: seq<Word>, d': seq<Word>, r: Record) {
    && 1 <= r.addr <= |d| + 1 && |r.words| >= 2 && 0 <= Unit(r.Next()) < WORD
    && d' == PutOnDisk(d, r, Unit(r.Next()))
  }

  /** What a put leaves on the disk: what was there before it, the record, its postfix, and a mark of type 127. */
  lemma PutTraceIs(d: seq<Word>, d': seq<Word>, r: Record)
    requires PutTraced(d, d', r)
    ensures var n, p := r.addr - 1, r.addr - 1 + |r.words|;
      && |d'| >= p + 6 && d'[..n] == d[..n] && d'[n..p] == r.words
      && d'[p] == 2 && d'[p + 1] == 0xFFFF_FFFF && d'[p + 2] == r.words[0] && d'[p + 3] == r.words[1]
      && d'[p + 4] == 0x7F00_0001 && d'[p + 5] == (p + 4) / 2 + 1
  {
    hide Written, HeadWord, Postfix, PutOnDisk;
    PutIsStored(d, r, Unit(r.Next()));
    PostfixIs(r.words[0], r.words[1]);
    WordsThere(d', r.addr, r.words);
    WordsThere(d', r.End(), Postfix(r.words[0], r.words[1]));
    WordsThere(d', r.Next(), [HeadWord(EOF_TYPE, 1), Unit(r.Next())]);
  }

  lemma WordsThere(d: seq<Word>, at: nat, ws: seq<Word>)
    requires OnDisk(d, at, ws)
    ensures 1 <= at && at - 1 + |ws| <= |d| && forall i :: 0 <= i < |ws| ==> d[at - 1 + i] == ws[i]
  {
    forall i | 0 <= i < |ws| ensures d[at - 1 + i] == ws[i] {
      assert d[at - 1..at - 1 + |ws|][i] == ws[i];
    }
  }

  lemma Prefix(d: seq<Word>, d': seq<Word>, n: nat, m: nat)
    requires m <= n <= |d| && n <= |d'| && d'[..n] == d[..n]
    ensures d'[..m] == d[..m]
  {
    assert d'[..m] == d'[..n][..m];
    assert d[..m] == d[..n][..m];
  }

  /** A put at the start of record k leaves the records before it, and has itself as the last one. */
  lemma PutIsLaid(d: seq<Word>, rs: seq<Record>, first: nat, primary_len: nat, nxtadr: nat, k: nat, r: Record,
      mark: Word)
    requires Laid(d, rs, first, primary_len, nxtadr) && k <= |rs| && r.addr == Start(rs, first, k)
    requires RecordOk(r, primary_len) && Aligned(r.Next()) && mark == Unit(r.Next()) && 1 <= r.addr <= |d| + 1
    ensures Laid(PutOnDisk(d, r, mark), rs[..k] + [r], first, primary_len, r.Next())
  {
    hide Stored, RecordOk, Aligned, PutOnDisk, Unit, OnDisk, HeadWord;
    RecordSize(r, primary_len);
    var d' := PutOnDisk(d, r, mark);
    PutIsStored(d, r, mark);
    ChainKept(d, d', rs, first, primary_len, k);
    assert Start(rs[..k], first, k) == r.addr;
    ChainLonger(d', rs[..k], first, primary_len, r);
    StartsRise(d, rs, first, primary_len, 0, k);
    HeadedKept(d, d', first, primary_len, r.addr - 1);
    MarkWords(d', r.Next(), mark);
  }

  lemma RecordSize(r: Record, primary_len: nat)
    requires RecordOk(r, primary_len)
    ensures |r.words| >= 2 && r.addr % 2 == 1 && r.Next() % 2 == 1 && primary_len >= 1
  {
    hide Aligned;
  }

  lemma MarkWords(d: seq<Word>, at: nat, mark: Word)
    requires OnDisk(d, at, [HeadWord(EOF_TYPE, 1), mark])
    ensures |d| > at >= 1 && d[at - 1] == HeadWord(EOF_TYPE, 1) && d[at] == mark
  {
    var ws := d[at - 1..at + 1];
    assert ws[0] == d[at - 1] && ws[1] == d[at];
  }

  lemma HeadedKept(d: seq<Word>, d': seq<Word>, first: nat, primary_len: nat, n: nat)
    requires Headed(d, first, primary_len) && first - 1 <= n <= |d| && n <= |d'| && d'[..n] == d[..n]
    ensures Headed(d', first, primary_len)
  {
    assert d'[0] == d'[..n][0] && d'[first - 4] == d'[..n][first - 4];
  }

  /** A record starts on the disk, or right behind it. */
  lemma StartOnDisk(d: seq<Word>, rs: seq<Record>, first: nat, primary_len: nat, nxtadr: nat, k: nat)
    requires Laid(d, rs, first, primary_len, nxtadr) && k <= |rs|
    ensures 1 <= Start(rs, first, k) <= |d| + 1
  {
    hide RecordOk, Aligned;
    ReadEnd(d, rs, first, primary_len, nxtadr);
    StartsRise(d, rs, first, primary_len, 0, k);
    StartsRise(d, rs, first, primary_len, k, |rs|);
  }

  lemma BehindMark(d: seq<Word>, rs: seq<Record>, first: nat, primary_len: nat, nxtadr: nat)
    requires Laid(d, rs, first, primary_len, nxtadr) && rs != []
    ensures |d| > nxtadr
  {
  }

  /** The first word of a record, as a reader finds it. */
  lemma RecordWords(d: seq<Word>, rs: seq<Record>, first: nat, primary_len: nat, nxtadr: nat, k: nat)
    requires Laid(d, rs, first, primary_len, nxtadr) && k < |rs|
    ensures 1 <= rs[k].addr && rs[k].addr + 1 <= |d| && rs[k].addr == Start(rs, first, k)
    ensures |rs[k].words| >= 2 && |rs[k].words| == 2 * Lng(rs[k].words[0])
    ensures d[rs[k].addr - 1] == rs[k].words[0] && d[rs[k].addr] == rs[k].words[1] == Unit(rs[k].addr)
  {
    hide Lng, Aligned;
    assert Placed(d, rs, first, primary_len, k);
    var r := rs[k];
    var ws := d[r.addr - 1..r.addr - 1 + |r.words|];
    assert ws[0] == d[r.addr - 1] && ws[1] == d[r.addr];
  }

  lemma FirstStart(d: seq<Word>, rs: seq<Record>, first: nat, primary_len: nat, nxtadr: nat)
    requires Laid(d, rs, first, primary_len, nxtadr)
    ensures Start(rs, first, 0) == first >= 17 && Before(rs, first, first, 0) && Before(rs, first, 1, 0)
  {
  }

  /** A record that can be put, and its length filled up with what the memory holds behind it. */
  predicate CanBePut(record: seq<Word>, behind: seq<Word>, at: nat, primary_len: nat) {
    && F.RecordOk(record, primary_len) && |record| % 2 == 0 && |record| + 128 <= 0x200_0000 && |behind| >= 128
    && Aligned(at) && at % 2 == 1 && at + |record| + 132 < 0x8000_0000
  }

  /** The record as it is put at an address. */
  function NewRecord(record: seq<Word>, behind: seq<Word>, at: nat, primary_len: nat): (r: Record)
    requires CanBePut(record, behind, at, primary_len)
    ensures r.addr == at && |r.words| == Padded(at, |record|)
  {
    hide Aligned;
    PaddedBounds(at, |record|);
    Record(at, F.RecordImage(record + behind[..Padded(at, |record|) - |record|], Unit(at)))
  }

  lemma NewRecordOk(record: seq<Word>, behind: seq<Word>, at: nat, primary_len: nat)
    requires CanBePut(record, behind, at, primary_len)
    ensures var r := NewRecord(record, behind, at, primary_len);
      && RecordOk(r, primary_len) && Aligned(r.Next()) && 0 <= Unit(r.Next()) < WORD && r.Next() < 0x8000_0000
      && r.Type() == record[0] / 0x100_0000 && r.words[2..|record|] == record[2..]
      && 2 <= |r.words| < 0x200_0000 && 0 <= Unit(at) < WORD && r.addr == at >= 1
      && 0 <= |r.words| - |record| <= |behind| && |r.words| == Padded(at, |record|)
      && r.words == F.RecordImage(record + behind[..|r.words| - |record|], Unit(at))
  {
    hide Aligned, Padded, F.RecordImage, IdTyp, Lng;
    PaddedBounds(at, |record|);
    var filled := record + behind[..Padded(at, |record|) - |record|];
    ImageWords(filled, Unit(at));
    assert filled[2..][..|record| - 2] == record[2..];
    var image := F.RecordImage(filled, Unit(at));
    assert image[2..|record|] == image[2..][..|record| - 2];
  }

  lemma ImageWords(ws: seq<Word>, unit: nat)
    requires 2 <= |ws| < 0x200_0000 && |ws| % 2 == 0 && unit < WORD && ws[0] / 0x100_0000 < 0x100
    ensures var image := F.RecordImage(ws, unit);
      && IdTyp(image[0]) == ws[0] / 0x100_0000 && 2 * Lng(image[0]) == |ws| && image[1] == unit
      && image[2..] == ws[2..]
  {
  }

  // ----- deletions -----

  /** A deleted record: type 255, all else as it was. */
  function Deleted(r: Record): (r': Record)
    ensures r'.addr == r.addr && |r'.words| == |r.words|
  {
    if r.words == [] then r else r.(words := [HeadWord(DELETED, Lng(r.words[0]))] + r.words[1..])
  }

  /** The type is 255, in the high byte of the first word, and nothing else has changed. */
  lemma DeletedIs(r: Record)
    requires r.words != []
    ensures var ws := Deleted(r).words;
      && Deleted(r).addr == r.addr && |ws| == |r.words|
      && ws[0] == 0xFF00_0000 + r.words[0] % 0x100_0000 && forall i :: 1 <= i < |ws| ==> ws[i] == r.words[i]
  {
  }

  /** One word of the disk is another one. */
  ghost predicate OneChanged(d: seq<Word>, d': seq<Word>, at: nat) {
    && 1 <= at <= |d| == |d'| && forall i :: 0 <= i < |d| && i != at - 1 ==> d'[i] == d[i]
  }

  lemma OnDiskElsewhere(d: seq<Word>, d': seq<Word>, at: nat, ws: seq<Word>, changed: nat)
    requires OnDisk(d, at, ws) && OneChanged(d, d', changed) && (changed < at || at + |ws| <= changed)
    ensures OnDisk(d', at, ws)
  {
    assert d'[at - 1..at - 1 + |ws|] == d[at - 1..at - 1 + |ws|];
  }

  lemma StoredElsewhere(d: seq<Word>, d': seq<Word>, r: Record, at: nat)
    requires Stored(d, r) && OneChanged(d, d', at) && (at < r.addr || r.Next() <= at)
    ensures Stored(d', r)
  {
    hide OnDisk, Postfix, Lng, OneChanged;
    OnDiskElsewhere(d, d', r.addr, r.words, at);
    var w: Word :| Lng(w) == Lng(r.words[0]) && OnDisk(d, r.End(), Postfix(w, r.words[1]));
    OnDiskElsewhere(d, d', r.End(), Postfix(w, r.words[1]), at);
  }

  lemma StoredDeleted(d: seq<Word>, d': seq<Word>, r: Record)
    requires Stored(d, r) && OneChanged(d, d', r.addr) && d'[r.addr - 1] == HeadWord(DELETED, Lng(r.words[0]))
    ensures Stored(d', Deleted(r))
  {
    hide Postfix, HeadWord;
    var w: Word :| Lng(w) == Lng(r.words[0]) && OnDisk(d, r.End(), Postfix(w, r.words[1]));
    OnDiskElsewhere(d, d', r.End(), Postfix(w, r.words[1]), r.addr);
    var ws := Deleted(r).words;
    forall i | 0 <= i < |ws| ensures d'[r.addr - 1..r.addr - 1 + |ws|][i] == ws[i] {
      assert d[r.addr - 1..r.addr - 1 + |r.words|][i] == r.words[i];
    }
    assert d'[r.addr - 1..r.addr - 1 + |ws|] == ws;
  }

  /** Deleting a record leaves every other one, and the file as well laid out as it was. */
  lemma DeletedIsLaid(d: seq<Word>, d': seq<Word>, rs: seq<Record>, first: nat, primary_len: nat, nxtadr: nat, m: nat)
    requires Laid(d, rs, first, primary_len, nxtadr) && m < |rs| && rs[m].words != []
    requires OneChanged(d, d', rs[m].addr) && d'[rs[m].addr - 1] == HeadWord(DELETED, Lng(rs[m].words[0]))
    ensures Laid(d', rs[m := Deleted(rs[m])], first, primary_len, nxtadr)
  {
    hide Stored, OneChanged, Deleted, HeadWord, Aligned;
    var rs' := rs[m := Deleted(rs[m])];
    forall k | 0 <= k <= |rs| ensures Start(rs', first, k) == Start(rs, first, k) {
    }
    forall k | 0 <= k < |rs| ensures Placed(d', rs', first, primary_len, k) {
      assert Placed(d, rs, first, primary_len, k);
      if k == m {
        StoredDeleted(d, d', rs[m]);
        DeletedOk(rs[m], primary_len);
      } else {
        RecordWords(d, rs, first, primary_len, nxtadr, m);
        if k < m { StartsRise(d, rs, first, primary_len, k, m); } else { StartsRise(d, rs, first, primary_len, m, k); }
        StoredElsewhere(d, d', rs[k], rs[m].addr);
      }
    }
    RecordWords(d, rs, first, primary_len, nxtadr, m);
    StartsRise(d, rs, first, primary_len, 0, m);
    StartsRise(d, rs, first, primary_len, m, |rs|);
    EndsKept(d, d', rs, first, primary_len, nxtadr, rs[m].addr);
  }

  lemma DeletedOk(r: Record, primary_len: nat)
    requires RecordOk(r, primary_len)
    ensures RecordOk(Deleted(r), primary_len)
  {
    hide Aligned;
  }

  lemma EndsKept(d: seq<Word>, d': seq<Word>, rs: seq<Record>, first: nat, primary_len: nat, nxtadr: nat, at: nat)
    requires Headed(d, first, primary_len) && Ended(d, nxtadr, rs == []) && OneChanged(d, d', at)
      && first <= at < nxtadr
    ensures Headed(d', first, primary_len) && Ended(d', nxtadr, rs == [])
  {
  }

  /** Of the records that a search found, those before a record that is deleted are found, and no others. */
  lemma DeletionHides(rs: seq<Record>, m: nat, primary_len: nat, target: seq<Word>, mask: seq<Word>)
    requires m < |rs| && rs[m].words != []
    ensures var hits, hits' := Hits(rs, 0, primary_len, target, mask),
        Hits(rs[m := Deleted(rs[m])], 0, primary_len, target, mask);
      forall i: nat :: i in hits' <==> i in hits && i < m
  {
    hide Hits, Selected, Deleted;
    var rs' := rs[m := Deleted(rs[m])];
    HitsAreTheMatches(rs, 0, primary_len, target, mask);
    HitsAreTheMatches(rs', 0, primary_len, target, mask);
    DeletedStops(rs[m]);
    StopsNoMatch(rs'[m], primary_len, target, mask);
    forall i: nat | i < m ensures Clear(rs', 0, i) <==> Clear(rs, 0, i) {
      assert forall j :: 0 <= j < i ==> rs'[j] == rs[j];
    }
    forall i: nat | m < i < |rs| ensures !Clear(rs', 0, i) {
      assert Stops(rs'[m]);
    }
  }

  lemma DeletedStops(r: Record)
    requires r.words != []
    ensures Stops(Deleted(r))
  {
  }

  lemma RecordOnDisk(d: seq<Word>, rs: seq<Record>, first: nat, primary_len: nat, nxtadr: nat, m: nat)
    requires Laid(d, rs, first, primary_len, nxtadr) && m < |rs|
    ensures |rs[m].words| >= 2 && rs[m].addr == AddressOf(rs[m].words[1]) >= 1
    ensures rs[m].addr - 1 + |rs[m].words| <= |d|
    ensures forall i :: 0 <= i < |rs[m].words| ==> d[rs[m].addr - 1 + i] == rs[m].words[i]
  {
    hide Aligned, Lng;
    assert Placed(d, rs, first, primary_len, m);
    var r := rs[m];
    forall i | 0 <= i < |r.words| ensures d[r.addr - 1 + i] == r.words[i] {
      assert d[r.addr - 1..r.addr - 1 + |r.words|][i] == r.words[i];
    }
  }

  // ----- skips -----

  /** Where a skip of n records comes to: it stops at an end mark and at a type that is one. */
  function SkipTo(rs: seq<Record>, k: nat, n: nat): (m: nat)
    requires k <= |rs|
    ensures k <= m <= |rs| && m <= k + n
    decreases n
  {
    if n == 0 || k == |rs| || 112 <= rs[k].Type() <= EOF_TYPE then k else SkipTo(rs, k + 1, n - 1)
  }

  /** A skip ends after n records, behind the last one, or at the first record whose type is from 112 to 127. */
  lemma {:induction false} SkipToIs(rs: seq<Record>, k: nat, n: nat)
    requires k <= |rs|
    ensures var m := SkipTo(rs, k, n);
      && k <= m <= |rs| && m <= k + n && (forall j :: k <= j < m ==> !(112 <= rs[j].Type() <= 127))
      && (m == k + n || m == |rs| || 112 <= rs[m].Type() <= 127)
    decreases n
  {
    hide Record.Type;
    if n > 0 && k < |rs| && !(112 <= rs[k].Type() <= EOF_TYPE) { SkipToIs(rs, k + 1, n - 1); }
  }

  /** The postfix of a record, as a reader finds it: it gives the way back. */
  lemma PostfixWords(d: seq<Word>, rs: seq<Record>, first: nat, primary_len: nat, nxtadr: nat, k: nat)
    requires Laid(d, rs, first, primary_len, nxtadr) && k < |rs|
    ensures var e := rs[k].End();
      && 1 <= e && e + 3 <= |d| && d[e - 1] == HeadWord(0, 2) && d[e] == NO_ADDRESS && d[e + 2] == Unit(rs[k].addr)
    ensures rs[k].addr == AddressOf(Unit(rs[k].addr)) && rs[k].Next() == Start(rs, first, k + 1) && first >= 17
    ensures first <= rs[k].addr < rs[k].End()
  {
    hide Aligned, Lng, HeadWord;
    assert Placed(d, rs, first, primary_len, k);
    StartsRise(d, rs, first, primary_len, 0, k);
    var r := rs[k];
    var w: Word :| Lng(w) == Lng(r.words[0]) && OnDisk(d, r.End(), Postfix(w, r.words[1]));
    var ws := d[r.End() - 1..r.End() + 3];
    assert ws == Postfix(w, r.words[1]);
    assert ws[0] == d[r.End() - 1] && ws[1] == d[r.End()] && ws[3] == d[r.End() + 2];
  }

  /** In front of the first record there is no postfix. */
  lemma NoPostfix(d: seq<Word>, rs: seq<Record>, first: nat, primary_len: nat, nxtadr: nat)
    requires Laid(d, rs, first, primary_len, nxtadr)
    ensures 17 <= first <= |d| + 1 && d[first - 4] != NO_ADDRESS && Start(rs, first, 0) == first
  {
  }

  lemma {:induction false} StartsDiffer(d: seq<Word>, rs: seq<Record>, first: nat, primary_len: nat, j: nat, k: nat)
    requires Chain(d, rs, first, primary_len) && j < k <= |rs|
    ensures Start(rs, first, j) < Start(rs, first, k)
  {
    StartsRise(d, rs, first, primary_len, j, k);
    assert Placed(d, rs, first, primary_len, j);
  }

  class SequentialFile {
    const file_index: nat
    const primary_len: nat
    const first: nat                // the address behind the file header
    var rwflg: F.Mode
    var disk: seq<Word>
    var cur_addr: nat               // of searches, skips and puts
    var seq_bof: nat                // where a search of the whole file starts: 1 when the file has been created
    var nxtadr: int
    var fsiz: nat
    var nrec: int
    var nxtn: nat
    var nbig: nat
    var neff: nat
    var valid_pos: bool
    var head_keys: seq<Word>        // the first words of what was read last
    var valid_target: bool
    var target: seq<Word>
    var cur_mask: seq<Word>
    ghost var records: seq<Record>  // from the start of the file to the end mark

    /** Where the end mark is, or the end of the disk. */
    ghost function EndAddress(): nat
      reads this
    {
      Start(records, first, |records|)
    }

    ghost predicate Valid()
      reads this
    {
      && file_index < 0x80 && primary_len >= 1
      && Laid(disk, records, first, primary_len, EndAddress()) && EndAddress() < 0x8000_0000
      && |head_keys| == 2 * primary_len && (|disk| == EndAddress() - 1 ==> IdTyp(head_keys[0]) == 0)
      && (seq_bof == 1 || seq_bof == first)
      && (valid_target ==> |target| == |cur_mask| == 2 * primary_len)
    }

    /** c_xdfopn with CREATE: the file has its header and nothing else. */
    constructor (file_index: nat, primary_len: nat, header: seq<Word>)
      requires file_index < 0x80 && 1 <= primary_len && 16 <= |header| < 0x80_0000 && 2 * primary_len <= |header|
      requires IdTyp(header[0]) == 0 && 2 * Lng(header[0]) == |header| && header[|header| - 3] != NO_ADDRESS
      ensures Valid() && records == [] && this.file_index == file_index && this.primary_len == primary_len
      ensures disk == header && first == cur_addr == |header| + 1 && seq_bof == 1 && rwflg == F.CREATE
      ensures !valid_pos && !valid_target
    {
      this.file_index, this.primary_len, first := file_index, primary_len, |header| + 1;
      rwflg, disk, cur_addr, seq_bof, nxtadr := F.CREATE, header, |header| + 1, 1, |header| + 1;
      fsiz, nrec, nxtn, nbig, neff := |header| / 2, 0, 0, 0, 0;
      valid_pos, head_keys, valid_target := false, seq(2 * primary_len, i => 0), false;
      target, cur_mask, records := [], [], [];
    }

    /**
      c_xdfopn on a file that is there: its header says where the first record is. nxtadr comes from fsiz, which does
      not count the postfixes.
     */
    method Reopen(mode: F.Mode)
      requires Valid() && mode != F.CREATE
      modifies this`rwflg, this`cur_addr, this`seq_bof, this`nxtadr, this`valid_pos, this`head_keys, this`valid_target
      ensures Valid() && rwflg == mode && cur_addr == seq_bof == first && !valid_pos && !valid_target
      ensures nxtadr == 2 * fsiz + 1
    {
      hide Chain, Aligned;
      var wdaddress := 1 + 2 * Lng(disk[0]);
      rwflg, cur_addr, seq_bof, nxtadr := mode, wdaddress, wdaddress, 2 * fsiz + 1;
      valid_pos, head_keys, valid_target := false, seq(2 * primary_len, i => 0), false;
    }

    /** The words at the cursor, as many as the keys of a record, when the next record is number k. */
    method ReadHead(ghost k: nat) returns (nw: nat)
      requires Valid() && Before(records, first, cur_addr, k)
      modifies this`head_keys
      ensures Valid() && HeadTells(disk, records, first, primary_len, EndAddress(), cur_addr, k, nw, head_keys)
    {
      hide Laid, HeadTells, Start, ReadAt;
      HeadIsRead(disk, records, first, primary_len, EndAddress(), cur_addr, k, head_keys);
      var ws := ReadAt(disk, cur_addr, 2 * primary_len);
      nw := |ws|;
      head_keys := ws + head_keys[nw..];
    }

    /** At the mark, or at the last postfix and so close to the end that fewer words can be read than are asked for. */
    ghost predicate AtEnd()
      reads this
    {
      cur_addr == EndAddress() || (records != [] && cur_addr == records[|records| - 1].End()
        && cur_addr - 1 + 2 * primary_len > |disk|)
    }

    /** A search is over at record m: a match, a type that stops it, or behind the last record. */
    ghost predicate Over(m: nat, handle: int)
      reads this
    {
      && m <= |records|
      && if m < |records| && !Stops(records[m]) then
           && Selected(records[m], primary_len, target, cur_mask)
           && handle == records[m].Handle(file_index) && cur_addr == Start(records, first, m + 1)
           && valid_pos && head_keys == records[m].Keys(primary_len)
         else
           && handle == F.ERR_NOT_FOUND && !valid_pos
           && if m == |records| then AtEnd()
              else cur_addr == records[m].addr + if records[m].Type() < EOF_TYPE then 2 else 0
    }

    /** One round of the loop of next_match. */
    method Look(ghost k: nat) returns (more: bool, handle: int)
      requires Valid() && valid_target && !valid_pos && Before(records, first, cur_addr, k)
      modifies this`cur_addr, this`head_keys, this`valid_pos
      ensures Valid()
      ensures more ==> !valid_pos && old(cur_addr) < cur_addr && old(cur_addr) <= |disk| + 1
      ensures more && old(cur_addr) != Start(records, first, k) ==> cur_addr == Start(records, first, k)
      ensures more && old(cur_addr) == Start(records, first, k) ==>
        Before(records, first, cur_addr, k + 1) && !Stops(records[k])
        && !Selected(records[k], primary_len, target, cur_mask)
      ensures !more ==> Over(k, handle)
    {
      hide Laid, RecordOk, Selected, D.Matches, MakeSeqHandle, Lng, IdTyp;
      var nw := ReadHead(k);
      ghost var between := cur_addr != Start(records, first, k);
      if !between && k < |records| {
        KeysTell(records, first, primary_len, k, head_keys, target, cur_mask);
      }
      if IdTyp(head_keys[0]) >= 112 || nw < 2 * primary_len {
        if IdTyp(head_keys[0]) >= 112 && IdTyp(head_keys[0]) < 127 { cur_addr := cur_addr + 2; }
        return false, F.ERR_NOT_FOUND;
      }
      if IdTyp(head_keys[0]) < 1 {
        cur_addr := cur_addr + 2 * Lng(head_keys[0]);
        return true, 0;
      }
      var found := D.CompareWords(head_keys, target, cur_mask);
      var addr_match := cur_addr;
      cur_addr := cur_addr + 2 * Lng(head_keys[0]) + 4;
      if found {
        valid_pos := true;
        return false, MakeSeqHandle(addr_match, file_index);
      }
      return true, 0;
    }

    /**
      next_match in a sequential file, from before record k on: it ends at the first record that matches or that has a
      type of 112 or more. The latter, deleted records among them, are taken for the end of the file.
     */
    method NextMatch(ghost k: nat) returns (handle: int)
      requires Valid() && valid_target && Before(records, first, cur_addr, k)
      modifies this`cur_addr, this`head_keys, this`valid_pos
      ensures Valid() && Over(Reached(records, k, primary_len, target, cur_mask), handle)
    {
      hide Laid, Selected, Stops;
      ghost var m, j := Reached(records, k, primary_len, target, cur_mask), k;
      valid_pos, handle := false, 0;
      var more := true;
      while more
        invariant Valid() && valid_target
        invariant more ==> !valid_pos && Before(records, first, cur_addr, j)
        invariant more ==> m == Reached(records, j, primary_len, target, cur_mask)
        invariant !more ==> Over(m, handle)
        decreases more, |disk| + 1 - cur_addr
      {
        ghost var at := cur_addr;
        more, handle := Look(j);
        if more {
          if at == Start(records, first, j) { j := j + 1; }
        } else {
          OverIsReached(j, handle);
        }
      }
    }

    lemma OverIsReached(k: nat, handle: int)
      requires Over(k, handle)
      ensures Reached(records, k, primary_len, target, cur_mask) == k
    {
      hide Selected;
    }

    /** The words of a record go to the cursor, then its postfix and the end mark. */
    method PutWords(image: seq<Word>, ghost k: nat)
      requires Valid() && k <= |records| && cur_addr == Start(records, first, k)
      requires var r := Record(cur_addr, image);
        RecordOk(r, primary_len) && Aligned(r.Next()) && 0 <= Unit(r.Next()) < WORD && r.Next() < 0x8000_0000
      modifies this`disk, this`cur_addr, this`nxtadr, this`records
      ensures Valid() && records == old(records)[..k] + [Record(old(cur_addr), image)]
      ensures cur_addr == nxtadr == EndAddress() == old(cur_addr) + |image| + 4
      ensures PutTraced(old(disk), disk, Record(old(cur_addr), image))
    {
      hide Unit, Written, Postfix, HeadWord, RecordOk, Laid, Aligned;
      StartOnDisk(disk, records, first, primary_len, EndAddress(), k);
      ghost var d, r := disk, Record(cur_addr, image);
      RecordSize(r, primary_len);
      PutIsLaid(d, records, first, primary_len, EndAddress(), k, r, Unit(r.Next()));
      disk := Written(disk, cur_addr, image);
      cur_addr := cur_addr + |image|;
      disk := Written(disk, cur_addr, Postfix(image[0], image[1]));
      cur_addr := cur_addr + 4;
      nxtadr, records := cur_addr, records[..k] + [r];
      disk := Written(disk, cur_addr, [HeadWord(EOF_TYPE, 1), Unit(cur_addr)]);
      BehindMark(disk, records, first, primary_len, EndAddress());
    }

    /**
      c_xdfput with handle 0, at the start of record k. The record is lengthened so that the next one is aligned; the
      records from k on are gone.
     */
    method Append(record: seq<Word>, behind: seq<Word>, ghost k: nat) returns (err: int)
      requires Valid() && k <= |records| && cur_addr == Start(records, first, k)
      requires |record| % 2 == 0 ==> CanBePut(record, behind, cur_addr, primary_len)
      modifies this`disk, this`cur_addr, this`nxtadr, this`nrec, this`nxtn, this`fsiz, this`nbig, this`records
      ensures err == if |record| % 2 != 0 then F.ERR_BAD_ADDR else if old(rwflg) == F.RDMODE then F.ERR_NO_WRITE else 0
      ensures Valid() && (err != 0 ==> unchanged(this))
      ensures err == 0 ==> var r := NewRecord(record, behind, old(cur_addr), primary_len);
        && records == old(records)[..k] + [r] && cur_addr == nxtadr == EndAddress() == r.Next()
        && nrec == old(nrec) + 1 && nxtn == old(nxtn) + 1 && fsiz == old(fsiz) + |r.words| / 2
        && nbig == if |r.words| / 2 > old(nbig) then |r.words| / 2 else old(nbig)
      ensures err == 0 ==> PutTraced(old(disk), disk, NewRecord(record, behind, old(cur_addr), primary_len))
    {
      hide Laid, RecordOk, CanBePut, NewRecord, F.RecordImage, NextClusterAddr, PutOnDisk, Unit, Aligned;
      var nwords := |record|;
      if nwords % 2 != 0 { return F.ERR_BAD_ADDR; }
      if rwflg == F.RDMODE { return F.ERR_NO_WRITE; }
      NewRecordOk(record, behind, cur_addr, primary_len);
      var write_addr := cur_addr;
      var next_cluster_addr := NextClusterAddr(cur_addr, nwords);
      nwords := next_cluster_addr - cur_addr - 4 + 1;
      var image := F.RecordImage(record + behind[..nwords - |record|], Unit(write_addr));
      PutWords(image, k);
      nrec, nxtn, fsiz, nbig := nrec + 1, nxtn + 1, fsiz + nwords / 2, if nwords / 2 > nbig then nwords / 2 else nbig;
      return 0;
    }

    /** A handle c_xdfloc2 takes. */
    predicate HandleOk(handle: int) {
      handle >= -1 && (handle > 0 ==> handle % 0x80 == file_index)
    }

    /** The record a search with this handle looks at first: the first one, the one behind the handle's, the next. */
    ghost predicate StartsAt(handle: int, k: nat)
      reads this
    {
      && k <= |records| && (handle == 0 ==> k == 0) && (handle == -1 ==> Before(records, first, cur_addr, k))
      && (handle > 0 ==> k >= 1 && AddressFromHandle(handle) == records[k - 1].addr)
    }

    /** Which handles are taken, and where a search with a handle starts: behind the record at its address. */
    lemma StartsAtIs(handle: int, k: nat)
      requires Valid() && k <= |records|
      ensures HandleOk(handle) <==> handle == -1 || handle == 0 || (handle > 0 && handle % 128 == file_index)
      ensures handle > 0 ==> (StartsAt(handle, k) <==> k > 0 && AddressFromHandle(handle) == records[k - 1].addr)
      ensures handle == 0 ==> (StartsAt(handle, k) <==> k == 0)
      ensures handle == -1 ==>
        (StartsAt(handle, k) <==>
          cur_addr == Start(records, first, k)
            || cur_addr == if k == 0 then 1 else records[k - 1].addr + |records[k - 1].words|)
    {
      hide AddressFromHandle, Laid;
    }

    /** How a search ends: on a record found, at a record whose type stops it, or behind the last one. */
    lemma OverIs(m: nat, handle: int)
      requires Over(m, handle)
      ensures m <= |records|
      ensures m < |records| && records[m].Type() < 112 ==>
        && handle == records[m].Handle(file_index) && valid_pos
        && cur_addr == records[m].addr + |records[m].words| + 4 && 1 <= records[m].Type()
        && Agrees(records[m], target, cur_mask)
      ensures m == |records| || records[m].Type() >= 112 ==> handle == -12 && !valid_pos
      ensures m < |records| && 112 <= records[m].Type() < 127 ==> cur_addr == records[m].addr + 2
      ensures m < |records| && records[m].Type() >= 127 ==> cur_addr == records[m].addr
      ensures m == |records| ==> AtEnd()
    {
      hide D.Matches, Agrees, MakeSeqHandle;
      if m < |records| && records[m].Type() < 112 { SelectedAgrees(records[m], primary_len, target, cur_mask); }
    }

    /** c_xdfloc2 in a sequential file. */
    method XdfLoc2(handle: int, criteria: F.Criteria, ghost k: nat) returns (found: int)
      requires Valid() && (HandleOk(handle) ==> StartsAt(handle, k))
      requires criteria.NewTarget? ==> |criteria.keys| == |criteria.mask| == 2 * primary_len
      modifies this`cur_addr, this`head_keys, this`valid_pos, this`valid_target, this`target, this`cur_mask
      ensures Valid()
      ensures !HandleOk(handle) ==> found == F.ERR_BAD_HNDL && unchanged(this)
      ensures HandleOk(handle) ==>
        if criteria.NewTarget? then valid_target && target == criteria.keys && cur_mask == criteria.mask
        else unchanged(`valid_target, `target, `cur_mask)
      ensures HandleOk(handle) && !valid_target ==> found == F.ERR_NO_TARGET && Before(records, first, cur_addr, k)
      ensures HandleOk(handle) && valid_target ==> Over(Reached(records, k, primary_len, target, cur_mask), found)
    {
      hide Laid, Over, Reached, AddressFromHandle;
      if handle > 0 {
        if handle % 0x80 != file_index { return F.ERR_BAD_HNDL; }
        RecordWords(disk, records, first, primary_len, EndAddress(), k - 1);
        cur_addr := AddressFromHandle(handle);
        cur_addr := cur_addr + 2 * Lng(disk[cur_addr - 1]);
      } else if handle == 0 {
        cur_addr := seq_bof;
        FirstStart(disk, records, first, primary_len, EndAddress());
      } else if handle != -1 {
        return F.ERR_BAD_HNDL;
      }
      if criteria.NewTarget? {
        target, cur_mask, valid_target := criteria.keys, criteria.mask, true;
      }
      if !valid_target { return F.ERR_NO_TARGET; }
      found := NextMatch(k);
    }

    /** A search from handle 0, repeated from the cursor until nothing more is found. */
    method SearchAll(keys: seq<Word>, mask: seq<Word>) returns (handles: seq<int>)
      requires Valid() && |keys| == |mask| == 2 * primary_len
      modifies this`cur_addr, this`head_keys, this`valid_pos, this`valid_target, this`target, this`cur_mask
      ensures Valid() && HandlesOf(handles, records, Hits(records, 0, primary_len, keys, mask), file_index)
      ensures forall m: nat :: m < |records| ==> (m in Hits(records, 0, primary_len, keys, mask) <==>
        1 <= records[m].Type() && Agrees(records[m], keys, mask)
        && forall j :: 0 <= j <= m ==> records[j].Type() < 112)
    {
      HitsOfFile(keys, mask);
      hide Laid, Reached, Hits, Record.Handle, Record.Type, Selected, Stops, HandlesOf, Agrees;
      NoHandles(records, file_index);
      ghost var m, hits: seq<nat> := Reached(records, 0, primary_len, keys, mask), [];
      handles := [];
      HitsFromReached(records, 0, primary_len, keys, mask);
      var found := XdfLoc2(0, F.NewTarget(keys, mask), 0);
      HandlesAreGood();
      while found != F.ERR_NOT_FOUND
        invariant Valid() && valid_target && target == keys && cur_mask == mask && m <= |records| && Over(m, found)
        invariant Hits(records, 0, primary_len, keys, mask) == hits + HitsFrom(records, m, primary_len, keys, mask)
        invariant HandlesOf(handles, records, hits, file_index)
        decreases |records| - m
      {
        HandleAdded(handles, records, hits, file_index, m);
        HitAdded(records, hits, m, primary_len, keys, mask);
        handles, hits := handles + [found], hits + [m];
        HitsFromReached(records, m + 1, primary_len, keys, mask);
        ghost var next := m + 1;
        m := Reached(records, m + 1, primary_len, keys, mask);
        found := XdfLoc2(-1, F.SameTarget, next);
      }
      assert hits + [] == hits;
    }

    lemma HitsOfFile(keys: seq<Word>, mask: seq<Word>)
      requires Valid() && |keys| == |mask| == 2 * primary_len
      ensures forall m: nat :: m < |records| ==> (m in Hits(records, 0, primary_len, keys, mask) <==>
        1 <= records[m].Type() && Agrees(records[m], keys, mask)
        && forall j :: 0 <= j <= m ==> records[j].Type() < 112)
    {
      hide Chain, Agrees, Hits;
      HitsAgree(disk, records, first, primary_len, keys, mask);
    }

    lemma HandlesAreGood()
      ensures forall k :: 0 <= k < |records| ==> records[k].Handle(file_index) >= 0
    {
      hide MakeSeqHandle;
    }

    /** Every record of the file has a handle of its own, from which its address comes back. */
    lemma HandlesInvert(k: nat)
      requires Valid() && k < |records| && (records[k].addr - 1) / 2 < 0x1000_0000
      ensures AddressFromHandle(records[k].Handle(file_index)) == records[k].addr
      ensures records[k].Handle(file_index) % 0x80 == file_index
    {
      hide AddressFromHandle, MakeSeqHandle;
      assert Placed(disk, records, first, primary_len, k);
      HandleRoundTrip(records[k].addr, file_index);
    }

    /** c_fstrwd */
    method Rewind()
      requires Valid()
      modifies this`cur_addr, this`valid_pos
      ensures Valid() && !valid_pos && cur_addr == seq_bof && Before(records, first, cur_addr, 0)
    {
      hide Laid;
      FirstStart(disk, records, first, primary_len, EndAddress());
      cur_addr, valid_pos := seq_bof, false;
    }

    /** The error c_xdfdel reports for a record, or 0. */
    function DeleteError(r: Record): int
      reads this
    {
      if rwflg == F.RDMODE || rwflg == F.APPEND then F.ERR_RDONLY
      else if r.Type() == 0 then F.ERR_SPECIAL
      else if D.MarkedDeleted(r.Type()) then F.ERR_DELETED
      else 0
    }

    /** Which deletions are refused: of a file not written, of type 0, and of the types that mark deleted records. */
    lemma DeleteErrorIs(r: Record)
      requires r.Type() < 256
      ensures var err := DeleteError(r);
        && (err == -22 <==> rwflg == F.RDMODE || rwflg == F.APPEND)
        && (rwflg != F.RDMODE && rwflg != F.APPEND ==>
          && (err == -10 <==> r.Type() == 0)
          && (err == -11 <==> r.Type() in {126, 127, 254, 255})
          && (err == 0 <==> r.Type() !in {0, 126, 127, 254, 255}))
    {
      hide D.MarkedDeleted;
      F.DeletedTypes(r.Type());
    }

    /** c_xdfdel for the handle of record m. */
    method Delete(handle: nat, ghost m: nat) returns (err: int)
      requires Valid() && m < |records| && AddressFromHandle(handle) == records[m].addr
      modifies this`disk, this`neff, this`nrec, this`records
      ensures Valid() && err == old(DeleteError(records[m]))
      ensures err != 0 ==> unchanged(this)
      ensures err == 0 ==> records == old(records)[m := Deleted(old(records)[m])]
      ensures err == 0 ==> neff == old(neff) + 1 && nrec == old(nrec) - 1
    {
      hide Laid, AddressFromHandle, D.MarkedDeleted, Deleted, HeadWord, Lng, IdTyp;
      if rwflg == F.RDMODE || rwflg == F.APPEND { return F.ERR_RDONLY; }
      RecordWords(disk, records, first, primary_len, EndAddress(), m);
      var addr := AddressFromHandle(handle);
      var header := disk[addr - 1];
      if IdTyp(header) == 0 { return F.ERR_SPECIAL; }
      if D.MarkedDeleted(IdTyp(header)) { return F.ERR_DELETED; }
      ghost var d := disk;
      disk := disk[addr - 1 := HeadWord(DELETED, Lng(header))];
      DeletedIsLaid(d, disk, records, first, primary_len, EndAddress(), m);
      neff, nrec, records := neff + 1, nrec - 1, records[m := Deleted(records[m])];
      return 0;
    }

    /** One step forward of c_fstskp: over a record and its postfix. */
    method SkipOver(ghost k: nat) returns (err: int, more: bool)
      requires Valid() && k <= |records| && cur_addr == Start(records, first, k)
      modifies this`cur_addr
      ensures err == 0 && (more <==> k < |records| && !(112 <= records[k].Type() <= EOF_TYPE))
      ensures cur_addr == if more then Start(records, first, k + 1) else old(cur_addr)
    {
      hide Laid, HeadWord, Start;
      ReadEnd(disk, records, first, primary_len, EndAddress());
      if k < |records| {
        RecordWords(disk, records, first, primary_len, EndAddress(), k);
        PostfixWords(disk, records, first, primary_len, EndAddress(), k);
      }
      var nw := |ReadAt(disk, cur_addr, 2)|;
      if nw != 2 || (IdTyp(disk[cur_addr - 1]) >= 112 && IdTyp(disk[cur_addr - 1]) <= 127) { return 0, false; }
      cur_addr := cur_addr + 2 * Lng(disk[cur_addr - 1]);
      if disk[cur_addr - 1] != HeadWord(0, 2) || disk[cur_addr] != NO_ADDRESS { return ERR_NO_POSTFIX, false; }
      cur_addr := cur_addr + 4;
      return 0, true;
    }

    /** One step back: to the record that the postfix in front of the cursor names. */
    method SkipBack(ghost k: nat) returns (err: int)
      requires Valid() && k <= |records| && cur_addr == Start(records, first, k)
      modifies this`cur_addr
      ensures err == if k == 0 && seq_bof == 1 then ERR_NO_POSTFIX else 0
      ensures cur_addr == if k == 0 then old(cur_addr) else Start(records, first, k - 1)
    {
      hide Laid, HeadWord, Unit, Start;
      if k > 0 {
        RecordWords(disk, records, first, primary_len, EndAddress(), k - 1);
        PostfixWords(disk, records, first, primary_len, EndAddress(), k - 1);
      } else {
        NoPostfix(disk, records, first, primary_len, EndAddress());
      }
      if cur_addr - 4 > seq_bof {
        var postfix := cur_addr - 4;
        if disk[postfix - 1] != HeadWord(0, 2) || disk[postfix] != NO_ADDRESS { return ERR_NO_POSTFIX; }
        cur_addr := AddressOf(disk[postfix + 2]);
        if disk[cur_addr] != Unit(cur_addr) { return ERR_NO_POSTFIX; }
      }
      return 0;
    }

    /**
      c_fstskp: forward over n records, or back. In a file just created seq_bof is not where the first record is, and
      stepping back from there is an error.
     */
    method Skip(nrec: int, ghost k: nat) returns (err: int)
      requires Valid() && k <= |records| && cur_addr == Start(records, first, k)
      modifies this`cur_addr
      ensures nrec >= 0 ==> err == 0 && cur_addr == Start(records, first, SkipTo(records, k, nrec))
      ensures nrec < 0 && k + nrec >= 0 ==> err == 0 && cur_addr == Start(records, first, k + nrec)
      ensures k + nrec < 0 ==> err == (if seq_bof == 1 then ERR_NO_POSTFIX else 0) && cur_addr == first
    {
      hide Laid;
      err := 0;
      var i := 0;
      ghost var m := k;
      if nrec > 0 {
        var more := true;
        while i < nrec && more
          invariant 0 <= i <= nrec && k <= m <= |records| && cur_addr == Start(records, first, m) && err == 0
          invariant SkipTo(records, k, nrec) == if more then SkipTo(records, m, nrec - i) else m
          decreases nrec - i, more
        {
          err, more := SkipOver(m);
          if more { i, m := i + 1, m + 1; }
        }
      } else {
        while i < -nrec && err == 0
          invariant 0 <= i <= -nrec && 0 <= m <= k && cur_addr == Start(records, first, m)
          invariant err == 0 ==> m == if i <= k then k - i else 0
          invariant err != 0 ==> err == ERR_NO_POSTFIX && m == 0 && seq_bof == 1 && k + nrec < 0
          invariant i > k && seq_bof == 1 ==> err != 0
        {
          err := SkipBack(m);
          if m > 0 { m := m - 1; }
          i := i + 1;
        }
      }
    }

    /**
      Skipping forward and back again ends where it started exactly when no mark was met, or in front of the first
      record of a file that has been opened again.
     */
    method SkipThereAndBack(n: nat, ghost k: nat) returns (err: int)
      requires Valid() && k <= |records| && cur_addr == Start(records, first, k)
      modifies this`cur_addr
      ensures err == 0 && cur_addr == old(cur_addr)
        <==> SkipTo(records, k, n) == k + n || (k == 0 && seq_bof == first)
    {
      hide Laid;
      ghost var m := SkipTo(records, k, n);
      NoPostfix(disk, records, first, primary_len, EndAddress());
      err := Skip(n, k);
      err := Skip(-(n as int), m);
      if m - n >= 0 && m - n < k { StartsApart(m - n, k); }
      if m < n && k > 0 { StartsApart(0, k); }
    }

    lemma StartsApart(j: nat, k: nat)
      requires Valid() && j < k <= |records|
      ensures Start(records, first, j) < Start(records, first, k)
    {
      StartsDiffer(disk, records, first, primary_len, j, k);
    }

    /** The first words read last are those of record m. */
    ghost predicate PositionedAt(m: nat)
      reads this
    {
      && m < |records| && |records[m].words| >= 2 && |head_keys| >= 2
      && head_keys[1] == records[m].words[1] && 2 * Lng(head_keys[0]) == |records[m].words|
    }

    /** The error c_xdfget reports, or 0. */
    function GetError(handle: nat, nwords: nat): int
      requires |head_keys| >= 2
      reads this
    {
      if !valid_pos then F.ERR_NO_POS
      else if AddressFromHandle(handle) != AddressOf(head_keys[1]) then F.ERR_BAD_HNDL
      else if IdTyp(head_keys[0]) == 0 then F.ERR_SPECIAL
      else if D.MarkedDeleted(IdTyp(head_keys[0])) then F.ERR_DELETED
      else if 2 * Lng(head_keys[0]) > nwords + 1 then F.ERR_BAD_DIM
      else 0
    }

    /** Which reads are refused, by the last search, the handle, the type and the length of the record. */
    lemma GetErrorIs(handle: nat, nwords: nat)
      requires |head_keys| >= 2 && valid_pos
      ensures var err, idtyp, unit: int := GetError(handle, nwords), head_keys[0] / 0x100_0000, head_keys[1];
        && (err == -9 <==> AddressFromHandle(handle) != 2 * unit - 1)
        && (AddressFromHandle(handle) == 2 * unit - 1 ==>
          && (err == -10 <==> idtyp == 0)
          && (err == -11 <==> idtyp in {126, 127, 254, 255})
          && (idtyp !in {0, 126, 127, 254, 255} ==>
            err == if 2 * (head_keys[0] % 0x100_0000) > nwords + 1 then -19 else 0))
    {
      hide D.MarkedDeleted, AddressFromHandle;
      F.DeletedTypes(IdTyp(head_keys[0]));
    }

    /** c_xdfget, whole records: only the record that the last search stopped at can be read. */
    method Get(handle: nat, data: array<Word>, nwords: nat, ghost m: nat) returns (err: int)
      requires Valid() && nwords < data.Length
      requires valid_pos ==> PositionedAt(m)
      modifies data
      ensures |head_keys| >= 2 && err == GetError(handle, nwords)
      ensures err != 0 ==> data[..] == old(data[..])
      ensures err == 0 ==> PositionedAt(m) && |records[m].words| <= data.Length
      ensures err == 0 ==> data[..|records[m].words|] == records[m].words
      ensures err == 0 ==> forall k :: |records[m].words| <= k < data.Length ==> data[k] == old(data[k])
    {
      hide Laid, AddressFromHandle, D.MarkedDeleted, IdTyp, Lng;
      if !valid_pos { return F.ERR_NO_POS; }
      RecordOnDisk(disk, records, first, primary_len, EndAddress(), m);
      if AddressFromHandle(handle) != AddressOf(head_keys[1]) { return F.ERR_BAD_HNDL; }
      if IdTyp(head_keys[0]) == 0 { return F.ERR_SPECIAL; }
      if D.MarkedDeleted(IdTyp(head_keys[0])) { return F.ERR_DELETED; }
      var addr, lngw := AddressOf(head_keys[1]), 2 * Lng(head_keys[0]);
      if lngw > nwords + 1 { return F.ERR_BAD_DIM; }
      var i := 0;
      while i < lngw
        invariant 0 <= i <= lngw
        invariant forall k :: 0 <= k < i ==> data[k] == records[m].words[k]
        invariant forall k :: lngw <= k < data.Length ==> data[k] == old(data[k])
      {
        data[i] := disk[addr - 1 + i];
        i := i + 1;
      }
      return 0;
    }
  }

  // ----- runs -----

  /**
    A search that finds a record, and then a put: the cursor stands behind the record found, so the new record goes
    there, and all the records behind it are lost.
   */
  method FindAndPut(f: SequentialFile, keys: seq<Word>, mask: seq<Word>, record: seq<Word>, behind: seq<Word>)
    returns (found: int, err: int)
    requires f.Valid() && |keys| == |mask| == 2 * f.primary_len && f.rwflg != F.RDMODE
    requires var m := Reached(f.records, 0, f.primary_len, keys, mask);
      m < |f.records| ==> CanBePut(record, behind, Start(f.records, f.first, m + 1), f.primary_len)
    modifies f
    ensures f.Valid()
    ensures var m := Reached(old(f.records), 0, f.primary_len, keys, mask);
      if m < |old(f.records)| && !Stops(old(f.records)[m]) then
        && found == old(f.records)[m].Handle(f.file_index) && err == 0
        && f.records == old(f.records)[..m + 1]
          + [NewRecord(record, behind, Start(old(f.records), f.first, m + 1), f.primary_len)]
      else found == F.ERR_NOT_FOUND && f.records == old(f.records)
  {
    hide Laid, CanBePut, Reached, NewRecord, Record.Handle, Selected, Stops, PutTraced;
    err := 0;
    f.HandlesAreGood();
    ghost var m := Reached(f.records, 0, f.primary_len, keys, mask);
    found := f.XdfLoc2(0, F.NewTarget(keys, mask), 0);
    if found >= 0 {
      PutIsEven(record, behind, f.cur_addr, f.primary_len);
      err := f.Append(record, behind, m + 1);
    }
  }

  lemma PutIsEven(record: seq<Word>, behind: seq<Word>, at: nat, primary_len: nat)
    requires CanBePut(record, behind, at, primary_len)
    ensures |record| % 2 == 0
  {
  }

  /** Records of types that a search finds, short enough for a file of 2^29 words. */
  predicate Storable(puts: seq<seq<Word>>, primary_len: nat, longest: nat) {
    forall i :: 0 <= i < |puts| ==>
      && F.RecordOk(puts[i], primary_len) && |puts[i]| % 2 == 0 && |puts[i]| <= longest
      && 1 <= IdTyp(puts[i][0]) < 112
  }

  /** A record read, or on the file: the one put, with its length and address filled in, and lengthened. */
  predicate IsPut(ws: seq<Word>, put: seq<Word>) {
    && 2 <= |put| <= |ws| < |put| + 128
    && IdTyp(ws[0]) == IdTyp(put[0]) && 2 * Lng(ws[0]) == |ws| && ws[2..|put|] == put[2..]
  }

  ghost predicate AllPut(rs: seq<Record>, puts: seq<seq<Word>>) {
    |rs| <= |puts| && forall i :: 0 <= i < |rs| ==> IsPut(rs[i].words, puts[i])
  }

  lemma OneMorePut(rs: seq<Record>, puts: seq<seq<Word>>, behind: seq<Word>, at: nat, primary_len: nat, longest: nat)
    requires AllPut(rs, puts) && |rs| < |puts| && Storable(puts, primary_len, longest)
    requires CanBePut(puts[|rs|], behind, at, primary_len)
    ensures AllPut(rs + [NewRecord(puts[|rs|], behind, at, primary_len)], puts)
  {
    hide F.RecordOk, F.RecordImage, IdTyp, Lng, Aligned, RecordOk, NextClusterAddr;
    var put := puts[|rs|];
    NewRecordOk(put, behind, at, primary_len);
    NewRecordIsPut(put, behind, at, primary_len);
  }

  lemma NewRecordIsPut(put: seq<Word>, behind: seq<Word>, at: nat, primary_len: nat)
    requires CanBePut(put, behind, at, primary_len)
    ensures IsPut(NewRecord(put, behind, at, primary_len).words, put)
  {
    hide F.RecordImage, Aligned, Padded, Lng;
    NewRecordOk(put, behind, at, primary_len);
    PaddedBounds(at, |put|);
  }

  /** A mask of zeros lets every record through. */
  function Zeros(n: nat): (ws: seq<Word>)
    ensures |ws| == n && forall i :: 0 <= i < n ==> ws[i] == 0
  {
    seq(n, i => 0)
  }

  lemma AllSelected(r: Record, primary_len: nat)
    requires 1 <= r.Type() < 112 && |r.words| >= 2 * primary_len
    ensures Selected(r, primary_len, Zeros(2 * primary_len), Zeros(2 * primary_len)) && !Stops(r)
  {
    hide And, Xor;
    forall x: nat ensures And(x, 0) == 0 { NothingLeft(x); }
  }

  lemma NothingLeft(x: nat)
    ensures And(x, 0) == 0
  {
  }

  lemma TypeIsPut(ws: seq<Word>, puts: seq<seq<Word>>, i: nat, primary_len: nat, longest: nat)
    requires i < |puts| && Storable(puts, primary_len, longest) && IsPut(ws, puts[i])
    ensures 1 <= IdTyp(ws[0]) < 112 && |ws| >= 2 && |puts[i]| <= longest && |puts[i]| % 2 == 0
  {
    hide IdTyp, Lng, F.RecordOk;
  }

  /** The next record is put at the end. */
  method PutNext(f: SequentialFile, puts: seq<seq<Word>>, i: nat, behind: seq<Word>, ghost longest: nat)
    requires f.Valid() && f.cur_addr == f.EndAddress() && f.rwflg != F.RDMODE && |f.records| == i < |puts|
    requires AllPut(f.records, puts) && Storable(puts, f.primary_len, longest)
    requires |behind| >= 128 && longest + 128 <= 0x200_0000 && f.cur_addr + longest + 132 < 0x2000_0000
    modifies f
    ensures f.Valid() && f.cur_addr == f.EndAddress() && f.rwflg == old(f.rwflg) && |f.records| == i + 1
    ensures AllPut(f.records, puts) && f.cur_addr <= old(f.cur_addr) + longest + 132
  {
    hide Laid, Aligned, Storable, CanBePut, AllPut, NewRecord, PutTraced;
    ReadEnd(f.disk, f.records, f.first, f.primary_len, f.EndAddress());
    EndIsAligned(f.disk, f.records, f.first, f.primary_len, f.EndAddress());
    Fits(puts, i, behind, f.cur_addr, f.primary_len, longest);
    PutIsEven(puts[i], behind, f.cur_addr, f.primary_len);
    OneMorePut(f.records, puts, behind, f.cur_addr, f.primary_len, longest);
    ghost var rs := f.records;
    var err := f.Append(puts[i], behind, i);
    assert rs[..i] == rs;
  }

  /** All the records are put, one after the other. */
  method PutAll(f: SequentialFile, puts: seq<seq<Word>>, behind: seq<Word>, ghost longest: nat)
    requires f.Valid() && f.records == [] && f.cur_addr == f.EndAddress() && f.rwflg != F.RDMODE
    requires Storable(puts, f.primary_len, longest) && |behind| >= 128 && longest + 128 <= 0x200_0000
    requires f.cur_addr + (|puts| + 1) * (longest + 132) < 0x2000_0000
    modifies f
    ensures f.Valid() && |f.records| == |puts| && AllPut(f.records, puts) && f.EndAddress() < 0x2000_0000
  {
    hide Laid, Storable, IsPut;
    var i := 0;
    while i < |puts|
      invariant 0 <= i == |f.records| <= |puts| && f.Valid() && AllPut(f.records, puts) && f.rwflg != F.RDMODE
      invariant f.cur_addr == f.EndAddress() && f.cur_addr + (|puts| - i + 1) * (longest + 132) < 0x2000_0000
    {
      Fewer(|puts| - i + 1, longest + 132);
      PutNext(f, puts, i, behind, longest);
      i := i + 1;
    }
    Fewer(1, longest + 132);
  }

  lemma Fewer(n: nat, each: nat)
    requires n >= 1
    ensures n * each == each + (n - 1) * each && n * each >= each
  {
    assert (n - 1) * each >= 0;
  }

  lemma EndIsAligned(d: seq<Word>, rs: seq<Record>, first: nat, primary_len: nat, nxtadr: nat)
    requires Laid(d, rs, first, primary_len, nxtadr)
    ensures Aligned(nxtadr) && nxtadr % 2 == 1
  {
  }

  lemma Fits(puts: seq<seq<Word>>, i: nat, behind: seq<Word>, at: nat, primary_len: nat, longest: nat)
    requires i < |puts| && Storable(puts, primary_len, longest) && |behind| >= 128 && longest + 128 <= 0x200_0000
    requires Aligned(at) && at % 2 == 1 && at + longest + 132 < 0x2000_0000
    ensures CanBePut(puts[i], behind, at, primary_len)
    ensures var r := NewRecord(puts[i], behind, at, primary_len); r.Next() <= at + longest + 132
  {
    hide Aligned, F.RecordOk, IdTyp, Padded, F.RecordImage;
    PaddedBounds(at, |puts[i]|);
  }

  /** The records are searched for without criteria, and read as they are found. */
  method GetAll(f: SequentialFile, ghost puts: seq<seq<Word>>, ghost longest: nat) returns (back: seq<seq<Word>>)
    requires f.Valid() && |f.records| == |puts| && AllPut(f.records, puts) && f.EndAddress() < 0x2000_0000
    requires Storable(puts, f.primary_len, longest)
    modifies f
    ensures |back| == |puts| && forall i :: 0 <= i < |back| ==> IsPut(back[i], puts[i])
  {
    hide Laid, F.RecordOk, IsPut, Storable, Reached, Record.Handle, Selected, Stops, AddressFromHandle, Start;
    back := [];
    ghost var rs, pl := f.records, f.primary_len;
    var zeros := Zeros(2 * f.primary_len);
    NextIs(f, puts, longest, 0);
    f.HandlesAreGood();
    var found := f.XdfLoc2(0, F.NewTarget(zeros, zeros), 0);
    while found != F.ERR_NOT_FOUND
      invariant f.Valid() && f.records == rs && f.primary_len == pl && f.EndAddress() < 0x2000_0000
      invariant f.valid_target && f.target == f.cur_mask == Zeros(2 * pl)
      invariant |back| <= |rs| && f.Over(|back|, found) && (|back| < |rs| ==> !Stops(rs[|back|]))
      invariant forall i :: 0 <= i < |back| ==> IsPut(back[i], puts[i])
      decreases |rs| - |back|
    {
      var ws := GetOne(f, found, puts, longest, |back|);
      NextIs(f, puts, longest, |back| + 1);
      ghost var k := |back| + 1;
      back := back + [ws];
      found := f.XdfLoc2(-1, F.SameTarget, k);
    }
  }

  /** The record the file stands behind is the next of those put, and is found. */
  lemma NextIs(f: SequentialFile, puts: seq<seq<Word>>, longest: nat, k: nat)
    requires f.Valid() && |f.records| == |puts| && AllPut(f.records, puts) && k <= |puts|
    requires Storable(puts, f.primary_len, longest)
    ensures Reached(f.records, k, f.primary_len, Zeros(2 * f.primary_len), Zeros(2 * f.primary_len)) == k
    ensures k < |puts| ==> !Stops(f.records[k])
  {
    hide Laid, IsPut, Storable, Stops, Selected;
    if k < |puts| {
      TypeIsPut(f.records[k].words, puts, k, f.primary_len, longest);
      KeysThere(f.disk, f.records, f.first, f.primary_len, f.EndAddress(), k);
      AllSelected(f.records[k], f.primary_len);
    }
  }

  lemma KeysThere(d: seq<Word>, rs: seq<Record>, first: nat, primary_len: nat, nxtadr: nat, k: nat)
    requires Laid(d, rs, first, primary_len, nxtadr) && k < |rs|
    ensures |rs[k].words| >= 2 * primary_len && |rs[k].words| == 2 * Lng(rs[k].words[0])
    ensures 1 <= rs[k].addr < nxtadr && rs[k].words[1] == Unit(rs[k].addr)
  {
    hide Aligned, Lng;
    assert Placed(d, rs, first, primary_len, k);
    StartsRise(d, rs, first, primary_len, k, |rs|);
  }

  /** The record found is read. */
  method GetOne(f: SequentialFile, found: int, ghost puts: seq<seq<Word>>, ghost longest: nat, ghost k: nat)
    returns (ws: seq<Word>)
    requires f.Valid() && |f.records| == |puts| && AllPut(f.records, puts) && f.EndAddress() < 0x2000_0000
    requires Storable(puts, f.primary_len, longest) && found >= 0
    requires k < |f.records| && !Stops(f.records[k]) && f.Over(k, found)
    ensures IsPut(ws, puts[k])
  {
    hide Laid, IsPut, Storable, Stops, Selected, AddressFromHandle, MakeSeqHandle, Unit, Lng, IdTyp, D.MarkedDeleted;
    KeysThere(f.disk, f.records, f.first, f.primary_len, f.EndAddress(), k);
    TypeIsPut(f.records[k].words, puts, k, f.primary_len, longest);
    f.HandlesInvert(k);
    NotDeleted(IdTyp(f.records[k].words[0]));
    assert f.head_keys[0] == f.records[k].words[0] && f.head_keys[1] == f.records[k].words[1];
    var data := new Word[2 * Lng(f.head_keys[0]) + 1];
    RecordOnDisk(f.disk, f.records, f.first, f.primary_len, f.EndAddress(), k);
    var err := f.Get(found, data, 2 * Lng(f.head_keys[0]), k);
    ws := data[..2 * Lng(f.head_keys[0])];
  }

  lemma NotDeleted(idtyp: nat)
    requires 1 <= idtyp < 112
    ensures !D.MarkedDeleted(idtyp)
  {
  }

  /** Records put into a new file come back, in order, from a search of the whole file that reads what it finds. */
  method StoreAndReadBack(primary_len: nat, header: seq<Word>, puts: seq<seq<Word>>, behind: seq<Word>,
      ghost longest: nat)
    returns (back: seq<seq<Word>>)
    requires 1 <= primary_len && 16 <= |header| < 0x80_0000 && 2 * primary_len <= |header|
    requires IdTyp(header[0]) == 0 && 2 * Lng(header[0]) == |header| && header[|header| - 3] != NO_ADDRESS
    requires Storable(puts, primary_len, longest) && |behind| >= 128 && longest + 128 <= 0x200_0000
    requires |header| + 1 + (|puts| + 1) * (longest + 132) < 0x2000_0000
    ensures |back| == |puts| && forall i :: 0 <= i < |back| ==> IsPut(back[i], puts[i])
  {
    hide Laid, Storable, IsPut, AllPut;
    var f := new SequentialFile(1, primary_len, header);
    PutAll(f, puts, behind, longest);
    back := GetAll(f, puts, longest);
  }
}
