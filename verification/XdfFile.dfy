/**
  A random XDF file that is not linked: records behind directory pages, counters in the header, and a cursor for
  masked searches. The disk is a map from word addresses, from 1, to words.
 */
module XdfFile {
  import opened Words
  import opened XdfDirectory

  const ERR_NO_WRITE: int := -7
  const ERR_BAD_PAGENO: int := -8
  const ERR_BAD_HNDL: int := -9
  const ERR_SPECIAL: int := -10
  const ERR_DELETED: int := -11
  const ERR_NOT_FOUND: int := -12
  const ERR_BAD_ADDR: int := -18
  const ERR_BAD_DIM: int := -19
  const ERR_RDONLY: int := -22
  const ERR_NO_POS: int := -25
  const ERR_DIR_FULL: int := -28
  const ERR_NO_TARGET: int := -31

  datatype Mode = RDMODE | WMODE | CREATE | RWMODE | APPEND

  datatype Position = Nowhere | At(page: nat, record: nat)

  /** nprim == 0 keeps the target of the last search. */
  datatype Criteria = SameTarget | NewTarget(keys: seq<Word>, mask: seq<Word>)

  /** WDTO64 */
  function WdTo64(nwords: int): int { nwords / 2 }

  // ----- the disk -----

  function WordOf(disk: map<int, Word>, a: int): Word {
    if a in disk then disk[a] else 0
  }

  function DiskWords(disk: map<int, Word>, at: int, n: nat): (ws: seq<Word>)
    ensures |ws| == n && forall i :: 0 <= i < n ==> ws[i] == WordOf(disk, at + i)
  {
    if n == 0 then [] else DiskWords(disk, at, n - 1) + [WordOf(disk, at + n - 1)]
  }

  /** The words stored for an entry. */
  function Stored(disk: map<int, Word>, e: Entry): (ws: seq<Word>)
    ensures |ws| == 2 * e.lng && forall i :: 0 <= i < |ws| ==> ws[i] == WordOf(disk, WordAddr(e.addr) + i)
  {
    DiskWords(disk, WordAddr(e.addr), 2 * e.lng)
  }

  /** What c_wawrit does: words at consecutive addresses, all others as before. */
  ghost predicate WrittenAt(disk: map<int, Word>, before: map<int, Word>, at: int, ws: seq<Word>) {
    && (forall i :: 0 <= i < |ws| ==> WordOf(disk, at + i) == ws[i])
    && forall a :: a < at || a >= at + |ws| ==> WordOf(disk, a) == WordOf(before, a)
  }

  method WaWrit(before: map<int, Word>, at: int, ws: seq<Word>) returns (disk: map<int, Word>)
    ensures WrittenAt(disk, before, at, ws)
  {
    disk := before;
    var i := 0;
    while i < |ws|
      invariant 0 <= i <= |ws|
      invariant forall k :: 0 <= k < i ==> WordOf(disk, at + k) == ws[k]
      invariant forall a :: a < at || a >= at + i ==> WordOf(disk, a) == WordOf(before, a)
    {
      disk := disk[at + i := ws[i]];
      i := i + 1;
    }
  }

  lemma StoredElsewhere(disk: map<int, Word>, before: map<int, Word>, at: int, ws: seq<Word>, e: Entry)
    requires WrittenAt(disk, before, at, ws)
    requires WordAddr(e.addr) + 2 * e.lng <= at || at + |ws| <= WordAddr(e.addr)
    ensures Stored(disk, e) == Stored(before, e)
  {
    hide WordOf, WordAddr;
  }

  lemma StoredHere(disk: map<int, Word>, before: map<int, Word>, e: Entry, ws: seq<Word>)
    requires WrittenAt(disk, before, WordAddr(e.addr), ws) && |ws| == 2 * e.lng
    ensures Stored(disk, e) == ws
  {
    hide WordOf, WordAddr;
  }

  /** The words of a new directory page: its header, everything else zero. */
  function PageImage(primary_len: nat, addr: nat): (ws: seq<Word>)
    requires ENTRIES_PER_PAGE * primary_len + 4 < 0x100_0000 && addr < WORD
    ensures |ws| == PageWords(primary_len)
  {
    var head: Word, first: Word := ENTRIES_PER_PAGE * primary_len + 4, addr;
    Headed(head, first, seq(PageWords(primary_len) - 2, i => 0))
  }

  /** A new page starts with its length in units and its address, and holds no entry. */
  lemma PageImageIs(primary_len: nat, addr: nat)
    requires 256 * primary_len + 4 < 0x100_0000 && addr < WORD
    ensures var ws := PageImage(primary_len, addr);
      |ws| == 512 * primary_len + 8 && ws[0] == 256 * primary_len + 4 && ws[1] == addr
        && forall k :: 2 <= k < |ws| ==> ws[k] == 0
  {
  }

  lemma WordsWritten(disk: map<int, Word>, before: map<int, Word>, at: int, ws: seq<Word>)
    requires WrittenAt(disk, before, at, ws)
    ensures DiskWords(disk, at, |ws|) == ws
  {
    hide WordOf;
  }

  /** The words of every entry but number `n` are what they were. */
  ghost predicate SameStored(disk: map<int, Word>, before: map<int, Word>, es: seq<Entry>, n: int) {
    forall m :: 0 <= m < |es| && m != n ==> Stored(disk, es[m]) == Stored(before, es[m])
  }

  lemma StoredBehind(es: seq<Entry>, lo: int, hi: int, disk: map<int, Word>, before: map<int, Word>, ws: seq<Word>)
    requires Apart(es, lo, hi) && WrittenAt(disk, before, hi, ws)
    ensures SameStored(disk, before, es, -1)
  {
    hide Stored, WrittenAt, WordAddr;
    forall m | 0 <= m < |es| ensures Stored(disk, es[m]) == Stored(before, es[m]) {
      StoredElsewhere(disk, before, hi, ws, es[m]);
    }
  }

  lemma StoredOver(es: seq<Entry>, lo: int, hi: int, disk: map<int, Word>, before: map<int, Word>, n: nat,
      ws: seq<Word>)
    requires Apart(es, lo, hi) && n < |es| && |ws| == 2 * es[n].lng && WrittenAt(disk, before, WordAddr(es[n].addr), ws)
    ensures SameStored(disk, before, es, n)
  {
    hide Stored, WrittenAt, WordAddr;
    forall m | 0 <= m < |es| && m != n ensures Stored(disk, es[m]) == Stored(before, es[m]) {
      StoredElsewhere(disk, before, WordAddr(es[n].addr), ws, es[m]);
    }
  }

  /** Marking an entry as deleted moves no words. */
  lemma SameStoredMarked(disk: map<int, Word>, before: map<int, Word>, es: seq<Entry>, k: int, n: nat)
    requires n < |es| && SameStored(disk, before, es[n := es[n].(idtyp := DELETED)], k)
    ensures SameStored(disk, before, es, k)
  {
    hide Stored;
    var fs := es[n := es[n].(idtyp := DELETED)];
    forall m | 0 <= m < |es| && m != k ensures Stored(disk, es[m]) == Stored(before, es[m]) {
      assert Stored(disk, fs[m]) == Stored(before, fs[m]);
      StoredSameExtent(disk, es[m], fs[m]);
      StoredSameExtent(before, es[m], fs[m]);
    }
  }

  lemma SameStoredUnmarked(disk: map<int, Word>, before: map<int, Word>, es: seq<Entry>, k: int, n: nat)
    requires n < |es| && SameStored(disk, before, es, k)
    ensures SameStored(disk, before, es[n := es[n].(idtyp := DELETED)], k)
  {
    hide Stored;
    var fs := es[n := es[n].(idtyp := DELETED)];
    forall m | 0 <= m < |fs| && m != k ensures Stored(disk, fs[m]) == Stored(before, fs[m]) {
      assert Stored(disk, es[m]) == Stored(before, es[m]);
      StoredSameExtent(disk, es[m], fs[m]);
      StoredSameExtent(before, es[m], fs[m]);
    }
  }

  lemma StoredSameExtent(disk: map<int, Word>, e: Entry, f: Entry)
    requires e.addr == f.addr && e.lng == f.lng
    ensures Stored(disk, e) == Stored(disk, f)
  {
  }

  lemma SameStoredTrans(disk: map<int, Word>, mid: map<int, Word>, before: map<int, Word>, es: seq<Entry>, k: int)
    requires SameStored(disk, mid, es, k) && SameStored(mid, before, es, -1)
    ensures SameStored(disk, before, es, k)
  {
    hide Stored;
  }

  // ----- records -----

  /**
    A record as the caller hands it over: its type in the high byte of the first word, then a place for the address.
   */
  predicate RecordOk(record: seq<Word>, primary_len: nat) {
    1 <= primary_len && 2 * primary_len <= |record| < 0x200_0000 && record[0] / 0x100_0000 <= 126
  }

  /** The record with its length and address filled in. */
  function RecordImage(record: seq<Word>, addr: nat): (ws: seq<Word>)
    requires 2 <= |record| < 0x200_0000 && addr < WORD
    ensures |ws| == |record|
  {
    var head: Word, first: Word := record[0] / 0x100_0000 * 0x100_0000 + |record| / 2, addr;
    Headed(head, first, record[2..])
  }

  function NewEntry(record: seq<Word>, addr: nat, primary_len: nat): (e: Entry)
    requires RecordOk(record, primary_len)
  {
    Entry(record[0] / 0x100_0000, |record| / 2, addr, record[2..2 * primary_len])
  }

  /** The directory entry repeats the first words of the record. */
  lemma EntryIsHeadOfRecord(record: seq<Word>, addr: nat, primary_len: nat)
    requires RecordOk(record, primary_len) && 1 <= addr < WORD && |record| % 2 == 0
    ensures EntryOk(NewEntry(record, addr, primary_len), primary_len)
    ensures 2 * NewEntry(record, addr, primary_len).lng == |record|
    ensures EntryWords(NewEntry(record, addr, primary_len)) == RecordImage(record, addr)[..2 * primary_len]
  {
  }

  /**
    Types 1 to 126 are accepted for a record, and a search finds the stored record by its keys whatever its type;
    but reading, rewriting or deleting it is refused, as if it had been deleted, exactly when its type is 126.
   */
  lemma FoundButDeleted(ps: seq<Page>, p: nat, r: nat, record: seq<Word>, primary_len: nat, target: seq<Word>,
      mask: seq<Word>)
    requires RecordOk(record, primary_len) && p < |ps| <= MAX_DIR_PAGES && r < |ps[p].entries| <= ENTRIES_PER_PAGE
    requires ps[p].entries[r] == NewEntry(record, ps[p].entries[r].addr, primary_len)
      && EntryOk(ps[p].entries[r], primary_len)
    requires record[0] / 0x100_0000 >= 1 && |target| == |mask| == 2 * primary_len
    ensures Selected(ps[p].entries[r], primary_len, target, mask)
      <==> Matches(EntryWords(ps[p].entries[r]), target, mask)
    ensures RecordError(ps, MakeRndHandle(p, r, 0)) == if record[0] / 0x100_0000 == 126 then ERR_DELETED else 0
  {
    hide EntryWords, Matches, MarkedDeleted, PagenoFromHandle, RecordFromHandle, MakeRndHandle;
    HandleRoundTrip(p, r, 0);
    OnlyType126(record[0] / 0x100_0000);
  }

  lemma OnlyType126(idtyp: nat)
    requires 1 <= idtyp <= 126
    ensures MarkedDeleted(idtyp) <==> idtyp == 126
  {
  }

  /** A record went to the end: its entry e is the last one, its words are on the disk, nothing else changed. */
  ghost predicate AddedAtEnd(fs: seq<Entry>, es: seq<Entry>, e: Entry, record: seq<Word>, disk: map<int, Word>,
      before: map<int, Word>) {
    && fs == es + [e] && e.addr < WORD && 2 <= |record| < 0x200_0000
    && Stored(disk, e) == RecordImage(record, e.addr) && SameStored(disk, before, es, -1)
  }

  /** A record took the place of entry n: its words are on the disk where the old ones were, nothing else changed. */
  ghost predicate PutInPlace(fs: seq<Entry>, es: seq<Entry>, n: nat, e: Entry, record: seq<Word>, disk: map<int, Word>,
      before: map<int, Word>) {
    && n < |es| && fs == es[n := e] && e.addr == es[n].addr < WORD && 2 <= |record| < 0x200_0000
    && Stored(disk, e) == RecordImage(record, e.addr) && SameStored(disk, before, es, n)
  }

  /** Directory, extents and counters agree. */
  ghost predicate State(primary_len: nat, lng_header: nat, ps: seq<Page>, nbd: nat, plst: nat, nxtadr: int, fsiz: int,
      nxtn: nat, nrec: int, nbig: nat) {
    && primary_len >= 1 && ENTRIES_PER_PAGE * primary_len + 4 < 0x100_0000
    && Directory(ps, primary_len, nbd, plst) && Extents(ps, primary_len, lng_header, nxtadr, fsiz)
    && Counters(Flatten(ps), nxtn, nrec, nbig)
  }

  /** A file of one empty page. */
  lemma FirstState(primary_len: nat, lng: nat)
    requires primary_len >= 1 && ENTRIES_PER_PAGE * primary_len + 4 < 0x100_0000
    ensures State(primary_len, lng, [Page(lng + 1, 0, [])], 1, lng + 1, 2 * lng + 1 + PageWords(primary_len),
      lng + ENTRIES_PER_PAGE * primary_len + 4, 0, 0, 0)
  {
    FirstPage(primary_len, lng);
  }

  lemma StateDirectory(primary_len: nat, lng_header: nat, ps: seq<Page>, nbd: nat, plst: nat, nxtadr: int, fsiz: int,
      nxtn: nat, nrec: int, nbig: nat)
    requires State(primary_len, lng_header, ps, nbd, plst, nxtadr, fsiz, nxtn, nrec, nbig)
    ensures Directory(ps, primary_len, nbd, plst) && ps != []
  {
  }

  lemma StateBasics(primary_len: nat, lng_header: nat, ps: seq<Page>, nbd: nat, plst: nat, nxtadr: int, fsiz: int,
      nxtn: nat, nrec: int, nbig: nat)
    requires State(primary_len, lng_header, ps, nbd, plst, nxtadr, fsiz, nxtn, nrec, nbig) && nxtadr < 0x8000_0000
    ensures primary_len >= 1 && ENTRIES_PER_PAGE * primary_len + 4 < 0x100_0000 && 1 <= |ps| <= MAX_DIR_PAGES
    ensures nxtadr == 2 * fsiz + 1
    ensures var addr := WdTo64(nxtadr - 1) + 1; WordAddr(addr) == nxtadr && 1 <= addr < 0x8000_0000
    ensures PageWords(primary_len) == 2 * (ENTRIES_PER_PAGE * primary_len + 4)
  {
    hide Flatten, Tiled, Filled, Linked, AllOk, Counters;
    UnitOf(nxtadr, fsiz);
  }

  lemma UnitOf(nxtadr: int, fsiz: int)
    requires nxtadr == 2 * fsiz + 1
    ensures WdTo64(nxtadr - 1) == fsiz && WordAddr(fsiz + 1) == nxtadr
  {
  }

  function Abs(n: int): nat { if n < 0 then -n else n }

  /** The checks c_xdfdel and c_xdfput make of the record a handle names. */
  function RecordError(ps: seq<Page>, handle: int): (err: int)
    ensures err <= 0
  {
    var p, r := PagenoFromHandle(handle), RecordFromHandle(handle);
    if p >= |ps| then ERR_BAD_PAGENO
    else if r > |ps[p].entries| then ERR_BAD_HNDL
    else if r == |ps[p].entries| || ps[p].entries[r].idtyp == 0 then ERR_SPECIAL
    else if MarkedDeleted(ps[p].entries[r].idtyp) then ERR_DELETED
    else 0
  }

  /**
    What a handle must name: a page of the file, an entry of that page, and a record whose type is neither 0 nor one
    with all of the bits 1 to 6.
   */
  lemma RecordErrorIs(ps: seq<Page>, handle: int)
    ensures var p, r := handle / 0x8_0000 % 0x1000, handle / 0x400 % 0x200; var err := RecordError(ps, handle);
      && (err == -8 <==> p >= |ps|)
      && (err == -9 <==> p < |ps| && r > |ps[p].entries|)
      && (err == -10 <==> p < |ps| && (r == |ps[p].entries| || (r < |ps[p].entries| && ps[p].entries[r].idtyp == 0)))
      && (p < |ps| && r < |ps[p].entries| && ps[p].entries[r].idtyp < 256 ==>
        (err == -11 <==> ps[p].entries[r].idtyp in {126, 127, 254, 255}))
      && err in {0, -8, -9, -10, -11}
  {
    hide MarkedDeleted;
    var p, r := handle / 0x8_0000 % 0x1000, handle / 0x400 % 0x200;
    assert PagenoFromHandle(handle) == p && RecordFromHandle(handle) == r;
    if p < |ps| && r < |ps[p].entries| && ps[p].entries[r].idtyp < 256 { DeletedTypes(ps[p].entries[r].idtyp); }
  }

  lemma DeletedTypes(idtyp: nat)
    requires idtyp < 256
    ensures MarkedDeleted(idtyp) <==> idtyp in {126, 127, 254, 255}
  {
  }

  function LengthAt(ps: seq<Page>, handle: int): nat {
    var p, r := PagenoFromHandle(handle), RecordFromHandle(handle);
    if p < |ps| && r < |ps[p].entries| then ps[p].entries[r].lng else 0
  }

  /** The place in the list of all entries that a handle names. */
  function PlaceOf(handle: int): nat {
    Place(PagenoFromHandle(handle), RecordFromHandle(handle))
  }

  /** Entry n is marked as deleted, all others are as before. */
  ghost predicate Marked(fs: seq<Entry>, es: seq<Entry>, n: nat) {
    n < |es| && fs == es[n := es[n].(idtyp := DELETED)]
  }

  /**
    What a successful put does to the list and the disk. To the end: the record is the last entry, and the rewritten
    one, at n unless n is -1, is marked. In place: the record replaces entry n, on the same words of the disk.
   */
  ghost predicate PutDone(to_end: bool, n: int, fs: seq<Entry>, es: seq<Entry>, primary_len: nat, record: seq<Word>,
                          disk: map<int, Word>, before: map<int, Word>) {
    && RecordOk(record, primary_len)
    && if to_end then
      && fs != [] && (n != -1 ==> 0 <= n < |es|)
      && (var e := fs[|fs| - 1]; var rest := if n == -1 then es else es[n := es[n].(idtyp := DELETED)];
        e == NewEntry(record, e.addr, primary_len) && AddedAtEnd(fs, rest, e, record, disk, before))
      && SameStored(disk, before, es, -1)
    else
      && 0 <= n < |fs| && fs[n] == NewEntry(record, fs[n].addr, primary_len)
      && PutInPlace(fs, es, n, fs[n], record, disk, before)
  }

  /** The words of entry e on the disk are those of the record, with its length and its address filled in. */
  ghost predicate OnDisk(disk: map<int, Word>, e: Entry, record: seq<Word>) {
    && 2 * e.lng == |record| >= 2
    && WordOf(disk, 2 * e.addr - 1) == record[0] / 0x100_0000 * 0x100_0000 + |record| / 2
    && WordOf(disk, 2 * e.addr) == e.addr
    && forall k :: 2 <= k < |record| ==> WordOf(disk, 2 * e.addr - 1 + k) == record[k]
  }

  /** Entry e is that of the record. */
  predicate EntryOf(e: Entry, record: seq<Word>, primary_len: nat) {
    && |record| >= 2 * primary_len >= 2 && 2 * e.lng == |record|
    && e.idtyp == record[0] / 0x100_0000 && e.keys == record[2..2 * primary_len]
  }

  /**
    What a put leaves behind: the entry of the record, last or at n, with the words of the record on the disk; the
    rewritten entry marked with type 254 when the record went to the end; and every other entry and its words.
   */
  lemma PutIs(to_end: bool, n: int, fs: seq<Entry>, es: seq<Entry>, primary_len: nat, record: seq<Word>,
              disk: map<int, Word>, before: map<int, Word>)
    requires PutDone(to_end, n, fs, es, primary_len, record, disk, before) && |record| % 2 == 0
    ensures |fs| == |es| + if to_end then 1 else 0
    ensures var m := if to_end then |es| else n;
      0 <= m < |fs| && EntryOf(fs[m], record, primary_len) && OnDisk(disk, fs[m], record)
        && (!to_end ==> fs[m].addr == es[m].addr)
    ensures forall k :: 0 <= k < |es| && k != n ==> fs[k] == es[k]
    ensures to_end && n != -1 ==> 0 <= n < |es| && fs[n] == es[n].(idtyp := 254)
    ensures forall k :: 0 <= k < |es| && (to_end || k != n) ==> Stored(disk, es[k]) == Stored(before, es[k])
  {
    hide WordOf;
    ghost var m := if to_end then |es| else n;
    RecordOnDisk(disk, fs[m], record, primary_len);
  }

  lemma RecordOnDisk(disk: map<int, Word>, e: Entry, record: seq<Word>, primary_len: nat)
    requires RecordOk(record, primary_len) && |record| % 2 == 0 && e.addr < WORD
    requires e == NewEntry(record, e.addr, primary_len) && Stored(disk, e) == RecordImage(record, e.addr)
    ensures EntryOf(e, record, primary_len) && OnDisk(disk, e, record)
  {
    hide WordOf;
    var ws := Stored(disk, e);
    assert ws[0] == WordOf(disk, WordAddr(e.addr) + 0) && ws[1] == WordOf(disk, WordAddr(e.addr) + 1);
    forall k | 2 <= k < |record| ensures WordOf(disk, 2 * e.addr - 1 + k) == record[k] {
      assert ws[k] == WordOf(disk, WordAddr(e.addr) + k) && ws[k] == record[2..][k - 2];
    }
  }

  /** A record cannot stay where the one named by the handle is. */
  predicate GoesToEnd(ps: seq<Page>, handle: int, record: seq<Word>) {
    handle <= 0 || 2 * LengthAt(ps, handle) != |record|
  }

  lemma AtEndWithout(ps: seq<Page>, handle: int, record: seq<Word>)
    requires !GoesToEnd(ps, handle, record)
    ensures handle > 0
  {
  }

  /** The place behind all entries, by its page and its number there. */
  lemma EndPlace(n: nat, last: nat, count: nat)
    requires n == ENTRIES_PER_PAGE * last + count && count <= ENTRIES_PER_PAGE
    ensures count == ENTRIES_PER_PAGE ==> n / 256 == last + 1 && n % 256 == 0
    ensures count < ENTRIES_PER_PAGE ==> n / 256 == last && n % 256 == count
  {
  }

  /** The error c_xdfput reports before it looks for a place, or 0. */
  function CheckError(ps: seq<Page>, rwflg: Mode, file_index: nat, handle: int, record: seq<Word>): (err: int)
    ensures err <= 0
  {
    if |record| % 2 != 0 then ERR_BAD_ADDR
    else if rwflg == RDMODE || (handle != 0 && rwflg == APPEND) then ERR_NO_WRITE
    else if handle != 0 && IndexFromHandle(Abs(handle)) != file_index then ERR_BAD_HNDL
    else if handle != 0 then RecordError(ps, Abs(handle))
    else 0
  }

  /** The page a search goes on from, the number it is taken for, and the entry the file stands at. */
  datatype Cursor = Cursor(page: int, pageno: int, entry: Position)

  class RandomFile {
    const file_index: nat
    const primary_len: nat
    const lng_header: nat
    var rwflg: Mode
    var pages: seq<Page>
    var nxtadr: int
    var fsiz: int
    var nbd: nat
    var plst: nat
    var nxtn: nat
    var nrec: int
    var nbig: nat
    var neff: nat
    var nrwr: nat
    var disk: map<int, Word>
    var cur_dir_page: int         // -1 when there is none
    var cur_pageno: int
    var cur_entry: Position
    var page_record: nat
    var valid_target: bool
    var target: seq<Word>
    var cur_mask: seq<Word>
    ghost var deletions: nat      // successful calls of c_xdfdel

    function Entries(): seq<Entry>
      reads this
    {
      Flatten(pages)
    }

    ghost predicate Valid()
      reads this
    {
      && State(primary_len, lng_header, pages, nbd, plst, nxtadr, fsiz, nxtn, nrec, nbig)
      && file_index < 0x400 && neff == nrwr + deletions
      && -1 <= cur_dir_page < |pages| && |target| == |cur_mask| == 2 * primary_len
    }

    /** c_xdfopn with CREATE: the header, then a first directory page. */
    constructor (file_index: nat, primary_len: nat, header: seq<Word>)
      requires file_index < 0x400 && primary_len >= 1 && |header| >= 16 && |header| % 2 == 0
      requires |header| + 1 + PageWords(primary_len) < 0x8000_0000
        && ENTRIES_PER_PAGE * primary_len + 4 < 0x100_0000
      ensures Valid() && Entries() == [] && deletions == 0 && rwflg == CREATE && |pages| == 1
      ensures nxtadr == |header| + 1 + PageWords(primary_len)
      ensures nxtn == nrec == nbig == neff == nrwr == 0 && rwflg == CREATE && !valid_target && cur_entry == Nowhere
      ensures this.file_index == file_index && this.primary_len == primary_len && lng_header == |header| / 2
      ensures DiskWords(disk, 1, |header|) == header
      ensures DiskWords(disk, |header| + 1, PageWords(primary_len)) == PageImage(primary_len, |header| / 2 + 1)
    {
      var lng := |header| / 2;
      this.file_index, this.primary_len, lng_header := file_index, primary_len, lng;
      rwflg := CREATE;
      pages := [Page(lng + 1, 0, [])];
      nxtadr := 2 * lng + 1 + PageWords(primary_len);
      fsiz := lng + ENTRIES_PER_PAGE * primary_len + 4;
      nbd, plst, nxtn, nrec, nbig, neff, nrwr, deletions := 1, lng + 1, 0, 0, 0, 0, 0, 0;
      disk := map[];
      cur_dir_page, cur_pageno, cur_entry, page_record := -1, -1, Nowhere, 0;
      valid_target, target, cur_mask := false, seq(2 * primary_len, i => 0), seq(2 * primary_len, i => 0);
      new;
      hide WordOf, PageImage, State, Flatten;
      FirstPage(primary_len, lng);
      FirstState(primary_len, lng);
      disk := WaWrit(disk, 1, header);
      disk := WaWrit(disk, 2 * lng + 1, PageImage(primary_len, lng + 1));
    }

    /** The cursor stands before record page_record of its page. */
    predicate OnPage()
      reads this
    {
      0 <= cur_dir_page && cur_entry == At(cur_dir_page, page_record)
    }

    /** The first live match from the cursor on, in the list of all entries; -1 if there is none. */
    function Ahead(): int
      reads this
    {
      if 0 <= cur_dir_page then NextHit(Entries(), From(pages, cur_dir_page, page_record), primary_len, target,
        cur_mask) else -1
    }

    /**
      The cursor after a search that found place m, and the handle it gave; the page number counts on from `pageno` at
      page `page`.
     */
    ghost predicate Found(m: nat, handle: int, page: int, pageno: int)
      reads this
    {
      && cur_dir_page == m / ENTRIES_PER_PAGE && page_record == m % ENTRIES_PER_PAGE + 1 && OnPage()
      && cur_pageno == pageno + (cur_dir_page - page)
      && handle == MakeRndHandle(cur_pageno, m % ENTRIES_PER_PAGE, file_index)
    }

    /** The loop over the entries of one page. */
    method SearchPage(page_nrecords: nat) returns (found: bool)
      requires Valid() && OnPage() && page_record < page_nrecords == |pages[cur_dir_page].entries|
      modifies this`cur_entry, this`page_record
      ensures Valid() && OnPage() && old(page_record) < page_record <= page_nrecords <= ENTRIES_PER_PAGE
      ensures found ==> old(Ahead()) == Place(cur_dir_page, page_record - 1)
      ensures !found ==> page_record == page_nrecords && Ahead() == old(Ahead())
    {
      hide Flatten, Selected, NextHit, Extents, Counters, Matches, EntryWords;
      found := false;
      ghost var p, m := cur_dir_page, Ahead();
      AheadOnPage(pages, p, page_record, primary_len, target, cur_mask);
      var j := page_record;
      while j < page_nrecords && !found
        invariant j == page_record <= page_nrecords && OnPage() && Valid() && j >= old(page_record)
        invariant found ==> j > 0 && m == Place(p, j - 1)
        invariant !found ==> m == NextHit(Entries(), Place(p, j), primary_len, target, cur_mask)
        invariant j == old(page_record) ==> !found
        decreases page_nrecords - j
      {
        var entry := pages[cur_dir_page].entries[j];
        EntryAt(pages, p, j);
        OneEntry(Entries(), Place(p, j), primary_len, target, cur_mask);
        if entry.idtyp < 127 {
          found := CompareWords(EntryWords(entry), target, cur_mask);
        }
        page_record := page_record + 1;
        cur_entry := At(cur_dir_page, page_record);
        j := j + 1;
      }
      AheadOnPage(pages, p, page_record, primary_len, target, cur_mask);
    }

    /** next_match: from the cursor on, page by page; the cursor ends behind the entry found. */
    method NextMatch() returns (handle: int)
      requires Valid()
      modifies this`cur_dir_page, this`cur_pageno, this`cur_entry, this`page_record
      ensures Valid()
      ensures !old(OnPage()) ==>
        handle == ERR_NO_POS && cur_dir_page == old(cur_dir_page) && cur_pageno == old(cur_pageno)
      ensures !old(OnPage()) ==> cur_entry == old(cur_entry) && page_record == old(page_record)
      ensures old(OnPage()) && old(Ahead()) == -1 ==> handle == ERR_NOT_FOUND && cur_dir_page == -1
      ensures old(OnPage()) && old(Ahead()) >= 0 ==> Found(old(Ahead()), handle, old(cur_dir_page), old(cur_pageno))
    {
      hide Flatten, Selected, NextHit, Extents, Counters, MakeRndHandle, Place, From, Linked, AllOk;
      if cur_dir_page < 0 || cur_entry == Nowhere { return ERR_NO_POS; }
      if cur_entry != At(cur_dir_page, page_record) { return ERR_NO_POS; }
      ghost var m, shift := Ahead(), cur_pageno - cur_dir_page;
      var page_nrecords, found := |pages[cur_dir_page].entries|, false;
      while !found
        invariant Valid() && cur_dir_page >= 0 && cur_pageno - cur_dir_page == shift && OnPage()
        invariant page_nrecords == |pages[cur_dir_page].entries|
        invariant !found ==> Ahead() == m
        invariant found ==> m >= 0 && page_record >= 1 && Found(m,
          MakeRndHandle(cur_pageno, page_record - 1, file_index), cur_dir_page, cur_pageno)
        decreases if found then 0 else 1, |pages| - cur_dir_page, page_nrecords - page_record
      {
        if page_record >= page_nrecords {
          BehindPage(pages, cur_dir_page, page_record, primary_len, target, cur_mask);
          page_record := 0;
          cur_dir_page := if cur_dir_page + 1 < |pages| then cur_dir_page + 1 else -1;
          if cur_dir_page == -1 { return ERR_NOT_FOUND; }
          cur_pageno := cur_pageno + 1;
          page_nrecords := |pages[cur_dir_page].entries|;
          cur_entry := At(cur_dir_page, 0);
        } else {
          found := SearchPage(page_nrecords);
          if found { PlaceFields(cur_dir_page, page_record - 1); }
        }
      }
      handle := MakeRndHandle(cur_pageno, page_record - 1, file_index);
    }

    /** c_xdfdel: a record that can be deleted stays in its place, marked. */
    method XdfDel(handle: int) returns (err: int)
      requires Valid() && IndexFromHandle(handle) == file_index
      modifies this`pages, this`neff, this`nrec, this`deletions
      ensures Valid()
      ensures err == if rwflg == RDMODE || rwflg == APPEND then ERR_RDONLY else old(RecordError(pages, handle))
      ensures err != 0 ==> unchanged(this)
      ensures err == 0 ==> neff == old(neff) + 1 && nrec == old(nrec) - 1 && deletions == old(deletions) + 1
      ensures err == 0 ==> Marked(Entries(), old(Entries()), PlaceOf(handle))
      ensures err == 0 ==> (var p, r := PagenoFromHandle(handle), RecordFromHandle(handle);
        p < |old(pages)| && r < |old(pages)[p].entries| && pages
          == Replaced(old(pages), p, r, old(pages)[p].entries[r].(idtyp := DELETED)))
    {
      hide Flatten, Directory, Extents, Counters, MarkedDeleted, Place, IndexFromHandle, RecordFromHandle,
        PagenoFromHandle;
      var page_number, record_number := PagenoFromHandle(handle), RecordFromHandle(handle);
      if rwflg == RDMODE || rwflg == APPEND { return ERR_RDONLY; }
      if page_number >= |pages| { return ERR_BAD_PAGENO; }
      var target_page := pages[page_number];
      if record_number > |target_page.entries| { return ERR_BAD_HNDL; }
      var idtyp := if record_number < |target_page.entries| then target_page.entries[record_number].idtyp else 0;
      if idtyp == 0 { return ERR_SPECIAL; }
      if MarkedDeleted(idtyp) { return ERR_DELETED; }
      var record := target_page.entries[record_number];
      var e := record.(idtyp := DELETED);
      EntryIsOk(pages, primary_len, nbd, plst, page_number, record_number);
      ReplacedKeeps(pages, primary_len, nbd, plst, lng_header, nxtadr, fsiz, page_number, record_number, e);
      CountersReplace(Flatten(pages), nxtn, nrec, nbig, Place(page_number, record_number), e);
      pages := Replaced(pages, page_number, record_number, e);
      neff, nrec := neff + 1, nrec - 1;
      deletions := deletions + 1;
      err := 0;
    }

    /** add_dir_page, called when the last page is full. */
    method AddDirPage() returns (err: int)
      requires Valid() && |pages[|pages| - 1].entries| == ENTRIES_PER_PAGE
      requires nxtadr + PageWords(primary_len) < 0x8000_0000
      modifies this`pages, this`nxtadr, this`fsiz, this`nbd, this`plst, this`disk
      ensures Valid() && Entries() == old(Entries())
      ensures err == if old(|pages|) >= MAX_DIR_PAGES then ERR_DIR_FULL else 0
      ensures err != 0 ==> unchanged(this)
      ensures err == 0 ==> |pages| == old(|pages|) + 1 && pages[|pages| - 1].entries == []
      ensures err == 0 ==> nxtadr == old(nxtadr) + PageWords(primary_len) && SameStored(disk, old(disk), Entries(), -1)
      ensures forall p :: 0 <= p < |old(pages)| ==> pages[p].entries == old(pages[p].entries)
      ensures err == 0 ==>
        plst == old(WdTo64(nxtadr - 1)) + 1 < WORD
          && DiskWords(disk, old(nxtadr), PageWords(primary_len)) == PageImage(primary_len, plst)
    {
      hide State, Flatten, Counters, PageWords, Extents, Directory, SameStored, Chained, WrittenAt, WordOf, WdTo64,
        PageImage, WordAddr;
      if |pages| >= MAX_DIR_PAGES { return ERR_DIR_FULL; }
      var wdlng := ENTRIES_PER_PAGE * primary_len + 4;
      var addr := WdTo64(nxtadr - 1) + 1;
      StateBasics(primary_len, lng_header, pages, nbd, plst, nxtadr, fsiz, nxtn, nrec, nbig);
      var image := PageImage(primary_len, addr);
      var written := WaWrit(disk, nxtadr, image);
      WordsWritten(written, disk, nxtadr, image);
      PageAdded(primary_len, lng_header, pages, nbd, plst, nxtadr, fsiz, nxtn, nrec, nbig, addr, disk, written, image);
      pages := Chained(pages, addr);
      disk := written;
      nxtadr := nxtadr + 2 * wdlng;
      fsiz := WdTo64(nxtadr - 1);
      nbd := nbd + 1;
      plst := addr;
      err := 0;
    }

    /** Where a record goes that is written to the end: behind the last one of the last page, or on a new page. */
    method PrepareEnd() returns (err: int)
      requires Valid() && nxtadr + PageWords(primary_len) < 0x8000_0000
      modifies this`pages, this`nxtadr, this`fsiz, this`nbd, this`plst, this`disk, this`cur_dir_page, this`cur_pageno,
        this`cur_entry
      ensures Valid() && Entries() == old(Entries()) && |pages| >= old(|pages|)
      ensures err == if old(EndIsFull()) then ERR_DIR_FULL else 0
      ensures cur_dir_page == |pages| - 1 && cur_pageno == old(|pages|) - 1
      ensures err == 0 ==> cur_entry == At(cur_dir_page, |pages[cur_dir_page].entries|)
      ensures err == 0 ==> |pages| == old(|pages|) + (if old(LastIsFull()) then 1 else 0)
      ensures err == 0 && old(LastIsFull()) ==> pages[cur_dir_page].entries == []
      ensures err != 0 ==> unchanged(`pages, `nxtadr, `fsiz, `nbd, `plst, `disk, `cur_entry)
      ensures err == 0 ==> SameStored(disk, old(disk), Entries(), -1) && nxtadr <= old(nxtadr) + PageWords(primary_len)
      ensures err == 0 ==> |pages[|pages| - 1].entries| < ENTRIES_PER_PAGE
      ensures forall p :: 0 <= p < |old(pages)| ==> pages[p].entries == old(pages[p].entries)
    {
      hide Flatten, Counters, PageWords, Extents, SameStored, AllOk, Filled, Linked;
      var npages := |pages|;
      cur_dir_page, cur_pageno := npages - 1, npages - 1;
      LastPage(pages, primary_len, nbd, plst);
      if |pages[cur_dir_page].entries| >= ENTRIES_PER_PAGE {
        err := AddDirPage();
        if err < 0 { return; }
        cur_dir_page := |pages| - 1;
        cur_entry := At(cur_dir_page, 0);
      } else {
        cur_entry := At(cur_dir_page, |pages[cur_dir_page].entries|);
        SameStoredHere(disk, Entries());
        err := 0;
      }
    }

    /** No room for another entry on the last page. */
    predicate LastIsFull()
      reads this
    {
      pages != [] && |pages[|pages| - 1].entries| >= ENTRIES_PER_PAGE
    }

    /** No room for another entry, nor for another page. */
    predicate EndIsFull()
      reads this
    {
      LastIsFull() && |pages| >= MAX_DIR_PAGES
    }

    /** The record, its entry and the counters when it goes to the end. */
    method StoreAtEnd(record: seq<Word>)
      requires Valid() && |pages[|pages| - 1].entries| < ENTRIES_PER_PAGE
      requires RecordOk(record, primary_len) && |record| % 2 == 0 && nxtadr + |record| < 0x8000_0000
      modifies this`pages, this`disk, this`nrec, this`nxtn, this`fsiz, this`nxtadr, this`nbig
      ensures Valid() && |pages| == old(|pages|)
      ensures |pages[|pages| - 1].entries| == old(|pages[|pages| - 1].entries|) + 1 && nxtadr == old(nxtadr) + |record|
      ensures var e := NewEntry(record, old(WdTo64(nxtadr - 1)) + 1, primary_len);
        AddedAtEnd(Entries(), old(Entries()), e, record, disk, old(disk))
    {
      hide State, Flatten, Counters, Extents, Directory, SameStored, Appended, WrittenAt, WordOf, WdTo64, RecordImage,
        AddedAtEnd, NewEntry;
      var addr := WdTo64(nxtadr - 1) + 1;
      StateBasics(primary_len, lng_header, pages, nbd, plst, nxtadr, fsiz, nxtn, nrec, nbig);
      var image, e := RecordImage(record, addr), NewEntry(record, addr, primary_len);
      var written := WaWrit(disk, nxtadr, image);
      RecordAppended(primary_len, lng_header, pages, nbd, plst, nxtadr, fsiz, nxtn, nrec, nbig, record, addr, disk,
        written);
      var lng := WdTo64(|record|);
      LastGrows(pages, e);
      WholeUnits(|record|);
      pages := Appended(pages, e);
      disk := written;
      nrec := nrec + 1;
      nxtn := nxtn + 1;
      fsiz := fsiz + lng;
      nxtadr := 2 * fsiz + 1;
      nbig := if lng > nbig then lng else nbig;
    }

    /** The record and its entry when it takes the place of a deleted one of its length. */
    method StoreInPlace(p: nat, r: nat, record: seq<Word>)
      requires Valid() && p < |pages| && r < |pages[p].entries| && pages[p].entries[r].idtyp == DELETED
      requires RecordOk(record, primary_len) && 2 * pages[p].entries[r].lng == |record|
      modifies this`pages, this`disk, this`nrec
      ensures Valid() && |pages| == old(|pages|)
      ensures var n, e := Place(p, r), NewEntry(record, old(pages[p].entries[r].addr), primary_len);
        PutInPlace(Entries(), old(Entries()), n, e, record, disk, old(disk))
    {
      hide Flatten, Counters, Extents, Directory, SameStored, Replaced, WrittenAt, WordOf, RecordImage, PutInPlace,
        NewEntry, Place;
      var addr := pages[p].entries[r].addr;
      EntryAddress(pages, primary_len, nbd, plst, p, r);
      var image, e := RecordImage(record, addr), NewEntry(record, addr, primary_len);
      var written := WaWrit(disk, WordAddr(addr), image);
      RecordReplaced(primary_len, lng_header, pages, nbd, plst, nxtadr, fsiz, nxtn, nrec, nbig, p, r, record, disk,
        written);
      pages, disk, nrec := Replaced(pages, p, r, e), written, nrec + 1;
    }

    /** The error c_xdfput reports, or 0. */
    function PutError(handle: int, record: seq<Word>): int
      reads this
    {
      if CheckError(pages, rwflg, file_index, handle, record) != 0
        then CheckError(pages, rwflg, file_index, handle, record)
      else if GoesToEnd(pages, handle, record) && EndIsFull() then ERR_DIR_FULL
      else 0
    }

    /** Which calls of c_xdfput are refused, from the arguments and the entry the handle names. */
    lemma PutErrorIs(handle: int, record: seq<Word>)
      requires Valid()
      ensures var err, h := PutError(handle, record), if handle < 0 then -handle else handle;
        var p, r := h / 0x8_0000 % 0x1000, h / 0x400 % 0x200;
        var full := |pages| == 1024 && |pages[1023].entries| == 256;
        && (err == -18 <==> |record| % 2 == 1)
        && (err == -7 <==> |record| % 2 == 0 && (rwflg == RDMODE || (rwflg == APPEND && handle != 0)))
        && (|record| % 2 == 0 && rwflg != RDMODE && handle == 0 ==> err == if full then -28 else 0)
        && (|record| % 2 == 0 && rwflg != RDMODE && rwflg != APPEND && handle != 0 ==>
          if h % 0x400 != file_index then err == -9
          else if RecordError(pages, h) != 0 then err == RecordError(pages, h)
          else (&& p < |pages| && r < |pages[p].entries|
            && err == if full && (handle < 0 || 2 * pages[p].entries[r].lng != |record|) then -28 else 0))
    {
      hide Linked, AllOk, Extents, Counters, MarkedDeleted;
      RecordErrorIs(pages, if handle < 0 then -handle else handle);
    }

    /** A record stays in its place exactly when a positive handle names an entry of its length. */
    lemma StaysIff(handle: int, record: seq<Word>)
      requires Valid() && handle != 0 && RecordError(pages, if handle < 0 then -handle else handle) == 0
      ensures var h := if handle < 0 then -handle else handle;
        var n := h / 0x8_0000 % 0x1000 * 256 + h / 0x400 % 0x200;
        n < |Entries()| && n == PlaceOf(h)
        && (GoesToEnd(pages, handle, record) <==> handle < 0 || 2 * Entries()[n].lng != |record|)
    {
      hide Flatten, Linked, AllOk, Extents, Counters, MarkedDeleted;
      var h := if handle < 0 then -handle else handle;
      RecordErrorIs(pages, h);
      EntryAt(pages, h / 0x8_0000 % 0x1000, h / 0x400 % 0x200);
    }

    /** The record to be rewritten is looked up, on a page of the file. */
    predicate LooksUp(handle: int, record: seq<Word>)
      reads this
    {
      && |record| % 2 == 0 && rwflg != RDMODE && handle != 0 && rwflg != APPEND
      && IndexFromHandle(Abs(handle)) == file_index && PagenoFromHandle(Abs(handle)) < |pages|
    }

    /** Where the file stands when c_xdfput has looked up the record to be rewritten. */
    function LookedUp(handle: int, record: seq<Word>): Cursor
      reads this
    {
      var p, r := PagenoFromHandle(Abs(handle)), RecordFromHandle(Abs(handle));
      if !LooksUp(handle, record) then Cursor(cur_dir_page, cur_pageno, cur_entry)
      else Cursor(p, cur_pageno, if r <= |pages[p].entries| then At(p, r) else cur_entry)
    }

    /**
      Where c_xdfput leaves the file: at the record rewritten in place, or at the new entry of the last page. The page
      number stays when a record is rewritten in place, and does not count a page that is added.
     */
    function PutCursor(handle: int, record: seq<Word>): Cursor
      reads this
    {
      var c, last := LookedUp(handle, record), |pages| - 1;
      if CheckError(pages, rwflg, file_index, handle, record) != 0 || !GoesToEnd(pages, handle, record) then c
      else if EndIsFull() then Cursor(last, last, c.entry)
      else if LastIsFull() || pages == [] then Cursor(last + 1, last, At(last + 1, 0))
      else Cursor(last, last, At(last, |pages[last].entries|))
    }

    /**
      After a put the file stands at the entry of the record: the one rewritten in place, or the one that comes behind
      all those there are.
     */
    lemma PutCursorIs(handle: int, record: seq<Word>)
      requires Valid() && PutError(handle, record) == 0
      ensures var c, n, h := PutCursor(handle, record), |Entries()|, if handle < 0 then -handle else handle;
        if GoesToEnd(pages, handle, record) then c == Cursor(n / 256, |pages| - 1, At(n / 256, n % 256))
        else c == Cursor(h / 0x8_0000 % 0x1000, cur_pageno, At(h / 0x8_0000 % 0x1000, h / 0x400 % 0x200))
    {
      hide Flatten, Linked, AllOk, Extents, Counters, MarkedDeleted, GoesToEnd, LengthAt;
      var last := |pages| - 1;
      EntryAt(pages, last, |pages[last].entries|);
      if GoesToEnd(pages, handle, record) {
        EndPlace(|Entries()|, last, |pages[last].entries|);
      } else {
        AtEndWithout(pages, handle, record);
        RecordErrorIs(pages, if handle < 0 then -handle else handle);
      }
    }

    /** The checks of c_xdfput on the record to be rewritten; the cursor moves to it. */
    method FindRecord(handle: int, nwords: nat) returns (err: int, write_to_end: bool)
      requires Valid()
      modifies this`cur_dir_page, this`cur_entry
      ensures Valid() && err == RecordError(pages, handle)
      ensures err == 0 ==> write_to_end == (2 * LengthAt(pages, handle) != nwords)
      ensures var p, r := PagenoFromHandle(handle), RecordFromHandle(handle);
        && cur_dir_page == (if p < |pages| then p else old(cur_dir_page))
        && cur_entry == (if p < |pages| && r <= |pages[p].entries| then At(p, r) else old(cur_entry))
    {
      hide State, MarkedDeleted, PagenoFromHandle, RecordFromHandle;
      write_to_end := false;
      var page_number, record_number := PagenoFromHandle(handle), RecordFromHandle(handle);
      if page_number >= |pages| { return ERR_BAD_PAGENO, false; }
      cur_dir_page := page_number;
      var entries := pages[page_number].entries;
      if record_number > |entries| { return ERR_BAD_HNDL, false; }
      cur_entry := At(page_number, record_number);
      if record_number == |entries| || entries[record_number].idtyp == 0 { return ERR_SPECIAL, false; }
      if MarkedDeleted(entries[record_number].idtyp) { return ERR_DELETED, false; }
      write_to_end := 2 * entries[record_number].lng != nwords;
      err := 0;
    }

    /** A rewrite: the old record is deleted, the new one stored, and one more rewrite counted. */
    method Rewrite(handle: int, write_to_end: bool, record: seq<Word>)
      requires Valid() && rwflg != RDMODE && rwflg != APPEND && IndexFromHandle(handle) == file_index
        && RecordError(pages, handle) == 0
      requires RecordOk(record, primary_len) && |record| % 2 == 0 && nxtadr + |record| < 0x8000_0000
      requires write_to_end ==> |pages[|pages| - 1].entries| < ENTRIES_PER_PAGE
      requires !write_to_end ==> 2 * LengthAt(pages, handle) == |record|
      modifies this`pages, this`disk, this`nrec, this`nxtn, this`fsiz, this`nxtadr, this`nbig, this`neff, this`nrwr,
        this`deletions
      ensures Valid() && deletions == old(deletions) && nrwr == old(nrwr) + 1 && |pages| == old(|pages|)
      ensures write_to_end ==> |pages[|pages| - 1].entries| == old(|pages[|pages| - 1].entries|) + 1
      ensures nxtadr == old(nxtadr) + if write_to_end then |record| else 0
      ensures PutDone(write_to_end, PlaceOf(handle), Entries(), old(Entries()), primary_len, record, disk, old(disk))
    {
      hide State, Flatten, MarkedDeleted, PagenoFromHandle, RecordFromHandle, Place, SameStored, Stored, RecordImage,
        WdTo64;
      ghost var es, before := Entries(), disk;
      var err := XdfDel(handle);
      ghost var marked := Entries();
      if write_to_end {
        StoreAtEnd(record);
      } else {
        StoreInPlace(PagenoFromHandle(handle), RecordFromHandle(handle), record);
      }
      nrwr := nrwr + 1;
      deletions := deletions - 1;
      RewriteDone(write_to_end, PlaceOf(handle), Entries(), marked, es, primary_len, record, disk, before);
    }

    /** The part of c_xdfput behind its checks and the choice of the place. */
    method Store(handle: int, write_to_end: bool, record: seq<Word>)
      requires Valid() && rwflg != RDMODE && (handle == 0 ==> write_to_end)
      requires handle != 0 ==>
        rwflg != APPEND && IndexFromHandle(Abs(handle)) == file_index && RecordError(pages, Abs(handle)) == 0
      requires RecordOk(record, primary_len) && |record| % 2 == 0 && nxtadr + |record| < 0x8000_0000
      requires write_to_end ==> |pages[|pages| - 1].entries| < ENTRIES_PER_PAGE
      requires !write_to_end ==> 2 * LengthAt(pages, Abs(handle)) == |record|
      modifies this`pages, this`disk, this`nrec, this`nxtn, this`fsiz, this`nxtadr, this`nbig, this`neff, this`nrwr,
        this`deletions
      ensures Valid() && deletions == old(deletions) && nrwr == old(nrwr) + (if handle == 0 then 0 else 1)
        && |pages| == old(|pages|)
      ensures write_to_end ==> |pages[|pages| - 1].entries| == old(|pages[|pages| - 1].entries|) + 1
      ensures nxtadr == old(nxtadr) + if write_to_end then |record| else 0
      ensures PutDone(write_to_end, if handle == 0 then -1 else PlaceOf(Abs(handle)), Entries(), old(Entries()),
        primary_len, record, disk, old(disk))
    {
      hide State, Flatten, MarkedDeleted, IndexFromHandle, LengthAt, RecordError, Place, SameStored, Stored,
        RecordImage, WdTo64, PlaceOf;
      ghost var es, before := Entries(), disk;
      if handle == 0 {
        StoreAtEnd(record);
        NewDone(Entries(), es, primary_len, record, disk, before);
      } else {
        Rewrite(Abs(handle), write_to_end, record);
      }
    }

    /** The part of c_xdfput in front: modes, handle, and whether the record can stay where it is. */
    method CheckPut(handle: int, record: seq<Word>) returns (err: int, write_to_end: bool)
      requires Valid()
      modifies this`cur_dir_page, this`cur_entry
      ensures Valid() && err == CheckError(pages, rwflg, file_index, handle, record)
      ensures Cursor(cur_dir_page, cur_pageno, cur_entry) == old(LookedUp(handle, record))
      ensures err == 0 ==> write_to_end == GoesToEnd(pages, handle, record)
      ensures err == 0 && handle != 0 ==>
        rwflg != APPEND && IndexFromHandle(Abs(handle)) == file_index && RecordError(pages, Abs(handle)) == 0
      ensures err == 0 ==> |record| % 2 == 0 && rwflg != RDMODE && (handle == 0 ==> write_to_end)
      ensures err == 0 && !write_to_end ==> 2 * LengthAt(pages, Abs(handle)) == |record|
    {
      hide State, RecordError, LengthAt, IndexFromHandle, PagenoFromHandle;
      write_to_end := handle <= 0;
      if |record| % 2 != 0 { return ERR_BAD_ADDR, write_to_end; }
      if rwflg == RDMODE { return ERR_NO_WRITE, write_to_end; }
      if handle != 0 && rwflg == APPEND { return ERR_NO_WRITE, write_to_end; }
      err := 0;
      if handle != 0 {
        if IndexFromHandle(Abs(handle)) != file_index { return ERR_BAD_HNDL, write_to_end; }
        var longer;
        err, longer := FindRecord(Abs(handle), |record|);
        if err == 0 { write_to_end := write_to_end || longer; }
      }
    }

    /** The part of c_xdfput behind its checks: the place, then the record. */
    method PutAway(handle: int, write_to_end: bool, record: seq<Word>) returns (err: int)
      requires Valid() && RecordOk(record, primary_len) && |record| % 2 == 0 && rwflg != RDMODE
        && (handle == 0 ==> write_to_end)
      requires handle != 0 ==>
        rwflg != APPEND && IndexFromHandle(Abs(handle)) == file_index && RecordError(pages, Abs(handle)) == 0
      requires !write_to_end ==> 2 * LengthAt(pages, Abs(handle)) == |record|
      requires nxtadr + PageWords(primary_len) + |record| < 0x8000_0000
      modifies this
      ensures Valid() && err == if write_to_end && old(EndIsFull()) then ERR_DIR_FULL else 0
      ensures nxtadr <= old(nxtadr) + PageWords(primary_len) + |record|
      ensures |pages| == old(|pages|) + if write_to_end && err == 0 && old(LastIsFull()) then 1 else 0
      ensures err != 0 ==> unchanged(`pages, `nxtadr, `fsiz, `nbd, `plst, `nxtn, `nrec, `nbig, `neff, `nrwr, `disk,
        `deletions)
      ensures unchanged(`rwflg, `page_record, `valid_target, `target, `cur_mask)
      ensures err == 0 ==> deletions == old(deletions) && nrwr == old(nrwr) + (if handle == 0 then 0 else 1)
      ensures err == 0 ==> PutDone(write_to_end, if handle == 0 then -1
        else PlaceOf(Abs(handle)), Entries(), old(Entries()), primary_len, record, disk, old(disk))
      ensures !write_to_end ==> unchanged(`cur_dir_page, `cur_pageno, `cur_entry)
      ensures write_to_end ==> cur_pageno == old(|pages|) - 1 && cur_dir_page == |pages| - 1
      ensures err != 0 ==> unchanged(`cur_entry)
      ensures err == 0 && write_to_end && old(LastIsFull()) ==> cur_entry == At(|pages| - 1, 0)
      ensures err == 0 && write_to_end && !old(LastIsFull()) ==>
        cur_entry == At(|pages| - 1, old(|pages[|pages| - 1].entries|))
    {
      hide State, Flatten, RecordError, LengthAt, IndexFromHandle, PlaceOf, PutDone, PageWords, SameStored, RecordOk;
      ghost var es, ps, before := Entries(), pages, disk;
      if write_to_end {
        err := PrepareEnd();
        if err < 0 { return; }
        if handle != 0 { RecordKept(ps, pages, Abs(handle)); }
      } else {
        SameStoredHere(disk, Entries());
      }
      ghost var mid := disk;
      Store(handle, write_to_end, record);
      PutAfter(write_to_end, if handle == 0 then -1 else PlaceOf(Abs(handle)), Entries(), es, primary_len, record,
        disk, mid, before);
      err := 0;
    }

    /** c_xdfput: a new record at the end (handle 0), a rewrite in place, or a rewrite to the end. */
    method XdfPut(handle: int, record: seq<Word>) returns (err: int)
      requires Valid() && handle > -0x8000_0000 && RecordOk(record, primary_len)
      requires nxtadr + PageWords(primary_len) + |record| < 0x8000_0000
      modifies this
      ensures Valid() && err == old(PutError(handle, record))
      ensures nxtadr <= old(nxtadr) + PageWords(primary_len) + |record|
      ensures |pages| ==
        old(|pages|) + if err == 0 && old(GoesToEnd(pages, handle, record)) && old(LastIsFull()) then 1 else 0
      ensures err != 0 ==> unchanged(`pages, `nxtadr, `fsiz, `nbd, `plst, `nxtn, `nrec, `nbig, `neff, `nrwr, `disk,
        `deletions)
      ensures unchanged(`rwflg, `page_record, `valid_target, `target, `cur_mask)
      ensures err == 0 ==> deletions == old(deletions) && nrwr == old(nrwr) + (if handle == 0 then 0 else 1)
      ensures err == 0 ==> PutDone(old(GoesToEnd(pages, handle, record)), if handle == 0 then -1
        else PlaceOf(Abs(handle)),
                                   Entries(), old(Entries()), primary_len, record, disk, old(disk))
      ensures Cursor(cur_dir_page, cur_pageno, cur_entry) == old(PutCursor(handle, record))
    {
      hide State, Flatten, RecordError, LengthAt, IndexFromHandle, PagenoFromHandle, PlaceOf, PutDone, PageWords,
        CheckError, GoesToEnd, RecordOk;
      var write_to_end;
      err, write_to_end := CheckPut(handle, record);
      if err < 0 { return; }
      err := PutAway(handle, write_to_end, record);
    }

    /** A negative dimension, with -1 for the bits, asks for the data of a record without its keys. */
    function KeysLeftOut(nwords: int, info_len: nat): nat {
      if nwords < 0 then 2 * (primary_len + info_len) else 0
    }

    /** The error c_xdfget reports, or 0. */
    function GetError(handle: int, nwords: int, nbits: int): int
      reads this
    {
      if RecordError(pages, handle) != 0 then RecordError(pages, handle)
      else if (nwords < 0 && nbits != -1) || 2 * LengthAt(pages, handle) > Abs(nwords) + 1 then ERR_BAD_DIM
      else 0
    }

    /** Which calls of c_xdfget are refused. */
    lemma GetErrorIs(handle: int, nwords: int, nbits: int)
      requires RecordError(pages, handle) == 0
      ensures var p, r := handle / 0x8_0000 % 0x1000, handle / 0x400 % 0x200;
        && p < |pages| && r < |pages[p].entries|
        && (GetError(handle, nwords, nbits) == -19 <==>
          (nwords < 0 && nbits != -1) || 2 * pages[p].entries[r].lng > (if nwords < 0 then -nwords else nwords) + 1)
        && (GetError(handle, nwords, nbits) == 0 <==>
          (nwords >= 0 || nbits == -1) && 2 * pages[p].entries[r].lng <= (if nwords < 0 then -nwords else nwords) + 1)
    {
      RecordErrorIs(pages, handle);
    }

    /** c_xdfget: the words of a record as the disk has them, all of them or those behind the keys, then zeros. */
    method XdfGet(handle: int, data: array<Word>, nwords: int, nbits: int, info_len: nat) returns (err: int)
      requires Valid() && IndexFromHandle(handle) == file_index && Abs(nwords) < data.Length
      requires GetError(handle, nwords, nbits) == 0 ==> KeysLeftOut(nwords, info_len) <= 2 * LengthAt(pages, handle)
      modifies data
      ensures err == GetError(handle, nwords, nbits)
      ensures err != 0 ==> data[..] == old(data[..])
      ensures err == 0 ==> PlaceOf(handle) < |Entries()|
      ensures err == 0 ==> var ws := Stored(disk, Entries()[PlaceOf(handle)]);
        var offset := if nwords < 0 then 2 * (primary_len + info_len) else 0;
        offset <= |ws| == 2 * LengthAt(pages, handle) && data[..|ws| - offset] == ws[offset..]
        && forall k :: |ws| - offset <= k < |ws| ==> data[k] == 0
      ensures forall k :: 2 * LengthAt(pages, handle) <= k < data.Length ==> data[k] == old(data[k])
    {
      hide Flatten, Extents, Counters, MarkedDeleted, PagenoFromHandle, RecordFromHandle, Place, WordOf, WordAddr,
        Linked, AllOk;
      var page_number, record_number := PagenoFromHandle(handle), RecordFromHandle(handle);
      if page_number >= |pages| { return ERR_BAD_PAGENO; }
      var entries := pages[page_number].entries;
      if record_number > |entries| { return ERR_BAD_HNDL; }
      if record_number == |entries| || entries[record_number].idtyp == 0 { return ERR_SPECIAL; }
      if MarkedDeleted(entries[record_number].idtyp) { return ERR_DELETED; }
      EntryAt(pages, page_number, record_number);
      var record := entries[record_number];
      var lngw, nw, offset := 2 * record.lng, nwords, 0;
      if nw < 0 {
        if nbits != -1 { return ERR_BAD_DIM; }
        nw := -nw;
        offset := 2 * (primary_len + info_len);
      }
      if lngw > nw + 1 { return ERR_BAD_DIM; }
      var i := 0;
      while i < lngw
        invariant 0 <= i <= lngw
        invariant forall k :: 0 <= k < i ==> data[k] == 0
        invariant forall k :: lngw <= k < data.Length ==> data[k] == old(data[k])
      {
        data[i] := 0;
        i := i + 1;
      }
      ghost var ws := Stored(disk, record);
      i := 0;
      while i < lngw - offset
        invariant 0 <= i <= lngw - offset
        invariant forall k :: 0 <= k < i ==> data[k] == ws[offset..][k]
        invariant forall k :: i <= k < lngw ==> data[k] == 0
        invariant forall k :: lngw <= k < data.Length ==> data[k] == old(data[k])
      {
        data[i] := WordOf(disk, WordAddr(record.addr) + offset + i);
        i := i + 1;
      }
      err := 0;
    }

    /** c_xdfloc2 refuses before it searches: a bad handle, no position, no such page. */
    function PositionError(handle: int): int
      reads this
    {
      if handle < -1 || (handle > 0 && IndexFromHandle(handle) != file_index) then ERR_BAD_HNDL
      else if handle == -1 && (cur_entry == Nowhere || cur_pageno == -1) then ERR_NO_POS
      else if handle > 0 && PagenoFromHandle(handle) != cur_pageno
        && PagenoFromHandle(handle) >= |pages| then ERR_BAD_PAGENO
      else 0
    }

    /** Where a search starts: behind the record the handle names, at the first record, or at the cursor. */
    function SearchFrom(handle: int): nat
      reads this
    {
      if handle > 0 then From(pages, PagenoFromHandle(handle), RecordFromHandle(handle) + 1)
      else if handle == 0 then From(pages, 0, 0)
      else if 0 <= cur_dir_page then From(pages, cur_dir_page, page_record)
      else 0
    }

    /** Which searches are refused: a handle of no use, a cursor that stands nowhere, a page that is not there. */
    lemma PositionErrorIs(handle: int)
      ensures var err := PositionError(handle);
        && (err == -9 <==> handle < -1 || (handle > 0 && handle % 0x400 != file_index))
        && (err == -25 <==> handle == -1 && (cur_entry == Nowhere || cur_pageno == -1))
        && (err == -8 <==>
          handle > 0 && handle % 0x400 == file_index && handle / 0x8_0000 % 0x1000 >= |pages|
            && handle / 0x8_0000 % 0x1000 != cur_pageno)
        && err in {0, -8, -9, -25}
    {
    }

    /**
      What a search finds, from a handle: the first live entry behind the one the handle names that agrees with the
      target; from 0, the first of the file; from -1, the first from the cursor on.
     */
    lemma SearchedIs(handle: int)
      requires Valid() && PositionError(handle) == 0 && !TakesNoPage(handle) && (handle == -1 ==> OnPage())
      requires handle == -1 ==> page_record <= |pages[cur_dir_page].entries|
      ensures var m, es := NextHit(Entries(), SearchFrom(handle), primary_len, target, cur_mask), Entries();
        var n := if handle > 0 then handle / 0x8_0000 % 0x1000 * 256 + Min(handle / 0x400 % 0x200, 255) + 1
          else if handle == 0 then 0 else cur_dir_page * 256 + page_record;
        && (m >= 0 ==> n <= m < |es| && es[m].idtyp < 127 && Agrees(es[m], target, cur_mask))
        && forall k :: n <= k < (if m >= 0 then m else |es|) ==> !(es[k].idtyp < 127 && Agrees(es[k], target, cur_mask))
    {
      hide Flatten, NextHit, From, State, Directory, Agrees;
      StateDirectory(primary_len, lng_header, pages, nbd, plst, nxtadr, fsiz, nxtn, nrec, nbig);
      SearchStart(pages, primary_len, nbd, plst, target, cur_mask, handle, cur_dir_page, page_record);
      var n := if handle > 0 then handle / 0x8_0000 % 0x1000 * 256 + Min(handle / 0x400 % 0x200, 255) + 1
        else if handle == 0 then 0 else cur_dir_page * 256 + page_record;
      NextHitIs(pages, n, primary_len, nbd, plst, target, cur_mask);
    }

    /** The cursor goes to a record of a page. */
    method MoveTo(pageno: nat, record: nat) returns (err: int)
      requires Valid() && (pageno == cur_pageno ==> cur_pageno < |pages|)
      modifies this`cur_dir_page, this`cur_pageno, this`cur_entry, this`page_record
      ensures Valid()
      ensures err == if pageno != old(cur_pageno) && pageno >= |pages| then ERR_BAD_PAGENO else 0
      ensures err != 0 ==> cur_entry == Nowhere && unchanged(`cur_dir_page, `cur_pageno, `page_record)
      ensures err == 0 ==> OnPage() && cur_pageno == cur_dir_page == pageno && page_record == record
    {
      hide State;
      if pageno != cur_pageno {
        if pageno >= |pages| {
          cur_entry := Nowhere;
          return ERR_BAD_PAGENO;
        }
        cur_dir_page := pageno;
        cur_pageno := pageno;
      } else {
        cur_dir_page := cur_pageno;
      }
      cur_entry := At(cur_dir_page, record);
      page_record := record;
      err := 0;
    }

    /** A handle with the current page number is not compared with the number of pages: dir_page has no such page. */
    predicate TakesNoPage(handle: int)
      reads this
    {
      handle > 0 && IndexFromHandle(handle) == file_index && PagenoFromHandle(handle) == cur_pageno >= |pages|
    }

    /** c_xdfloc2: the next live match behind the position the handle stands for. */
    method XdfLoc2(handle: int, criteria: Criteria) returns (found: int)
      requires Valid() && !TakesNoPage(handle)
      requires criteria.NewTarget? ==> |criteria.keys| == |criteria.mask| == 2 * primary_len
      modifies this`cur_dir_page, this`cur_pageno, this`cur_entry, this`page_record, this`valid_target, this`target,
        this`cur_mask
      ensures Valid()
      ensures old(PositionError(handle)) != 0 ==> found == old(PositionError(handle))
      ensures found != ERR_BAD_HNDL && old(PositionError(handle)) != ERR_NO_POS ==>
        (if criteria.NewTarget? then valid_target && target == criteria.keys && cur_mask == criteria.mask
         else unchanged(`valid_target, `target, `cur_mask))
      ensures old(PositionError(handle)) == 0 && !valid_target ==> found == ERR_NO_TARGET
      ensures old(PositionError(handle)) == 0 && valid_target && handle == -1 && !old(OnPage()) ==> found == ERR_NO_POS
      ensures old(PositionError(handle)) == 0 && valid_target && (handle == -1 ==> old(OnPage())) ==>
        (var m := NextHit(Entries(), old(SearchFrom(handle)), primary_len, target, cur_mask);
         if m == -1 then found == ERR_NOT_FOUND && cur_dir_page == -1
         else if handle == -1 then Found(m, found, old(cur_dir_page), old(cur_pageno)) else Found(m, found, 0, 0))
    {
      hide State, Directory, Flatten, NextHit, From, MakeRndHandle, IndexFromHandle, PagenoFromHandle, RecordFromHandle;
      StateDirectory(primary_len, lng_header, pages, nbd, plst, nxtadr, fsiz, nxtn, nrec, nbig);
      var record, pageno := 0, 0;
      if handle > 0 {
        record, pageno := RecordFromHandle(handle) + 1, PagenoFromHandle(handle);
        if IndexFromHandle(handle) != file_index { return ERR_BAD_HNDL; }
      } else if handle == 0 {
        cur_pageno := -1;
      } else if handle == -1 {
        if cur_entry == Nowhere || cur_pageno == -1 { return ERR_NO_POS; }
      } else {
        return ERR_BAD_HNDL;
      }
      if criteria.NewTarget? {
        target, cur_mask, valid_target := criteria.keys, criteria.mask, true;
      }
      if handle != -1 {
        found := MoveTo(pageno, record);
        if found < 0 { return; }
      }
      if !valid_target { return ERR_NO_TARGET; }
      found := NextMatch();
    }

    /** The search goes on behind entry m, which was found last. */
    method SearchOn(ghost m: nat, ghost last: int) returns (h: int)
      requires Valid() && valid_target && m < |Entries()| && Found(m, last, 0, 0)
      modifies this`cur_dir_page, this`cur_pageno, this`cur_entry, this`page_record, this`valid_target, this`target,
        this`cur_mask
      ensures Valid() && unchanged(`valid_target, `target, `cur_mask)
      ensures var next := NextHit(Entries(), m + 1, primary_len, target, cur_mask);
        if next == -1 then h == ERR_NOT_FOUND else Found(next, h, 0, 0)
    {
      hide State, Directory, Flatten, NextHit, MakeRndHandle, From;
      StateDirectory(primary_len, lng_header, pages, nbd, plst, nxtadr, fsiz, nxtn, nrec, nbig);
      BehindFound(pages, primary_len, nbd, plst, m, target, cur_mask);
      h := XdfLoc2(-1, SameTarget);
    }

    /** A search from handle 0, repeated from the current position until nothing more is found. */
    method SearchAll(keys: seq<Word>, mask: seq<Word>) returns (handles: seq<int>)
      requires Valid() && |keys| == |mask| == 2 * primary_len
      modifies this`cur_dir_page, this`cur_pageno, this`cur_entry, this`page_record, this`valid_target, this`target,
        this`cur_mask
      ensures Valid() && handles == HandlesOf(Hits(Entries(), 0, primary_len, keys, mask), file_index)
      ensures forall m: nat :: m < |Entries()| ==>
        (HandleAt(m, file_index) in handles <==> Entries()[m].idtyp < 127 && Agrees(Entries()[m], keys, mask))
    {
      hide State, Directory, Flatten, NextHit, MakeRndHandle, Hits, HandlesOf, From, Agrees;
      ghost var es := Entries();
      handles := [];
      StateMatches(keys, mask);
      StateDirectory(primary_len, lng_header, pages, nbd, plst, nxtadr, fsiz, nxtn, nrec, nbig);
      StartOfFile(pages, primary_len, nbd, plst, keys, mask);
      ghost var m := NextHit(es, 0, primary_len, keys, mask);
      HandlesFromNext(es, 0, primary_len, keys, mask, file_index);
      var h := XdfLoc2(0, NewTarget(keys, mask));
      assert Collected(handles, m, es, primary_len, keys, mask, file_index);
      while h >= 0
        invariant Valid() && valid_target && target == keys && cur_mask == mask && m < |es|
        invariant if m == -1 then h == ERR_NOT_FOUND else m >= 0 && Found(m, h, 0, 0)
        invariant Collected(handles, m, es, primary_len, keys, mask, file_index)
        decreases if m == -1 then 0 else |es| - m
      {
        CollectedNext(handles, m, es, primary_len, keys, mask, file_index);
        handles := handles + [h];
        ghost var last := m;
        m := NextHit(es, m + 1, primary_len, keys, mask);
        h := SearchOn(last, h);
      }
    }

    /** The handles that a search is to give, and the entries they name. */
    lemma StateMatches(keys: seq<Word>, mask: seq<Word>)
      requires Valid() && |keys| == |mask| == 2 * primary_len
      ensures var handles := HandlesOf(Hits(Entries(), 0, primary_len, keys, mask), file_index);
        forall m: nat :: m < |Entries()| ==>
          (HandleAt(m, file_index) in handles <==> Entries()[m].idtyp < 127 && Agrees(Entries()[m], keys, mask))
    {
      hide Flatten, Agrees, Hits, HandlesOf, HandleAt;
      StateDirectory(primary_len, lng_header, pages, nbd, plst, nxtadr, fsiz, nxtn, nrec, nbig);
      HandlesOfMatches(pages, primary_len, nbd, plst, keys, mask, file_index);
    }
  }

  function Min(a: int, b: int): int { if a < b then a else b }

  /** The place a search starts at, counted in the list of all entries. */
  lemma SearchStart(ps: seq<Page>, primary_len: nat, nbd: nat, plst: nat, target: seq<Word>, mask: seq<Word>,
      handle: int, page: int, record: nat)
    requires Directory(ps, primary_len, nbd, plst) && handle >= -1
    requires handle == -1 ==> 0 <= page < |ps| && record <= |ps[page].entries|
    requires handle > 0 ==> PagenoFromHandle(handle) < |ps|
    ensures var from := if handle > 0 then From(ps, PagenoFromHandle(handle), RecordFromHandle(handle) + 1)
        else if handle == 0 then From(ps, 0, 0)
        else From(ps, page, record);
      var n := if handle > 0 then handle / 0x8_0000 % 0x1000 * 256 + Min(handle / 0x400 % 0x200, 255) + 1
        else if handle == 0 then 0 else page * 256 + record;
      NextHit(Flatten(ps), from, primary_len, target, mask) == NextHit(Flatten(ps), n, primary_len, target, mask)
  {
    hide Flatten, NextHit, Linked, AllOk;
    if handle > 0 {
      var p, r := PagenoFromHandle(handle), RecordFromHandle(handle);
      EntryAt(ps, p, |ps[p].entries|);
      if r + 1 <= |ps[p].entries| {
        AheadOnPage(ps, p, r + 1, primary_len, target, mask);
      } else if |ps[p].entries| < ENTRIES_PER_PAGE {
        NoHitBehind(Flatten(ps), Place(p, Min(r, 255) + 1), primary_len, target, mask);
        NoHitBehind(Flatten(ps), From(ps, p, r + 1), primary_len, target, mask);
      }
    } else {
      AheadOnPage(ps, if handle == 0 then 0 else page, if handle == 0 then 0 else record, primary_len, target, mask);
    }
  }

  lemma NoHitBehind(es: seq<Entry>, n: nat, primary_len: nat, target: seq<Word>, mask: seq<Word>)
    requires n >= |es|
    ensures NextHit(es, n, primary_len, target, mask) == -1
  {
  }

  /** The first live entry from n on that agrees with the target, or none. */
  lemma NextHitIs(ps: seq<Page>, n: nat, primary_len: nat, nbd: nat, plst: nat, target: seq<Word>, mask: seq<Word>)
    requires Directory(ps, primary_len, nbd, plst) && |target| == |mask| == 2 * primary_len
    ensures var es := Flatten(ps); var m := NextHit(es, n, primary_len, target, mask);
      && (m >= 0 ==> n <= m < |es| && es[m].idtyp < 127 && Agrees(es[m], target, mask))
      && forall k :: n <= k < (if m >= 0 then m else |es|) ==> !(es[k].idtyp < 127 && Agrees(es[k], target, mask))
  {
    hide Flatten, Agrees, Selected, Linked;
    FirstHit(Flatten(ps), n, primary_len, target, mask);
    var es := Flatten(ps);
    forall k | 0 <= k < |es|
      ensures Selected(es[k], primary_len, target, mask) <==> es[k].idtyp < 127 && Agrees(es[k], target, mask)
    {
      SelectedAgrees(es[k], primary_len, target, mask);
    }
  }

  lemma {:induction false} FirstHit(es: seq<Entry>, n: nat, primary_len: nat, target: seq<Word>, mask: seq<Word>)
    ensures var m := NextHit(es, n, primary_len, target, mask);
      && (m >= 0 ==> n <= m < |es| && Selected(es[m], primary_len, target, mask))
      && forall k :: n <= k < (if m >= 0 then m else |es|) ==> !Selected(es[k], primary_len, target, mask)
    decreases |es| - n
  {
    hide Selected;
    if n < |es| && !Selected(es[n], primary_len, target, mask) { FirstHit(es, n + 1, primary_len, target, mask); }
  }

  /** The words of the entry have the bits of the keys wherever the mask has a bit. */
  ghost predicate Agrees(e: Entry, keys: seq<Word>, mask: seq<Word>) {
    var ws := [e.idtyp * 0x100_0000 + e.lng, e.addr] + e.keys;
    && |ws| == |mask| == |keys|
    && forall i: nat, b: nat ::
      i < |ws| && b < 32 && Shr(mask[i], b) % 2 == 1 ==> Shr(ws[i], b) % 2 == Shr(keys[i], b) % 2
  }

  /** The handle of an entry is among those of the hits exactly when the entry is live and agrees with the keys. */
  lemma HandlesOfMatches(ps: seq<Page>, primary_len: nat, nbd: nat, plst: nat, keys: seq<Word>, mask: seq<Word>,
      file_index: nat)
    requires Directory(ps, primary_len, nbd, plst) && |keys| == |mask| == 2 * primary_len && file_index < 0x400
    ensures var es := Flatten(ps); var handles := HandlesOf(Hits(es, 0, primary_len, keys, mask), file_index);
      forall m: nat :: m < |es| ==>
        (HandleAt(m, file_index) in handles <==> es[m].idtyp < 127 && Agrees(es[m], keys, mask))
  {
    hide Flatten, Hits, HandlesOf, HandleAt, Selected, Linked, Agrees;
    var es := Flatten(ps);
    var hits := Hits(es, 0, primary_len, keys, mask);
    HitsAreTheMatches(es, 0, primary_len, keys, mask);
    EntriesBound(ps);
    assert forall h: nat :: h in hits ==> h < |es|;
    forall m: nat | m < |es|
      ensures HandleAt(m, file_index) in HandlesOf(hits, file_index)
        <==> es[m].idtyp < 127 && Agrees(es[m], keys, mask)
    {
      HandleAmong(hits, m, |es|, file_index);
      SelectedAgrees(es[m], primary_len, keys, mask);
    }
  }

  lemma SelectedAgrees(e: Entry, primary_len: nat, keys: seq<Word>, mask: seq<Word>)
    requires EntryOk(e, primary_len) && |keys| == |mask| == 2 * primary_len
    ensures Selected(e, primary_len, keys, mask) <==> e.idtyp < 127 && Agrees(e, keys, mask)
  {
    hide Matches, Shr;
    var es, ws := EntryWords(e), [e.idtyp * 0x100_0000 + e.lng, e.addr] + e.keys;
    MatchesBits(es, keys, mask);
    assert |es| == |ws| && forall i :: 0 <= i < |ws| ==> es[i] == ws[i];
    if Matches(es, keys, mask) {
      forall i: nat, b: nat | i < |ws| && b < 32 && Shr(mask[i], b) % 2 == 1
        ensures Shr(ws[i], b) % 2 == Shr(keys[i], b) % 2
      {
        assert Shr(es[i], b) % 2 == Shr(keys[i], b) % 2;
      }
    }
  }

  lemma HandleAmong(hits: seq<nat>, m: nat, n: nat, file_index: nat)
    requires m < n <= MAX_DIR_PAGES * ENTRIES_PER_PAGE && file_index < 0x400
    requires forall h: nat :: h in hits ==> h < n
    ensures HandleAt(m, file_index) in HandlesOf(hits, file_index) <==> m in hits
  {
    hide HandleAt, PlaceOf, HandlesOf, IndexFromHandle;
    var hs := HandlesOf(hits, file_index);
    HandleNamesEntry(m, file_index);
    if m in hits {
      var i :| 0 <= i < |hits| && hits[i] == m;
      assert hs[i] == HandleAt(m, file_index);
    }
    if HandleAt(m, file_index) in hs {
      var i :| 0 <= i < |hs| && hs[i] == HandleAt(m, file_index);
      assert hits[i] in hits;
      HandleNamesEntry(hits[i], file_index);
    }
  }

  lemma EntriesBound(ps: seq<Page>)
    requires Filled(ps) && 1 <= |ps| <= MAX_DIR_PAGES
    ensures |Flatten(ps)| <= MAX_DIR_PAGES * ENTRIES_PER_PAGE
  {
    hide Flatten;
    EntryAt(ps, |ps| - 1, |ps[|ps| - 1].entries|);
  }

  /** The handles of the search so far, when the next match is entry m. */
  ghost predicate Collected(handles: seq<int>, m: int, es: seq<Entry>, primary_len: nat, target: seq<Word>,
      mask: seq<Word>, file_index: nat) {
    HandlesOf(Hits(es, 0, primary_len, target, mask), file_index) ==
    if m < 0 then handles
    else handles + [HandleAt(m, file_index)] + HandlesOf(Hits(es, m + 1, primary_len, target, mask), file_index)
  }

  lemma CollectedNext(handles: seq<int>, m: nat, es: seq<Entry>, primary_len: nat, target: seq<Word>, mask: seq<Word>,
      file_index: nat)
    requires Collected(handles, m, es, primary_len, target, mask, file_index)
    ensures Collected(handles + [HandleAt(m, file_index)], NextHit(es, m + 1, primary_len, target, mask), es,
      primary_len, target, mask, file_index)
  {
    hide NextHit, Hits, HandlesOf, HandleAt;
    HandlesFromNext(es, m + 1, primary_len, target, mask, file_index);
    var next := NextHit(es, m + 1, primary_len, target, mask);
    var done, rest := handles + [HandleAt(m, file_index)], HandlesOf(Hits(es, m + 1, primary_len, target, mask),
      file_index);
    if next >= 0 {
      Regroup(done, [HandleAt(next, file_index)], HandlesOf(Hits(es, next + 1, primary_len, target, mask), file_index),
        rest);
    } else {
      assert done + rest == done;
    }
  }

  lemma Regroup(a: seq<int>, b: seq<int>, c: seq<int>, bc: seq<int>)
    requires bc == b + c
    ensures a + bc == a + b + c
  {
  }

  /** The handle of entry m. */
  function HandleAt(m: nat, file_index: nat): nat {
    MakeRndHandle(m / ENTRIES_PER_PAGE, m % ENTRIES_PER_PAGE, file_index)
  }

  /** Before the first record of the first page. */
  lemma StartOfFile(ps: seq<Page>, primary_len: nat, nbd: nat, plst: nat, target: seq<Word>, mask: seq<Word>)
    requires Directory(ps, primary_len, nbd, plst)
    ensures NextHit(Flatten(ps), From(ps, 0, 0), primary_len, target, mask)
      == NextHit(Flatten(ps), 0, primary_len, target, mask)
  {
    AheadOnPage(ps, 0, 0, primary_len, target, mask);
  }

  /** Behind a record that was found. */
  lemma BehindFound(ps: seq<Page>, primary_len: nat, nbd: nat, plst: nat, m: nat, target: seq<Word>, mask: seq<Word>)
    requires Directory(ps, primary_len, nbd, plst) && m < |Flatten(ps)|
    ensures NextHit(Flatten(ps), From(ps, m / ENTRIES_PER_PAGE, m % ENTRIES_PER_PAGE + 1), primary_len, target, mask)
      == NextHit(Flatten(ps), m + 1, primary_len, target, mask)
  {
    hide Flatten, NextHit;
    Locate(ps, m);
    AheadOnPage(ps, m / ENTRIES_PER_PAGE, m % ENTRIES_PER_PAGE + 1, primary_len, target, mask);
  }

  /** The handles of entries of the file, from their places in the list. */
  function HandlesOf(hits: seq<nat>, file_index: nat): (hs: seq<int>)
    ensures |hs| == |hits|
    ensures forall i :: 0 <= i < |hs| ==> hs[i] == HandleAt(hits[i], file_index)
  {
    if hits == [] then []
    else [HandleAt(hits[0], file_index)] + HandlesOf(hits[1..], file_index)
  }

  /** The handle of an entry names that entry, for every entry a directory can hold. */
  lemma HandleNamesEntry(m: nat, file_index: nat)
    requires m < MAX_DIR_PAGES * ENTRIES_PER_PAGE && file_index < 0x400
    ensures PlaceOf(HandleAt(m, file_index)) == m && IndexFromHandle(HandleAt(m, file_index)) == file_index
  {
    HandleRoundTrip(m / ENTRIES_PER_PAGE, m % ENTRIES_PER_PAGE, file_index);
  }

  lemma HandlesFromNext(es: seq<Entry>, n: nat, primary_len: nat, target: seq<Word>, mask: seq<Word>, file_index: nat)
    ensures var m := NextHit(es, n, primary_len, target, mask);
      HandlesOf(Hits(es, n, primary_len, target, mask), file_index) == if m == -1 then []
        else [HandleAt(m, file_index)] + HandlesOf(Hits(es, m + 1, primary_len, target, mask), file_index)
  {
    hide NextHit, Hits, HandleAt;
    HitsFromNext(es, n, primary_len, target, mask);
    var m := NextHit(es, n, primary_len, target, mask);
    if m != -1 {
      var rest := Hits(es, m + 1, primary_len, target, mask);
      assert ([m] + rest)[1..] == rest;
    }
  }

  lemma RecordKept(ps: seq<Page>, qs: seq<Page>, handle: int)
    requires |ps| <= |qs| && forall p :: 0 <= p < |ps| ==> qs[p].entries == ps[p].entries
    requires RecordError(ps, handle) == 0
    ensures RecordError(qs, handle) == 0 && LengthAt(qs, handle) == LengthAt(ps, handle)
  {
    hide MarkedDeleted, PagenoFromHandle, RecordFromHandle;
  }

  lemma NewDone(fs: seq<Entry>, es: seq<Entry>, primary_len: nat, record: seq<Word>, disk: map<int, Word>,
      before: map<int, Word>)
    requires RecordOk(record, primary_len) && fs != []
    requires var e := fs[|fs| - 1];
      e == NewEntry(record, e.addr, primary_len) && AddedAtEnd(fs, es, e, record, disk, before)
    ensures PutDone(true, -1, fs, es, primary_len, record, disk, before)
  {
    hide NewEntry, SameStored, RecordImage, Stored, RecordOk;
  }

  /** Marking a record, then storing its successor, is the rewrite. */
  lemma RewriteDone(to_end: bool, n: nat, fs: seq<Entry>, marked: seq<Entry>, es: seq<Entry>, primary_len: nat,
      record: seq<Word>,
                    disk: map<int, Word>, before: map<int, Word>)
    requires Marked(marked, es, n) && RecordOk(record, primary_len)
    requires to_end ==> fs != [] && var e := fs[|fs| - 1];
      e == NewEntry(record, e.addr, primary_len) && AddedAtEnd(fs, marked, e, record, disk, before)
    requires !to_end ==> n < |fs| && var e := fs[n];
      e == NewEntry(record, e.addr, primary_len) && PutInPlace(fs, marked, n, e, record, disk, before)
    ensures PutDone(to_end, n, fs, es, primary_len, record, disk, before)
  {
    hide NewEntry, SameStored, RecordImage, Stored, RecordOk;
    SameStoredMarked(disk, before, es, if to_end then -1 else n, n);
    if !to_end { assert marked[n := fs[n]] == es[n := fs[n]]; }
  }

  /** Words written behind all records, by a new page, do not matter. */
  lemma PutAfter(to_end: bool, n: int, fs: seq<Entry>, es: seq<Entry>, primary_len: nat, record: seq<Word>,
                 disk: map<int, Word>, mid: map<int, Word>, before: map<int, Word>)
    requires PutDone(to_end, n, fs, es, primary_len, record, disk, mid) && SameStored(mid, before, es, -1)
    ensures PutDone(to_end, n, fs, es, primary_len, record, disk, before)
  {
    hide NewEntry, SameStored, RecordImage, Stored, RecordOk;
    SameStoredTrans(disk, mid, before, es, if to_end then -1 else n);
    if to_end && n != -1 {
      var marked := es[n := es[n].(idtyp := DELETED)];
      SameStoredUnmarked(mid, before, es, -1, n);
      SameStoredTrans(disk, mid, before, marked, -1);
    }
  }

  lemma LastPage(ps: seq<Page>, primary_len: nat, nbd: nat, plst: nat)
    requires Directory(ps, primary_len, nbd, plst)
    ensures |ps| >= 1 && |ps[|ps| - 1].entries| <= ENTRIES_PER_PAGE
  {
  }

  lemma WholeUnits(nwords: nat)
    requires nwords % 2 == 0
    ensures 2 * WdTo64(nwords) == nwords
  {
  }

  lemma LastGrows(ps: seq<Page>, e: Entry)
    requires ps != []
    ensures var qs, last := Appended(ps, e), |ps| - 1;
      |qs| == |ps| && |qs[last].entries| == |ps[last].entries| + 1
  {
  }

  lemma SameStoredHere(disk: map<int, Word>, es: seq<Entry>)
    ensures SameStored(disk, disk, es, -1)
  {
  }

  lemma EntryAddress(ps: seq<Page>, primary_len: nat, nbd: nat, plst: nat, p: nat, r: nat)
    requires Directory(ps, primary_len, nbd, plst) && p < |ps| && r < |ps[p].entries|
    ensures 1 <= ps[p].entries[r].addr < WORD
  {
    EntryAt(ps, p, r);
  }

  lemma RecordAppended(primary_len: nat, lng_header: nat, ps: seq<Page>, nbd: nat, plst: nat, nxtadr: int, fsiz: int,
                       nxtn: nat, nrec: int, nbig: nat, record: seq<Word>, addr: nat, before: map<int, Word>,
                         disk: map<int, Word>)
    requires State(primary_len, lng_header, ps, nbd, plst, nxtadr, fsiz, nxtn, nrec, nbig)
    requires |ps[|ps| - 1].entries| < ENTRIES_PER_PAGE && WordAddr(addr) == nxtadr && 1 <= addr < WORD
    requires RecordOk(record, primary_len) && |record| % 2 == 0
      && WrittenAt(disk, before, nxtadr, RecordImage(record, addr))
    ensures var e := NewEntry(record, addr, primary_len); var qs, lng := Appended(ps, e), WdTo64(|record|);
      && State(primary_len, lng_header, qs, nbd, plst, 2 * (fsiz + lng) + 1, fsiz + lng, nxtn + 1, nrec + 1,
        if lng > nbig then lng else nbig)
      && AddedAtEnd(Flatten(qs), Flatten(ps), e, record, disk, before) && |qs| == |ps|
  {
    hide Flatten, Counters, SameStored, Apart, WrittenAt, AllOk, Linked, Stored, EntryOk, RecordImage, EntryWords,
      WordAddr, Tiled, End;
    var e := NewEntry(record, addr, primary_len);
    EntryIsHeadOfRecord(record, addr, primary_len);
    EntriesBehindHeader(ps, primary_len, lng_header, nxtadr, fsiz);
    StoredBehind(Flatten(ps), 2 * lng_header + 1, nxtadr, disk, before, RecordImage(record, addr));
    StoredHere(disk, before, e, RecordImage(record, addr));
    AppendedKeeps(ps, primary_len, nbd, plst, lng_header, nxtadr, fsiz, e);
    CountersExtend(Flatten(ps), nxtn, nrec, nbig, e);
  }

  lemma RecordReplaced(primary_len: nat, lng_header: nat, ps: seq<Page>, nbd: nat, plst: nat, nxtadr: int, fsiz: int,
                       nxtn: nat, nrec: int, nbig: nat, p: nat, r: nat, record: seq<Word>, before: map<int, Word>,
                         disk: map<int, Word>)
    requires State(primary_len, lng_header, ps, nbd, plst, nxtadr, fsiz, nxtn, nrec, nbig)
    requires p < |ps| && r < |ps[p].entries| && ps[p].entries[r].idtyp == DELETED && 1 <= ps[p].entries[r].addr < WORD
    requires RecordOk(record, primary_len) && 2 * ps[p].entries[r].lng == |record|
    requires var addr := ps[p].entries[r].addr; WrittenAt(disk, before, WordAddr(addr), RecordImage(record, addr))
    ensures var n, addr := Place(p, r), ps[p].entries[r].addr; var e := NewEntry(record, addr, primary_len);
      var qs := Replaced(ps, p, r, e);
      && State(primary_len, lng_header, qs, nbd, plst, nxtadr, fsiz, nxtn, nrec + 1, nbig) && |qs| == |ps|
      && PutInPlace(Flatten(qs), Flatten(ps), n, e, record, disk, before)
  {
    hide Flatten, Counters, SameStored, Apart, WrittenAt, AllOk, Linked, Stored, EntryOk, RecordImage, EntryWords,
      WordAddr, Extents, Place;
    var addr := ps[p].entries[r].addr;
    var n, e := Place(p, r), NewEntry(record, addr, primary_len);
    EntryIsHeadOfRecord(record, addr, primary_len);
    EntriesBehindHeader(ps, primary_len, lng_header, nxtadr, fsiz);
    ReplacedKeeps(ps, primary_len, nbd, plst, lng_header, nxtadr, fsiz, p, r, e);
    StoredOver(Flatten(ps), 2 * lng_header + 1, nxtadr, disk, before, n, RecordImage(record, addr));
    StoredHere(disk, before, e, RecordImage(record, addr));
    CountersReplace(Flatten(ps), nxtn, nrec, nbig, n, e);
  }

  lemma EntriesBehindHeader(ps: seq<Page>, primary_len: nat, lng_header: nat, nxtadr: int, fsiz: int)
    requires Filled(ps) && Extents(ps, primary_len, lng_header, nxtadr, fsiz)
    ensures Apart(Flatten(ps), 2 * lng_header + 1, nxtadr)
  {
    hide Flatten, Tiled, End, Apart;
    ExtentsAreApart(ps, primary_len, 2 * lng_header + 1);
  }

  lemma NextUnit(primary_len: nat, lng_header: nat, ps: seq<Page>, nxtadr: int, fsiz: int)
    requires Extents(ps, primary_len, lng_header, nxtadr, fsiz)
    ensures WdTo64(nxtadr + PageWords(primary_len) - 1) == fsiz + PageWords(primary_len) / 2
  {
  }

  lemma PageAdded(primary_len: nat, lng_header: nat, ps: seq<Page>, nbd: nat, plst: nat, nxtadr: int, fsiz: int,
      nxtn: nat, nrec: int, nbig: nat,
                  addr: nat, before: map<int, Word>, disk: map<int, Word>, image: seq<Word>)
    requires State(primary_len, lng_header, ps, nbd, plst, nxtadr, fsiz, nxtn, nrec, nbig)
    requires |ps| < MAX_DIR_PAGES && |ps[|ps| - 1].entries| == ENTRIES_PER_PAGE && WordAddr(addr) == nxtadr
    requires WrittenAt(disk, before, nxtadr, image)
    ensures var qs := Chained(ps, addr);
      && (var next := nxtadr + PageWords(primary_len);
        State(primary_len, lng_header, qs, nbd + 1, addr, next, WdTo64(next - 1), nxtn, nrec, nbig))
      && Flatten(qs) == Flatten(ps)
      && |qs| == |ps| + 1 && qs[|ps|].entries == [] && (forall p :: 0 <= p < |ps| ==> qs[p].entries == ps[p].entries)
      && SameStored(disk, before, Flatten(ps), -1)
  {
    hide Flatten, PageWords, Extents, SameStored, Chained, Apart, WrittenAt, AllOk, Linked;
    EntriesBehindHeader(ps, primary_len, lng_header, nxtadr, fsiz);
    StoredBehind(Flatten(ps), 2 * lng_header + 1, nxtadr, disk, before, image);
    ChainedKeeps(ps, primary_len, nbd, plst, lng_header, nxtadr, fsiz, addr);
    NextUnit(primary_len, lng_header, ps, nxtadr, fsiz);
  }
}
