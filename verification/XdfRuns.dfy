/**
  Runs of the operations on a random file: searches that go on after a put, and records read back after other puts.
 */
module XdfRuns {
  import opened Words
  import opened XdfDirectory
  import opened XdfFile

  // ----- searches that go on after a put -----

  /** A search goes on from a cursor: the page number is set, and the entry is the one counted on the page. */
  predicate GoesOn(c: Cursor, page_record: nat) {
    c.pageno != -1 && 0 <= c.page && c.entry == At(c.page, page_record)
  }

  /**
    The handle given for entry m names it exactly when the page number was that of the page, on its twelve bits. A
    search from that handle takes a page that is not there exactly when the page number has come to the number of
    pages.
   */
  lemma HandleIsRight(f: RandomFile, m: nat, h: int, page: int, pageno: int)
    requires f.Valid() && m < |f.Entries()| && f.Found(m, h, page, pageno)
    ensures PlaceOf(h) == m <==> (pageno - page) % 0x1000 == 0
    ensures h > 0 && 0 <= f.cur_pageno < 0x1000 ==> (f.TakesNoPage(h) <==> f.cur_pageno >= |f.pages|)
  {
    hide Flatten, MakeRndHandle, PagenoFromHandle, RecordFromHandle, Linked, AllOk, Extents, Counters;
    var p, r, n := m / ENTRIES_PER_PAGE, m % ENTRIES_PER_PAGE, pageno + (m / ENTRIES_PER_PAGE - page);
    OnTwelveBits(n, r, f.file_index);
    HandleRoundTrip(n % 0x1000, r, f.file_index);
    SamePage(n, p, pageno, page);
  }

  lemma OnTwelveBits(pageno: int, recno: nat, file_index: nat)
    ensures MakeRndHandle(pageno, recno, file_index) == MakeRndHandle(pageno % 0x1000, recno, file_index)
  {
  }

  lemma SamePage(n: int, p: nat, pageno: int, page: int)
    requires n == pageno + (p - page) && p < 0x1000
    ensures n % 0x1000 == p <==> (pageno - page) % 0x1000 == 0
  {
  }

  /**
    The page number fits the page after a put exactly when the record went to a page that was there already, or when a
    record rewritten in place is on the page with the current number.
   */
  lemma PageNumberAfterPut(f: RandomFile, handle: int, record: seq<Word>)
    requires f.Valid() && f.PutError(handle, record) == 0
    ensures var c := f.PutCursor(handle, record);
      c.pageno == c.page <==>
        if GoesToEnd(f.pages, handle, record) then !f.LastIsFull() else f.cur_pageno == PagenoFromHandle(handle)
  {
    hide Flatten, Linked, AllOk, Extents, Counters, MarkedDeleted, IndexFromHandle, PagenoFromHandle, RecordFromHandle;
  }

  /**
    A search that is continued after a successful put. It has no position unless the put left the file at the entry the
    search had come to on its page. Otherwise it finds the next match behind the cursor, and the handle it gives names
    that entry exactly when the page number fits.
   */
  method PutAndSearchOn(f: RandomFile, handle: int, record: seq<Word>, criteria: Criteria)
    returns (err: int, found: int)
    requires f.Valid() && handle > -0x8000_0000 && RecordOk(record, f.primary_len)
    requires f.nxtadr + PageWords(f.primary_len) + |record| < 0x8000_0000
    requires criteria.NewTarget? ==> |criteria.keys| == |criteria.mask| == 2 * f.primary_len
    modifies f
    ensures f.Valid() && err == old(f.PutError(handle, record))
    ensures err == 0 && f.valid_target ==>
      (found == ERR_NO_POS <==> !GoesOn(old(f.PutCursor(handle, record)), old(f.page_record)))
    ensures err == 0 && f.valid_target && GoesOn(old(f.PutCursor(handle, record)), old(f.page_record)) ==>
      var c, r := old(f.PutCursor(handle, record)), old(f.page_record);
      var m := NextHit(f.Entries(), From(f.pages, c.page, r), f.primary_len, f.target, f.cur_mask);
      if m == -1 then found == ERR_NOT_FOUND
      else f.Found(m, found, c.page, c.pageno) && (PlaceOf(found) == m <==> (c.pageno - c.page) % 0x1000 == 0)
  {
    hide Flatten, NextHit, From, MakeRndHandle, PlaceOf, State, PutDone, RecordOk;
    found := 0;
    ghost var c := f.PutCursor(handle, record);
    err := f.XdfPut(handle, record);
    if err != 0 { return; }
    ghost var page_record := f.page_record;
    found := f.XdfLoc2(-1, criteria);
    if f.valid_target && GoesOn(c, page_record) {
      ghost var m := NextHit(f.Entries(), From(f.pages, c.page, page_record), f.primary_len, f.target, f.cur_mask);
      if m != -1 {
        NotAnError(f.cur_pageno, m % ENTRIES_PER_PAGE, f.file_index);
        HandleIsRight(f, m, found, c.page, c.pageno);
      }
    }
  }

  lemma NotAnError(pageno: int, recno: nat, file_index: nat)
    ensures MakeRndHandle(pageno, recno, file_index) >= file_index % 0x400
  {
  }

  // ----- a record read back -----

  /** A call of c_xdfput. */
  datatype Put = Put(handle: int, record: seq<Word>)

  /** The calls leave the record at place n alone: none of them rewrites it. */
  predicate Others(puts: seq<Put>, n: nat, primary_len: nat, longest: nat) {
    forall i :: 0 <= i < |puts| ==>
      && puts[i].handle > -0x8000_0000 && (puts[i].handle != 0 ==> PlaceOf(Abs(puts[i].handle)) != n)
      && RecordOk(puts[i].record, primary_len) && |puts[i].record| <= longest
  }

  /** Entry n is that of the record, and the disk has the record's words where the entry says. */
  ghost predicate Kept(es: seq<Entry>, n: nat, e: Entry, record: seq<Word>, disk: map<int, Word>) {
    n < |es| && es[n] == e && e.addr < WORD && 2 <= |record| < 0x200_0000
      && Stored(disk, e) == RecordImage(record, e.addr)
  }

  /** A put that does not rewrite a record keeps it. */
  lemma KeptByPut(to_end: bool, k: int, fs: seq<Entry>, es: seq<Entry>, primary_len: nat, put: seq<Word>,
      disk: map<int, Word>, before: map<int, Word>, n: nat, e: Entry, record: seq<Word>)
    requires PutDone(to_end, k, fs, es, primary_len, put, disk, before) && Kept(es, n, e, record, before) && k != n
    ensures Kept(fs, n, e, record, disk)
  {
    hide Stored, RecordImage, NewEntry, RecordOk;
    assert SameStored(disk, before, es, if to_end then -1 else k);
  }

  /** A new record is kept at the end of the list. */
  lemma KeptWhenNew(fs: seq<Entry>, es: seq<Entry>, primary_len: nat, record: seq<Word>, disk: map<int, Word>,
      before: map<int, Word>)
    requires PutDone(true, -1, fs, es, primary_len, record, disk, before)
    ensures |fs| == |es| + 1 && Kept(fs, |es|, fs[|es|], record, disk)
    ensures fs[|es|].idtyp == record[0] / 0x100_0000 && fs[|es|].lng == |record| / 2 && |record| >= 2
  {
    hide Stored, RecordImage, SameStored;
  }

  /** The handle of an entry leads to its record. */
  lemma KeptIsRead(f: RandomFile, n: nat, e: Entry)
    requires f.Valid() && n < |f.Entries()| && f.Entries()[n] == e && 1 <= e.idtyp < 126
    ensures var h := HandleAt(n, f.file_index);
      && IndexFromHandle(h) == f.file_index && PlaceOf(h) == n
      && RecordError(f.pages, h) == 0 && LengthAt(f.pages, h) == e.lng
  {
    hide Flatten, MakeRndHandle, IndexFromHandle, PagenoFromHandle, RecordFromHandle, Linked, AllOk, Extents, Counters,
      MarkedDeleted;
    Locate(f.pages, n);
    HandleNamesEntry(n, f.file_index);
    HandleRoundTrip(n / ENTRIES_PER_PAGE, n % ENTRIES_PER_PAGE, f.file_index);
    OnlyType126(e.idtyp);
  }

  lemma RoomLeft(n: nat, each: nat)
    requires n >= 1
    ensures n * each == each + (n - 1) * each
  {
  }

  /**
    A record is put, then others are put, new ones and rewrites in place or to the end, whether they succeed or not; the
    words read for the handle of the first are those put, with its length and its address in the first two.
   */
  method PutOthersAndGet(f: RandomFile, record: seq<Word>, puts: seq<Put>, data: array<Word>, ghost longest: nat)
    returns (err: int, h: int)
    requires f.Valid() && RecordOk(record, f.primary_len) && 1 <= record[0] / 0x100_0000 < 126
    requires |record| < data.Length && |record| <= longest && Others(puts, |f.Entries()|, f.primary_len, longest)
    requires f.nxtadr + (|puts| + 1) * (PageWords(f.primary_len) + longest) < 0x8000_0000
    modifies f, data
    ensures f.Valid() && err == old(f.PutError(0, record))
    ensures err == 0 ==> h == HandleAt(|old(f.Entries())|, f.file_index) && |old(f.Entries())| < |f.Entries()|
    ensures err == 0 ==>
      data[0] == record[0] / 0x100_0000 * 0x100_0000 + |record| / 2
        && data[1] == f.Entries()[|old(f.Entries())|].addr && data[2..|record|] == record[2..]
  {
    hide State, Flatten, PutDone, RecordOk, RecordImage, Stored, NewEntry, PageWords, HandleAt, PlaceOf, GoesToEnd,
      Kept, RecordError, LengthAt, IndexFromHandle;
    var n := |f.Entries()|;
    ghost var each, es, before := PageWords(f.primary_len) + longest, f.Entries(), f.disk;
    h := 0;
    RoomLeft(|puts| + 1, each);
    AlwaysToEnd(f.pages, record);
    err := f.XdfPut(0, record);
    if err != 0 { return; }
    KeptWhenNew(f.Entries(), es, f.primary_len, record, f.disk, before);
    ghost var e := f.Entries()[n];
    DoOthers(f, record, puts, n, e, longest, each);
    KeptFacts(f.Entries(), n, e, record, f.disk);
    KeptIsRead(f, n, e);
    h := HandleAt(n, f.file_index);
    err := f.XdfGet(h, data, |record|, 0, 0);
    ImageIs(record, e.addr, data[..|record|]);
  }

  /** The words of a record image: length and address in front of the record's own words. */
  lemma ImageIs(record: seq<Word>, addr: nat, ws: seq<Word>)
    requires 2 <= |record| < 0x200_0000 && addr < WORD && ws == RecordImage(record, addr)
    ensures |ws| == |record| && ws[0] == record[0] / 0x100_0000 * 0x100_0000 + |record| / 2 && ws[1] == addr
    ensures forall k :: 2 <= k < |record| ==> ws[k] == record[k]
  {
    forall k | 2 <= k < |record| ensures ws[k] == record[k] {
      assert ws[k] == record[2..][k - 2];
    }
  }

  lemma AlwaysToEnd(ps: seq<Page>, record: seq<Word>)
    ensures GoesToEnd(ps, 0, record)
  {
  }

  lemma KeptFacts(es: seq<Entry>, n: nat, e: Entry, record: seq<Word>, disk: map<int, Word>)
    requires Kept(es, n, e, record, disk)
    ensures n < |es| && es[n] == e && e.addr < WORD && 2 <= |record| < 0x200_0000
    ensures Stored(disk, e) == RecordImage(record, e.addr) && 2 * e.lng == |record|
  {
  }

  /** The other puts, one after the other. */
  method DoOthers(f: RandomFile, ghost record: seq<Word>, puts: seq<Put>, ghost n: nat, ghost e: Entry,
      ghost longest: nat, ghost each: nat)
    requires f.Valid() && Others(puts, n, f.primary_len, longest) && Kept(f.Entries(), n, e, record, f.disk)
    requires each == PageWords(f.primary_len) + longest && f.nxtadr + |puts| * each < 0x8000_0000
    modifies f
    ensures f.Valid() && Kept(f.Entries(), n, e, record, f.disk)
  {
    hide State, Flatten, PutDone, RecordOk, RecordImage, Stored, NewEntry, PageWords, PlaceOf, GoesToEnd, Kept;
    var i := 0;
    while i < |puts|
      invariant 0 <= i <= |puts| && f.Valid() && Kept(f.Entries(), n, e, record, f.disk)
      invariant f.nxtadr + (|puts| - i) * each < 0x8000_0000
    {
      RoomLeft(|puts| - i, each);
      ghost var es, before, put := f.Entries(), f.disk, puts[i];
      ghost var k, to_end := if put.handle == 0 then -1 else PlaceOf(Abs(put.handle)),
        GoesToEnd(f.pages, put.handle, put.record);
      var failed := f.XdfPut(puts[i].handle, puts[i].record);
      if failed == 0 {
        KeptByPut(to_end, k, f.Entries(), es, f.primary_len, put.record, f.disk, before, n, e, record);
      }
      i := i + 1;
    }
  }

  // ----- a run that ends with a handle of no page -----

  const OF_TYPE_2: seq<Word> := [0x200_0001, 0]
  const TYPE_AND_LENGTH: seq<Word> := [0xFFFF_FFFF, 0]

  /** An entry of a record of two words, without keys. */
  predicate Plain(e: Entry, idtyp: nat) {
    e.idtyp == idtyp && e.lng == 1 && e.keys == []
  }

  /** All records have type 1, but for the last, which has type 2. */
  ghost predicate LastIsOther(es: seq<Entry>, n: nat) {
    |es| <= n && forall k :: 0 <= k < |es| ==> EntryOk(es[k], 1) && Plain(es[k], if k == n - 1 then 2 else 1)
  }

  lemma NothingMasked(a: nat)
    ensures And(a, 0) == 0 && Xor(0x200_0001, 0x200_0001) == 0 && And(0, 0xFFFF_FFFF) == 0
  {
    SameIsZero(0x200_0001);
  }

  lemma {:induction false} SameIsZero(a: nat)
    ensures Xor(a, a) == 0
  {
    if a > 0 { SameIsZero(a / 2); }
  }

  /** The lowest bit in which two numbers differ is in the exclusive or, and passes the mask. */
  lemma {:induction false} DifferenceShows(a: nat, b: nat, n: nat)
    requires a < Pow2(n) && b < Pow2(n) && a != b
    ensures And(Xor(a, b), Pow2(n) - 1) != 0
  {
    Pow2Double(n);
    if a / 2 != b / 2 { DifferenceShows(a / 2, b / 2, n - 1); }
  }

  lemma OtherType()
    ensures And(Xor(0x100_0001, 0x200_0001), 0xFFFF_FFFF) != 0
  {
    hide And, Xor;
    Pow2Values();
    DifferenceShows(0x100_0001, 0x200_0001, 32);
  }

  lemma SelectedByType(e: Entry, idtyp: nat)
    requires EntryOk(e, 1) && Plain(e, idtyp) && (idtyp == 1 || idtyp == 2)
    ensures Selected(e, 1, OF_TYPE_2, TYPE_AND_LENGTH) <==> idtyp == 2
  {
    hide And, Xor;
    var ws := EntryWords(e);
    assert ws == [idtyp * 0x100_0000 + 1, e.addr];
    NothingMasked(Xor(e.addr, 0));
    OtherType();
    if idtyp == 1 { assert And(Xor(ws[0], OF_TYPE_2[0]), TYPE_AND_LENGTH[0]) != 0; }
  }

  lemma {:induction false} LastIsFound(es: seq<Entry>, n: nat)
    requires LastIsOther(es, |es|) && n < |es|
    ensures NextHit(es, n, 1, OF_TYPE_2, TYPE_AND_LENGTH) == |es| - 1
    decreases |es| - n
  {
    hide Selected, EntryOk, Plain;
    SelectedByType(es[n], if n == |es| - 1 then 2 else 1);
    if n < |es| - 1 { LastIsFound(es, n + 1); }
  }

  /** The number of entries gives the number of pages. */
  lemma PagesOf(f: RandomFile)
    requires f.Valid()
    ensures f.pages != [] && |f.pages[|f.pages| - 1].entries| <= ENTRIES_PER_PAGE
    ensures |f.Entries()| == ENTRIES_PER_PAGE * (|f.pages| - 1) + |f.pages[|f.pages| - 1].entries|
    ensures forall k :: 0 <= k < |f.Entries()| ==> EntryOk(f.Entries()[k], f.primary_len)
  {
    hide Flatten, Linked, Extents, Counters, EntryOk;
    EntryAt(f.pages, |f.pages| - 1, |f.pages[|f.pages| - 1].entries|);
  }

  /** A file of 262 records, all of them alike but for the last one. */
  method Filled262() returns (f: RandomFile)
    ensures fresh(f) && f.Valid() && f.rwflg == CREATE && f.file_index == 1 && f.primary_len == 1
    ensures |f.Entries()| == 262 && LastIsOther(f.Entries(), 262) && f.nxtadr < 0x10_0000
  {
    hide Flatten, State, EntryOk;
    f := new RandomFile(1, 1, seq(16, i => 0));
    var i := 0;
    while i < 262
      invariant 0 <= i <= 262 && fresh(f) && f.Valid() && f.rwflg == CREATE && f.file_index == 1 && f.primary_len == 1
      invariant |f.Entries()| == i && LastIsOther(f.Entries(), 262) && f.nxtadr <= 537 + 522 * i
    {
      PagesOf(f);
      ghost var es := f.Entries();
      var err := f.XdfPut(0, [if i == 261 then 0x200_0000 else 0x100_0000, 0]);
      PagesOf(f);
      i := i + 1;
    }
  }

  /** The file of 262 records, read for the record of type 2. */
  ghost predicate Searched(f: RandomFile)
    reads f
  {
    && f.Valid() && f.rwflg == CREATE && f.file_index == 1 && f.primary_len == 1
    && |f.Entries()| == 262 && LastIsOther(f.Entries(), 262)
    && f.valid_target && f.target == OF_TYPE_2 && f.cur_mask == TYPE_AND_LENGTH
  }

  method SearchType2() returns (f: RandomFile)
    ensures fresh(f) && Searched(f) && f.cur_pageno == 1 && f.page_record == 6 && f.nxtadr < 0x10_0000
  {
    hide Flatten, State, EntryOk, NextHit, Selected, Matches, LastIsOther, MakeRndHandle, From;
    f := Filled262();
    LastIsFound(f.Entries(), 0);
    StateDirectory(f.primary_len, f.lng_header, f.pages, f.nbd, f.plst, f.nxtadr, f.fsiz, f.nxtn, f.nrec, f.nbig);
    StartOfFile(f.pages, 1, f.nbd, f.plst, OF_TYPE_2, TYPE_AND_LENGTH);
    var h := f.XdfLoc2(0, NewTarget(OF_TYPE_2, TYPE_AND_LENGTH));
  }

  /** The seventh record of page 0 is rewritten in place. */
  method RewriteSeventh(f: RandomFile)
    requires Searched(f) && f.cur_pageno == 1 && f.page_record == 6 && f.nxtadr < 0x10_0000
    modifies f
    ensures Searched(f) && f.cur_pageno == 1 && f.page_record == 6
    ensures f.cur_dir_page == 0 && f.cur_entry == At(0, 6)
  {
    hide Flatten, State, EntryOk, MakeRndHandle, IndexFromHandle, PagenoFromHandle, RecordFromHandle, Stored,
      SameStored, RecordImage;
    PagesOf(f);
    StateDirectory(f.primary_len, f.lng_header, f.pages, f.nbd, f.plst, f.nxtadr, f.fsiz, f.nxtn, f.nrec, f.nbig);
    Locate(f.pages, 6);
    assert f.pages[0].entries[6] == f.Entries()[6];
    NotAnError(0, 6, 1);
    HandleRoundTrip(0, 6, 1);
    var err := f.XdfPut(MakeRndHandle(0, 6, 1), [0x100_0000, 0]);
    PagesOf(f);
  }

  /**
    A search finds the record of type 2, the sixth of page 1; then the seventh record of page 0 is rewritten in place,
    and the search is continued. It finds the same record again, on what it takes for page 2: the handle names no
    record of the file, and a search from that handle would take a page that is not there.
   */
  method SearchPastTheEnd() returns (f: RandomFile, h: int)
    ensures f.Valid() && |f.pages| == 2 && |f.Entries()| == 262
    ensures f.cur_dir_page == 1 && f.page_record == 6 && Selected(f.Entries()[261], 1, f.target, f.cur_mask)
    ensures PlaceOf(h) != 261 && RecordError(f.pages, h) == ERR_BAD_PAGENO && f.TakesNoPage(h)
  {
    hide Flatten, State, EntryOk, NextHit, Selected, Matches, MakeRndHandle, IndexFromHandle, PagenoFromHandle,
      RecordFromHandle, From;
    f := SearchType2();
    RewriteSeventh(f);
    PagesOf(f);
    LastIsFound(f.Entries(), 6);
    StateDirectory(f.primary_len, f.lng_header, f.pages, f.nbd, f.plst, f.nxtadr, f.fsiz, f.nxtn, f.nrec, f.nbig);
    AheadOnPage(f.pages, 0, 6, 1, OF_TYPE_2, TYPE_AND_LENGTH);
    h := f.XdfLoc2(-1, SameTarget);
    assert f.Found(261, h, 0, 1);
    HandleRoundTrip(2, 5, 1);
    NotAnError(2, 5, 1);
    SelectedByType(f.Entries()[261], 2);
  }
}
