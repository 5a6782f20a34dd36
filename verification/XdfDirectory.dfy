/**
  The directory of a random XDF file that is not linked: pages of 256 entries in a chain, the extents of the records
  they name, the counters kept about them, and the masked search through them. Addresses of records and pages are in
  64-bit units from 1; word addresses count 32-bit words from 1.
 */
module XdfDirectory {
  import opened Words

  const ENTRIES_PER_PAGE: nat := 256
  const MAX_DIR_PAGES: nat := 1024

  /** A directory entry: the header of the record, then its primary keys. */
  datatype Entry = Entry(idtyp: nat, lng: nat, addr: nat, keys: seq<Word>)

  datatype Page = Page(addr: nat, nxt_addr: nat, entries: seq<Entry>)

  const DELETED: nat := 254

  /** (idtyp & 0x7E) == 0x7E */
  predicate MarkedDeleted(idtyp: nat) {
    idtyp / 2 % 64 == 63
  }

  // ----- handles -----

  /** MAKE_RND_HANDLE */
  function MakeRndHandle(pageno: int, recno: nat, file_index: nat): nat {
    file_index % 0x400 + recno % 0x200 * 0x400 + pageno % 0x1000 * 0x8_0000
  }

  function IndexFromHandle(handle: int): nat { handle % 0x400 }
  function RecordFromHandle(handle: int): nat { handle / 0x400 % 0x200 }
  function PagenoFromHandle(handle: int): nat { handle / 0x8_0000 % 0x1000 }

  lemma HandleRoundTrip(pageno: nat, recno: nat, file_index: nat)
    requires pageno < 0x1000 && recno < 0x200 && file_index < 0x400
    ensures var h := MakeRndHandle(pageno, recno, file_index);
      IndexFromHandle(h) == file_index && RecordFromHandle(h) == recno && PagenoFromHandle(h) == pageno
        && h < 0x8000_0000
  {
    var h := MakeRndHandle(pageno, recno, file_index);
    BitField(h, 0, 1, file_index, 0x400, recno + 0x200 * pageno);
    BitField(h, file_index, 0x400, recno, 0x200, pageno);
    BitField(h, file_index + recno * 0x400, 0x8_0000, pageno, 0x1000, 0);
  }

  // ----- the directory as one list -----

  function Flatten(ps: seq<Page>): (es: seq<Entry>) {
    if ps == [] then [] else ps[0].entries + Flatten(ps[1..])
  }

  /** All pages but the last are full. */
  predicate Filled(ps: seq<Page>) {
    forall p :: 0 <= p < |ps| ==> if p < |ps| - 1 then |ps[p].entries| == ENTRIES_PER_PAGE
      else |ps[p].entries| <= ENTRIES_PER_PAGE
  }

  lemma {:induction false} FlattenAppend(ps: seq<Page>, page: Page)
    ensures Flatten(ps + [page]) == Flatten(ps) + page.entries
  {
    var qs := ps + [page];
    if ps == [] {
      assert qs[0] == page && qs[1..] == [];
    } else {
      FlattenAppend(ps[1..], page);
      assert qs[0] == ps[0] && qs[1..] == ps[1..] + [page];
    }
  }

  /** The place of record r of page p in the list of all entries. */
  function Place(p: nat, r: nat): nat {
    ENTRIES_PER_PAGE * p + r
  }

  lemma {:induction false} EntryAt(ps: seq<Page>, p: nat, r: nat)
    requires Filled(ps) && p < |ps| && r <= |ps[p].entries|
    ensures Place(p, r) <= |Flatten(ps)|
    ensures r < |ps[p].entries| ==> Place(p, r) < |Flatten(ps)| && Flatten(ps)[Place(p, r)] == ps[p].entries[r]
    ensures p == |ps| - 1 && r == |ps[p].entries| ==> Place(p, r) == |Flatten(ps)|
  {
    if p > 0 {
      FilledTail(ps);
      EntryAt(ps[1..], p - 1, r);
    } else if |ps| == 1 {
      assert ps[1..] == [];
    }
  }

  lemma FilledTail(ps: seq<Page>)
    requires Filled(ps) && |ps| > 1
    ensures Filled(ps[1..]) && |ps[0].entries| == ENTRIES_PER_PAGE
  {
    var qs := ps[1..];
    forall p | 0 <= p < |qs|
      ensures if p < |qs| - 1 then |qs[p].entries| == ENTRIES_PER_PAGE else |qs[p].entries| <= ENTRIES_PER_PAGE
    {
      assert qs[p] == ps[p + 1];
    }
  }

  /** An entry replaced in its page is replaced in the list. */
  lemma {:induction false} FlattenUpdate(ps: seq<Page>, p: nat, r: nat, e: Entry)
    requires Filled(ps) && p < |ps| && r < |ps[p].entries|
    ensures Place(p, r) < |Flatten(ps)|
    ensures Flatten(ps[p := ps[p].(entries := ps[p].entries[r := e])]) == Flatten(ps)[Place(p, r) := e]
  {
    EntryAt(ps, p, r);
    var qs := ps[p := ps[p].(entries := ps[p].entries[r := e])];
    if p == 0 {
      assert qs[1..] == ps[1..];
    } else {
      FilledTail(ps);
      FlattenUpdate(ps[1..], p - 1, r, e);
      assert qs[0] == ps[0] && qs[1..] == ps[1..][p - 1 := ps[1..][p - 1].(entries := ps[1..][p - 1].entries[r := e])];
    }
  }

  /** An entry added to the last page is added to the list. */
  lemma FlattenExtend(ps: seq<Page>, e: Entry)
    requires ps != []
    ensures var l := |ps| - 1; Flatten(ps[l := ps[l].(entries := ps[l].entries + [e])]) == Flatten(ps) + [e]
  {
    var l := |ps| - 1;
    var init := ps[..l];
    assert ps == init + [ps[l]];
    FlattenAppend(init, ps[l]);
    FlattenAppend(init, ps[l].(entries := ps[l].entries + [e]));
    assert ps[l := ps[l].(entries := ps[l].entries + [e])] == init + [ps[l].(entries := ps[l].entries + [e])];
  }

  // ----- counters -----

  function Live(es: seq<Entry>): (n: nat)
    ensures n <= |es|
  {
    if es == [] then 0 else Live(es[..|es| - 1]) + (if es[|es| - 1].idtyp != DELETED then 1 else 0)
  }

  function Biggest(es: seq<Entry>): (n: nat)
  {
    if es == [] then 0
    else if es[|es| - 1].lng > Biggest(es[..|es| - 1]) then es[|es| - 1].lng
    else Biggest(es[..|es| - 1])
  }

  lemma {:induction false} LiveUpdate(es: seq<Entry>, n: nat, e: Entry)
    requires n < |es|
    ensures Live(es[n := e]) == Live(es) - (if es[n].idtyp != DELETED then 1 else 0)
      + (if e.idtyp != DELETED then 1 else 0)
  {
    var l := |es| - 1;
    if n < l {
      LiveUpdate(es[..l], n, e);
      assert es[n := e][..l] == es[..l][n := e];
    } else {
      assert es[n := e][..l] == es[..l];
    }
  }

  lemma {:induction false} BiggestUpdate(es: seq<Entry>, n: nat, e: Entry)
    requires n < |es| && e.lng == es[n].lng
    ensures Biggest(es[n := e]) == Biggest(es)
  {
    var l := |es| - 1;
    if n < l {
      BiggestUpdate(es[..l], n, e);
      assert es[n := e][..l] == es[..l][n := e];
    } else {
      assert es[n := e][..l] == es[..l];
    }
  }

  lemma CountersAppend(es: seq<Entry>, e: Entry)
    ensures Live(es + [e]) == Live(es) + (if e.idtyp != DELETED then 1 else 0)
    ensures Biggest(es + [e]) == if e.lng > Biggest(es) then e.lng else Biggest(es)
  {
    assert (es + [e])[..|es|] == es;
  }

  // ----- extents -----

  function WordAddr(addr: int): int { 2 * (addr - 1) + 1 }

  /** The words of a directory page. */
  function PageWords(primary_len: nat): nat { 2 * (primary_len * ENTRIES_PER_PAGE + 4) }

  function Sum(es: seq<Entry>): nat {
    if es == [] then 0 else 2 * es[0].lng + Sum(es[1..])
  }

  /** The records of a page follow one another from `at` on. */
  predicate RecordsTiled(es: seq<Entry>, at: int) {
    es == [] || (WordAddr(es[0].addr) == at && RecordsTiled(es[1..], at + 2 * es[0].lng))
  }

  /** Every page is followed by its records and then by the next page: no gap and no overlap from `at` on. */
  predicate Tiled(ps: seq<Page>, primary_len: nat, at: int) {
    ps == [] ||
    (&& WordAddr(ps[0].addr) == at
     && RecordsTiled(ps[0].entries, at + PageWords(primary_len))
     && Tiled(ps[1..], primary_len, at + PageWords(primary_len) + Sum(ps[0].entries)))
  }

  function End(ps: seq<Page>, primary_len: nat, at: int): (e: int)
    ensures e >= at
  {
    if ps == [] then at else End(ps[1..], primary_len, at + PageWords(primary_len) + Sum(ps[0].entries))
  }

  lemma {:induction false} SumAppend(es: seq<Entry>, e: Entry)
    ensures Sum(es + [e]) == Sum(es) + 2 * e.lng
  {
    if es == [] {
      assert ([] + [e])[1..] == [];
    } else {
      SumAppend(es[1..], e);
      assert (es + [e])[0] == es[0] && (es + [e])[1..] == es[1..] + [e];
    }
  }

  lemma {:induction false} RecordsTiledAppend(es: seq<Entry>, at: int, e: Entry)
    requires RecordsTiled(es, at) && WordAddr(e.addr) == at + Sum(es)
    ensures RecordsTiled(es + [e], at)
  {
    hide WordAddr;
    if es == [] {
      assert ([] + [e])[1..] == [];
    } else {
      RecordsTiledAppend(es[1..], at + 2 * es[0].lng, e);
      assert (es + [e])[0] == es[0] && (es + [e])[1..] == es[1..] + [e];
    }
  }

  /** A record that takes the place of another of the same extent. */
  lemma {:induction false} RecordsTiledUpdate(es: seq<Entry>, at: int, r: nat, e: Entry)
    requires r < |es| && e.addr == es[r].addr && e.lng == es[r].lng
    ensures RecordsTiled(es[r := e], at) == RecordsTiled(es, at) && Sum(es[r := e]) == Sum(es)
  {
    if r > 0 {
      RecordsTiledUpdate(es[1..], at + 2 * es[0].lng, r - 1, e);
      assert es[r := e][1..] == es[1..][r - 1 := e];
    } else {
      assert es[r := e][1..] == es[1..];
    }
  }

  lemma {:induction false} TiledUpdate(ps: seq<Page>, primary_len: nat, at: int, p: nat, r: nat, e: Entry)
    requires p < |ps| && r < |ps[p].entries| && e.addr == ps[p].entries[r].addr && e.lng == ps[p].entries[r].lng
    ensures var qs := ps[p := ps[p].(entries := ps[p].entries[r := e])];
      Tiled(qs, primary_len, at) == Tiled(ps, primary_len, at) && End(qs, primary_len, at) == End(ps, primary_len, at)
  {
    hide RecordsTiled, Sum, PageWords, WordAddr;
    var qs := ps[p := ps[p].(entries := ps[p].entries[r := e])];
    if p == 0 {
      RecordsTiledUpdate(ps[0].entries, at + PageWords(primary_len), r, e);
      assert qs[1..] == ps[1..];
    } else {
      TiledUpdate(ps[1..], primary_len, at + PageWords(primary_len) + Sum(ps[0].entries), p - 1, r, e);
      assert qs[0] == ps[0] && qs[1..] == ps[1..][p - 1 := ps[1..][p - 1].(entries := ps[1..][p - 1].entries[r := e])];
    }
  }

  /** A record at the end goes with the last page. */
  lemma {:induction false} TiledExtend(ps: seq<Page>, primary_len: nat, at: int, e: Entry)
    requires ps != [] && Tiled(ps, primary_len, at) && WordAddr(e.addr) == End(ps, primary_len, at)
    ensures var l := |ps| - 1; var qs := ps[l := ps[l].(entries := ps[l].entries + [e])];
      Tiled(qs, primary_len, at) && End(qs, primary_len, at) == End(ps, primary_len, at) + 2 * e.lng
  {
    hide RecordsTiled, Sum, PageWords, WordAddr;
    var l := |ps| - 1;
    var qs := ps[l := ps[l].(entries := ps[l].entries + [e])];
    if l == 0 {
      assert ps[1..] == [] && qs[1..] == [];
      RecordsTiledAppend(ps[0].entries, at + PageWords(primary_len), e);
      SumAppend(ps[0].entries, e);
    } else {
      TiledExtend(ps[1..], primary_len, at + PageWords(primary_len) + Sum(ps[0].entries), e);
      assert qs[0] == ps[0] && qs[1..] == ps[1..][l - 1 := ps[1..][l - 1].(entries := ps[1..][l - 1].entries + [e])];
    }
  }

  lemma {:induction false} TiledNewPage(ps: seq<Page>, primary_len: nat, at: int, page: Page)
    requires Tiled(ps, primary_len, at) && WordAddr(page.addr) == End(ps, primary_len, at) && page.entries == []
    ensures Tiled(ps + [page], primary_len, at) && End(ps + [page], primary_len, at)
      == End(ps, primary_len, at) + PageWords(primary_len)
  {
    hide PageWords, WordAddr;
    var qs := ps + [page];
    if ps == [] {
      assert qs[0] == page && qs[1..] == [];
    } else {
      TiledNewPage(ps[1..], primary_len, at + PageWords(primary_len) + Sum(ps[0].entries), page);
      assert qs[0] == ps[0] && qs[1..] == ps[1..] + [page];
    }
  }

  /** Only links between pages changed. */
  lemma {:induction false} TiledRelinked(ps: seq<Page>, primary_len: nat, at: int, p: nat, nxt_addr: nat)
    requires p < |ps|
    ensures var qs := ps[p := ps[p].(nxt_addr := nxt_addr)];
      && Tiled(qs, primary_len, at) == Tiled(ps, primary_len, at)
      && End(qs, primary_len, at) == End(ps, primary_len, at)
      && Flatten(qs) == Flatten(ps)
  {
    hide RecordsTiled, Sum, PageWords, WordAddr;
    var qs := ps[p := ps[p].(nxt_addr := nxt_addr)];
    if p == 0 {
      assert qs[1..] == ps[1..];
    } else {
      TiledRelinked(ps[1..], primary_len, at + PageWords(primary_len) + Sum(ps[0].entries), p - 1, nxt_addr);
      assert qs[0] == ps[0] && qs[1..] == ps[1..][p - 1 := ps[1..][p - 1].(nxt_addr := nxt_addr)];
    }
  }

  lemma {:induction false} RecordWithin(es: seq<Entry>, at: int, r: nat)
    requires RecordsTiled(es, at) && r < |es|
    ensures at <= WordAddr(es[r].addr) && WordAddr(es[r].addr) + 2 * es[r].lng <= at + Sum(es)
  {
    if r > 0 { RecordWithin(es[1..], at + 2 * es[0].lng, r - 1); }
  }

  lemma {:induction false} RecordBefore(es: seq<Entry>, at: int, r: nat, s: nat)
    requires RecordsTiled(es, at) && r < s < |es|
    ensures WordAddr(es[r].addr) + 2 * es[r].lng <= WordAddr(es[s].addr)
  {
    if r > 0 {
      RecordBefore(es[1..], at + 2 * es[0].lng, r - 1, s - 1);
    } else {
      RecordWithin(es[1..], at + 2 * es[0].lng, s - 1);
    }
  }

  /** Every record lies behind its page and before the end. */
  lemma {:induction false} EntryWithin(ps: seq<Page>, primary_len: nat, at: int, p: nat, r: nat)
    requires Tiled(ps, primary_len, at) && p < |ps| && r < |ps[p].entries|
    ensures var e := ps[p].entries[r];
      at + PageWords(primary_len) <= WordAddr(e.addr) && WordAddr(e.addr) + 2 * e.lng <= End(ps, primary_len, at)
  {
    hide WordAddr, PageWords;
    if p == 0 {
      RecordWithin(ps[0].entries, at + PageWords(primary_len), r);
    } else {
      EntryWithin(ps[1..], primary_len, at + PageWords(primary_len) + Sum(ps[0].entries), p - 1, r);
    }
  }

  /** The extents of two records do not overlap: the earlier entry ends before the later one starts. */
  lemma {:induction false} EntriesApart(ps: seq<Page>, primary_len: nat, at: int, p: nat, r: nat, q: nat, s: nat)
    requires Tiled(ps, primary_len, at) && p < |ps| && r < |ps[p].entries| && q < |ps| && s < |ps[q].entries|
    requires p < q || (p == q && r < s)
    ensures var e, f := ps[p].entries[r], ps[q].entries[s]; WordAddr(e.addr) + 2 * e.lng <= WordAddr(f.addr)
  {
    hide WordAddr, PageWords;
    var next := at + PageWords(primary_len) + Sum(ps[0].entries);
    if q == 0 {
      RecordBefore(ps[0].entries, at + PageWords(primary_len), r, s);
    } else if p == 0 {
      RecordWithin(ps[0].entries, at + PageWords(primary_len), r);
      EntryWithin(ps[1..], primary_len, next, q - 1, s);
    } else {
      EntriesApart(ps[1..], primary_len, next, p - 1, r, q - 1, s);
    }
  }

  /** No gap: every word from `at` to the end is in a page or in a record. */
  lemma {:induction false} EveryWordCovered(ps: seq<Page>, primary_len: nat, at: int, a: int) returns (p: nat, r: int)
    requires Tiled(ps, primary_len, at) && at <= a < End(ps, primary_len, at)
    ensures p < |ps| && -1 <= r < |ps[p].entries|
    ensures r == -1 ==> WordAddr(ps[p].addr) <= a < WordAddr(ps[p].addr) + PageWords(primary_len)
    ensures r >= 0 ==> WordAddr(ps[p].entries[r].addr) <= a < WordAddr(ps[p].entries[r].addr) + 2 * ps[p].entries[r].lng
  {
    hide WordAddr, PageWords;
    var mid := at + PageWords(primary_len);
    if a < mid {
      p, r := 0, -1;
    } else if a < mid + Sum(ps[0].entries) {
      p := 0;
      r := RecordCovered(ps[0].entries, mid, a);
    } else {
      p, r := EveryWordCovered(ps[1..], primary_len, mid + Sum(ps[0].entries), a);
      p := p + 1;
    }
  }

  lemma {:induction false} RecordCovered(es: seq<Entry>, at: int, a: int) returns (r: nat)
    requires RecordsTiled(es, at) && at <= a < at + Sum(es)
    ensures r < |es| && WordAddr(es[r].addr) <= a < WordAddr(es[r].addr) + 2 * es[r].lng
  {
    hide WordAddr;
    if a < at + 2 * es[0].lng {
      r := 0;
    } else {
      r := RecordCovered(es[1..], at + 2 * es[0].lng, a);
      r := r + 1;
    }
  }

  // ----- masked search -----

  /** The two words of a record header in front of others. */
  function Headed(a: Word, b: Word, ws: seq<Word>): seq<Word> {
    [a, b] + ws
  }

  /** A directory entry as words: idtyp above lng, the address, the keys. */
  function EntryWords(e: Entry): (ws: seq<Word>)
    requires e.idtyp < 0x100 && e.lng < 0x100_0000 && e.addr < WORD
  {
    var head: Word, addr: Word := e.idtyp * 0x100_0000 + e.lng, e.addr;
    Headed(head, addr, e.keys)
  }

  predicate EntryOk(e: Entry, primary_len: nat) {
    && (e.idtyp <= 126 || e.idtyp == DELETED) && e.lng < 0x100_0000 && 1 <= e.addr < WORD
    && |e.keys| + 2 == 2 * primary_len
  }

  ghost predicate AllOk(es: seq<Entry>, primary_len: nat) {
    forall k :: 0 <= k < |es| ==> EntryOk(es[k], primary_len)
  }

  /** The words agree with the target wherever the mask has a bit. */
  predicate Matches(ws: seq<Word>, target: seq<Word>, mask: seq<Word>)
    requires |ws| <= |target| && |ws| <= |mask|
  {
    forall i :: 0 <= i < |ws| ==> And(Xor(ws[i], target[i]), mask[i]) == 0
  }

  /** A live entry that matches. */
  predicate Selected(e: Entry, primary_len: nat, target: seq<Word>, mask: seq<Word>) {
    && EntryOk(e, primary_len) && |target| == |mask| == 2 * primary_len
    && e.idtyp < 127 && Matches(EntryWords(e), target, mask)
  }

  /** The places of the live matching entries from n on, in order. */
  function Hits(es: seq<Entry>, n: nat, primary_len: nat, target: seq<Word>, mask: seq<Word>): (hits: seq<nat>)
    decreases |es| - n
  {
    if n >= |es| then []
    else (if Selected(es[n], primary_len, target, mask) then [n] else []) + Hits(es, n + 1, primary_len, target, mask)
  }

  /** The first of them, or -1. */
  function NextHit(es: seq<Entry>, n: nat, primary_len: nat, target: seq<Word>, mask: seq<Word>): (m: int)
    ensures m == -1 || n <= m < |es|
    decreases |es| - n
  {
    if n >= |es| then -1
    else if Selected(es[n], primary_len, target, mask) then n
    else NextHit(es, n + 1, primary_len, target, mask)
  }

  lemma {:induction false} HitsFromNext(es: seq<Entry>, n: nat, primary_len: nat, target: seq<Word>, mask: seq<Word>)
    ensures var m := NextHit(es, n, primary_len, target, mask);
      Hits(es, n, primary_len, target, mask) == if m == -1 then [] else [m] + Hits(es, m + 1, primary_len, target, mask)
    decreases |es| - n
  {
    hide Selected;
    if n < |es| && !Selected(es[n], primary_len, target, mask) { HitsFromNext(es, n + 1, primary_len, target, mask); }
  }

  /** Each live matching entry is there exactly once, in order, and no other. */
  lemma {:induction false} HitsAreTheMatches(es: seq<Entry>, n: nat, primary_len: nat, target: seq<Word>,
      mask: seq<Word>)
    ensures var hits := Hits(es, n, primary_len, target, mask);
      && (forall m :: m in hits <==> n <= m < |es| && Selected(es[m], primary_len, target, mask))
      && forall i, j :: 0 <= i < j < |hits| ==> hits[i] < hits[j]
    decreases |es| - n
  {
    hide Selected;
    if n < |es| {
      HitsAreTheMatches(es, n + 1, primary_len, target, mask);
      var rest := Hits(es, n + 1, primary_len, target, mask);
      var hits := Hits(es, n, primary_len, target, mask);
      assert forall m :: m in hits <==> (m == n && Selected(es[n], primary_len, target, mask)) || m in rest;
      assert forall j :: 0 <= j < |rest| ==> rest[j] in rest;
    }
  }

  lemma {:induction false} OrZeroIff(a: nat, b: nat)
    ensures Or(a, b) == 0 <==> a == 0 && b == 0
  {
    if a > 0 || b > 0 {
      OrZeroIff(a / 2, b / 2);
    }
  }

  /** Every bit that the mask selects is the same in the words and in the target. */
  lemma MatchesBits(ws: seq<Word>, target: seq<Word>, mask: seq<Word>)
    requires |ws| <= |target| && |ws| <= |mask|
    ensures Matches(ws, target, mask) <==> forall i: nat, b: nat ::
      i < |ws| && b < 32 && Shr(mask[i], b) % 2 == 1 ==> Shr(ws[i], b) % 2 == Shr(target[i], b) % 2
  {
    hide And, Xor, Shr;
    if Matches(ws, target, mask) {
      forall i: nat, b: nat | i < |ws| && b < 32 && Shr(mask[i], b) % 2 == 1
        ensures Shr(ws[i], b) % 2 == Shr(target[i], b) % 2
      {
        MaskedBits(ws[i], target[i], mask[i]);
      }
    } else {
      var i :| 0 <= i < |ws| && And(Xor(ws[i], target[i]), mask[i]) != 0;
      MaskedBits(ws[i], target[i], mask[i]);
    }
  }

  /** match |= (*entry ^ *search) & *mask over the width of an entry. */
  method CompareWords(ws: seq<Word>, target: seq<Word>, mask: seq<Word>) returns (found: bool)
    requires |ws| == |target| == |mask|
    ensures found == Matches(ws, target, mask)
    ensures found <==> forall i: nat, b: nat ::
      i < |ws| && b < 32 && Shr(mask[i], b) % 2 == 1 ==> Shr(ws[i], b) % 2 == Shr(target[i], b) % 2
  {
    hide Or, And, Xor, Shr;
    MatchesBits(ws, target, mask);
    var i, match' := 0, 0;
    while i < |ws|
      invariant 0 <= i <= |ws| && match' >= 0
      invariant match' == 0 <==> forall k :: 0 <= k < i ==> And(Xor(ws[k], target[k]), mask[k]) == 0
    {
      OrZeroIff(match', And(Xor(ws[i], target[i]), mask[i]));
      match' := Or(match', And(Xor(ws[i], target[i]), mask[i]));
      i := i + 1;
    }
    found := match' == 0;
  }

  /** Every page knows where the next one is. */
  ghost predicate Linked(ps: seq<Page>) {
    && (forall p :: 0 <= p < |ps| - 1 ==> ps[p].nxt_addr == ps[p + 1].addr)
    && (ps == [] || ps[|ps| - 1].nxt_addr == 0)
  }

  /** Where a search goes on from record r of page p: behind the page's entries means the next page. */
  function From(ps: seq<Page>, p: nat, r: nat): nat {
    if p < |ps| && r < |ps[p].entries| then Place(p, r) else Place(p + 1, 0)
  }

  /** Full pages but for the last, each linked to the next, of well-formed entries. */
  ghost predicate Directory(ps: seq<Page>, primary_len: nat, nbd: nat, plst: nat) {
    && 1 <= |ps| <= MAX_DIR_PAGES && Filled(ps) && Linked(ps)
    && nbd == |ps| && plst == ps[|ps| - 1].addr
    && AllOk(Flatten(ps), primary_len)
  }

  /** Header, pages and records tile the words from 1 to nxtadr. */
  ghost predicate Extents(ps: seq<Page>, primary_len: nat, lng_header: nat, nxtadr: int, fsiz: int) {
    && Tiled(ps, primary_len, 2 * lng_header + 1)
    && nxtadr == End(ps, primary_len, 2 * lng_header + 1) == 2 * fsiz + 1
  }

  /** The number of entries, of live ones, and the longest record. */
  ghost predicate Counters(es: seq<Entry>, nxtn: nat, nrec: int, nbig: nat) {
    nxtn == |es| && nrec == Live(es) && nbig == Biggest(es)
  }

  lemma PlaceFields(p: nat, r: nat)
    requires r < ENTRIES_PER_PAGE
    ensures Place(p, r) / ENTRIES_PER_PAGE == p && Place(p, r) % ENTRIES_PER_PAGE == r
  {
  }

  /** The next match from record r of page p, in the list of all entries. */
  lemma AheadOnPage(ps: seq<Page>, p: nat, r: nat, primary_len: nat, target: seq<Word>, mask: seq<Word>)
    requires Filled(ps) && p < |ps| && r <= |ps[p].entries|
    ensures NextHit(Flatten(ps), From(ps, p, r), primary_len, target, mask)
      == NextHit(Flatten(ps), Place(p, r), primary_len, target, mask)
  {
    hide Flatten, Selected;
    EntryAt(ps, p, |ps[p].entries|);
  }

  /** Behind a page comes the next one, and behind the last page nothing. */
  lemma BehindPage(ps: seq<Page>, p: nat, r: nat, primary_len: nat, target: seq<Word>, mask: seq<Word>)
    requires Filled(ps) && p < |ps| && r >= |ps[p].entries|
    ensures var m := NextHit(Flatten(ps), From(ps, p, r), primary_len, target, mask);
      if p + 1 < |ps| then m == NextHit(Flatten(ps), From(ps, p + 1, 0), primary_len, target, mask) else m == -1
  {
    hide Flatten, Selected;
    if p + 1 < |ps| {
      AheadOnPage(ps, p + 1, 0, primary_len, target, mask);
    } else {
      EntryAt(ps, p, |ps[p].entries|);
    }
  }

  /** One step of the search in the list. */
  lemma OneEntry(es: seq<Entry>, n: nat, primary_len: nat, target: seq<Word>, mask: seq<Word>)
    requires n < |es| && AllOk(es, primary_len) && |target| == |mask| == 2 * primary_len
    ensures EntryOk(es[n], primary_len) && |EntryWords(es[n])| == 2 * primary_len
    ensures NextHit(es, n, primary_len, target, mask)
      == if es[n].idtyp < 127 && Matches(EntryWords(es[n]), target, mask) then n
        else NextHit(es, n + 1, primary_len, target, mask)
  {
    hide Matches;
  }

  lemma FirstPage(primary_len: nat, lng_header: nat)
    ensures var ps := [Page(lng_header + 1, 0, [])];
      && Flatten(ps) == [] && Tiled(ps, primary_len, 2 * lng_header + 1)
      && End(ps, primary_len, 2 * lng_header + 1) == 2 * lng_header + 1 + PageWords(primary_len)
  {
    var ps := [Page(lng_header + 1, 0, [])];
    assert ps[1..] == [];
  }

  // ----- what the updates keep -----

  function Replaced(ps: seq<Page>, p: nat, r: nat, e: Entry): seq<Page>
    requires p < |ps| && r < |ps[p].entries|
  {
    ps[p := ps[p].(entries := ps[p].entries[r := e])]
  }

  function Appended(ps: seq<Page>, e: Entry): seq<Page>
    requires ps != []
  {
    var l := |ps| - 1;
    ps[l := ps[l].(entries := ps[l].entries + [e])]
  }

  /** An empty page at address `addr`, linked behind the last one. */
  function Chained(ps: seq<Page>, addr: nat): seq<Page>
    requires ps != []
  {
    var l := |ps| - 1;
    ps[l := ps[l].(nxt_addr := addr)] + [Page(addr, 0, [])]
  }

  /** The place of an entry gives its page and its record number. */
  lemma {:induction false} Locate(ps: seq<Page>, n: nat)
    requires Filled(ps) && n < |Flatten(ps)|
    ensures var p, r := n / ENTRIES_PER_PAGE, n % ENTRIES_PER_PAGE;
      p < |ps| && r < |ps[p].entries| && Flatten(ps)[n] == ps[p].entries[r]
  {
    if |ps| == 1 {
      assert ps[1..] == [];
    } else if n >= |ps[0].entries| {
      FilledTail(ps);
      Locate(ps[1..], n - ENTRIES_PER_PAGE);
      assert n / ENTRIES_PER_PAGE == (n - ENTRIES_PER_PAGE) / ENTRIES_PER_PAGE + 1;
    }
  }

  /** The extents of the records, one behind another between lo and hi. */
  ghost predicate Apart(es: seq<Entry>, lo: int, hi: int) {
    && (forall n :: 0 <= n < |es| ==> lo <= WordAddr(es[n].addr) && WordAddr(es[n].addr) + 2 * es[n].lng <= hi)
    && forall n, m :: 0 <= n < m < |es| ==> WordAddr(es[n].addr) + 2 * es[n].lng <= WordAddr(es[m].addr)
  }

  lemma ExtentsAreApart(ps: seq<Page>, primary_len: nat, at: int)
    requires Filled(ps) && Tiled(ps, primary_len, at)
    ensures Apart(Flatten(ps), at, End(ps, primary_len, at))
  {
    hide Flatten, Tiled, End, WordAddr;
    var es := Flatten(ps);
    forall n | 0 <= n < |es|
      ensures at <= WordAddr(es[n].addr) && WordAddr(es[n].addr) + 2 * es[n].lng <= End(ps, primary_len, at)
    {
      Locate(ps, n);
      EntryWithin(ps, primary_len, at, n / ENTRIES_PER_PAGE, n % ENTRIES_PER_PAGE);
    }
    forall n, m | 0 <= n < m < |es|
      ensures WordAddr(es[n].addr) + 2 * es[n].lng <= WordAddr(es[m].addr)
    {
      Locate(ps, n);
      Locate(ps, m);
      LaterPlace(n, m);
      EntriesApart(ps, primary_len, at, n / ENTRIES_PER_PAGE, n % ENTRIES_PER_PAGE, m / ENTRIES_PER_PAGE,
        m % ENTRIES_PER_PAGE);
    }
  }

  lemma LaterPlace(n: nat, m: nat)
    requires n < m
    ensures var p, q := n / ENTRIES_PER_PAGE, m / ENTRIES_PER_PAGE;
      p < q || (p == q && n % ENTRIES_PER_PAGE < m % ENTRIES_PER_PAGE)
  {
  }

  lemma SameChain(ps: seq<Page>, qs: seq<Page>)
    requires |ps| == |qs| && forall p :: 0 <= p < |ps| ==> ps[p].addr == qs[p].addr && ps[p].nxt_addr == qs[p].nxt_addr
    requires Linked(ps)
    ensures Linked(qs)
  {
    forall p | 0 <= p < |qs| - 1 ensures qs[p].nxt_addr == qs[p + 1].addr {
      assert ps[p].nxt_addr == qs[p].nxt_addr && ps[p + 1].addr == qs[p + 1].addr;
    }
  }

  lemma ReplacedKeeps(ps: seq<Page>, primary_len: nat, nbd: nat, plst: nat, lng_header: nat, nxtadr: int, fsiz: int,
      p: nat, r: nat, e: Entry)
    requires Directory(ps, primary_len, nbd, plst) && Extents(ps, primary_len, lng_header, nxtadr, fsiz)
    requires p < |ps| && r < |ps[p].entries| && e.addr == ps[p].entries[r].addr && e.lng == ps[p].entries[r].lng
      && EntryOk(e, primary_len)
    ensures var qs := Replaced(ps, p, r, e);
      && Directory(qs, primary_len, nbd, plst) && Extents(qs, primary_len, lng_header, nxtadr, fsiz)
      && Place(p, r) < |Flatten(ps)| && Flatten(ps)[Place(p, r)] == ps[p].entries[r]
      && Flatten(qs) == Flatten(ps)[Place(p, r) := e]
  {
    hide Flatten, Tiled, End, EntryOk;
    FlattenUpdate(ps, p, r, e);
    EntryAt(ps, p, r);
    TiledUpdate(ps, primary_len, 2 * lng_header + 1, p, r, e);
    var qs := Replaced(ps, p, r, e);
    assert Filled(qs);
    SameChain(ps, qs);
    assert AllOk(Flatten(qs), primary_len);
  }

  lemma AppendedKeeps(ps: seq<Page>, primary_len: nat, nbd: nat, plst: nat, lng_header: nat, nxtadr: int, fsiz: int,
      e: Entry)
    requires Directory(ps, primary_len, nbd, plst) && Extents(ps, primary_len, lng_header, nxtadr, fsiz)
    requires |ps[|ps| - 1].entries| < ENTRIES_PER_PAGE && WordAddr(e.addr) == nxtadr && EntryOk(e, primary_len)
    ensures var qs := Appended(ps, e);
      && Directory(qs, primary_len, nbd, plst) && Extents(qs, primary_len, lng_header, nxtadr + 2 * e.lng, fsiz + e.lng)
      && Flatten(qs) == Flatten(ps) + [e]
  {
    hide Flatten, Tiled, End, EntryOk, WordAddr;
    FlattenExtend(ps, e);
    TiledExtend(ps, primary_len, 2 * lng_header + 1, e);
    var qs := Appended(ps, e);
    assert Filled(qs);
    SameChain(ps, qs);
    assert AllOk(Flatten(qs), primary_len);
  }

  lemma ChainedKeeps(ps: seq<Page>, primary_len: nat, nbd: nat, plst: nat, lng_header: nat, nxtadr: int, fsiz: int,
      addr: nat)
    requires Directory(ps, primary_len, nbd, plst) && Extents(ps, primary_len, lng_header, nxtadr, fsiz)
    requires |ps| < MAX_DIR_PAGES && |ps[|ps| - 1].entries| == ENTRIES_PER_PAGE && WordAddr(addr) == nxtadr
    ensures var qs := Chained(ps, addr);
      && Directory(qs, primary_len, nbd + 1, addr) && Flatten(qs) == Flatten(ps)
      && |qs| == |ps| + 1 && qs[|ps|].entries == [] && (forall p :: 0 <= p < |ps| ==> qs[p].entries == ps[p].entries)
      && Extents(qs, primary_len, lng_header, nxtadr + PageWords(primary_len), fsiz + PageWords(primary_len) / 2)
  {
    hide Flatten, Tiled, End, EntryOk, WordAddr, PageWords;
    var l, at := |ps| - 1, 2 * lng_header + 1;
    TiledRelinked(ps, primary_len, at, l, addr);
    var mid := ps[l := ps[l].(nxt_addr := addr)];
    TiledNewPage(mid, primary_len, at, Page(addr, 0, []));
    FlattenAppend(mid, Page(addr, 0, []));
    PageIsEven(primary_len);
  }

  lemma PageIsEven(primary_len: nat)
    ensures PageWords(primary_len) == 2 * (PageWords(primary_len) / 2)
  {
  }

  lemma CountersReplace(es: seq<Entry>, nxtn: nat, nrec: int, nbig: nat, n: nat, e: Entry)
    requires Counters(es, nxtn, nrec, nbig) && n < |es| && e.lng == es[n].lng
    ensures Counters(es[n := e], nxtn, nrec - (if es[n].idtyp != DELETED then 1 else 0)
      + (if e.idtyp != DELETED then 1 else 0), nbig)
  {
    LiveUpdate(es, n, e);
    BiggestUpdate(es, n, e);
  }

  lemma CountersExtend(es: seq<Entry>, nxtn: nat, nrec: int, nbig: nat, e: Entry)
    requires Counters(es, nxtn, nrec, nbig) && e.idtyp != DELETED
    ensures Counters(es + [e], nxtn + 1, nrec + 1, if e.lng > nbig then e.lng else nbig)
  {
    CountersAppend(es, e);
  }

  lemma EntryIsOk(ps: seq<Page>, primary_len: nat, nbd: nat, plst: nat, p: nat, r: nat)
    requires Directory(ps, primary_len, nbd, plst) && p < |ps| && r < |ps[p].entries|
    ensures EntryOk(ps[p].entries[r], primary_len)
    ensures MarkedDeleted(ps[p].entries[r].idtyp) <==> ps[p].entries[r].idtyp in {126, DELETED}
  {
    EntryAt(ps, p, r);
  }
}
