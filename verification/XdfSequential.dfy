/**
  Addresses in a sequential XDF file. Records are padded so that every address is a multiple of the cluster size of
  its range, which lets make_seq_handle squeeze an address of 28 bits, in 64-bit units, into 22 bits and a cluster code.
 */
module XdfSequential {
  import opened Words

  const MB512: nat := 0x400_0000
  const MB128: nat := 0x100_0000
  const MB32: nat := 0x40_0000

  /** The cluster code of an address in 64-bit units. */
  function Cluster(unit: nat): nat {
    if unit >= MB512 then 3 else if unit >= MB128 then 2 else if unit >= MB32 then 1 else 0
  }

  /** cluster_size, in words, for the address at which the next record would start, in words from 0. */
  function ClusterSize(address: nat): nat {
    if address / 0x4_0000 >= 512 then 128
    else if address / 0x4_0000 >= 128 then 32
    else if address / 0x4_0000 >= 32 then 8
    else 2
  }

  /** The address where the next record will start, rounded up to its cluster. */
  function NextClusterAddr(cur_addr: nat, nwords: nat): nat
    requires cur_addr >= 1
  {
    var next := cur_addr - 1 + nwords + 4;
    (next + ClusterSize(next) - 1) / ClusterSize(next) * ClusterSize(next)
  }

  /** A word address whose offset is a multiple of the cluster size of its range. */
  predicate Aligned(address: nat) {
    address >= 1 && (address - 1) % ClusterSize(address - 1) == 0
  }

  lemma RoundUp(n: nat, c: nat)
    requires c > 0
    ensures var r := (n + c - 1) / c * c; n <= r < n + c && r % c == 0
  {
    var q := (n + c - 1) / c;
    assert n + c - 1 == c * q + (n + c - 1) % c;
    assert q * c == c * q;
    DivUnique(q * c, c, q, 0);
  }

  /** Rounding never overshoots the start of the next range, which is a multiple of every cluster size. */
  lemma NextIsAligned(cur_addr: nat, nwords: nat)
    requires cur_addr >= 1
    ensures var next := cur_addr - 1 + nwords + 4; next <= NextClusterAddr(cur_addr, nwords) < next + ClusterSize(next)
    ensures Aligned(NextClusterAddr(cur_addr, nwords) + 1)
  {
    var next := cur_addr - 1 + nwords + 4;
    var r := NextClusterAddr(cur_addr, nwords);
    RoundUp(next, ClusterSize(next));
    var c := ClusterSize(next);
    if c == 2 { Below(next, r, 2, 0x80_0000); }
    if c == 8 { Below(next, r, 8, 0x200_0000); }
    if c == 32 { Below(next, r, 32, 0x800_0000); }
  }

  lemma Below(n: nat, r: nat, c: nat, limit: nat)
    requires c > 0 && n < limit && n <= r < n + c && r % c == 0 && limit % c == 0
    ensures r <= limit
  {
    if r > limit {
      var p, q := r / c, limit / c;
      assert r == c * p && limit == c * q;
      assert c * (p - q) == r - limit;
      AtLeastOnce(c, p - q);
    }
  }

  lemma AtLeastOnce(c: int, d: int)
    requires c > 0 && c * d > 0
    ensures c * d >= c
  {
    assert d >= 1 by { if d <= 0 { NotPositive(c, d); } }
    MulAtLeast(c, d);
  }

  lemma NotPositive(c: int, d: int)
    requires c > 0 && d <= 0
    ensures c * d <= 0
  {
  }

  /** make_seq_handle */
  function MakeSeqHandle(address: nat, file_index: nat): nat
    requires address >= 1
  {
    var unit := (address - 1) / 2;
    var addr := if unit >= MB512 then unit / 64 else if unit >= MB128 then unit / 16 else if unit >= MB32 then unit / 4
      else unit;
    file_index + addr % 0x40_0000 * 0x80 + Cluster(unit) * 0x2000_0000
  }

  /** address_from_handle */
  function AddressFromHandle(handle: nat): nat {
    var addr, cluster := handle / 0x80 % 0x40_0000, handle / 0x2000_0000 % 4;
    2 * (addr * (if cluster == 3 then 64 else if cluster == 2 then 16 else if cluster == 1 then 4 else 1)) + 1
  }

  lemma HandleFields(addr: nat, cluster: nat, file_index: nat)
    requires addr < 0x40_0000 && cluster < 4 && file_index < 0x80
    ensures var h := file_index + addr * 0x80 + cluster * 0x2000_0000;
      h / 0x80 % 0x40_0000 == addr && h / 0x2000_0000 % 4 == cluster && h % 0x80 == file_index && h < 0x8000_0000
  {
    var h := file_index + addr * 0x80 + cluster * 0x2000_0000;
    BitField(h, file_index, 0x80, addr, 0x40_0000, cluster);
    BitField(h, file_index + addr * 0x80, 0x2000_0000, cluster, 4, 0);
    BitField(h, 0, 1, file_index, 0x80, addr + cluster * 0x40_0000);
  }

  /** The fields of a handle: the file, the address in steps of its range, and the range from bit 29 on. */
  lemma SeqHandleIs(address: nat, file_index: nat)
    requires 1 <= address && (address - 1) / 2 < 0x1000_0000 && file_index < 0x80
    ensures var h, unit := MakeSeqHandle(address, file_index), (address - 1) / 2;
      && h % 128 == file_index && h < 0x8000_0000
      && (unit < 0x40_0000 ==> h / 0x2000_0000 == 0 && h / 128 % 0x40_0000 == unit)
      && (0x40_0000 <= unit < 0x100_0000 ==> h / 0x2000_0000 == 1 && h / 128 % 0x40_0000 == unit / 4)
      && (0x100_0000 <= unit < 0x400_0000 ==> h / 0x2000_0000 == 2 && h / 128 % 0x40_0000 == unit / 16)
      && (0x400_0000 <= unit ==> h / 0x2000_0000 == 3 && h / 128 % 0x40_0000 == unit / 64)
  {
    hide MakeSeqHandle, Cluster;
    var unit := (address - 1) / 2;
    var k := Spread(Cluster(unit));
    SpreadOf(unit);
    ClusterOf(unit);
    Quotient(unit, k);
    HandleMade(address, file_index, unit, k);
    HandleFields(unit / k, Cluster(unit), file_index);
  }

  lemma ClusterOf(unit: nat)
    ensures Cluster(unit) == if unit >= 0x400_0000 then 3 else if unit >= 0x100_0000 then 2
      else if unit >= 0x40_0000 then 1 else 0
  {
  }

  /** For addresses below 2^28 units, the handle gives back the address exactly when it is a multiple of its cluster. */
  lemma HandleRoundTrip(address: nat, file_index: nat)
    requires 1 <= address && address % 2 == 1 && (address - 1) / 2 < 0x1000_0000 && file_index < 0x80
    ensures AddressFromHandle(MakeSeqHandle(address, file_index)) == address <==> Aligned(address)
    ensures MakeSeqHandle(address, file_index) % 0x80 == file_index
  {
    hide MakeSeqHandle, AddressFromHandle, Cluster, ClusterSize;
    var unit := (address - 1) / 2;
    var k := Spread(Cluster(unit));
    SpreadOf(unit);
    Quotient(unit, k);
    HandleMade(address, file_index, unit, k);
    HandleFields(unit / k, Cluster(unit), file_index);
    HandleRead(MakeSeqHandle(address, file_index), unit / k, Cluster(unit));
    SameRange(unit);
  }

  /** The units a step of the address field stands for. */
  function Spread(cluster: nat): nat {
    if cluster == 3 then 64 else if cluster == 2 then 16 else if cluster == 1 then 4 else 1
  }

  lemma SpreadOf(unit: nat)
    ensures Cluster(unit) < 4
    ensures Spread(Cluster(unit)) == if unit >= MB512 then 64 else if unit >= MB128 then 16 else if unit >= MB32 then 4
      else 1
  {
  }

  lemma HandleMade(address: nat, file_index: nat, unit: nat, k: nat)
    requires 1 <= address && unit == (address - 1) / 2
    requires k == (if unit >= MB512 then 64 else if unit >= MB128 then 16 else if unit >= MB32 then 4 else 1)
      && unit / k < 0x40_0000
    ensures MakeSeqHandle(address, file_index) == file_index + unit / k * 0x80 + Cluster(unit) * 0x2000_0000
  {
    hide Cluster;
  }

  lemma HandleRead(handle: nat, addr: nat, cluster: nat)
    requires handle / 0x80 % 0x40_0000 == addr && handle / 0x2000_0000 % 4 == cluster
    ensures AddressFromHandle(handle) == 2 * (addr * Spread(cluster)) + 1
  {
  }

  lemma Quotient(unit: nat, k: nat)
    requires unit < 0x1000_0000 && k == if unit >= MB512 then 64 else if unit >= MB128 then 16
      else if unit >= MB32 then 4 else 1
    ensures unit / k < 0x40_0000
    ensures unit / k * k == unit <==> 2 * unit % (2 * k) == 0
  {
    var q, r := unit / k, unit % k;
    assert unit == k * q + r;
    assert 2 * unit == 2 * k * q + 2 * r;
    DivUnique(2 * unit, 2 * k, q, 2 * r);
  }

  lemma SameRange(unit: nat)
    ensures ClusterSize(2 * unit) == 2 * if unit >= MB512 then 64 else if unit >= MB128 then 16
      else if unit >= MB32 then 4 else 1
  {
  }

  lemma EvenAddress(a: nat)
    requires Aligned(a + 1)
    ensures a % 2 == 0
  {
    hide ClusterSize;
    var c := ClusterSize(a);
    FourSizes(a);
    if c == 8 {
      DivUnique(a, 2, 4 * (a / 8), 0);
    } else if c == 32 {
      DivUnique(a, 2, 16 * (a / 32), 0);
    } else if c == 128 {
      DivUnique(a, 2, 64 * (a / 128), 0);
    }
  }

  lemma FourSizes(a: nat)
    ensures ClusterSize(a) in {2, 8, 32, 128}
  {
  }
}
