/**
  pack_stream_nbits and unpack_stream_nbits, the 32, 16 and 8-bit copies alike: tokens of one width, one behind
  another.
 */
module PackStream {
  import opened Words
  import opened BitStream
  import opened Tiles

  lemma FirstOfRest(vs: seq<int>, i: nat, nbits: nat)
    requires i < |vs| && Below(vs, Pow2(nbits))
    ensures vs[i..] == [vs[i]] + vs[i + 1..] && 0 <= vs[i] < Pow2(nbits)
  {
  }

  /** The slots behind the last one written are as they were. */
  lemma BehindUntouched(w: BitPacker)
    requires w.Valid()
    ensures w.base <= w.availableWordPtr <= w.z.Length == |w.before|
    ensures forall k :: w.availableWordPtr <= k < w.z.Length ==> w.z[k] == w.before[k]
  {
    hide WordBits, Bits;
  }

  /** The tokens are in the stream, in order; zlng counts its bytes and one more, and no other word changes. */
  method PackStreamNbits(z: array<Word>, ufld: seq<int>, nbits: nat) returns (zlng: nat)
    requires 1 <= nbits <= 31 && Below(ufld, Pow2(nbits)) && 1 <= z.Length && |ufld| * nbits <= 32 * z.Length
    modifies z
    ensures StartsWith(z[..], 0, Flat(ufld, nbits)) && zlng == 1 + 4 * ((|ufld| * nbits + 31) / 32)
    ensures forall k :: 1 <= k < z.Length && k >= (|ufld| * nbits + 31) / 32 ==> z[k] == old(z[k])
  {
    hide WordBits, Bits, Pow2, Below, Flat, StartsWith, BitPacker.Valid;
    z[0] := 0;
    ghost var code := Flat(ufld, nbits);
    FlatLength(ufld, nbits);
    FlatEmpty(nbits);
    var w := new BitPacker(z, 0);
    var i := 0;
    while i < |ufld|
      invariant 0 <= i <= |ufld| && w.Valid() && w.sent + Flat(ufld[i..], nbits) == code
    {
      FirstOfRest(ufld, i, nbits);
      FlatStep(w.sent, ufld[i], ufld[i + 1..], nbits);
      w.Stuff(ufld[i], nbits);
      i := i + 1;
    }
    assert ufld[i..] == [];
    assert w.sent == code;
    w.Flush();
    BehindUntouched(w);
    ghost var end := w.availableWordPtr;
    assert z[..][0..end] == z[0..end];
    StartsWithFlushed(z[..], 0, end, code, Bits(0, 32)[..32 * end - |code|]);
    zlng := 1 + w.availableWordPtr * 4;
  }

  /** Whatever follows them, the tokens a stream starts with come back. */
  method UnpackStreamNbits(ufld: array<int>, z: array<Word>, nbits: nat, ghost vs: seq<int>)
    requires 1 <= nbits <= 31 && Below(vs, Pow2(nbits)) && ufld.Length == |vs|
    requires 1 <= z.Length && StartsWith(z[..], 0, Flat(vs, nbits))
    requires |vs| * nbits < 32 * z.Length   // extract reads one word ahead
    modifies ufld
    ensures ufld[..] == vs
  {
    hide WordBits, Bits, Pow2, Val, Low, Below, Flat, BitUnpacker.Valid;
    FlatLength(vs, nbits);
    FlatEmpty(nbits);
    assert z[..][0..] == z[0..];
    var r := new BitUnpacker(z, 0);
    ghost var rest := r.unread[|Flat(vs, nbits)|..];
    var i := 0;
    while i < ufld.Length
      invariant 0 <= i <= ufld.Length && r.Valid() && r.unread == Flat(vs[i..], nbits) + rest
      invariant ufld[..i] == vs[..i]
    {
      FirstOfRest(vs, i, nbits);
      FlatFront(r.unread, vs[i], vs[i + 1..], nbits, rest);
      LowId(vs[i], nbits);
      ufld[i] := r.Extract(nbits);
      i := i + 1;
    }
  }
}
