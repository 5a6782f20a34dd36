/** The _fstzip header word: bit fields allocated from the least significant bit up. */
module FstzipHeader {
  import opened Words

  datatype Fstzip = Fstzip(predictor_type: nat, degree: nat, step: nat, nbits: nat, levels: nat, version: nat)

  const MINIMUM: nat := 3
  const PARALLELOGRAM: nat := 4
  const PARALLELOGRAM32: nat := 5

  predicate InRange(h: Fstzip) {
    && h.predictor_type < 16 && h.degree < 8 && h.step < 8 && h.nbits < 32 && h.levels < 8 && h.version < 64
  }

  /** predictor_type:4, degree:3, step:3, nbits:5, levels:3, version:6, reserved3:8 */
  function ToWord(h: Fstzip): Word
    requires InRange(h)
  {
    h.predictor_type + 0x10 * h.degree + 0x80 * h.step + 0x400 * h.nbits + 0x8000 * h.levels + 0x4_0000 * h.version
  }

  function FromWord(w: Word): Fstzip {
    Fstzip(w % 0x10, w / 0x10 % 8, w / 0x80 % 8, w / 0x400 % 0x20, w / 0x8000 % 8, w / 0x4_0000 % 0x40)
  }

  lemma FromToWord(h: Fstzip)
    requires InRange(h)
    ensures FromWord(ToWord(h)) == h
  {
    var w := ToWord(h);
    var f0, f1, f2, f3, f4, f5 := h.predictor_type, h.degree, h.step, h.nbits, h.levels, h.version;
    BitField(w, 0, 1, f0, 0x10, f1 + 8 * f2 + 0x40 * f3 + 0x800 * f4 + 0x4000 * f5);
    BitField(w, f0, 0x10, f1, 8, f2 + 8 * f3 + 0x100 * f4 + 0x800 * f5);
    BitField(w, f0 + 0x10 * f1, 0x80, f2, 8, f3 + 0x20 * f4 + 0x100 * f5);
    BitField(w, f0 + 0x10 * f1 + 0x80 * f2, 0x400, f3, 0x20, f4 + 8 * f5);
    BitField(w, f0 + 0x10 * f1 + 0x80 * f2 + 0x400 * f3, 0x8000, f4, 8, f5);
    BitField(w, f0 + 0x10 * f1 + 0x80 * f2 + 0x400 * f3 + 0x8000 * f4, 0x4_0000, f5, 0x40, 0);
  }
}
