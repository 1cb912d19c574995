/** The fingerprint in the first eight words of the last flash page, as both bootloaders keep it. */
module ConfigPage {
  import opened Bytes
  import opened Flash

  const FINGERPRINT_SIZE := 16

  type Fingerprint = s: seq<byte> | |s| == FINGERPRINT_SIZE witness seq(FINGERPRINT_SIZE, _ => 0 as byte)

  function FingerprintWord(fp: Fingerprint, k: nat): Word
    requires k < 8
  {
    Word(fp[2 * k], fp[2 * k + 1], 0)
  }

  const FP_WORD: nat := FINGERPRINT_ADDRESS / 2

  /** What ValidateFingerprint checks: low bytes as given, upper byte zero. */
  predicate Validates(mem: seq<Word>, fp: Fingerprint)
    requires 2 * |mem| == APP_PROGSPACE_END
  {
    forall i :: FP_WORD <= i < FP_WORD + 8 ==> mem[i] == FingerprintWord(fp, i - FP_WORD)
  }

  predicate FingerprintErased(mem: seq<Word>)
    requires 2 * |mem| == APP_PROGSPACE_END
  {
    forall i :: FP_WORD <= i < FP_WORD + 8 ==> mem[i] == ERASED
  }

  /** Words k to 7 of the fingerprint, until an operation fails. */
  function WriteFingerprintFrom(flash: State, fp: Fingerprint, k: nat): (r: (State, bool))
    requires k <= 8 && flash.Valid()
    ensures r.0.Valid()
    decreases 8 - k
  {
    if k == 8 then (flash, true)
    else
      var (flash', ok) := ProgramWords(flash, FINGERPRINT_ADDRESS + 2 * k, [FingerprintWord(fp, k)]);
      if ok then WriteFingerprintFrom(flash', fp, k + 1) else (flash', false)
  }

  /** The first k words of the fingerprint are written, the others erased. */
  predicate Partly(mem: seq<Word>, fp: Fingerprint, k: nat)
    requires 2 * |mem| == APP_PROGSPACE_END && k <= 8
  {
    && (forall i :: FP_WORD <= i < FP_WORD + k ==> mem[i] == FingerprintWord(fp, i - FP_WORD))
    && (forall i :: FP_WORD + k <= i < FP_WORD + 8 ==> mem[i] == ERASED)
  }

  lemma ProgramErasedWord(mem: seq<Word>, i: nat, w: Word)
    requires i < |mem| && mem[i] == ERASED
    ensures Programmed(mem, i, [w]) == mem[i := w]
  {
    AndWordErased(w);
  }

  lemma FingerprintIndex(k: nat)
    ensures (FINGERPRINT_ADDRESS + 2 * k) / 2 == FP_WORD + k && 2 * FP_WORD == MAX_APP_ADDRESS
  {
  }

  lemma PartlyNext(mem: seq<Word>, fp: Fingerprint, k: nat)
    requires k < 8 && 2 * |mem| == APP_PROGSPACE_END && Partly(mem, fp, k)
    ensures Partly(mem[FP_WORD + k := FingerprintWord(fp, k)], fp, k + 1)
  {
  }

  lemma WriteOneWord(flash: State, fp: Fingerprint, k: nat)
    requires k < 8 && flash.Valid() && Partly(flash.mem, fp, k)
    ensures var (flash', ok) := ProgramWords(flash, FINGERPRINT_ADDRESS + 2 * k, [FingerprintWord(fp, k)]);
            && (ok ==> Partly(flash'.mem, fp, k + 1))
            && (!ok ==> flash' == flash)
            && (forall i :: 0 <= i < |flash.mem| && 2 * i < MAX_APP_ADDRESS ==> flash'.mem[i] == flash.mem[i])
  {
    FingerprintIndex(k);
    ProgramErasedWord(flash.mem, FP_WORD + k, FingerprintWord(fp, k));
    PartlyNext(flash.mem, fp, k);
  }

  /** However far the writing gets, the fingerprint is partly written, and fully if it succeeds. */
  lemma {:induction false} WriteFingerprintEffect(flash: State, fp: Fingerprint, k: nat) returns (m: nat)
    requires k <= 8 && flash.Valid() && Partly(flash.mem, fp, k)
    ensures var (flash', ok) := WriteFingerprintFrom(flash, fp, k);
            && m <= 8 && Partly(flash'.mem, fp, m) && (ok <==> m == 8)
            && (forall i :: 0 <= i < |flash.mem| && 2 * i < MAX_APP_ADDRESS ==> flash'.mem[i] == flash.mem[i])
            && (ok <==> flash.live >= 8 - k)
    decreases 8 - k
  {
    m := k;
    if k < 8 {
      WriteOneWord(flash, fp, k);
      var (flash', ok) := ProgramWords(flash, FINGERPRINT_ADDRESS + 2 * k, [FingerprintWord(fp, k)]);
      if ok { m := WriteFingerprintEffect(flash', fp, k + 1); }
    }
  }

  lemma OneFingerprint(mem: seq<Word>, fp: Fingerprint, other: Fingerprint)
    requires 2 * |mem| == APP_PROGSPACE_END && Validates(mem, fp) && Validates(mem, other)
    ensures fp == other
  {
    forall j | 0 <= j < FINGERPRINT_SIZE ensures fp[j] == other[j] {
      var i := FP_WORD + j / 2;
      assert mem[i] == FingerprintWord(fp, i - FP_WORD) == FingerprintWord(other, i - FP_WORD);
      assert j == 2 * (j / 2) || j == 2 * (j / 2) + 1;
    }
  }
}
