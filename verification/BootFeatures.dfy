/**
 The config page of the USB bootloader (boot_features.c): a fingerprint that is
 read by its low bytes only, and the oscillator tuning byte, which an erase of
 the fingerprint has to carry over.
 */
module BootFeatures {
  import opened Bytes
  import opened Flash
  import opened IoioFile
  import opened ConfigPage

  const ALL_ONES: Fingerprint :=
    [0xFF, 0xFF, 0xFF, 0xFF, 0xFF, 0xFF, 0xFF, 0xFF, 0xFF, 0xFF, 0xFF, 0xFF, 0xFF, 0xFF, 0xFF, 0xFF]

  const TUN_WORD: nat := OSCTUN_ADDRESS / 2

  /** What ReadFingerprintToBuffer sees: the upper byte of each word is ignored. */
  function ReadBack(mem: seq<Word>): (fp: Fingerprint)
    requires 2 * |mem| == APP_PROGSPACE_END
  {
    seq(FINGERPRINT_SIZE, j requires 0 <= j < FINGERPRINT_SIZE =>
      if j % 2 == 0 then mem[FP_WORD + j / 2].lb else mem[FP_WORD + j / 2].hb)
  }

  function Tun(mem: seq<Word>): byte
    requires 2 * |mem| == APP_PROGSPACE_END
  {
    mem[TUN_WORD].lb
  }

  /** Nothing if the fingerprint reads as all ones; otherwise an erase, and the tuning byte written back. */
  function EraseFingerprint(flash: State): (r: (State, bool))
    requires flash.Valid()
    ensures r.0.Valid()
  {
    if ReadBack(flash.mem) == ALL_ONES then (flash, true)
    else
      var (erased, ok) := ErasePage(flash, CONFIG_PAGE);
      if !ok then (erased, false)
      else ProgramWords(erased, OSCTUN_ADDRESS, [Word(Tun(flash.mem), 0xFF, 0xFF)])
  }

  function WriteFingerprint(flash: State, fp: Fingerprint): (r: (State, bool))
    requires flash.Valid()
    ensures r.0.Valid()
  {
    var (erased, ok) := EraseFingerprint(flash);
    if !ok then (erased, false) else WriteFingerprintFrom(erased, fp, 0)
  }

  // ------------------------------------------------------------------ effects

  lemma TunIndex()
    ensures TUN_WORD == FP_WORD + 8 && 2 * FP_WORD == CONFIG_PAGE
    ensures FP_WORD / 512 == CONFIG_PAGE / PAGE_SIZE == TUN_WORD / 512
    ensures forall i :: FP_WORD <= i < FP_WORD + 9 ==> i / 512 == PageNumber(CONFIG_PAGE)
  {
  }

  lemma ReadBackOnes(mem: seq<Word>)
    requires 2 * |mem| == APP_PROGSPACE_END
    ensures ReadBack(mem) == ALL_ONES
        <==> forall i :: FP_WORD <= i < FP_WORD + 8 ==> mem[i].lb == 0xFF && mem[i].hb == 0xFF
  {
    if ReadBack(mem) == ALL_ONES {
      forall i | FP_WORD <= i < FP_WORD + 8 ensures mem[i].lb == 0xFF && mem[i].hb == 0xFF {
        var k := i - FP_WORD;
        assert ReadBack(mem)[2 * k] == ALL_ONES[2 * k] && ReadBack(mem)[2 * k + 1] == ALL_ONES[2 * k + 1];
      }
    }
  }

  lemma ErasedPageEffect(mem: seq<Word>)
    requires 2 * |mem| == APP_PROGSPACE_END
    ensures var erased := ErasedPage(mem, PageNumber(CONFIG_PAGE));
            && (forall i :: FP_WORD <= i < FP_WORD + 9 ==> erased[i] == ERASED)
            && (forall i :: 0 <= i < |mem| && 2 * i < MAX_APP_ADDRESS ==> erased[i] == mem[i])
  {
    TunIndex();
  }

  lemma RestoredTun(erased: seq<Word>, tun: byte)
    requires 2 * |erased| == APP_PROGSPACE_END
    requires forall i :: FP_WORD <= i < FP_WORD + 9 ==> erased[i] == ERASED
    ensures var mem := Programmed(erased, TUN_WORD, [Word(tun, 0xFF, 0xFF)]);
            && ReadBack(mem) == ALL_ONES && Tun(mem) == tun
            && (forall i :: 0 <= i < |erased| && 2 * i < MAX_APP_ADDRESS ==> mem[i] == erased[i])
  {
    TunIndex();
    var w := Word(tun, 0xFF, 0xFF);
    ProgramErasedWord(erased, TUN_WORD, w);
    ReadBackOnes(erased[TUN_WORD := w]);
  }

  /** Erasing succeeds or not; if it does, the fingerprint reads as all ones and the tuning byte is as before. */
  lemma EraseEffect(flash: State)
    requires flash.Valid()
    ensures var (flash', ok) := EraseFingerprint(flash);
            && (ok ==> ReadBack(flash'.mem) == ALL_ONES && Tun(flash'.mem) == Tun(flash.mem))
            && (ok <==> ReadBack(flash.mem) == ALL_ONES || flash.live >= 2)
            && flash'.live >= flash.live - 2
            && (forall i :: 0 <= i < |flash.mem| && 2 * i < MAX_APP_ADDRESS ==> flash'.mem[i] == flash.mem[i])
  {
    ErasedPageEffect(flash.mem);
    RestoredTun(ErasedPage(flash.mem, PageNumber(CONFIG_PAGE)), Tun(flash.mem));
  }

  /** The tuning byte is lost only when the power or the flash fails between the erase and the write-back. */
  lemma TunLost(flash: State)
    requires flash.Valid()
    ensures Tun(EraseFingerprint(flash).0.mem) != Tun(flash.mem)
        <==> ReadBack(flash.mem) != ALL_ONES && flash.live == 1 && Tun(flash.mem) != 0xFF
  {
    ErasedPageEffect(flash.mem);
    EraseEffect(flash);
    TunIndex();
  }

  /** Words from k on still read as ones, those before it as the fingerprint. */
  predicate PartlyRead(mem: seq<Word>, fp: Fingerprint, k: nat)
    requires 2 * |mem| == APP_PROGSPACE_END && k <= 8
  {
    && (forall i :: FP_WORD <= i < FP_WORD + k ==>
          mem[i].lb == fp[2 * (i - FP_WORD)] && mem[i].hb == fp[2 * (i - FP_WORD) + 1])
    && (forall i :: FP_WORD + k <= i < FP_WORD + 8 ==> mem[i].lb == 0xFF && mem[i].hb == 0xFF)
  }

  lemma ReadBackAll(mem: seq<Word>, fp: Fingerprint)
    requires 2 * |mem| == APP_PROGSPACE_END && PartlyRead(mem, fp, 8)
    ensures ReadBack(mem) == fp
  {
    forall j | 0 <= j < FINGERPRINT_SIZE ensures ReadBack(mem)[j] == fp[j] {
      var i := FP_WORD + j / 2;
      assert mem[i].lb == fp[2 * (i - FP_WORD)] && mem[i].hb == fp[2 * (i - FP_WORD) + 1];
      assert j == 2 * (j / 2) || j == 2 * (j / 2) + 1;
    }
  }

  lemma AndReadOnes(w: Word, v: Word)
    requires w.lb == 0xFF && w.hb == 0xFF
    ensures AndWord(w, v).lb == v.lb && AndWord(w, v).hb == v.hb
  {
    AndFF(v.lb); AndFF(v.hb);
  }

  lemma OneWord(mem: seq<Word>, i: nat, w: Word)
    requires i < |mem|
    ensures Programmed(mem, i, [w]) == mem[i := AndWord(mem[i], w)]
  {
    hide AndWord;
  }

  lemma WordIs(fp: Fingerprint, k: nat)
    requires k < 8
    ensures FingerprintWord(fp, k).lb == fp[2 * k] && FingerprintWord(fp, k).hb == fp[2 * k + 1]
  {
  }

  lemma WriteReadsOne(flash: State, fp: Fingerprint, k: nat)
    requires k < 8 && flash.Valid() && flash.live > 0 && PartlyRead(flash.mem, fp, k)
    ensures var flash' := ProgramWords(flash, FINGERPRINT_ADDRESS + 2 * k, [FingerprintWord(fp, k)]).0;
            && PartlyRead(flash'.mem, fp, k + 1)
            && (forall i :: 0 <= i < |flash.mem| && !(FP_WORD <= i < FP_WORD + 8) ==> flash'.mem[i] == flash.mem[i])
  {
    FingerprintIndex(k);
    AndReadOnes(flash.mem[FP_WORD + k], FingerprintWord(fp, k));
    WordIs(fp, k);
    var w := FingerprintWord(fp, k);
    OneWord(flash.mem, FP_WORD + k, w);
    var mem' := ProgramWords(flash, FINGERPRINT_ADDRESS + 2 * k, [w]).0.mem;
    assert mem' == flash.mem[FP_WORD + k := AndWord(flash.mem[FP_WORD + k], w)];
    hide *;
    PartlyReadNext(flash.mem, mem', fp, k);
  }

  /** Fingerprint words written over words that read as ones, erased or not. */
  lemma {:induction false} WriteReads(flash: State, fp: Fingerprint, k: nat)
    requires k <= 8 && flash.Valid() && PartlyRead(flash.mem, fp, k)
    ensures var (flash', ok) := WriteFingerprintFrom(flash, fp, k);
            && (ok ==> PartlyRead(flash'.mem, fp, 8))
            && (ok <==> flash.live >= 8 - k)
            && flash'.live >= flash.live - (8 - k)
            && (forall i :: 0 <= i < |flash.mem| && !(FP_WORD <= i < FP_WORD + 8) ==> flash'.mem[i] == flash.mem[i])
    decreases 8 - k
  {
    if k < 8 && flash.live > 0 {
      WriteReadsOne(flash, fp, k);
      WriteReads(ProgramWords(flash, FINGERPRINT_ADDRESS + 2 * k, [FingerprintWord(fp, k)]).0, fp, k + 1);
    }
  }

  lemma PartlyReadNext(a: seq<Word>, b: seq<Word>, fp: Fingerprint, k: nat)
    requires 2 * |a| == APP_PROGSPACE_END && |b| == |a| && k < 8 && PartlyRead(a, fp, k)
    requires b[FP_WORD + k].lb == fp[2 * k] && b[FP_WORD + k].hb == fp[2 * k + 1]
    requires forall j :: 0 <= j < |a| && j != FP_WORD + k ==> b[j] == a[j]
    ensures PartlyRead(b, fp, k + 1)
  {
  }

  /** A written fingerprint reads back, all ones included, over anything that was there; the tuning byte stays. */
  lemma WriteEffect(flash: State, fp: Fingerprint)
    requires flash.Valid()
    ensures var (flash', ok) := WriteFingerprint(flash, fp);
            && (ok ==> ReadBack(flash'.mem) == fp && Tun(flash'.mem) == Tun(flash.mem))
            && (ok <==> flash.live >= 8 + if ReadBack(flash.mem) == ALL_ONES then 0 else 2)
            && flash'.live >= flash.live - 10
            && (forall i :: 0 <= i < |flash.mem| && 2 * i < MAX_APP_ADDRESS ==> flash'.mem[i] == flash.mem[i])
  {
    var (erased, ok) := EraseFingerprint(flash);
    EraseEffect(flash);
    if ok {
      ReadBackOnes(erased.mem);
      WriteReads(erased, fp, 0);
      TunIndex();
      var (written, ok') := WriteFingerprintFrom(erased, fp, 0);
      if ok' { ReadBackAll(written.mem, fp); }
    }
  }

  /** Loading an image leaves the config page alone. */
  lemma LoadingKeepsConfig(a: seq<Word>, b: seq<Word>)
    requires 2 * |a| == APP_PROGSPACE_END && SameOutsideApplication(a, b)
    ensures ReadBack(b) == ReadBack(a) && Tun(b) == Tun(a)
  {
    TunIndex();
    assert forall i :: FP_WORD <= i < FP_WORD + 9 ==> a[i] == b[i];
  }

  // ------------------------------------------------------------ the C functions

  class Features {
    const device: FlashDevice

    ghost predicate Valid()
      reads device
    {
      device.Valid()
    }

    constructor (device: FlashDevice)
      requires device.Valid()
      ensures Valid() && this.device == device
    {
      this.device := device;
    }

    method ReadFingerprintToBuffer() returns (fp: Fingerprint)
      requires Valid()
      ensures fp == ReadBack(device.mem[..])
    {
      var buffer: seq<byte>, address, i: nat := [], FINGERPRINT_ADDRESS, 0;
      while i < FINGERPRINT_SIZE / 2
        invariant i <= 8 && address == FINGERPRINT_ADDRESS + 2 * i
        invariant buffer == ReadBack(device.mem[..])[..2 * i]
      {
        FingerprintIndex(i);
        var w := device.FlashReadWord(address);
        assert w == device.mem[..][FP_WORD + i];
        buffer := buffer + [w.lb] + [w.hb];
        address, i := address + 2, i + 1;
      }
      assert buffer == ReadBack(device.mem[..]);
      fp := buffer;
    }

    static method IsFingerprintErased(fp: Fingerprint) returns (erased: bool)
      ensures erased == (fp == ALL_ONES)
    {
      for i := 0 to FINGERPRINT_SIZE
        invariant forall j :: 0 <= j < i ==> fp[j] == 0xFF
      {
        if fp[i] != 0xFF {
          assert fp[i] != ALL_ONES[i];
          return false;
        }
      }
      return true;
    }

    method EraseFingerprintPage() returns (ok: bool)
      requires Valid()
      modifies device, device.mem
      ensures Valid() && (device.Abs(), ok) == EraseFingerprint(old(device.Abs()))
    {
      var fp := ReadFingerprintToBuffer();
      var erased := IsFingerprintErased(fp);
      if erased { return true; }
      TunIndex();
      var w := device.FlashReadWord(OSCTUN_ADDRESS);
      assert w == device.mem[..][TUN_WORD];
      ok := device.FlashErasePage(CONFIG_PAGE);
      if ok { ok := device.FlashWriteWord(OSCTUN_ADDRESS, Word(w.lb, 0xFF, 0xFF)); }
    }

    method WriteFingerprintPage(fp: Fingerprint) returns (ok: bool)
      requires Valid()
      modifies device, device.mem
      ensures Valid() && (device.Abs(), ok) == WriteFingerprint(old(device.Abs()), fp)
    {
      ok := EraseFingerprintPage();
      if !ok { return; }
      ghost var erased := device.Abs();
      var address, i: nat := FINGERPRINT_ADDRESS, 0;
      while i < FINGERPRINT_SIZE / 2
        invariant i <= 8 && address == FINGERPRINT_ADDRESS + 2 * i && Valid()
        invariant WriteFingerprintFrom(erased, fp, 0) == WriteFingerprintFrom(device.Abs(), fp, i)
      {
        FingerprintIndex(i);
        ok := device.FlashWriteWord(address, Word(fp[2 * i], fp[2 * i + 1], 0));
        if !ok { return false; }
        address, i := address + 2, i + 1;
      }
      return true;
    }
  }
}
