/**
 * The per-slot metadata of the Robin Hood tables: one byte whose top bit marks the slot
 * as occupied and whose low seven bits hold the probe sequence length (PSL), plus the
 * full hashcode of the stored key.  The byte is an integer in 0..255; its top bit is
 * `b >= 128` and its low seven bits are `b % 128`.
 */
module MetaBytes {

  newtype byte = b: int | 0 <= b < 256

  datatype MetaByte = MetaByte(bits: byte, hashcode: int)
  {
    /** The top bit is clear: nothing was ever stored here. */
    predicate IsEmpty() {
      bits < 128
    }

    /** The low seven bits. */
    function Psl(): (p: nat)
      ensures p < 128
    {
      (bits % 128) as nat
    }

    /** Assigning the PSL: the value is truncated to a byte and the top bit is set. */
    function SetPsl(value: nat): (m: MetaByte)
      ensures m.hashcode == hashcode
    {
      MetaByte(SetTopBit((value % 256) as byte), hashcode)
    }

    /** `++Psl`: read the seven-bit PSL, add one, assign it back. */
    function IncPsl(): (m: MetaByte)
      ensures m.hashcode == hashcode
    {
      SetPsl(Psl() + 1)
    }
  }

  /** `b | 0x80` */
  function SetTopBit(b: byte): (r: byte)
    ensures r >= 128 && r % 128 == b % 128
  {
    if b >= 128 then b else b + 128
  }

  /** The zero-initialised struct the arrays start with. */
  const Default := MetaByte(0, 0)

  lemma {:induction false} DefaultIsEmpty()
    ensures Default.IsEmpty() && Default.Psl() == 0
  {
  }

  /** After the PSL is assigned the slot is occupied and the PSL reads back as the low
      seven bits of the value assigned; the hashcode is untouched. */
  lemma {:induction false} SetPslReadsBack(m: MetaByte, value: nat)
    ensures !m.SetPsl(value).IsEmpty()
    ensures m.SetPsl(value).Psl() == value % 128
    ensures m.SetPsl(value).hashcode == m.hashcode
  {
    ModMod(value);
  }

  /** Truncating to a byte keeps the low seven bits. */
  lemma {:induction false} ModMod(v: nat)
    ensures (v % 256) % 128 == v % 128
  {
    var q, r := v / 256, v % 256;
    var q2, r2 := r / 128, r % 128;
    assert v == 128 * (2 * q + q2) + r2;
  }

  /** A PSL of up to 127 survives the round trip unchanged. */
  lemma {:induction false} SetPslSmall(m: MetaByte, value: nat)
    requires value < 128
    ensures m.SetPsl(value).Psl() == value && !m.SetPsl(value).IsEmpty()
  {
    SetPslReadsBack(m, value);
  }

  /** Incrementing a PSL below 127 adds one and leaves the slot occupied. */
  lemma {:induction false} IncPslSmall(m: MetaByte)
    requires m.Psl() < 127
    ensures m.IncPsl().Psl() == m.Psl() + 1 && !m.IncPsl().IsEmpty()
  {
    SetPslSmall(m, m.Psl() + 1);
  }

  /** IncPsl in one statement: the result is occupied, keeps the hashcode, and its PSL is
      one more, wrapping from 127 to 0. */
  lemma {:induction false} IncPslStep(m: MetaByte)
    ensures !m.IncPsl().IsEmpty() && m.IncPsl().hashcode == m.hashcode
    ensures m.IncPsl().Psl() == if m.Psl() < 127 then m.Psl() + 1 else 0
  {
    SetPslReadsBack(m, m.Psl() + 1);
  }

  /** Incrementing a PSL of 127 wraps it to 0: the seventh bit is lost. */
  lemma {:induction false} IncPslWraps(m: MetaByte)
    requires m.Psl() == 127
    ensures m.IncPsl().Psl() == 0 && !m.IncPsl().IsEmpty()
  {
    SetPslReadsBack(m, 128);
  }
}
