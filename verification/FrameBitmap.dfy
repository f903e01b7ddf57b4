/**
 The bitmap of physical frames: one bit a frame, 32 to a word, found by a scan that skips
 full words.
 */
module FrameBitmaps {
  import opened Options

  function Mask(j: nat): bv32
    requires j < 32
  {
    (1 as bv32) << j
  }

  function And(w: bv32, m: bv32): bv32 { w & m }

  function Or(w: bv32, m: bv32): bv32 { w | m }

  predicate Meets(w: bv32, m: bv32) { And(w, m) != 0 }

  predicate BitIsSet(w: bv32, j: nat)
    requires j < 32
  {
    Meets(w, Mask(j))
  }

  lemma AndOverOr(w: bv32, m: bv32, n: bv32)
    ensures And(Or(w, m), n) == Or(And(w, n), And(m, n))
  {}

  lemma OrIsZero(w: bv32, m: bv32)
    ensures Or(w, m) == 0 <==> w == 0 && m == 0
  {}

  lemma MeetsOr(w: bv32, m: bv32, n: bv32)
    ensures Meets(Or(w, m), n) == (Meets(w, n) || Meets(m, n))
  {
    hide And, Or;
    AndOverOr(w, m, n);
    OrIsZero(And(w, n), And(m, n));
  }

  lemma MasksMeet(j: nat, k: nat)
    requires j < 32 && k < 32
    ensures Meets(Mask(j), Mask(k)) == (j == k)
  {}

  lemma SettingOneBit(w: bv32, j: nat, k: nat)
    requires j < 32 && k < 32
    ensures BitIsSet(Or(w, Mask(j)), k) == (k == j || BitIsSet(w, k))
  {
    hide Mask, Meets, Or;
    MeetsOr(w, Mask(j), Mask(k));
    MasksMeet(j, k);
  }

  lemma FullWord(w: bv32)
    requires forall j :: 0 <= j < 32 ==> BitIsSet(w, j)
    ensures w == 0xffff_ffff
  {
    assert BitIsSet(w, 0) && BitIsSet(w, 1) && BitIsSet(w, 2) && BitIsSet(w, 3);
    assert BitIsSet(w, 4) && BitIsSet(w, 5) && BitIsSet(w, 6) && BitIsSet(w, 7);
    assert BitIsSet(w, 8) && BitIsSet(w, 9) && BitIsSet(w, 10) && BitIsSet(w, 11);
    assert BitIsSet(w, 12) && BitIsSet(w, 13) && BitIsSet(w, 14) && BitIsSet(w, 15);
    assert BitIsSet(w, 16) && BitIsSet(w, 17) && BitIsSet(w, 18) && BitIsSet(w, 19);
    assert BitIsSet(w, 20) && BitIsSet(w, 21) && BitIsSet(w, 22) && BitIsSet(w, 23);
    assert BitIsSet(w, 24) && BitIsSet(w, 25) && BitIsSet(w, 26) && BitIsSet(w, 27);
    assert BitIsSet(w, 28) && BitIsSet(w, 29) && BitIsSet(w, 30) && BitIsSet(w, 31);
  }

  lemma AllBitsSet(j: nat)
    requires j < 32
    ensures BitIsSet(0xffff_ffff, j)
  {}

  /** Bit j counts from the low end of the word. */
  lemma BitFromLowEnd(w: bv32, j: nat)
    requires j < 32
    ensures BitIsSet(w, 0) <==> w & 1 != 0
    ensures j < 31 ==> (BitIsSet(w >> 1, j) <==> BitIsSet(w, j + 1))
  {
    if j < 31 {
      NextMask(j);
      MeetsHalved(w, Mask(j));
    }
  }

  lemma NextMask(j: nat)
    requires j < 31
    ensures Mask(j + 1) == Mask(j) << 1 && Mask(j) & 0x8000_0000 == 0
  {}

  lemma MeetsHalved(w: bv32, m: bv32)
    requires m & 0x8000_0000 == 0
    ensures Meets(w >> 1, m) == Meets(w, m << 1)
  {}

  class FrameBitmap {
    const nframes: nat
    const frames: array<bv32>

    ghost predicate Valid()
      reads this
    {
      frames.Length * 32 == nframes
    }

    /** Frame f is in use. */
    predicate Used(f: nat)
      requires Valid() && f < nframes
      reads this, frames
    {
      BitIsSet(frames[f / 32], f % 32)
    }

    constructor (words: nat)
      ensures Valid() && nframes == 32 * words && fresh(frames)
      ensures forall f :: 0 <= f < nframes ==> !Used(f)
    {
      nframes := 32 * words;
      frames := new bv32[words](_ => 0);
    }

    method SetFrame(frameAddr: nat)
      requires Valid() && frameAddr / 0x1000 < nframes
      modifies frames
      ensures forall f :: 0 <= f < nframes ==> Used(f) == (f == frameAddr / 0x1000 || old(Used(f)))
    {
      hide Mask, And, Or;
      var frame := frameAddr / 0x1000;
      var idx, off := frame / 32, frame % 32;
      ghost var before := frames[..];
      frames[idx] := Or(frames[idx], Mask(off));
      forall f | 0 <= f < nframes
        ensures Used(f) == (f == frame || old(Used(f)))
      {
        SettingOneBit(before[idx], off, f % 32);
      }
    }

    method TestFrame(frameAddr: nat) returns (r: bool)
      requires Valid() && frameAddr / 0x1000 < nframes
      ensures r == Used(frameAddr / 0x1000)
    {
      var frame := frameAddr / 0x1000;
      var idx, off := frame / 32, frame % 32;
      r := And(frames[idx], Mask(off)) != 0;
    }

    /** The least free frame; the end of the function, which the source does not reach with a value, is `None`. */
    method FirstFrame() returns (r: Option<nat>)
      requires Valid()
      ensures r.Some? ==> r.value < nframes && !Used(r.value) && forall f :: 0 <= f < r.value ==> Used(f)
      ensures r.None? ==> forall f :: 0 <= f < nframes ==> Used(f)
    {
      hide Mask, And;
      for i := 0 to nframes / 32
        invariant forall f :: 0 <= f < 32 * i ==> Used(f)
      {
        if frames[i] != 0xffff_ffff {
          for j := 0 to 32
            invariant forall k :: 0 <= k < j ==> BitIsSet(frames[i], k)
          {
            if And(frames[i], Mask(j)) == 0 {
              assert !Used(i * 32 + j);
              return Some(i * 32 + j);
            }
          }
          FullWord(frames[i]);
          assert false;
        }
        forall f | 32 * i <= f < 32 * (i + 1)
          ensures Used(f)
        {
          AllBitsSet(f % 32);
        }
      }
      r := None;
    }
  }
}
