/** Bitmaps packed into 64-bit words (lib/kernel/bitmap.c). */
module KernelBitmap {
  import opened Powers
  import opened Bits

  const ELEM_BITS: nat := 64

  function ElemIdx(i: nat): nat { i / ELEM_BITS }

  function BitMask(i: nat): nat { Pow2(i % ELEM_BITS) }

  function ElemCnt(bitCnt: nat): nat { (bitCnt + ELEM_BITS - 1) / ELEM_BITS }

  /** As few words as hold that many bits. */
  lemma ElemCntLeast(bitCnt: nat)
    ensures bitCnt <= ElemCnt(bitCnt) * ELEM_BITS < bitCnt + ELEM_BITS
  {
  }

  function LastMask(bitCnt: nat): nat {
    var lastBits := bitCnt % ELEM_BITS;
    if lastBits != 0 then Pow2(lastBits) - 1 else Pow2(ELEM_BITS) - 1
  }

  /** ~w on a 64-bit word. */
  function Not(w: nat): nat
    requires w < Pow2(ELEM_BITS)
  {
    Pow2(ELEM_BITS) - 1 - w
  }

  /** The bits that the words `ws` hold, in order. */
  ghost function Unpack(ws: seq<nat>, n: nat): (s: seq<bool>)
    requires n <= ELEM_BITS * |ws|
    ensures |s| == n
  {
    seq(n, i requires 0 <= i < n => Bit(ws[ElemIdx(i)], i % ELEM_BITS))
  }

  /** `s` with its part [start..start+cnt) set to `v`. */
  ghost function Filled(s: seq<bool>, start: nat, cnt: nat, v: bool): seq<bool>
    requires start + cnt <= |s|
  {
    s[..start] + seq(cnt, _ => v) + s[start + cnt..]
  }

  ghost predicate AllAre(s: seq<bool>, start: nat, cnt: nat, v: bool) {
    start + cnt <= |s| && forall i | start <= i < start + cnt :: s[i] == v
  }

  /** `idx` is the first position from `start` on where `cnt` bits are all `v`. */
  ghost predicate IsFirstRun(s: seq<bool>, start: nat, cnt: nat, v: bool, idx: nat) {
    start <= idx && AllAre(s, idx, cnt, v) && forall j | start <= j < idx :: !AllAre(s, j, cnt, v)
  }

  /** No position from `start` on has `cnt` bits that are all `v`. */
  ghost predicate NoRun(s: seq<bool>, start: nat, cnt: nat, v: bool) {
    forall j: nat | start <= j :: !AllAre(s, j, cnt, v)
  }

  datatype Index = BitmapError | Found(idx: nat)

  // ---------- what a word update does to the unpacked bits ----------

  lemma SetOneBit(w: nat, k: nat, i: nat)
    requires w < Pow2(ELEM_BITS) && k < ELEM_BITS && i < ELEM_BITS
    ensures Or(w, Pow2(k)) < Pow2(ELEM_BITS)
    ensures Bit(Or(w, Pow2(k)), i) == (i == k || Bit(w, i))
  {
    MaskFits(k);
    OrBelow(ELEM_BITS, w, Pow2(k));
    BitOr(w, Pow2(k), i);
    BitPow2(k, i);
  }

  lemma ClearOneBit(w: nat, k: nat, i: nat)
    requires w < Pow2(ELEM_BITS) && k < ELEM_BITS && i < ELEM_BITS
    ensures Pow2(k) < Pow2(ELEM_BITS) && And(w, Not(Pow2(k))) < Pow2(ELEM_BITS)
    ensures Bit(And(w, Not(Pow2(k))), i) == (i != k && Bit(w, i))
  {
    MaskFits(k);
    AndAtMost(w, Not(Pow2(k)));
    BitAnd(w, Not(Pow2(k)), i);
    BitComplement(ELEM_BITS, Pow2(k), i);
    BitPow2(k, i);
  }

  lemma MaskFits(k: nat)
    requires k < ELEM_BITS
    ensures Pow2(k) < Pow2(ELEM_BITS)
  {
    Pow2Monotone(k, ELEM_BITS - 1);
    assert Pow2(ELEM_BITS) == 2 * Pow2(ELEM_BITS - 1);
  }

  /** Replacing one word, whose only changed bit is `i`, updates the unpacked bits at `i`. */
  lemma UnpackUpdate(ws: seq<nat>, n: nat, i: nat, w: nat, v: bool)
    requires n <= ELEM_BITS * |ws| && i < n && ElemIdx(i) < |ws|
    requires forall k | 0 <= k < ELEM_BITS ::
               Bit(w, k) == (if k == i % ELEM_BITS then v else Bit(ws[ElemIdx(i)], k))
    ensures Unpack(ws[ElemIdx(i) := w], n) == Unpack(ws, n)[i := v]
  {
    var ws' := ws[ElemIdx(i) := w];
    forall j | 0 <= j < n ensures Unpack(ws', n)[j] == Unpack(ws, n)[i := v][j] {
      if ElemIdx(j) == ElemIdx(i) && j != i {
        SameWord(i, j);
      }
    }
  }

  lemma SameWord(i: nat, j: nat)
    requires ElemIdx(i) == ElemIdx(j) && i != j
    ensures i % ELEM_BITS != j % ELEM_BITS
  {
  }

  lemma FilledStep(s: seq<bool>, start: nat, i: nat, v: bool)
    requires start + i < |s|
    ensures Filled(s, start, i, v)[start + i := v] == Filled(s, start, i + 1, v)
  {
  }

  class Bitmap {
    const bitCnt: nat
    const bits: array<nat>

    ghost predicate Valid() reads bits {
      && bits.Length == ElemCnt(bitCnt)
      && forall i | 0 <= i < bits.Length :: bits[i] < Pow2(ELEM_BITS)
    }

    /** The bitmap as the outside sees it. */
    ghost function Contents(): (s: seq<bool>)
      reads bits
      requires Valid()
      ensures |s| == bitCnt
    {
      Unpack(bits[..], bitCnt)
    }

    constructor (bitCnt: nat)
      ensures Valid() && fresh(bits) && this.bitCnt == bitCnt
      ensures Contents() == seq(bitCnt, _ => false)
    {
      this.bitCnt := bitCnt;
      bits := new nat[ElemCnt(bitCnt)](_ => 0);
      new;
      forall i | 0 <= i < bitCnt ensures Contents()[i] == false {
        BitZero(i % ELEM_BITS);
      }
    }

    method Mark(i: nat)
      requires Valid() && i < bitCnt
      modifies bits
      ensures Valid() && Contents() == old(Contents())[i := true]
    {
      var idx, mask := ElemIdx(i), BitMask(i);
      ghost var ws, k := bits[..], i % ELEM_BITS;
      forall j | 0 <= j < ELEM_BITS
        ensures Bit(Or(ws[idx], mask), j) == (if j == k then true else Bit(ws[idx], j))
      {
        SetOneBit(ws[idx], k, j);
      }
      SetOneBit(ws[idx], k, k);
      UnpackUpdate(ws, bitCnt, i, Or(ws[idx], mask), true);
      bits[idx] := Or(bits[idx], mask);
      assert bits[..] == ws[idx := Or(ws[idx], mask)];
    }

    method Reset(i: nat)
      requires Valid() && i < bitCnt
      modifies bits
      ensures Valid() && Contents() == old(Contents())[i := false]
    {
      var idx, mask := ElemIdx(i), BitMask(i);
      ghost var ws, k := bits[..], i % ELEM_BITS;
      MaskFits(k);
      forall j | 0 <= j < ELEM_BITS
        ensures Bit(And(ws[idx], Not(mask)), j) == (if j == k then false else Bit(ws[idx], j))
      {
        ClearOneBit(ws[idx], k, j);
      }
      ClearOneBit(ws[idx], k, k);
      UnpackUpdate(ws, bitCnt, i, And(ws[idx], Not(mask)), false);
      bits[idx] := And(bits[idx], Not(mask));
      assert bits[..] == ws[idx := And(ws[idx], Not(mask))];
    }

    method Set(i: nat, v: bool)
      requires Valid() && i < bitCnt
      modifies bits
      ensures Valid() && Contents() == old(Contents())[i := v]
    {
      if v {
        Mark(i);
      } else {
        Reset(i);
      }
    }

    predicate Test(i: nat)
      reads bits
      requires Valid() && i < bitCnt
      ensures Test(i) == Contents()[i]
    {
      AndPow2(bits[ElemIdx(i)], i % ELEM_BITS);
      And(bits[ElemIdx(i)], BitMask(i)) != 0
    }

    method SetMultiple(start: nat, cnt: nat, v: bool)
      requires Valid() && start + cnt <= bitCnt
      modifies bits
      ensures Valid() && Contents() == Filled(old(Contents()), start, cnt, v)
    {
      ghost var s := Contents();
      var i := 0;
      assert Filled(s, start, 0, v) == s;
      while i < cnt
        invariant 0 <= i <= cnt && Valid()
        invariant Contents() == Filled(s, start, i, v)
      {
        FilledStep(s, start, i, v);
        Set(start + i, v);
        i := i + 1;
      }
    }

    method Contains(start: nat, cnt: nat, v: bool) returns (found: bool)
      requires Valid() && start + cnt <= bitCnt
      ensures found <==> !AllAre(Contents(), start, cnt, !v)
    {
      var i := 0;
      while i < cnt
        invariant 0 <= i <= cnt
        invariant forall j | start <= j < start + i :: Contents()[j] == !v
      {
        if Test(start + i) == v {
          return true;
        }
        i := i + 1;
      }
      found := false;
    }

    /** bitmap_scan: the lowest run that fits, if there is one. */
    method Scan(start: nat, cnt: nat, v: bool) returns (r: Index)
      requires Valid() && start <= bitCnt
      ensures r.Found? ==> IsFirstRun(Contents(), start, cnt, v, r.idx)
      ensures r.BitmapError? <==> NoRun(Contents(), start, cnt, v)
    {
      if cnt <= bitCnt {
        var last := bitCnt - cnt;
        var i := start;
        while i <= last
          invariant start <= i
          invariant forall j | start <= j < i :: !AllAre(Contents(), j, cnt, v)
        {
          var other := Contains(i, cnt, !v);
          if !other {
            return Found(i);
          }
          i := i + 1;
        }
      }
      r := BitmapError;
    }

    /** bitmap_scan_and_flip: takes the lowest run that fits and changes only it. */
    method ScanAndFlip(start: nat, cnt: nat, v: bool) returns (r: Index)
      requires Valid() && start <= bitCnt
      modifies bits
      ensures Valid()
      ensures r.Found? ==>
                && IsFirstRun(old(Contents()), start, cnt, v, r.idx)
                && Contents() == Filled(old(Contents()), r.idx, cnt, !v)
      ensures r.BitmapError? ==> Contents() == old(Contents())
      ensures r.BitmapError? <==> NoRun(old(Contents()), start, cnt, v)
    {
      r := Scan(start, cnt, v);
      if r.Found? {
        SetMultiple(r.idx, cnt, !v);
      }
    }

    /** bitmap_write: the words as they are, stray bits included. */
    method Write() returns (file: seq<nat>)
      requires Valid()
      ensures |file| == ElemCnt(bitCnt) && bitCnt <= ELEM_BITS * |file| && Unpack(file, bitCnt) == Contents()
      ensures forall i | 0 <= i < |file| :: file[i] < Pow2(ELEM_BITS)
    {
      file := bits[..];
    }

    /** bitmap_read of a file that yields the words `file`, too few if the read runs short: loads them and clears the
        stray bits of the last word. */
    method Read(file: seq<nat>) returns (ok: bool)
      requires Valid() && |file| <= ElemCnt(bitCnt)
      requires forall i | 0 <= i < |file| :: file[i] < Pow2(ELEM_BITS)
      modifies bits
      ensures Valid() && (ok <==> |file| == ElemCnt(bitCnt))
      ensures Contents() == Unpack(file + old(bits[..])[|file|..], bitCnt)
      ensures forall i | bitCnt <= i < ELEM_BITS * bits.Length :: !Bit(bits[ElemIdx(i)], i % ELEM_BITS)
    {
      ok := true;
      if bitCnt > 0 {
        ghost var words := file + bits[|file|..];
        forall i | 0 <= i < |file| {
          bits[i] := file[i];
        }
        assert bits[..] == words;
        ok := |file| == ElemCnt(bitCnt);
        var last := ElemCnt(bitCnt) - 1;
        AndAtMost(bits[last], LastMask(bitCnt));
        bits[last] := And(bits[last], LastMask(bitCnt));
        forall i | 0 <= i < ELEM_BITS * bits.Length
          ensures Bit(bits[ElemIdx(i)], i % ELEM_BITS) == (i < bitCnt && Bit(words[ElemIdx(i)], i % ELEM_BITS))
        {
          MaskedBit(bitCnt, words[ElemIdx(i)], i);
        }
        assert Contents() == Unpack(words, bitCnt);
      }
    }
  }

  /** The last word's mask keeps exactly the bits below `bitCnt`. */
  lemma MaskedBit(bitCnt: nat, w: nat, i: nat)
    requires bitCnt > 0 && i < ELEM_BITS * ElemCnt(bitCnt)
    ensures ElemIdx(i) == ElemCnt(bitCnt) - 1 ==>
              Bit(And(w, LastMask(bitCnt)), i % ELEM_BITS) == (i < bitCnt && Bit(w, i % ELEM_BITS))
    ensures ElemIdx(i) < ElemCnt(bitCnt) - 1 ==> i < bitCnt
  {
    var k, n := i % ELEM_BITS, if bitCnt % ELEM_BITS != 0 then bitCnt % ELEM_BITS else ELEM_BITS;
    BitAnd(w, LastMask(bitCnt), k);
    BitComplement(n, 0, k);
    BitZero(k);
  }

  /** Writing a bitmap and reading the file back restores the same bits. */
  method WriteThenRead(b: Bitmap, c: Bitmap)
    requires b.Valid() && c.Valid() && b.bitCnt == c.bitCnt && b.bits != c.bits
    modifies c.bits
    ensures c.Valid() && c.Contents() == old(b.Contents()) == b.Contents()
  {
    var file := b.Write();
    var _ := c.Read(file);
    assert file + old(c.bits[..])[|file|..] == file;
  }
}
