/** Numbers as little-endian bytes, the way the kernel's structures lie on disk. */
module Bytes {
  import opened Powers

  type Byte = x: nat | x < 256

  /** The number that little-endian bytes stand for. */
  function Little(b: seq<Byte>): nat {
    if b == [] then 0 else b[0] + 0x100 * Little(b[1..])
  }

  /** The `n` low bytes of `x`, lowest first. */
  function LittleBytes(x: nat, n: nat): (b: seq<Byte>)
    ensures |b| == n
  {
    if n == 0 then [] else [x % 0x100] + LittleBytes(x / 0x100, n - 1)
  }

  lemma Pow2Byte(n: nat)
    requires n > 0
    ensures Pow2(8 * n) == 0x100 * Pow2(8 * (n - 1))
  {
    Pow2Add(8, 8 * (n - 1));
    assert Pow2(8) == 0x100;
  }

  /** A number that fits reads back. */
  lemma {:induction false} LittleReadsBack(x: nat, n: nat)
    requires x < Pow2(8 * n)
    ensures Little(LittleBytes(x, n)) == x
  {
    if n > 0 {
      Pow2Byte(n);
      LittleReadsBack(x / 0x100, n - 1);
      assert LittleBytes(x, n)[1..] == LittleBytes(x / 0x100, n - 1);
    }
  }

  /** And bytes are written back as they were read. */
  lemma {:induction false} LittleWritesBack(b: seq<Byte>)
    ensures Little(b) < Pow2(8 * |b|) && LittleBytes(Little(b), |b|) == b
  {
    if b != [] {
      Pow2Byte(|b|);
      LittleWritesBack(b[1..]);
    }
  }

  /** The lowest byte comes first. */
  lemma {:induction false} LowByteFirst(x: nat, n: nat, i: nat)
    requires i < n
    ensures LittleBytes(x, n)[i] == x / Pow2(8 * i) % 0x100
    decreases n
  {
    if i > 0 {
      LowByteFirst(x / 0x100, n - 1, i - 1);
      Pow2Byte(i);
      DivDiv(x, 0x100, Pow2(8 * (i - 1)));
    } else {
      Pow2Zero();
    }
  }

  lemma FourBytes()
    ensures Pow2(32) == 0x1_0000_0000
  {
    hide Pow2;
    Pow2Zero();
    Pow2Byte(1);
    Pow2Byte(2);
    Pow2Byte(3);
    Pow2Byte(4);
  }

  lemma Pow2Zero()
    ensures Pow2(0) == 1
  {
  }

  // ---------- arrays of 64-bit words ----------

  const WORD: nat := 8

  /** The bytes of an array of words. */
  function Flat(ws: seq<nat>): (b: seq<Byte>)
    ensures |b| == WORD * |ws|
  {
    if ws == [] then [] else LittleBytes(ws[0], WORD) + Flat(ws[1..])
  }

  /** The words that bytes stand for; bytes behind the last whole word do not count. */
  function Words(b: seq<Byte>): (ws: seq<nat>)
    ensures |ws| == |b| / WORD
  {
    if |b| < WORD then [] else [Little(b[..WORD])] + Words(b[WORD..])
  }

  predicate AreWords(ws: seq<nat>) { forall i | 0 <= i < |ws| :: ws[i] < Pow2(64) }

  lemma {:induction false} WordsReadBack(ws: seq<nat>)
    requires AreWords(ws)
    ensures Words(Flat(ws)) == ws
  {
    if ws != [] {
      LittleReadsBack(ws[0], WORD);
      WordsReadBack(ws[1..]);
      assert Flat(ws)[..WORD] == LittleBytes(ws[0], WORD) && Flat(ws)[WORD..] == Flat(ws[1..]);
    }
  }

  lemma {:induction false} WordsWriteBack(b: seq<Byte>)
    requires |b| % WORD == 0
    ensures AreWords(Words(b)) && Flat(Words(b)) == b
  {
    if b != [] {
      LittleWritesBack(b[..WORD]);
      WordsWriteBack(b[WORD..]);
      assert Words(b)[1..] == Words(b[WORD..]);
      assert b == b[..WORD] + b[WORD..];
    }
  }

  /** The first `k` words take the first bytes. */
  lemma {:induction false} FlatSplit(ws: seq<nat>, k: nat)
    requires k <= |ws|
    ensures Flat(ws)[..WORD * k] == Flat(ws[..k]) && Flat(ws)[WORD * k..] == Flat(ws[k..])
  {
    if k == 0 {
      assert ws[..0] == [] && ws[0..] == ws;
    } else {
      FlatSplit(ws[1..], k - 1);
      assert ws[..k][1..] == ws[1..][..k - 1] && ws[1..][k - 1..] == ws[k..];
      var first, rest := LittleBytes(ws[0], WORD), Flat(ws[1..]);
      assert (first + rest)[..WORD * k] == first + rest[..WORD * (k - 1)];
      assert (first + rest)[WORD * k..] == rest[WORD * (k - 1)..];
    }
  }

  lemma {:induction false} FlatConcat(a: seq<nat>, b: seq<nat>)
    ensures Flat(a + b) == Flat(a) + Flat(b)
  {
    FlatSplit(a + b, |a|);
    assert (a + b)[..|a|] == a && (a + b)[|a|..] == b;
    assert Flat(a + b) == Flat(a + b)[..WORD * |a|] + Flat(a + b)[WORD * |a|..];
  }

  /** Overwriting the first `k` words of `b` with those of `a`. */
  lemma WordsMixed(a: seq<nat>, b: seq<nat>, k: nat)
    requires AreWords(a) && AreWords(b) && |a| == |b| && k <= |a|
    ensures Words(Flat(a)[..WORD * k] + Flat(b)[WORD * k..]) == a[..k] + b[k..]
  {
    FlatSplit(a, k);
    FlatSplit(b, k);
    FlatConcat(a[..k], b[k..]);
    WordsReadBack(a[..k] + b[k..]);
  }
}
