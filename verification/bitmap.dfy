/// The packed bitmap (kern/lib/util/bitmap.c).
///
/// `Bits` says what the operations mean on a plain `seq<bool>`; `Bitmaps` holds the
/// word-packed object whose methods are proved against it.

module Bits {
  /// BITMAP_NPOS, the largest value of a 64-bit size_t.
  const NPOS: nat := 0xFFFF_FFFF_FFFF_FFFF

  /// Bits i .. i+n-1 exist and all equal b.
  predicate RunAt(s: seq<bool>, i: nat, n: nat, b: bool) {
    i + n <= |s| && forall k :: i <= k < i + n ==> s[k] == b
  }

  function Fill(s: seq<bool>, i: nat, n: nat, b: bool): (t: seq<bool>)
    ensures |t| == |s|
  {
    seq(|s|, k requires 0 <= k < |s| => if i <= k < i + n then b else s[k])
  }

  function Flip(s: seq<bool>, i: nat, n: nat): (t: seq<bool>)
    ensures |t| == |s|
  {
    seq(|s|, k requires 0 <= k < |s| => if i <= k < i + n then !s[k] else s[k])
  }

  lemma FillOne(s: seq<bool>, i: nat, n: nat, b: bool)
    requires i + n < |s|
    ensures Fill(s, i, n + 1, b) == Fill(s, i, n, b)[i + n := b]
  {
  }

  lemma FlipOne(s: seq<bool>, i: nat, n: nat)
    requires i + n < |s|
    ensures Flip(s, i, n + 1) == Flip(s, i, n)[i + n := !s[i + n]]
  {
  }

  /// r is the least start of a run of n bits b at or after `start`, or NPOS if there is none.
  ghost predicate IsScan(s: seq<bool>, start: nat, n: nat, b: bool, r: nat) {
    if r == NPOS then
      forall i :: start <= i < |s| ==> !RunAt(s, i, n, b)
    else
      start <= r < |s| && RunAt(s, r, n, b) && forall i :: start <= i < r ==> !RunAt(s, i, n, b)
  }

  function FirstRun(s: seq<bool>, start: nat, n: nat, b: bool): nat
    requires |s| <= NPOS
    decreases |s| - start
  {
    if start >= |s| then NPOS
    else if RunAt(s, start, n, b) then start
    else FirstRun(s, start + 1, n, b)
  }

  lemma {:induction false} FirstRunIsScan(s: seq<bool>, start: nat, n: nat, b: bool)
    requires |s| <= NPOS
    ensures IsScan(s, start, n, b, FirstRun(s, start, n, b))
    decreases |s| - start
  {
    if start < |s| && !RunAt(s, start, n, b) {
      FirstRunIsScan(s, start + 1, n, b);
    }
  }

  lemma ScanIsUnique(s: seq<bool>, start: nat, n: nat, b: bool, r: nat, q: nat)
    requires |s| <= NPOS && IsScan(s, start, n, b, r) && IsScan(s, start, n, b, q)
    ensures r == q
  {
  }

  /// A run that breaks off after m matching bits rules out every start up to the break.
  lemma Mismatch(s: seq<bool>, at: nat, m: nat, n: nat, b: bool)
    requires at + m <= |s| && m < n
    requires at + m < |s| ==> s[at + m] != b
    ensures forall i :: at <= i <= at + m ==> !RunAt(s, i, n, b)
  {
  }
}

/// Bitwise arithmetic on 64-bit words, written on naturals below 2^64.
module Words {
  const ELEM_BITS := 64

  newtype Word = w: int | 0 <= w < 0x1_0000_0000_0000_0000

  datatype BoolOp = And | Or | AndNot | Xor {
    predicate Of(a: bool, b: bool) {
      match this
      case And => a && b
      case Or => a || b
      case AndNot => a && !b
      case Xor => a != b
    }
  }

  /// `1 << k`.
  function Pow2(k: nat): (p: nat)
    ensures p > 0
  {
    if k == 0 then 1 else 2 * Pow2(k - 1)
  }

  predicate BitOf(w: nat, k: nat) {
    if k == 0 then w % 2 == 1 else BitOf(w / 2, k - 1)
  }

  /// The operation applied to the low n bits of a and b, bit by bit.
  function Combine(op: BoolOp, a: nat, b: nat, n: nat): (r: nat)
    ensures r < Pow2(n)
  {
    if n == 0 then 0
    else (if op.Of(a % 2 == 1, b % 2 == 1) then 1 else 0) + 2 * Combine(op, a / 2, b / 2, n - 1)
  }

  lemma {:induction false} CombineBit(op: BoolOp, a: nat, b: nat, n: nat, k: nat)
    requires k < n
    ensures BitOf(Combine(op, a, b, n), k) == op.Of(BitOf(a, k), BitOf(b, k))
  {
    if k > 0 {
      CombineBit(op, a / 2, b / 2, n - 1, k - 1);
    }
  }

  lemma {:induction false} Pow2Bit(j: nat, k: nat)
    ensures BitOf(Pow2(j), k) == (j == k)
  {
    if k > 0 {
      if j == 0 { ZeroBit(k - 1); } else { Pow2Bit(j - 1, k - 1); }
    }
  }

  lemma {:induction false} ZeroBit(k: nat)
    ensures !BitOf(0, k)
  {
    if k > 0 { ZeroBit(k - 1); }
  }

  lemma {:induction false} Pow2Mono(j: nat, k: nat)
    requires j <= k
    ensures Pow2(j) <= Pow2(k)
  {
    if j < k { Pow2Mono(j, k - 1); }
  }

  lemma {:induction false} Pow2Sum(j: nat, k: nat)
    ensures Pow2(j + k) == Pow2(j) * Pow2(k)
  {
    if k > 0 { Pow2Sum(j, k - 1); }
  }

  lemma WordBound()
    ensures Pow2(ELEM_BITS) == 0x1_0000_0000_0000_0000
  {
    HalfWordBound();
    Pow2Sum(32, 32);
  }

  lemma HalfWordBound()
    ensures Pow2(32) == 0x1_0000_0000
  {
    assert Pow2(4) == 16;
    Pow2Sum(4, 4);
    Pow2Sum(8, 8);
    Pow2Sum(16, 16);
  }

  function Mask(k: nat): (m: Word)
    requires k < ELEM_BITS
    ensures m as int == Pow2(k)
  {
    WordBound();
    Pow2Mono(k, 63);
    Pow2(k) as Word
  }

  predicate Bit(w: Word, k: nat)
    requires k < ELEM_BITS
  {
    BitOf(w as int, k)
  }

  function Apply(op: BoolOp, a: Word, b: Word): (r: Word)
    ensures forall k :: 0 <= k < ELEM_BITS ==> Bit(r, k) == op.Of(Bit(a, k), Bit(b, k))
  {
    WordBound();
    var r := Combine(op, a as int, b as int, ELEM_BITS);
    assert forall k :: 0 <= k < ELEM_BITS ==> BitOf(r, k) == op.Of(BitOf(a as int, k), BitOf(b as int, k)) by {
      forall k | 0 <= k < ELEM_BITS
        ensures BitOf(r, k) == op.Of(BitOf(a as int, k), BitOf(b as int, k))
      {
        CombineBit(op, a as int, b as int, ELEM_BITS, k);
      }
    }
    r as Word
  }

  /// A word update with the mask of bit j touches bit j and no other bit.
  lemma MaskedUpdate(op: BoolOp, w: Word, j: nat, k: nat)
    requires j < ELEM_BITS && k < ELEM_BITS && !op.And?
    ensures Bit(Apply(op, w, Mask(j)), k) == if j == k then op.Of(Bit(w, k), true) else Bit(w, k)
  {
    Pow2Bit(j, k);
  }

  /// The source's test `(w & mask) != 0` reads the bit.
  lemma MaskedTest(w: Word, j: nat)
    requires j < ELEM_BITS
    ensures Apply(And, w, Mask(j)) != 0 <==> Bit(w, j)
  {
    var r := Apply(And, w, Mask(j));
    Pow2Bit(j, j);
    if r == 0 {
      ZeroBit(j);
    } else {
      var k := SomeBit(r as int, ELEM_BITS) by { WordBound(); }
      Pow2Bit(j, k);
      assert Bit(r, k) == And.Of(Bit(w, k), Bit(Mask(j), k));
    }
  }

  lemma {:induction false} SomeBit(w: nat, n: nat) returns (k: nat)
    requires 0 < w < Pow2(n)
    ensures k < n && BitOf(w, k)
  {
    if w % 2 == 1 {
      k := 0;
    } else {
      k := SomeBit(w / 2, n - 1);
      k := k + 1;
    }
  }
}

module Bitmaps {
  import opened Bits
  import opened Words

  /// The first n bits of the packed words.
  function BitsOf(ws: seq<Word>, n: nat): (s: seq<bool>)
    requires n <= ELEM_BITS * |ws|
    ensures |s| == n
  {
    seq(n, i requires 0 <= i < n => Bit(ws[i / ELEM_BITS], i % ELEM_BITS))
  }

  /// Replacing the word that holds bit i by a word that differs from it only there
  /// updates exactly bit i of the map.
  lemma PokeWord(ws: seq<Word>, n: nat, i: nat, w: Word, b: bool)
    requires i < n <= ELEM_BITS * |ws|
    requires forall k :: 0 <= k < ELEM_BITS ==>
      Bit(w, k) == (if k == i % ELEM_BITS then b else Bit(ws[i / ELEM_BITS], k))
    ensures BitsOf(ws[i / ELEM_BITS := w], n) == BitsOf(ws, n)[i := b]
  {
    var left, right := BitsOf(ws[i / ELEM_BITS := w], n), BitsOf(ws, n)[i := b];
    forall j | 0 <= j < n ensures left[j] == right[j] {
      if j / ELEM_BITS == i / ELEM_BITS && j != i {
        assert j % ELEM_BITS != i % ELEM_BITS;
      }
    }
  }

  lemma RunGrows(s: seq<bool>, at: nat, m: nat, b: bool)
    requires RunAt(s, at, m, b) && at + m < |s| && s[at + m] == b
    ensures RunAt(s, at, m + 1, b)
  {
  }

  class Bitmap {
    const bitcount: nat
    const words: array<Word>

    ghost predicate Valid() {
      bitcount <= NPOS && bitcount <= ELEM_BITS * words.Length
    }

    ghost function Contents(): (s: seq<bool>)
      requires Valid()
      reads words
      ensures |s| == bitcount
    {
      BitsOf(words[..], bitcount)
    }

    /// A zeroed map. The buffer is counted in words here; `BitmapBuffers` states when
    /// the byte count of the source covers them.
    constructor (bits: nat)
      requires bits <= NPOS
      ensures Valid() && bitcount == bits && fresh(words)
      ensures Contents() == seq(bits, i => false)
    {
      bitcount := bits;
      words := new Word[(bits + ELEM_BITS - 1) / ELEM_BITS](i => 0);
      new;
      forall k | 0 <= k < ELEM_BITS ensures !Bit(0, k) {
        ZeroBit(k);
      }
    }

    /// bitmap_create_buffer: the map is what lies in the buffer.
    constructor FromBuffer(bits: nat, buffer: array<Word>)
      requires bits <= NPOS && bits <= ELEM_BITS * buffer.Length
      ensures Valid() && bitcount == bits && words == buffer && Contents() == BitsOf(buffer[..], bits)
    {
      bitcount := bits;
      words := buffer;
    }

    predicate Test(i: nat)
      requires Valid() && i < bitcount
      reads words
      ensures Test(i) == Contents()[i]
    {
      MaskedTest(words[i / ELEM_BITS], i % ELEM_BITS);
      Apply(And, words[i / ELEM_BITS], Mask(i % ELEM_BITS)) != 0
    }

    method Set(start: nat, nbits: nat, b: bool)
      requires Valid()
      modifies words
      ensures Contents() == Fill(old(Contents()), start, nbits, b)
      ensures forall k :: 0 <= k < bitcount ==>
                Contents()[k] == if start <= k < start + nbits then b else old(Contents())[k]
    {
      var at, left := start, nbits;
      while at < bitcount && left > 0
        invariant at + left == start + nbits && start <= at
        invariant Contents() == Fill(old(Contents()), start, at - start, b)
      {
        var e := at / ELEM_BITS;
        ghost var before := words[..];
        var op := if b then Or else AndNot;
        words[e] := Apply(op, words[e], Mask(at % ELEM_BITS));
        forall k | 0 <= k < ELEM_BITS
          ensures Bit(words[e], k) == if k == at % ELEM_BITS then b else Bit(before[e], k)
        {
          MaskedUpdate(op, before[e], at % ELEM_BITS, k);
        }
        assert words[..] == before[e := words[e]];
        PokeWord(before, bitcount, at, words[e], b);
        FillOne(old(Contents()), start, at - start, b);
        at, left := at + 1, left - 1;
      }
    }

    method FlipRange(start: nat, nbits: nat)
      requires Valid()
      modifies words
      ensures Contents() == Flip(old(Contents()), start, nbits)
      ensures forall k :: 0 <= k < bitcount ==>
                Contents()[k] == if start <= k < start + nbits then !old(Contents())[k] else old(Contents())[k]
    {
      var at, left := start, nbits;
      while at < bitcount && left > 0
        invariant at + left == start + nbits && start <= at
        invariant Contents() == Flip(old(Contents()), start, at - start)
      {
        var e := at / ELEM_BITS;
        ghost var before := words[..];
        words[e] := Apply(Xor, words[e], Mask(at % ELEM_BITS));
        forall k | 0 <= k < ELEM_BITS
          ensures Bit(words[e], k) == if k == at % ELEM_BITS then !Bit(before[e], k) else Bit(before[e], k)
        {
          MaskedUpdate(Xor, before[e], at % ELEM_BITS, k);
        }
        assert words[..] == before[e := words[e]];
        PokeWord(before, bitcount, at, words[e], !Bit(before[e], at % ELEM_BITS));
        FlipOne(old(Contents()), start, at - start);
        assert BitsOf(before, bitcount)[at] == Bit(before[e], at % ELEM_BITS);
        at, left := at + 1, left - 1;
      }
    }

    /// The inner loop of the scan: how far the bits from `at` match, up to n. `tests` counts
    /// the calls of Test.
    method MatchLength(at: nat, n: nat, b: bool) returns (m: nat, ghost tests: nat)
      requires Valid() && at <= bitcount
      ensures m <= n && at + m <= bitcount && RunAt(Contents(), at, m, b)
      ensures at + m < bitcount && m < n ==> Contents()[at + m] != b
      ensures tests <= m + 1 && (m == n || at + m == bitcount ==> tests == m)
    {
      m, tests := 0, 0;
      while at + m < bitcount && m < n
        invariant m <= n && at + m <= bitcount && RunAt(Contents(), at, m, b) && tests == m
      {
        tests := tests + 1;
        if Test(at + m) != b {
          break;
        }
        RunGrows(Contents(), at, m, b);
        m := m + 1;
      }
    }

    /// The skipping scan. After a mismatch behind `scanned` matching bits every start in
    /// between would run into the same mismatch, so the scan resumes there.
    method Scan(start: nat, nbits: nat, b: bool) returns (r: nat, ghost tests: nat)
      requires Valid()
      ensures r == FirstRun(Contents(), start, nbits, b)
      ensures start <= bitcount ==> tests <= 2 * (bitcount - start)
    {
      ghost var s := Contents();
      var found, at := false, start;
      tests := 0;
      while at < bitcount && !found
        invariant start <= at && (start <= bitcount ==> at <= bitcount)
        invariant forall i :: start <= i < at ==> !RunAt(s, i, nbits, b)
        invariant found ==> at < bitcount && RunAt(s, at, nbits, b)
        invariant start <= bitcount ==> tests + (if found then 0 else 2 * (bitcount - at)) <= 2 * (bitcount - start)
        decreases bitcount - at, !found
      {
        ghost var more;
        var scanned;
        scanned, more := MatchLength(at, nbits, b);
        tests := tests + more;
        found := scanned == nbits;
        if !found {
          Mismatch(s, at, scanned, nbits, b);
          at := at + if scanned > 1 then scanned else 1;
        }
      }
      r := if found then at else NPOS;
      FirstRunIsScan(s, start, nbits, b);
      ScanIsUnique(s, start, nbits, b, r, FirstRun(s, start, nbits, b));
    }

    method ScanAndFlip(start: nat, nbits: nat, b: bool) returns (r: nat)
      requires Valid()
      modifies words
      ensures r == FirstRun(old(Contents()), start, nbits, b)
      ensures r == NPOS ==> Contents() == old(Contents())
      ensures r != NPOS ==> Contents() == Fill(old(Contents()), r, nbits, !b)
    {
      ghost var tests;
      r, tests := Scan(start, nbits, b);
      FirstRunIsScan(Contents(), start, nbits, b);
      if r != NPOS {
        FlipRange(r, nbits);
        assert Flip(old(Contents()), r, nbits) == Fill(old(Contents()), r, nbits, !b);
      }
    }

    /// True exactly when the whole run lies in the map and equals b, except that the
    /// comparison with the scan result is also met by a start of NPOS.
    method All(start: nat, nbits: nat, b: bool) returns (all: bool)
      requires Valid()
      ensures all == (start == NPOS || (start < bitcount && RunAt(Contents(), start, nbits, b)))
    {
      var r;
      ghost var tests;
      r, tests := Scan(start, nbits, b);
      FirstRunIsScan(Contents(), start, nbits, b);
      all := r == start;
    }
  }
}
