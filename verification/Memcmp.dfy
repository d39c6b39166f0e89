/** rpl_memcmp on a little-endian machine with eight-byte words
    (tools/install/lib/memcmp.c). */
module Memcmp {

  const OPSIZ := 8
  const OP_T_THRES := 16

  type Byte = b: int | 0 <= b < 0x100 witness 0

  /** Every address holds a byte; an aligned word may reach beyond the two blocks. */
  type Memory = int -> Byte

  /** 2 to the power of 8 * k */
  function Pow256(k: nat): (p: int)
    ensures p > 0
  {
    if k == 0 then 1 else 0x100 * Pow256(k - 1)
  }

  /** The number made up of `k` bytes, least significant first. */
  function Number(m: Memory, a: int, k: nat): int
    decreases k
  {
    if k == 0 then 0 else m(a) + 0x100 * Number(m, a + 1, k - 1)
  }

  /** ((op_t *) a)[0] */
  function Load(m: Memory, a: int): int {
    Number(m, a, OPSIZ)
  }

  /** Shifting an unsigned word by whole bytes; what is shifted out is lost. */
  function ShiftRight(w: int, bytes: nat): int {
    w / Pow256(bytes)
  }

  function ShiftLeft(w: int, bytes: nat): int {
    (w * Pow256(bytes)) % Pow256(OPSIZ)
  }

  /** MERGE (w0, shl, w1, shr) for words `off` bytes out of step: shl is off bytes, shr
      what is left of a word.  The bits of the two parts do not overlap (PartsFit), so
      `|` adds them. */
  function Merge(w0: int, w1: int, off: nat): int
    requires off < OPSIZ
  {
    ShiftRight(w0, off) + ShiftLeft(w1, OPSIZ - off)
  }

  /** ((byte *) &w)[i] */
  function ByteAt(w: int, i: nat): int {
    (w / Pow256(i)) % 0x100
  }

  // Arithmetic of bytes

  lemma {:induction false} PowSum(j: nat, k: nat)
    ensures Pow256(j + k) == Pow256(j) * Pow256(k)
  {
    if j > 0 {
      PowSum(j - 1, k);
      assert 0x100 * (Pow256(j - 1) * Pow256(k)) == (0x100 * Pow256(j - 1)) * Pow256(k);
    }
  }

  lemma {:induction false} NumberBounds(m: Memory, a: int, k: nat)
    ensures 0 <= Number(m, a, k) < Pow256(k)
    decreases k
  {
    if k > 0 {
      NumberBounds(m, a + 1, k - 1);
    }
  }

  lemma {:induction false} NumberSplit(m: Memory, a: int, j: nat, k: nat)
    ensures Number(m, a, j + k) == Number(m, a, j) + Pow256(j) * Number(m, a + j, k)
    decreases j
  {
    if j > 0 {
      NumberSplit(m, a + 1, j - 1, k);
      var p, n := Pow256(j - 1), Number(m, a + j, k);
      assert 0x100 * (p * n) == (0x100 * p) * n;
    }
  }

  lemma QuotientOf(low: int, p: int, high: int)
    requires 0 <= low < p
    ensures (low + p * high) / p == high
    ensures (low + p * high) % p == low
  {
    var q, r := (low + p * high) / p, (low + p * high) % p;
    assert p * (q - high) == low - r;
    assert q - high >= 1 ==> p * (q - high) >= p;
    assert q - high <= -1 ==> p * (q - high) <= -p;
  }

  lemma Distribute(low: int, p: int, q: int, high: int)
    requires 0 <= low < q && p > 0
    ensures (low + q * high) * p == p * low + (p * q) * high
    ensures 0 <= p * low < p * q
  {
    assert (q * high) * p == (p * q) * high;
    assert p * (q - low) > 0;
  }

  lemma ShiftedRight(m: Memory, a: int, off: nat)
    requires off <= OPSIZ
    ensures ShiftRight(Load(m, a), off) == Number(m, a + off, OPSIZ - off)
  {
    NumberSplit(m, a, off, OPSIZ - off);
    NumberBounds(m, a, off);
    QuotientOf(Number(m, a, off), Pow256(off), Number(m, a + off, OPSIZ - off));
  }

  lemma ShiftedLeft(m: Memory, a: int, off: nat)
    requires off <= OPSIZ
    ensures ShiftLeft(Load(m, a), OPSIZ - off) == Pow256(OPSIZ - off) * Number(m, a, off)
  {
    var p, q, low, high := Pow256(OPSIZ - off), Pow256(off), Number(m, a, off), Number(m, a + off, OPSIZ - off);
    NumberSplit(m, a, off, OPSIZ - off);
    NumberBounds(m, a, off);
    PowSum(OPSIZ - off, off);
    Distribute(low, p, q, high);
    QuotientOf(p * low, p * q, high);
  }

  /** The two parts of a merge fill disjoint halves of a word. */
  lemma PartsFit(m: Memory, a: int, b: int, off: nat)
    requires off < OPSIZ
    ensures 0 <= ShiftRight(Load(m, a), off) < Pow256(OPSIZ - off)
    ensures ShiftLeft(Load(m, b), OPSIZ - off) % Pow256(OPSIZ - off) == 0
  {
    ShiftedRight(m, a, off);
    NumberBounds(m, a + off, OPSIZ - off);
    ShiftedLeft(m, b, off);
    QuotientOf(0, Pow256(OPSIZ - off), Number(m, b, off));
  }

  /** Two aligned words, merged, are the word between them. */
  lemma MergeIsLoad(m: Memory, a: int, off: nat)
    requires off < OPSIZ
    ensures Merge(Load(m, a), Load(m, a + OPSIZ), off) == Load(m, a + off)
  {
    ShiftedRight(m, a, off);
    ShiftedLeft(m, a + OPSIZ, off);
    NumberSplit(m, a + off, OPSIZ - off, off);
  }

  lemma LoadByte(m: Memory, a: int, i: nat)
    requires i < OPSIZ
    ensures ByteAt(Load(m, a), i) == m(a + i)
  {
    ShiftedRight(m, a, i);
    QuotientOf(m(a + i), 0x100, Number(m, a + i + 1, OPSIZ - i - 1));
  }

  // What the comparison should say

  /** The difference of the first two bytes that differ, 0 if none do. */
  function Diff(m: Memory, p1: int, p2: int, len: nat): int
    decreases len
  {
    if len == 0 then 0
    else if m(p1) != m(p2) then m(p1) - m(p2)
    else Diff(m, p1 + 1, p2 + 1, len - 1)
  }

  predicate SameAt(m: Memory, p1: int, p2: int, i: int) {
    m(p1 + i) == m(p2 + i)
  }

  /** Spelled out: 0 for equal blocks, else the bytes at the first place that differs. */
  lemma {:induction false} DiffMeans(m: Memory, p1: int, p2: int, len: nat)
    ensures Diff(m, p1, p2, len) == 0 <==> forall i :: 0 <= i < len ==> SameAt(m, p1, p2, i)
    ensures forall k :: 0 <= k < len && !SameAt(m, p1, p2, k) && (forall i :: 0 <= i < k ==> SameAt(m, p1, p2, i))
              ==> Diff(m, p1, p2, len) == m(p1 + k) - m(p2 + k)
    decreases len
  {
    if len > 0 {
      DiffMeans(m, p1 + 1, p2 + 1, len - 1);
      assert SameAt(m, p1, p2, 0) <==> m(p1) == m(p2);
      assert forall i :: 0 < i < len ==> (SameAt(m, p1, p2, i) <==> SameAt(m, p1 + 1, p2 + 1, i - 1));
      assert forall i {:trigger SameAt(m, p1 + 1, p2 + 1, i)} ::
          0 <= i < len - 1 ==> (SameAt(m, p1 + 1, p2 + 1, i) <==> SameAt(m, p1, p2, i + 1));
    }
  }

  lemma {:induction false} DiffSplit(m: Memory, p1: int, p2: int, j: nat, k: nat)
    ensures Diff(m, p1, p2, j + k) == if Diff(m, p1, p2, j) != 0 then Diff(m, p1, p2, j) else Diff(m, p1 + j, p2 + j, k)
    decreases j
  {
    if j > 0 && m(p1) == m(p2) {
      DiffSplit(m, p1 + 1, p2 + 1, j - 1, k);
    }
  }

  /** Equal words have no byte that differs, and the other way round. */
  lemma {:induction false} NumbersTell(m: Memory, p1: int, p2: int, k: nat)
    ensures Number(m, p1, k) == Number(m, p2, k) <==> Diff(m, p1, p2, k) == 0
    decreases k
  {
    if k > 0 {
      NumbersTell(m, p1 + 1, p2 + 1, k - 1);
    }
  }

  // Two words

  /** memcmp_bytes, for the words found at p1 and p2. */
  method CompareWords(a: int, b: int, ghost m: Memory, ghost p1: int, ghost p2: int) returns (r: int)
    requires a == Load(m, p1) && b == Load(m, p2) && a != b
    ensures r == Diff(m, p1, p2, OPSIZ) != 0
  {
    NumbersTell(m, p1, p2, OPSIZ);
    var i := 0;
    while true
      invariant 0 <= i < OPSIZ
      invariant Diff(m, p1, p2, i) == 0
      decreases OPSIZ - i
    {
      LoadByte(m, p1, i);
      LoadByte(m, p2, i);
      DiffSplit(m, p1, p2, i, OPSIZ - i);
      DiffSplit(m, p1, p2, i, 1);
      var a0, b0 := ByteAt(a, i), ByteAt(b, i);
      i := i + 1;
      if a0 != b0 {
        return a0 - b0;
      }
      if i == OPSIZ {
        assert false;
      }
    }
  }

  /** One step of either word loop: the words `n` bytes into the blocks. */
  method Step(a: int, b: int, ghost m: Memory, ghost p1: int, ghost p2: int, ghost n: nat, ghost len: nat) returns (r: int)
    requires a == Load(m, p1 + n) && b == Load(m, p2 + n) && n + OPSIZ <= len
    requires Diff(m, p1, p2, n) == 0
    ensures r == 0 ==> Diff(m, p1, p2, n + OPSIZ) == 0
    ensures r != 0 ==> r == Diff(m, p1, p2, len)
  {
    hide Number, Diff;
    DiffSplit(m, p1, p2, n, OPSIZ);
    DiffSplit(m, p1, p2, n + OPSIZ, len - n - OPSIZ);
    NumbersTell(m, p1 + n, p2 + n, OPSIZ);
    r := 0;
    if a != b {
      r := CompareWords(a, b, m, p1 + n, p2 + n);
    }
  }

  /** The place in the unrolled loop where it is entered. */
  datatype Entry = Top | Do3 | Do2 | Do1 | Do0

  /** memcmp_common_alignment: `words` words at two aligned addresses.  The loop is
      unrolled four times and entered in the middle, so that after the first turn four
      words are left each time; a word is compared while the next one is loaded. */
  method CommonAlignment(m: Memory, p1: int, p2: int, words: nat) returns (res: int)
    ensures res == Diff(m, p1, p2, OPSIZ * words)
  {
    hide Number, Diff;
    var srcp1, srcp2, len := p1, p2, words;
    var a0, a1, b0, b1 := 0, 0, 0, 0;
    var entry := Top;
    DiffNone(m, p1, p2);
    if len % 4 == 2 {
      a0, b0 := Load(m, srcp1), Load(m, srcp2);
      srcp1, srcp2, len, entry := srcp1 - 2 * OPSIZ, srcp2 - 2 * OPSIZ, len + 2, Do1;
    } else if len % 4 == 3 {
      a1, b1 := Load(m, srcp1), Load(m, srcp2);
      srcp1, srcp2, len, entry := srcp1 - OPSIZ, srcp2 - OPSIZ, len + 1, Do2;
    } else if len % 4 == 0 {
      if OP_T_THRES <= 3 * OPSIZ && len == 0 {
        return 0;
      }
      a0, b0 := Load(m, srcp1), Load(m, srcp2);
      entry := Do3;
    } else {
      a1, b1 := Load(m, srcp1), Load(m, srcp2);
      srcp1, srcp2, len := srcp1 + OPSIZ, srcp2 + OPSIZ, len - 1;
      if OP_T_THRES <= 3 * OPSIZ && len == 0 {
        entry := Do0;
      }
    }
    // the first n bytes are equal, and the word after them is loaded
    ghost var n := 0;
    while entry != Do0
      invariant srcp2 - p2 == srcp1 - p1
      invariant len % 4 == 0 && (entry == Do0 <==> len == 0)
      invariant srcp1 - p1 + OPSIZ * len == OPSIZ * words
      invariant n == srcp1 - p1 + match entry { case Top => -OPSIZ case Do0 => -OPSIZ case Do3 => 0 case Do2 => OPSIZ case Do1 => 2 * OPSIZ }
      invariant n >= 0 && Diff(m, p1, p2, n) == 0
      invariant entry == Top || entry == Do2 || entry == Do0 ==> a1 == Load(m, p1 + n) && b1 == Load(m, p2 + n)
      invariant entry == Do3 || entry == Do1 ==> a0 == Load(m, p1 + n) && b0 == Load(m, p2 + n)
      decreases len
    {
      if entry == Top {
        a0, b0 := Load(m, srcp1), Load(m, srcp2);
        res := Step(a1, b1, m, p1, p2, n, OPSIZ * words);
        if res != 0 {
          return;
        }
        n, entry := n + OPSIZ, Do3;
      }
      if entry == Do3 {
        a1, b1 := Load(m, srcp1 + OPSIZ), Load(m, srcp2 + OPSIZ);
        res := Step(a0, b0, m, p1, p2, n, OPSIZ * words);
        if res != 0 {
          return;
        }
        n, entry := n + OPSIZ, Do2;
      }
      if entry == Do2 {
        a0, b0 := Load(m, srcp1 + 2 * OPSIZ), Load(m, srcp2 + 2 * OPSIZ);
        res := Step(a1, b1, m, p1, p2, n, OPSIZ * words);
        if res != 0 {
          return;
        }
        n, entry := n + OPSIZ, Do1;
      }
      a1, b1 := Load(m, srcp1 + 3 * OPSIZ), Load(m, srcp2 + 3 * OPSIZ);
      res := Step(a0, b0, m, p1, p2, n, OPSIZ * words);
      if res != 0 {
        return;
      }
      n := n + OPSIZ;
      srcp1, srcp2, len := srcp1 + 4 * OPSIZ, srcp2 + 4 * OPSIZ, len - 4;
      entry := if len != 0 then Top else Do0;
    }
    res := Step(a1, b1, m, p1, p2, n, OPSIZ * words);
  }

  lemma DiffNone(m: Memory, p1: int, p2: int)
    ensures Diff(m, p1, p2, 0) == 0
  {
  }

  /** One step of the loop for misaligned input: two neighbouring aligned words of the
      first block make up the word to compare. */
  method MergeStep(lo: int, hi: int, b: int, off: nat, ghost m: Memory, ghost p1: int, ghost p2: int, ghost n: nat, ghost len: nat)
    returns (r: int)
    requires off < OPSIZ && lo == Load(m, p1 - off + n) && hi == Load(m, p1 - off + n + OPSIZ) && b == Load(m, p2 + n)
    requires n + OPSIZ <= len && Diff(m, p1, p2, n) == 0
    ensures r == 0 ==> Diff(m, p1, p2, n + OPSIZ) == 0
    ensures r != 0 ==> r == Diff(m, p1, p2, len)
  {
    hide Number, Diff;
    MergeIsLoad(m, p1 - off + n, off);
    var x := Merge(lo, hi, off);
    r := Step(x, b, m, p1, p2, n, len);
  }

  /** memcmp_not_common_alignment: the second address is aligned, the first is not. */
  method NotCommonAlignment(m: Memory, p1: int, p2: int, words: nat) returns (res: int)
    requires p1 % OPSIZ != 0
    ensures res == Diff(m, p1, p2, OPSIZ * words)
  {
    hide Number, Diff, Load, Merge;
    var off := p1 % OPSIZ;
    var srcp1, srcp2, len := p1 - off, p2, words;
    var a0, a1, a2, a3, b0, b1, b2, b3 := 0, 0, 0, 0, 0, 0, 0, 0;
    var entry := Top;
    ghost var base := p1 - off;
    DiffNone(m, p1, p2);
    if len % 4 == 2 {
      a1, a2, b2 := Load(m, srcp1), Load(m, srcp1 + OPSIZ), Load(m, srcp2);
      srcp1, srcp2, len, entry := srcp1 - OPSIZ, srcp2 - 2 * OPSIZ, len + 2, Do1;
    } else if len % 4 == 3 {
      a0, a1, b1 := Load(m, srcp1), Load(m, srcp1 + OPSIZ), Load(m, srcp2);
      srcp2, len, entry := srcp2 - OPSIZ, len + 1, Do2;
    } else if len % 4 == 0 {
      if OP_T_THRES <= 3 * OPSIZ && len == 0 {
        return 0;
      }
      a3, a0, b0 := Load(m, srcp1), Load(m, srcp1 + OPSIZ), Load(m, srcp2);
      srcp1, entry := srcp1 + OPSIZ, Do3;
    } else {
      a2, a3, b3 := Load(m, srcp1), Load(m, srcp1 + OPSIZ), Load(m, srcp2);
      srcp1, srcp2, len := srcp1 + 2 * OPSIZ, srcp2 + OPSIZ, len - 1;
      if OP_T_THRES <= 3 * OPSIZ && len == 0 {
        entry := Do0;
      }
    }
    ghost var n := 0;
    while entry != Do0
      invariant srcp1 - base == srcp2 - p2 + OPSIZ
      invariant len % 4 == 0 && (entry == Do0 <==> len == 0)
      invariant srcp2 - p2 + OPSIZ * len == OPSIZ * words
      invariant n == srcp2 - p2 + match entry { case Top => -OPSIZ case Do0 => -OPSIZ case Do3 => 0 case Do2 => OPSIZ case Do1 => 2 * OPSIZ }
      invariant n >= 0 && Diff(m, p1, p2, n) == 0
      invariant entry == Top || entry == Do0 ==>
          a2 == Load(m, base + n) && a3 == Load(m, base + n + OPSIZ) && b3 == Load(m, p2 + n)
      invariant entry == Do3 ==> a3 == Load(m, base + n) && a0 == Load(m, base + n + OPSIZ) && b0 == Load(m, p2 + n)
      invariant entry == Do2 ==> a0 == Load(m, base + n) && a1 == Load(m, base + n + OPSIZ) && b1 == Load(m, p2 + n)
      invariant entry == Do1 ==> a1 == Load(m, base + n) && a2 == Load(m, base + n + OPSIZ) && b2 == Load(m, p2 + n)
      decreases len
    {
      if entry == Top {
        a0, b0 := Load(m, srcp1), Load(m, srcp2);
        res := MergeStep(a2, a3, b3, off, m, p1, p2, n, OPSIZ * words);
        if res != 0 {
          return;
        }
        n, entry := n + OPSIZ, Do3;
      }
      if entry == Do3 {
        a1, b1 := Load(m, srcp1 + OPSIZ), Load(m, srcp2 + OPSIZ);
        res := MergeStep(a3, a0, b0, off, m, p1, p2, n, OPSIZ * words);
        if res != 0 {
          return;
        }
        n, entry := n + OPSIZ, Do2;
      }
      if entry == Do2 {
        a2, b2 := Load(m, srcp1 + 2 * OPSIZ), Load(m, srcp2 + 2 * OPSIZ);
        res := MergeStep(a0, a1, b1, off, m, p1, p2, n, OPSIZ * words);
        if res != 0 {
          return;
        }
        n, entry := n + OPSIZ, Do1;
      }
      a3, b3 := Load(m, srcp1 + 3 * OPSIZ), Load(m, srcp2 + 3 * OPSIZ);
      res := MergeStep(a1, a2, b2, off, m, p1, p2, n, OPSIZ * words);
      if res != 0 {
        return;
      }
      n := n + OPSIZ;
      srcp1, srcp2, len := srcp1 + 4 * OPSIZ, srcp2 + 4 * OPSIZ, len - 4;
      entry := if len != 0 then Top else Do0;
    }
    res := MergeStep(a2, a3, b3, off, m, p1, p2, n, OPSIZ * words);
  }

  /** rpl_memcmp, for all lengths and all alignments of the two blocks. */
  method RplMemcmp(m: Memory, s1: int, s2: int, length: nat) returns (res: int)
    ensures res == Diff(m, s1, s2, length)
  {
    hide Number, Diff;
    var srcp1, srcp2, len := s1, s2, length;
    DiffNone(m, s1, s2);
    if len >= OP_T_THRES {
      while srcp2 % OPSIZ != 0
        invariant srcp1 - s1 == srcp2 - s2 == length - len
        invariant 0 <= srcp2 - s2 <= (OPSIZ - s2 % OPSIZ) % OPSIZ && len >= OP_T_THRES - OPSIZ
        invariant Diff(m, s1, s2, length - len) == 0
        decreases len
      {
        res := ByteStep(m, s1, s2, length - len, length);
        srcp1, srcp2 := srcp1 + 1, srcp2 + 1;
        if res != 0 {
          return;
        }
        len := len - 1;
      }
      if srcp1 % OPSIZ == 0 {
        res := CommonAlignment(m, srcp1, srcp2, len / OPSIZ);
      } else {
        res := NotCommonAlignment(m, srcp1, srcp2, len / OPSIZ);
      }
      var done := len - len % OPSIZ;
      DiffSplit(m, s1, s2, length - len, done);
      DiffSplit(m, s1, s2, length - len + done, len - done);
      if res != 0 {
        return;
      }
      srcp1, srcp2, len := srcp1 + done, srcp2 + done, len % OPSIZ;
    }
    while len != 0
      invariant 0 <= len <= length && srcp1 - s1 == srcp2 - s2 == length - len
      invariant Diff(m, s1, s2, length - len) == 0
    {
      res := ByteStep(m, s1, s2, length - len, length);
      srcp1, srcp2 := srcp1 + 1, srcp2 + 1;
      if res != 0 {
        return;
      }
      len := len - 1;
    }
    res := 0;
  }

  /** Comparing one byte, with `n` equal bytes before it. */
  method ByteStep(m: Memory, p1: int, p2: int, n: nat, ghost len: nat) returns (r: int)
    requires n < len && Diff(m, p1, p2, n) == 0
    ensures r == 0 ==> Diff(m, p1, p2, n + 1) == 0
    ensures r != 0 ==> r == Diff(m, p1, p2, len)
  {
    DiffSplit(m, p1, p2, n, 1);
    DiffSplit(m, p1, p2, n + 1, len - n - 1);
    r := m(p1 + n) - m(p2 + n);
  }
}
