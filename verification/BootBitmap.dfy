// Placing the page-frame bitmap: how many frames it takes, which region gives them up, and the bytes
// written to it.
module BootBitmap {
  import opened Machine
  import opened MemoryMap
  import opened FrameScan

  // Frames reserved for one bit per frame.
  function BitmapFrames(total: u32): u32
  {
    DivCeil(DivCeil(total, 8), 0x1000)
  }

  // One frame holds the bits of 32768 frames, and no more are reserved than are needed.
  lemma BitmapFramesTight(total: u32)
    requires 0 < total <= 0xF_FFFF
    ensures (BitmapFrames(total) - 1) * 0x8000 < total <= BitmapFrames(total) * 0x8000
  {
    hide DivCeil;
    DivCeilExact(total);
    DivCeilExact((total + 7) / 8);
  }

  // The first region from position i on that is long enough for b frames.
  function PlaceFrom(rs: seq<Region>, i: nat, b: nat): (k: nat)
    requires i <= |rs|
    ensures i <= k <= |rs| && (k < |rs| ==> b * 0x1000 <= rs[k].len)
    ensures forall j :: i <= j < k ==> rs[j].len < b * 0x1000
    decreases |rs| - i
  {
    if i == |rs| || b * 0x1000 <= rs[i].len then i else PlaceFrom(rs, i + 1, b)
  }

  function Shrunk(rs: seq<Region>, k: nat, b: nat): seq<Region>
    requires k < |rs| && b * 0x1000 <= rs[k].len && rs[k].addr + rs[k].len < 0x1_0000_0000
  {
    rs[k := Region(rs[k].addr + b * 0x1000, rs[k].len - b * 0x1000)]
  }

  lemma {:induction false} TotalShrunk(rs: seq<Region>, k: nat, b: nat, i: nat)
    requires Regular(rs) && k < |rs| && b * 0x1000 <= rs[k].len && i <= |rs|
    ensures TotalFrom(Shrunk(rs, k, b), i) == TotalFrom(rs, i) - if i <= k then b else 0
    decreases |rs| - i
  {
    if i < |rs| {
      TotalShrunk(rs, k, b, i + 1);
      if i == k {
        ShrunkFrames(rs[k], b);
      }
    }
  }

  lemma ShrunkFrames(r: Region, b: nat)
    requires r.addr % 0x1000 == 0 && r.len % 0x1000 == 0 && b * 0x1000 <= r.len && r.addr + r.len < 0x1_0000_0000
    ensures
      var s := Region(r.addr + b * 0x1000, r.len - b * 0x1000);
      && s.addr % 0x1000 == 0 && s.len % 0x1000 == 0 && s.First() == r.First() + b && s.Count() == r.Count() - b
  {
    var q, n := r.addr / 0x1000, r.len / 0x1000;
    assert r.addr == q * 0x1000 && r.len == n * 0x1000;
    assert r.addr + b * 0x1000 == (q + b) * 0x1000 && r.len - b * 0x1000 == (n - b) * 0x1000;
  }

  // Cutting the bitmap off its region leaves a regular map with that many frames less, and the bitmap's
  // frames are no longer in it.
  lemma ReservedOut(rs: seq<Region>, k: nat, b: nat)
    requires Regular(rs) && k < |rs| && b * 0x1000 <= rs[k].len
    ensures Regular(Shrunk(rs, k, b)) && Total(Shrunk(rs, k, b)) == Total(rs) - b
    ensures forall f: nat :: Held(Shrunk(rs, k, b), f) <==> Held(rs, f) && f !in FrameRun(rs[k].First(), b)
    ensures FrameRun(rs[k].First(), b) <= set f: nat | f < 0x10_0000 && Held(rs, f)
  {
    var s := Shrunk(rs, k, b);
    TotalShrunk(rs, k, b, 0);
    forall j | 0 <= j < |rs|
      ensures s[j].addr % 0x1000 == 0 && s[j].len % 0x1000 == 0 && 0x10_0000 < s[j].addr
        && s[j].addr + s[j].len == rs[j].addr + rs[j].len
      ensures forall f: nat :: s[j].Has(f) <==> rs[j].Has(f) && !(j == k && f < rs[k].First() + b)
    {
      if j == k {
        ShrunkFrames(rs[k], b);
      }
    }
    forall f: nat
      ensures Held(s, f) <==> Held(rs, f) && f !in FrameRun(rs[k].First(), b)
    {
      if j :| 0 <= j < |rs| && rs[j].Has(f) && j != k {
        if j < k { RegionsOrdered(rs, j, k); } else { RegionsOrdered(rs, k, j); }
        assert s[j].Has(f);
      }
    }
    forall f | f in FrameRun(rs[k].First(), b)
      ensures Held(rs, f) && f < 0x10_0000
    {
      ShrunkFrames(rs[k], b);
      assert rs[k].Has(f);
    }
  }

  // The reserved frames hold every word the scan reads, and the pages mapped for the bitmap cover those
  // words and stay inside the reserved frames.
  lemma WordsInside(total: u32, len: u32)
    requires len == total - BitmapFrames(total) && 0 < len && total <= 0xF_FFFF
    ensures
      var words, size := (len + 31) / 32, DivCeil(len, 8);
      && 0 < size <= 4 * words && size + 3 >= 4 * words && size <= 0x2_0000
      && 4 * words <= PageCount(size) * 0x1000 && PageCount(size) <= BitmapFrames(total) <= 0x20
  {
    hide DivCeil, AlignUp;
    var bytes, size := DivCeil(total, 8), DivCeil(len, 8);
    DivCeilExact(total);
    DivCeilExact(len);
    WordBytes(len);
    assert bytes == (total + 7) / 8 && 0 < bytes;
    DivCeilExact(bytes);
    PagesOf(size);
    assert size <= bytes;
    assert BitmapFrames(total) == (bytes + 0xFFF) / 0x1000;
  }

  lemma WordBytes(len: u32)
    requires 0 < len <= 0xF_FFFF
    ensures 0 < (len + 7) / 8 <= 4 * ((len + 31) / 32) <= (len + 7) / 8 + 3
  {
  }

  lemma PagesOf(size: u32)
    requires size <= 0x2_0000
    ensures PageCount(size) == (size + 0xFFF) / 0x1000
  {
    AlignUpPage(size);
  }

  // Bit j of a byte, numbered from its most significant bit.
  predicate ByteBit(b: bv32, j: nat)
    requires j < 8
  {
    BitSet(b, 24 + j)
  }

  // Storing byte b at byte c of a word, in the order of memory addresses.
  function WithByte(w: bv32, c: nat, b: bv32): bv32
    requires c < 4
  {
    if c == 0 then (w & 0xFFFF_FF00) | b
    else if c == 1 then (w & 0xFFFF_00FF) | (b << 8)
    else if c == 2 then (w & 0xFF00_FFFF) | (b << 16)
    else (w & 0x00FF_FFFF) | (b << 24)
  }

  lemma ByteShifted(w: bv32, b: bv32, x: bv32, k: bv32)
    requires x < 8 && k < 4 && b <= 0xFF
    ensures (((w & 0xFFFF_FF00) | b) >> (x + 8 * k)) & 1 == if k == 0 then (b >> x) & 1 else (w >> (x + 8 * k)) & 1
    ensures (((w & 0xFFFF_00FF) | (b << 8)) >> (x + 8 * k)) & 1 == if k == 1 then (b >> x) & 1
      else (w >> (x + 8 * k)) & 1
    ensures (((w & 0xFF00_FFFF) | (b << 16)) >> (x + 8 * k)) & 1 == if k == 2 then (b >> x) & 1
      else (w >> (x + 8 * k)) & 1
    ensures (((w & 0x00FF_FFFF) | (b << 24)) >> (x + 8 * k)) & 1 == if k == 3 then (b >> x) & 1
      else (w >> (x + 8 * k)) & 1
  {
  }

  // A shift amount as a word.
  function Amount(n: nat): (a: bv32)
    requires n < 32
    ensures a < 32
  {
    n as bv32
  }

  lemma Amounts(x: nat, k: nat)
    requires x < 8 && k < 4
    ensures Amount(x) < 8 && Amount(x + 8 * k) == Amount(x) + 8 * Amount(k)
    ensures Amount(k) == if k == 0 then 0 else if k == 1 then 1 else if k == 2 then 2 else 3
  {
    assert k == 0 || k == 1 || k == 2 || k == 3;
    assert x == 0 || x == 1 || x == 2 || x == 3 || x == 4 || x == 5 || x == 6 || x == 7;
  }

  lemma AmountOnce(a: nat, b: nat)
    requires a < 8 && b < 8
    ensures Amount(a) == Amount(b) <==> a == b
  {
    assert a == 0 || a == 1 || a == 2 || a == 3 || a == 4 || a == 5 || a == 6 || a == 7;
    assert b == 0 || b == 1 || b == 2 || b == 3 || b == 4 || b == 5 || b == 6 || b == 7;
  }

  lemma AmountIs(n: nat)
    requires n < 32
    ensures Amount(n) == n as bv32
  {
  }

  // Bit n of a word, numbered from the least significant bit.
  predicate BitUp(w: bv32, n: nat)
    requires n < 32
  {
    (w >> Amount(n)) & 1 == 1
  }

  lemma BitAt(w: bv32, n: nat)
    requires n < 32
    ensures BitSet(w, 31 - n) <==> BitUp(w, n)
  {
    hide Amount;
    AmountIs(n);
  }

  lemma StoredShifted(w: bv32, c: nat, b: bv32, x: bv32, k: bv32, y: bv32)
    requires c < 4 && x < 8 && k < 4 && b <= 0xFF && y == x + 8 * k
    ensures (WithByte(w, c, b) >> y) & 1 ==
      if k == Amount(c) then (b >> x) & 1 else (w >> y) & 1
  {
    hide Amount;
    Amounts(0, c);
    ByteShifted(w, b, x, k);
  }

  lemma StoredAmount(w: bv32, c: nat, b: bv32, x: nat, k: nat)
    requires c < 4 && x < 8 && k < 4 && b <= 0xFF
    ensures BitUp(WithByte(w, c, b), x + 8 * k) <==> if k == c then BitUp(b, x) else BitUp(w, x + 8 * k)
  {
    hide WithByte, Amount;
    Amounts(x, k);
    AmountOnce(k, c);
    StoredShifted(w, c, b, Amount(x), Amount(k), Amount(x + 8 * k));
  }

  lemma StoredBit(w: bv32, c: nat, b: bv32, x: nat, k: nat)
    requires c < 4 && x < 8 && k < 4 && b <= 0xFF
    ensures BitSet(WithByte(w, c, b), 31 - (x + 8 * k)) <==>
      if k == c then BitSet(b, 31 - x) else BitSet(w, 31 - (x + 8 * k))
  {
    hide BitSet, WithByte, BitUp;
    StoredAmount(w, c, b, x, k);
    BitAt(w, x + 8 * k);
    BitAt(WithByte(w, c, b), x + 8 * k);
    BitAt(b, x);
  }

  // Which bits a stored byte gives: bits are numbered from the most significant one of the word, but bytes from
  // the least significant one.
  lemma StoredBits(w: bv32, c: nat, b: bv32, j: nat)
    requires c < 4 && j < 32 && b <= 0xFF
    ensures BitSet(WithByte(w, c, b), j) <==> if j / 8 == 3 - c then ByteBit(b, j % 8) else BitSet(w, j)
  {
    hide BitSet, WithByte;
    var x, k := 7 - j % 8, 3 - j / 8;
    assert j == 31 - (x + 8 * k) && 24 + j % 8 == 31 - x;
    StoredBit(w, c, b, x, k);
  }

  // The byte, counted from the start of the bitmap in memory, that holds bit q.
  function ByteOf(q: nat): nat
  {
    4 * (q / 32) + (3 - q % 32 / 8)
  }

  method StoreByte(start: array<bv32>, k: nat, b: bv32)
    requires k < 4 * start.Length && b <= 0xFF
    modifies start
    ensures forall q: nat :: q < 32 * start.Length ==>
      View(start[..])[q] == if ByteOf(q) == k then ByteBit(b, q % 8) else old(View(start[..]))[q]
  {
    hide BitSet, ByteBit, WithByte;
    ghost var words := start[..];
    start[k / 4] := WithByte(start[k / 4], k % 4, b);
    forall q: nat | q < 32 * start.Length
      ensures View(start[..])[q] == if ByteOf(q) == k then ByteBit(b, q % 8) else View(words)[q]
    {
      if q / 32 == k / 4 {
        StoredBits(words[k / 4], k % 4, b, q % 32);
      }
    }
  }

  // Bit i of a byte, from its least significant one, is set as well.
  predicate AddsBit(last: bv32, i: nat, more: bv32)
    requires i < 8
  {
    last <= 0xFF && more == last | ((1 as bv32) << Amount(i))
  }

  lemma OneMore(last: bv32, i: nat, more: bv32)
    requires i < 8 && AddsBit(last, 7 - i, more)
    ensures forall b: nat :: b < 8 ==> ByteBit(more, b) == (b == i || ByteBit(last, b))
  {
    hide BitSet, Amount, BitUp, AddsBit;
    forall b: nat | b < 8
      ensures ByteBit(more, b) == (b == i || ByteBit(last, b))
    {
      assert 24 + b == 31 - (7 - b);
      BitAt(more, 7 - b);
      BitAt(last, 7 - b);
      OneMoreUp(last, 7 - i, more, 7 - b);
    }
  }

  lemma OneMoreUp(last: bv32, i: nat, more: bv32, b: nat)
    requires i < 8 && b < 8 && AddsBit(last, i, more)
    ensures BitUp(more, b) <==> b == i || BitUp(last, b)
    ensures more <= 0xFF
  {
    hide Amount;
    Amounts(i, 0);
    Amounts(b, 0);
    AmountOnce(i, b);
    OneMoreShifted(last, Amount(i), Amount(b));
  }

  lemma SetsBit(last: bv32, i: nat, more: bv32)
    requires i < 8 && last <= 0xFF && more == last | ((1 as bv32) << (7 - i))
    ensures AddsBit(last, 7 - i, more)
  {
    assert more == last | ((1 as bv32) << Amount(7 - i));
  }

  lemma OneMoreBit(last: bv32, i: nat, more: bv32)
    requires i < 8 && last <= 0xFF && more == last | ((1 as bv32) << (7 - i))
    ensures forall b: nat :: b < 8 ==> ByteBit(more, b) == (b == i || ByteBit(last, b))
    ensures more <= 0xFF
  {
    hide ByteBit, BitUp, AddsBit;
    SetsBit(last, i, more);
    OneMoreUp(last, 7 - i, more, 0);
    OneMore(last, i, more);
  }

  lemma OneMoreShifted(last: bv32, i: bv32, b: bv32)
    requires i < 8 && b < 8
    ensures ((last | ((1 as bv32) << i)) >> b) & 1 == if b == i then 1 else (last >> b) & 1
    ensures last <= 0xFF ==> last | ((1 as bv32) << i) <= 0xFF
  {
  }

  // Whether bit q of the bitmap is set at first: in the bytes before the last one, and of the last one in as many
  // bits as frames are left over from whole bytes. Behind it is what the memory held.
  predicate StartsFree(len: nat, size: nat, held: seq<bool>, q: nat)
    requires 0 < size && q < |held|
  {
    if ByteOf(q) < size - 1 then true
    else if ByteOf(q) == size - 1 then q % 8 < len % 8
    else held[q]
  }

  // memset of size bytes to 0xFF, over memory with arbitrary contents.
  method SetAll(start: array<bv32>, size: u32)
    requires size <= 4 * start.Length
    modifies start
    ensures forall q: nat :: q < 32 * start.Length ==>
      View(start[..])[q] == (ByteOf(q) < size || old(View(start[..]))[q])
  {
    hide View, ByteBit, ByteOf;
    var k := 0;
    while k < size
      invariant 0 <= k <= size
      invariant forall q: nat :: q < 32 * start.Length ==>
        View(start[..])[q] == (ByteOf(q) < k || old(View(start[..]))[q])
    {
      AllOnes();
      StoreByte(start, k, 0xFF);
      k := k + 1;
    }
  }

  lemma AllOnes()
    ensures forall b: nat :: b < 8 ==> ByteBit(0xFF, b)
  {
    forall b: nat | b < 8
      ensures ByteBit(0xFF, b)
    {
      OnesShifted((7 - b) as bv32);
    }
  }

  lemma OnesShifted(a: bv32)
    requires a < 8
    ensures ((0xFF as bv32) >> a) & 1 == 1
  {
  }

  // The bitmap is filled byte by byte; of the last byte only the top bits for the remaining frames stay.
  method FillBitmap(start: array<bv32>, len: u32, size: u32)
    requires 0 < size <= 4 * start.Length
    modifies start
    ensures forall q: nat :: q < 32 * start.Length ==>
      View(start[..])[q] == StartsFree(len, size, old(View(start[..])), q)
  {
    hide View, ByteBit, ByteOf;
    ghost var held := View(start[..]);
    SetAll(start, size);
    ghost var ones := View(start[..]);
    var last: bv32 := 0;
    ZeroByte();
    var i := 0;
    while i < len % 8
      invariant 0 <= i <= len % 8 && last <= 0xFF && View(start[..]) == ones
      invariant forall b: nat :: b < 8 ==> ByteBit(last, b) == (b < i)
    {
      OneMoreBit(last, i, last | ((1 as bv32) << (7 - i)));
      last := last | ((1 as bv32) << (7 - i));
      i := i + 1;
    }
    StoreByte(start, size - 1, last);
    forall q: nat | q < 32 * start.Length
      ensures View(start[..])[q] == StartsFree(len, size, held, q)
    {
      assert ones[q] == (ByteOf(q) < size || held[q]);
      assert ByteBit(last, q % 8) == (q % 8 < len % 8);
    }
  }

  lemma ZeroByte()
    ensures forall b: nat :: b < 8 ==> !ByteBit(0, b)
  {
    forall b: nat | b < 8
      ensures !ByteBit(0, b)
    {
      ZeroHasNoBits(24 + b);
    }
  }

  // Where a bit of the last word lies.
  lemma BitInWord(at: nat, j: nat)
    requires j < 32
    ensures ByteOf(32 * at + j) == 4 * at + (3 - j / 8) && (32 * at + j) % 8 == j % 8
  {
    assert (32 * at + j) / 32 == at && (32 * at + j) % 32 == j;
    assert (32 * at + j) % 8 == j % 8;
  }

  lemma LastBytes(at: nat, m: nat)
    requires 0 < m <= 32
    ensures (32 * at + m + 7) / 8 == 4 * at + (m + 7) / 8 && (32 * at + m) % 8 == m % 8
    ensures (4 * at + (m + 7) / 8) % 4 == (m + 7) / 8 % 4 && (32 * at + m - 1) / 32 == at
  {
  }

  // Every frame starts free exactly if the last byte is the first or second of its word and the memory held ones
  // for the frames of that word. Otherwise frames are withheld: the last byte is not the one that holds the last
  // frames, and of a whole last byte no bit stays.
  lemma AllStartFree(len: nat, size: nat, held: seq<bool>)
    requires 0 < len <= |held| && size == (len + 7) / 8
    ensures (forall q: nat :: q < len ==> StartsFree(len, size, held, q)) <==>
      (0 < size % 4 < 3 && forall q: nat :: 32 * ((len - 1) / 32) <= q < len ==> held[q])
  {
    hide ByteOf;
    var at := (len - 1) / 32;
    var m := len - 32 * at;
    LastBytes(at, m);
    forall q: nat | q < len
      ensures q < 32 * at ==> StartsFree(len, size, held, q)
      ensures 32 * at <= q && m <= 16 ==> StartsFree(len, size, held, q) == held[q]
    {
      if q < 32 * at {
        BitInWord(q / 32, q % 32);
      } else {
        BitInWord(at, q - 32 * at);
      }
    }
    if m > 16 {
      var j := if m > 24 then 7 else 15;
      BitInWord(at, j);
      assert !StartsFree(len, size, held, 32 * at + j);
    }
  }
}
