/**
 The tightly-coupled data memories (`binary_load` and `binary_store` in `sw/banshee/src/engine.rs`): one array
 of 32-bit words per cluster, reached by a local path from its own cluster and by a search of all
 ranges from the others.  Shifts and masks on words are shown to implement bytes in little-endian order.
 */
module Scratchpad {
  import opened Common
  import opened IntBits

  // ---------- Words ----------

  /** An access of size s = 0, 1, 2 covers 1, 2 or 4 bytes. */
  function Bytes(size: nat): (n: nat)
    requires size <= 2
    ensures n == Pow2(size) && (n == 1 || n == 2 || n == 4)
  {
    if size == 0 then 1 else if size == 1 then 2 else 4
  }

  predicate IsWord(x: int) { 0 <= x < Pow2(32) }

  function LoadWord(word: int, offs: nat, size: nat): int
    requires size <= 2
  {
    And(Shr(word, 8 * offs), Ones(8 * Bytes(size)))
  }

  function WriteMask(offs: nat, size: nat): int
    requires size <= 2
  {
    And(Shl(Ones(8 * Bytes(size)), 8 * offs), Ones(32))
  }

  function StoreWord(word: int, value: int, offs: nat, size: nat): int
    requires size <= 2
  {
    var wmask := WriteMask(offs, size);
    Or(And(word, Not(wmask)), And(And(Shl(value, 8 * offs), Ones(32)), wmask))
  }

  /** Byte `k` of a word. */
  function ByteOf(word: int, k: nat): int {
    And(Shr(word, 8 * k), Ones(8))
  }

  /** A field of `w` bits, shifted down by `s`. */
  lemma FieldBit(x: int, s: nat, w: nat, i: nat)
    ensures Bit(And(Shr(x, s), Ones(w)), i) <==> i < w && Bit(x, i + s)
  {
    hide Bit, And, Or, Not, Shl, Shr, Ones, Pow2;
    AndBit(Shr(x, s), Ones(w), i);
    OnesBit(w, i);
    ShrBit(x, s, i);
  }

  lemma WriteMaskBit(offs: nat, size: nat, i: nat)
    requires size <= 2
    ensures Bit(WriteMask(offs, size), i) <==> i < 32 && 8 * offs <= i < 8 * offs + 8 * Bytes(size)
  {
    hide Bit, And, Or, Not, Shl, Shr, Ones, Pow2;
    var w := 8 * Bytes(size);
    AndBit(Shl(Ones(w), 8 * offs), Ones(32), i);
    ShlBit(Ones(w), 8 * offs, i);
    OnesBit(32, i);
    if i >= 8 * offs { OnesBit(w, i - 8 * offs); }
  }

  lemma ShiftedValueBit(value: int, offs: nat, i: nat)
    ensures Bit(And(Shl(value, 8 * offs), Ones(32)), i) <==> i < 32 && i >= 8 * offs && Bit(value, i - 8 * offs)
  {
    hide Bit, And, Or, Not, Shl, Shr, Ones, Pow2;
    AndBit(Shl(value, 8 * offs), Ones(32), i);
    ShlBit(value, 8 * offs, i);
    OnesBit(32, i);
  }

  /** A store replaces the bits of its bytes and no others. */
  lemma StoreBit(word: int, value: int, offs: nat, size: nat, i: nat)
    requires size <= 2
    ensures Bit(StoreWord(word, value, offs, size), i) <==>
            if i < 32 && 8 * offs <= i < 8 * offs + 8 * Bytes(size) then Bit(value, i - 8 * offs) else Bit(word, i)
  {
    hide Bit, And, Not, Shl, Shr, Ones, Pow2, WriteMask;
    var m, v := WriteMask(offs, size), And(Shl(value, 8 * offs), Ones(32));
    WriteMaskBit(offs, size, i);
    ShiftedValueBit(value, offs, i);
    OrBit(And(word, Not(m)), And(v, m), i);
    AndBit(word, Not(m), i);
    NotBit(m, i);
    AndBit(v, m, i);
  }

  /** A stored word is a word again. */
  lemma StoreKeepsWord(word: int, value: int, offs: nat, size: nat)
    requires size <= 2 && IsWord(word)
    ensures IsWord(StoreWord(word, value, offs, size))
  {
    hide Bit, StoreWord, Pow2;
    RangeBits(word, 32);
    forall i: nat | i >= 32 ensures !Bit(StoreWord(word, value, offs, size), i) {
      StoreBit(word, value, offs, size, i);
    }
    RangeBits(StoreWord(word, value, offs, size), 32);
  }

  lemma StoreByteBit(word: int, value: int, offs: nat, size: nat, k: nat, i: nat)
    requires size <= 2 && k < 4
    ensures Bit(ByteOf(StoreWord(word, value, offs, size), k), i) <==>
            if offs <= k < offs + Bytes(size) then Bit(ByteOf(value, k - offs), i) else Bit(ByteOf(word, k), i)
  {
    hide Bit, And, Or, Not, Shl, Shr, Ones, Pow2, StoreWord;
    FieldBit(StoreWord(word, value, offs, size), 8 * k, 8, i);
    FieldBit(word, 8 * k, 8, i);
    StoreBit(word, value, offs, size, i + 8 * k);
    if offs <= k { FieldBit(value, 8 * (k - offs), 8, i); }
  }

  /** Byte by byte, a store writes the bytes of the value that fall into the word. */
  lemma StoreBytes(word: int, value: int, offs: nat, size: nat, k: nat)
    requires size <= 2 && k < 4
    ensures ByteOf(StoreWord(word, value, offs, size), k) ==
            if offs <= k < offs + Bytes(size) then ByteOf(value, k - offs) else ByteOf(word, k)
  {
    hide *;
    var after := ByteOf(StoreWord(word, value, offs, size), k);
    var wanted := if offs <= k < offs + Bytes(size) then ByteOf(value, k - offs) else ByteOf(word, k);
    forall i: nat ensures Bit(after, i) == Bit(wanted, i) {
      StoreByteBit(word, value, offs, size, k, i);
    }
    SameBits(after, wanted);
  }

  // ---------- Little-endian bytes ----------

  function LittleEndian(bytes: seq<int>): int {
    if bytes == [] then 0 else bytes[0] + 256 * LittleEndian(bytes[1..])
  }

  /** Placing `x` above the n bits of `b`. */
  lemma {:induction false} JoinBits(b: int, x: int, n: nat, i: nat)
    requires 0 <= b < Pow2(n)
    ensures Bit(b + Pow2(n) * x, i) <==> if i < n then Bit(b, i) else Bit(x, i - n)
    decreases n
  {
    if n > 0 {
      assert Pow2(n) * x == 2 * (Pow2(n - 1) * x);
      assert (b + Pow2(n) * x) / 2 == b / 2 + Pow2(n - 1) * x;
      assert (b + Pow2(n) * x) % 2 == b % 2;
      if i > 0 { JoinBits(b / 2, x, n - 1, i - 1); }
    }
  }

  ghost predicate AreBytes(bytes: seq<int>) {
    forall j :: 0 <= j < |bytes| ==> 0 <= bytes[j] < 256
  }

  lemma {:induction false} LittleEndianBit(bytes: seq<int>, i: nat)
    requires AreBytes(bytes)
    ensures Bit(LittleEndian(bytes), i) <==> i / 8 < |bytes| && Bit(bytes[i / 8], i % 8)
    decreases |bytes|
  {
    if bytes == [] {
      ConstBits(i);
    } else {
      var rest := LittleEndian(bytes[1..]);
      assert Pow2(8) == 256;
      JoinBits(bytes[0], rest, 8, i);
      if i >= 8 {
        LittleEndianBit(bytes[1..], i - 8);
        assert (i - 8) / 8 == i / 8 - 1 && (i - 8) % 8 == i % 8;
      }
    }
  }

  /** The bytes of a word from `offs` on. */
  function WordBytes(word: int, offs: nat, n: nat): (bs: seq<int>)
    ensures |bs| == n && forall j :: 0 <= j < n ==> bs[j] == ByteOf(word, offs + j)
  {
    seq(n, j requires 0 <= j < n => ByteOf(word, offs + j))
  }

  lemma ByteRange(word: int, k: nat)
    ensures 0 <= ByteOf(word, k) < 256
  {
    hide Bit, And, Shr, Ones;
    forall i: nat | i >= 8 ensures !Bit(ByteOf(word, k), i) { FieldBit(word, 8 * k, 8, i); }
    RangeBits(ByteOf(word, k), 8);
    assert Pow2(8) == 256;
  }

  lemma LoadBit(word: int, offs: nat, size: nat, i: nat)
    requires size <= 2
    ensures Bit(LoadWord(word, offs, size), i) <==> Bit(LittleEndian(WordBytes(word, offs, Bytes(size))), i)
  {
    hide Bit, And, Shr, Ones, Pow2, LittleEndian, Bytes;
    var n := Bytes(size);
    var bs := WordBytes(word, offs, n);
    forall j | 0 <= j < n ensures 0 <= bs[j] < 256 { ByteRange(word, offs + j); }
    FieldBit(word, 8 * offs, 8 * n, i);
    LittleEndianBit(bs, i);
    if i < 8 * n {
      FieldBit(word, 8 * (offs + i / 8), 8, i % 8);
      assert i % 8 + 8 * (offs + i / 8) == i + 8 * offs;
    }
  }

  /** A load assembles its bytes in little-endian order. */
  lemma LoadBytes(word: int, offs: nat, size: nat)
    requires size <= 2
    ensures LoadWord(word, offs, size) == LittleEndian(WordBytes(word, offs, Bytes(size)))
  {
    hide *;
    forall i: nat
      ensures Bit(LoadWord(word, offs, size), i) == Bit(LittleEndian(WordBytes(word, offs, Bytes(size))), i) {
      LoadBit(word, offs, size, i);
    }
    SameBits(LoadWord(word, offs, size), LittleEndian(WordBytes(word, offs, Bytes(size))));
  }

  // ---------- One byte-addressed memory ----------

  datatype Range = Range(start: nat, end: nat) {
    predicate Contains(addr: nat) { start <= addr < end }
  }

  /** The word arrays of all clusters. */
  type Words = seq<seq<int>>

  /** Word-aligned ranges that do not overlap. */
  ghost predicate GoodRanges(ranges: seq<Range>) {
    && (forall c :: 0 <= c < |ranges| ==>
          ranges[c].start <= ranges[c].end && ranges[c].start % 4 == 0 && ranges[c].end % 4 == 0)
    && (forall c, d :: 0 <= c < d < |ranges| ==>
          ranges[c].end <= ranges[d].start || ranges[d].end <= ranges[c].start)
  }

  /** Each array has the words of its range. */
  ghost predicate Fits(ranges: seq<Range>, words: Words) {
    && GoodRanges(ranges) && |words| == |ranges|
    && (forall c :: 0 <= c < |words| ==> |words[c]| == (ranges[c].end - ranges[c].start) / 4)
  }

  ghost predicate AllWords(words: Words) {
    forall c, i :: 0 <= c < |words| && 0 <= i < |words[c]| ==> IsWord(words[c][i])
  }

  /** `c` is the memory that holds address `a`. */
  ghost predicate Holds(ranges: seq<Range>, c: nat, a: nat) {
    c < |ranges| && ranges[c].Contains(a)
  }

  ghost predicate Mapped(ranges: seq<Range>, a: nat) {
    exists c: nat :: Holds(ranges, c, a)
  }

  /** Address `a` is byte `k` of word `i` of memory `c`. */
  ghost predicate Located(ranges: seq<Range>, a: nat, c: nat, i: nat, k: nat) {
    Holds(ranges, c, a) && a - ranges[c].start == 4 * i + k && k < 4
  }

  lemma LocatedOnce(ranges: seq<Range>, a: nat, c: nat, i: nat, k: nat, c': nat, i': nat, k': nat)
    requires GoodRanges(ranges) && Located(ranges, a, c, i, k) && Located(ranges, a, c', i', k')
    ensures c == c' && i == i' && k == k'
  {
  }

  lemma LocatedFits(ranges: seq<Range>, words: Words, a: nat, c: nat, i: nat, k: nat)
    requires Fits(ranges, words) && Located(ranges, a, c, i, k)
    ensures i < |words[c]|
  {
  }

  /** The byte at an address of the memory that all clusters share. */
  ghost predicate HasByte(ranges: seq<Range>, words: Words, a: nat, byte: int)
    requires Fits(ranges, words)
  {
    exists c: nat, i: nat, k: nat ::
      Located(ranges, a, c, i, k) && i < |words[c]| && byte == ByteOf(words[c][i], k)
  }

  lemma ByteAtLocation(ranges: seq<Range>, words: Words, a: nat, c: nat, i: nat, k: nat, byte: int)
    requires Fits(ranges, words) && Located(ranges, a, c, i, k)
    ensures i < |words[c]| && (HasByte(ranges, words, a, byte) <==> byte == ByteOf(words[c][i], k))
  {
    hide ByteOf;
    LocatedFits(ranges, words, a, c, i, k);
    if HasByte(ranges, words, a, byte) {
      var c': nat, i': nat, k': nat :|
        Located(ranges, a, c', i', k') && i' < |words[c']| && byte == ByteOf(words[c'][i'], k');
      LocatedOnce(ranges, a, c, i, k, c', i', k');
    }
  }

  /** A mapped address has exactly one byte. */
  lemma ByteUnique(ranges: seq<Range>, words: Words, a: nat)
    requires Fits(ranges, words)
    ensures Mapped(ranges, a) <==> exists byte :: HasByte(ranges, words, a, byte)
    ensures forall x, y :: HasByte(ranges, words, a, x) && HasByte(ranges, words, a, y) ==> x == y
  {
    hide ByteOf;
    if c: nat :| Holds(ranges, c, a) {
      var rel := a - ranges[c].start;
      var i: nat, k: nat := rel / 4, rel % 4;
      LocatedFits(ranges, words, a, c, i, k);
      assert HasByte(ranges, words, a, ByteOf(words[c][i], k));
      forall x, y | HasByte(ranges, words, a, x) && HasByte(ranges, words, a, y) ensures x == y {
        ByteAtLocation(ranges, words, a, c, i, k, x);
        ByteAtLocation(ranges, words, a, c, i, k, y);
      }
    }
  }

  /** All bytes of the access are in the word of its first one; aligned accesses are such. */
  predicate InsideWord(addr: nat, size: nat)
    requires size <= 2
  {
    addr % 4 + Bytes(size) <= 4
  }

  lemma AlignedIsInside(addr: nat, size: nat)
    requires size <= 2 && addr % Bytes(size) == 0
    ensures InsideWord(addr, size)
  {
    if size == 1 { EvenOffset(addr); }
  }

  lemma EvenOffset(addr: nat)
    requires addr % 2 == 0
    ensures addr % 4 <= 2
  {
    assert addr == 4 * (addr / 4) + addr % 4;
  }

  /** An access inside a word stays inside one word of one memory. */
  lemma InsideInWord(ranges: seq<Range>, addr: nat, c: nat, i: nat, offs: nat, size: nat, j: nat)
    requires GoodRanges(ranges) && Located(ranges, addr, c, i, offs)
    requires size <= 2 && InsideWord(addr, size) && j < Bytes(size)
    ensures Located(ranges, addr + j, c, i, offs + j)
  {
    OffsetInWord(addr, ranges[c].start, i, offs);
    assert ranges[c].end % 4 == 0 && ranges[c].start % 4 == 0;
    assert 4 * i + offs + j < 4 * (i + 1) <= ranges[c].end - ranges[c].start;
  }

  lemma OffsetInWord(addr: nat, start: nat, i: nat, offs: nat)
    requires start % 4 == 0 && addr == start + 4 * i + offs && offs < 4
    ensures offs == addr % 4
  {
  }

  /** The n bytes of the shared memory from an address on. */
  ghost predicate ReadsAs(ranges: seq<Range>, words: Words, addr: nat, bytes: seq<int>)
    requires Fits(ranges, words)
  {
    forall j :: 0 <= j < |bytes| ==> HasByte(ranges, words, addr + j, bytes[j])
  }

  /** Load refinement: a load inside a word returns the bytes at its address, whichever path found the memory. */
  lemma LoadRefines(ranges: seq<Range>, words: Words, addr: nat, c: nat, i: nat, offs: nat, size: nat)
    requires Fits(ranges, words) && Located(ranges, addr, c, i, offs) && i < |words[c]|
    requires size <= 2 && InsideWord(addr, size)
    ensures exists bytes :: |bytes| == Bytes(size) && ReadsAs(ranges, words, addr, bytes)
              && LoadWord(words[c][i], offs, size) == LittleEndian(bytes)
  {
    hide ByteOf, LoadWord, LittleEndian, Bytes;
    var bytes := WordBytes(words[c][i], offs, Bytes(size));
    LoadBytes(words[c][i], offs, size);
    forall j | 0 <= j < |bytes| ensures HasByte(ranges, words, addr + j, bytes[j]) {
      InsideInWord(ranges, addr, c, i, offs, size, j);
      ByteAtLocation(ranges, words, addr + j, c, i, offs + j, bytes[j]);
    }
  }

  /** The arrays after a store into word `i` of memory `c`. */
  function Stored(words: Words, c: nat, i: nat, value: int, offs: nat, size: nat): Words
    requires c < |words| && i < |words[c]| && size <= 2
  {
    words[c := words[c][i := StoreWord(words[c][i], value, offs, size)]]
  }

  lemma StoredByte(words: Words, c: nat, i: nat, value: int, offs: nat, size: nat, c': nat, i': nat, k: nat)
    requires c < |words| && i < |words[c]| && c' < |words| && i' < |words[c']| && size <= 2 && k < 4
    ensures var after := Stored(words, c, i, value, offs, size);
            && |after| == |words| && |after[c']| == |words[c']|
            && ByteOf(after[c'][i'], k) ==
               if c == c' && i == i' && offs <= k < offs + Bytes(size) then ByteOf(value, k - offs)
               else ByteOf(words[c'][i'], k)
  {
    hide ByteOf, StoreWord, Bytes;
    if c == c' && i == i' {
      StoreBytes(words[c][i], value, offs, size, k);
    }
  }

  /** In the word of an access that stays inside it, the bytes it covers are those at its addresses. */
  lemma CoveredBytes(ranges: seq<Range>, addr: nat, c: nat, i: nat, offs: nat, size: nat,
                     a: nat, c': nat, i': nat, k: nat)
    requires GoodRanges(ranges) && Located(ranges, addr, c, i, offs) && Located(ranges, a, c', i', k)
    requires size <= 2 && InsideWord(addr, size)
    ensures addr <= a < addr + Bytes(size) <==> c == c' && i == i' && offs <= k < offs + Bytes(size)
    ensures addr <= a < addr + Bytes(size) ==> a - addr == k - offs
  {
    if addr <= a < addr + Bytes(size) {
      InsideInWord(ranges, addr, c, i, offs, size, a - addr);
      LocatedOnce(ranges, a, c, i, offs + (a - addr), c', i', k);
    }
  }

  /** Store refinement: a store inside a word changes exactly the bytes it covers, of all bytes of all memories. */
  lemma StoreRefines(ranges: seq<Range>, words: Words, addr: nat, c: nat, i: nat, offs: nat, value: int, size: nat,
                     a: nat, before: int)
    requires Fits(ranges, words) && Located(ranges, addr, c, i, offs) && i < |words[c]|
    requires size <= 2 && InsideWord(addr, size) && HasByte(ranges, words, a, before)
    ensures var after := Stored(words, c, i, value, offs, size);
            && Fits(ranges, after)
            && HasByte(ranges, after, a, if addr <= a < addr + Bytes(size) then ByteOf(value, a - addr) else before)
  {
    hide ByteOf, StoreWord, Bytes;
    var c': nat, i': nat, k: nat :|
      Located(ranges, a, c', i', k) && i' < |words[c']| && before == ByteOf(words[c'][i'], k);
    CoveredBytes(ranges, addr, c, i, offs, size, a, c', i', k);
    StoredByte(words, c, i, value, offs, size, c', i', k);
  }

  /** The loaded value depends on the next word exactly if the access crosses into it. */
  lemma PairBit(word: int, next: int, offs: nat, size: nat, i: nat)
    requires size <= 2 && IsWord(word)
    ensures Bit(LoadWord(word + Pow2(32) * next, offs, size), i) <==>
            i < 8 * Bytes(size) && if i + 8 * offs < 32 then Bit(word, i + 8 * offs) else Bit(next, i + 8 * offs - 32)
  {
    hide Bit, And, Shr, Ones, Pow2, Bytes;
    FieldBit(word + Pow2(32) * next, 8 * offs, 8 * Bytes(size), i);
    JoinBits(word, next, 32, i + 8 * offs);
  }

  lemma InsideLoad(word: int, next: int, offs: nat, size: nat)
    requires size <= 2 && IsWord(word) && offs + Bytes(size) <= 4
    ensures LoadWord(word, offs, size) == LoadWord(word + Pow2(32) * next, offs, size)
  {
    hide Bit, And, Shr, Ones, Pow2, Bytes, IsWord;
    forall i: nat
      ensures Bit(LoadWord(word, offs, size), i) == Bit(LoadWord(word + Pow2(32) * next, offs, size), i) {
      PairBit(word, next, offs, size, i);
      FieldBit(word, 8 * offs, 8 * Bytes(size), i);
    }
    SameBits(LoadWord(word, offs, size), LoadWord(word + Pow2(32) * next, offs, size));
  }

  lemma CrossingLoad(offs: nat, size: nat)
    requires size <= 2 && offs < 4 && offs + Bytes(size) > 4
    ensures LoadWord(0, offs, size) != LoadWord(0 + Pow2(32) * 1, offs, size)
  {
    hide Bit, And, Shr, Ones, Pow2;
    var i := 32 - 8 * offs;
    ZeroIsWord();
    PairBit(0, 1, offs, size, i);
    FieldBit(0, 8 * offs, 8 * Bytes(size), i);
    ConstBits(32);
    OneIsOdd();
  }

  lemma ZeroIsWord()
    ensures IsWord(0)
  {
    hide Pow2;
  }

  lemma OneIsOdd()
    ensures Bit(1, 0)
  {
  }

  /** A load at byte offset `offs` is right for all contents if and only if it stays inside the word. */
  lemma LoadRightIffInside(offs: nat, size: nat)
    requires size <= 2 && offs < 4
    ensures offs + Bytes(size) <= 4 <==>
            forall word, next :: IsWord(word) && IsWord(next) ==>
              LoadWord(word, offs, size) == LoadWord(word + Pow2(32) * next, offs, size)
  {
    hide LoadWord, Bytes;
    if offs + Bytes(size) <= 4 {
      forall word, next | IsWord(word) && IsWord(next)
        ensures LoadWord(word, offs, size) == LoadWord(word + Pow2(32) * next, offs, size) {
        InsideLoad(word, next, offs, size);
      }
    } else {
      CrossingLoad(offs, size);
      assert IsWord(0) && IsWord(1);
    }
  }

  /** Byte `k` of two neighbouring words. */
  function PairByte(word: int, next: int, k: nat): int {
    if k < 4 then ByteOf(word, k) else ByteOf(next, k - 4)
  }

  /** Of the eight bytes, the covered ones have become those of the value and the others are as before. */
  ghost predicate StoresRight(word: int, next: int, value: int, offs: nat, size: nat)
    requires size <= 2
  {
    forall k: nat :: k < 8 ==>
      PairByte(StoreWord(word, value, offs, size), next, k) ==
      if offs <= k < offs + Bytes(size) then ByteOf(value, k - offs) else PairByte(word, next, k)
  }

  lemma InsideStore(word: int, next: int, value: int, offs: nat, size: nat)
    requires size <= 2 && offs + Bytes(size) <= 4
    ensures StoresRight(word, next, value, offs, size)
  {
    hide ByteOf, StoreWord, Bytes;
    forall k: nat | k < 8
      ensures PairByte(StoreWord(word, value, offs, size), next, k) ==
              if offs <= k < offs + Bytes(size) then ByteOf(value, k - offs) else PairByte(word, next, k) {
      if k < 4 { StoreBytes(word, value, offs, size, k); }
    }
  }

  lemma CrossingStore(word: int, offs: nat, size: nat)
    requires size <= 2 && offs < 4 && offs + Bytes(size) > 4
    ensures !StoresRight(word, 0, Ones(32), offs, size)
  {
    hide Bit, And, Shr, Ones, StoreWord;
    assert PairByte(StoreWord(word, Ones(32), offs, size), 0, 4) == ByteOf(0, 0);
    FieldBit(0, 0, 8, 0);
    ConstBits(0);
    FieldBit(Ones(32), 8 * (4 - offs), 8, 0);
    OnesBit(32, 8 * (4 - offs));
  }

  /** A store at byte offset `offs` is right for all values and contents if and only if it stays inside the word. */
  lemma StoreRightIffInside(offs: nat, size: nat)
    requires size <= 2 && offs < 4
    ensures offs + Bytes(size) <= 4 <==>
            forall word, next, value :: IsWord(word) && IsWord(next) && IsWord(value) ==>
              StoresRight(word, next, value, offs, size)
  {
    hide StoresRight, Bytes, Bit;
    if offs + Bytes(size) <= 4 {
      forall word, next, value ensures StoresRight(word, next, value, offs, size) {
        InsideStore(word, next, value, offs, size);
      }
    } else {
      CrossingStore(0, offs, size);
      OnesIsWord();
      assert IsWord(0) && IsWord(Ones(32));
    }
  }

  lemma OnesIsWord()
    ensures IsWord(Ones(32)) && IsWord(0)
  {
    hide Bit;
    forall i: nat | i >= 32 ensures !Bit(Ones(32), i) { OnesBit(32, i); }
    RangeBits(Ones(32), 32);
  }

  // ---------- The memories, updated in place ----------

  class Tcdms {
    const ranges: seq<Range>
    /** Register addresses that are matched before the memories. */
    const loadRegs: set<nat>
    const storeRegs: set<nat>
    /** One word array per cluster; the local and the external path reach the same arrays. */
    var words: Words

    ghost predicate Valid()
      reads this
    {
      Fits(ranges, words) && AllWords(words)
    }

    constructor (ranges: seq<Range>, loadRegs: set<nat>, storeRegs: set<nat>)
      requires GoodRanges(ranges)
      ensures Valid() && this.ranges == ranges
      ensures this.loadRegs == loadRegs && this.storeRegs == storeRegs
    {
      this.ranges, this.loadRegs, this.storeRegs := ranges, loadRegs, storeRegs;
      words := seq(|ranges|, c requires 0 <= c < |ranges| && ranges[c].start <= ranges[c].end =>
                               seq((ranges[c].end - ranges[c].start) / 4, _ => 0));
    }

    /** The memory an access from `cluster` goes to: the local one if it matches, else the first that does. */
    method Select(cluster: nat, addr: nat) returns (c: Option<nat>)
      requires cluster < |ranges|
      ensures c.Some? <==> Mapped(ranges, addr)
      ensures c.Some? ==> Holds(ranges, c.value, addr)
      ensures Holds(ranges, cluster, addr) ==> c == Some(cluster)
      ensures c.Some? && c.value != cluster ==> forall j: nat :: j < c.value ==> !Holds(ranges, j, addr)
    {
      if ranges[cluster].Contains(addr) {
        assert Holds(ranges, cluster, addr);
        return Some(cluster);
      }
      for i := 0 to |ranges|
        invariant forall j: nat :: j < i ==> !Holds(ranges, j, addr)
      {
        if ranges[i].Contains(addr) {
          assert Holds(ranges, i, addr);
          return Some(i);
        }
      }
      c := None;
    }

    /** Word and offset of an address in a memory that holds it. */
    method Locate(c: nat, addr: nat) returns (i: nat, offs: nat)
      requires Valid() && Holds(ranges, c, addr)
      ensures Located(ranges, addr, c, i, offs) && i < |words[c]|
    {
      var rel := addr - ranges[c].start;
      i := rel / 4;
      offs := rel - 4 * i;
      LocatedFits(ranges, words, addr, c, i, offs);
    }

    /** A load; registers and unmapped addresses belong to other branches. */
    method Load(cluster: nat, addr: nat, size: nat) returns (r: Option<int>)
      requires Valid() && cluster < |ranges| && size <= 2
      ensures r.Some? <==> addr !in loadRegs && Mapped(ranges, addr)
      ensures r.Some? && InsideWord(addr, size) ==>
                exists bytes :: |bytes| == Bytes(size) && ReadsAs(ranges, words, addr, bytes)
                  && r.value == LittleEndian(bytes)
    {
      hide ByteOf, StoreWord, Bytes, LoadWord, LittleEndian, HasByte;
      if addr in loadRegs {
        return None;
      }
      var c := Select(cluster, addr);
      if c.None? {
        return None;
      }
      var i, offs := Locate(c.value, addr);
      r := Some(LoadWord(words[c.value][i], offs, size));
      if InsideWord(addr, size) {
        LoadRefines(ranges, words, addr, c.value, i, offs, size);
      }
    }

    /** A store; one that stays inside a word updates exactly its bytes in the shared memory. */
    method Store(cluster: nat, addr: nat, value: int, size: nat) returns (hit: bool)
      requires Valid() && cluster < |ranges| && size <= 2
      modifies this
      ensures Valid()
      ensures hit <==> addr !in storeRegs && Mapped(ranges, addr)
      ensures !hit ==> words == old(words)
      ensures hit && InsideWord(addr, size) ==>
                forall a: nat, before | old(HasByte(ranges, words, a, before)) ::
                  HasByte(ranges, words, a, if addr <= a < addr + Bytes(size) then ByteOf(value, a - addr) else before)
    {
      hide ByteOf, StoreWord, Bytes, LoadWord, LittleEndian, HasByte;
      if addr in storeRegs {
        return false;
      }
      var c := Select(cluster, addr);
      if c.None? {
        return false;
      }
      var i, offs := Locate(c.value, addr);
      ghost var was := words;
      StoreKeepsWord(words[c.value][i], value, offs, size);
      words := Stored(words, c.value, i, value, offs, size);
      hit := true;
      if InsideWord(addr, size) {
        forall a: nat, before | HasByte(ranges, was, a, before)
          ensures HasByte(ranges, words, a,
                          if addr <= a < addr + Bytes(size) then ByteOf(value, a - addr) else before) {
          StoreRefines(ranges, was, addr, c.value, i, offs, value, size, a, before);
        }
      }
    }
  }
}
