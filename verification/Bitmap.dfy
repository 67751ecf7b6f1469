/** The pool bitmaps (util/kv_bitmap.cpp): arrays of 32-bit words standing for sets. */
module Bitmap {
  import opened Bits
  import opened Record

  const FULL_WORD := 0xffff_ffff
  const BM_FULL := -1

  /** Digit k of x. */
  predicate Bit(x: nat, k: nat) {
    if k == 0 then x % 2 == 1 else Bit(x / 2, k - 1)
  }

  lemma {:induction false} BitOfZero(k: nat)
    ensures !Bit(0, k)
  {
    if k > 0 {
      BitOfZero(k - 1);
    }
  }

  lemma {:induction false} BitOfOr(a: nat, b: nat, k: nat)
    ensures Bit(BitOr(a, b), k) <==> Bit(a, k) || Bit(b, k)
  {
    if a == 0 || b == 0 {
      BitOfZero(k);
    } else if k > 0 {
      BitOfOr(a / 2, b / 2, k - 1);
    }
  }

  lemma {:induction false} BitOfAnd(a: nat, b: nat, k: nat)
    ensures Bit(BitAnd(a, b), k) <==> Bit(a, k) && Bit(b, k)
  {
    if a == 0 || b == 0 {
      BitOfZero(k);
    } else if k > 0 {
      BitOfAnd(a / 2, b / 2, k - 1);
    }
  }

  lemma {:induction false} BitOfPow(j: nat, k: nat)
    ensures Bit(Pow2(j), k) <==> j == k
  {
    if j == 0 {
      if k > 0 { BitOfZero(k - 1); }
    } else if k > 0 {
      BitOfPow(j - 1, k - 1);
    }
  }

  lemma {:induction false} BitOfOnes(n: nat, k: nat)
    ensures Bit(Pow2(n) - 1, k) <==> k < n
  {
    if n == 0 {
      BitOfZero(k);
    } else if k > 0 {
      assert (Pow2(n) - 1) / 2 == Pow2(n - 1) - 1;
      BitOfOnes(n - 1, k - 1);
    }
  }

  lemma {:induction false} BitOfOnesBut(n: nat, j: nat, k: nat)
    requires j < n
    ensures Pow2(n) - 1 - Pow2(j) >= 0
    ensures Bit(Pow2(n) - 1 - Pow2(j), k) <==> k < n && k != j
  {
    if j == 0 {
      assert Pow2(n) - 2 == 2 * (Pow2(n - 1) - 1);
      if k > 0 { BitOfOnes(n - 1, k - 1); }
    } else {
      BitOfOnesBut(n - 1, j - 1, if k > 0 then k - 1 else 0);
      assert Pow2(n) - 1 - Pow2(j) == 2 * (Pow2(n - 1) - 1 - Pow2(j - 1)) + 1;
    }
  }

  lemma {:induction false} OrFits(a: nat, b: nat, n: nat)
    requires a < Pow2(n) && b < Pow2(n)
    ensures BitOr(a, b) < Pow2(n)
  {
    if a != 0 && b != 0 {
      OrFits(a / 2, b / 2, n - 1);
    }
  }

  lemma {:induction false} AndNoLarger(a: nat, b: nat)
    ensures BitAnd(a, b) <= a
  {
    if a != 0 && b != 0 {
      AndNoLarger(a / 2, b / 2);
    }
  }

  /** A number has a set digit exactly when it is not zero. */
  lemma {:induction false} NonzeroHasBit(x: nat) returns (k: nat)
    requires x != 0
    ensures Bit(x, k)
  {
    if x % 2 == 1 {
      k := 0;
    } else {
      var h := NonzeroHasBit(x / 2);
      k := h + 1;
    }
  }

  lemma {:induction false} BitBelow(x: nat, n: nat, k: nat)
    requires x < Pow2(n) && Bit(x, k)
    ensures k < n
  {
    if n == 0 {
      BitOfZero(k);
    } else if k > 0 {
      BitBelow(x / 2, n - 1, k - 1);
    }
  }

  /** A word has a clear digit below its width exactly when it is not all ones. */
  lemma {:induction false} NotFullHasClear(x: nat, n: nat) returns (k: nat)
    requires x < Pow2(n) - 1
    ensures k < n && !Bit(x, k)
  {
    if x % 2 == 0 {
      k := 0;
      Pow2Monotone(0, n);
    } else {
      var h := NotFullHasClear(x / 2, n - 1);
      k := h + 1;
    }
  }

  lemma WordWidth()
    ensures Pow2(32) == FULL_WORD + 1 && Pow2(5) == 32
  {
    Pow2Of64();
  }

  // ---- Word arithmetic of util/kv_util.h -----------------------------------------------

  function Round32(value: nat): nat {
    BitAnd(value + 31, FULL_WORD - 31)
  }

  function WordsFor(nbits: nat): nat {
    Shr(Round32(nbits), 5)
  }

  lemma WordsForIs(nbits: nat)
    requires nbits + 31 <= FULL_WORD
    ensures Round32(nbits) == CeilDiv(nbits, 32) * 32 && WordsFor(nbits) == CeilDiv(nbits, 32)
  {
    WordWidth();
    AndHighMask(nbits + 31, 5, 32);
    Recompose(nbits + 31, 32);
  }

  function BitMask(index: nat): (m: Word32)
    ensures m == Pow2(index % 32)
  {
    WordWidth();
    Pow2Monotone(index % 32, 32);
    Pow2(index % 32)
  }

  // ---- Words as a set --------------------------------------------------------------------

  predicate HasBit(ws: seq<Word32>, k: nat) {
    k / 32 < |ws| && Bit(ws[k / 32], k % 32)
  }

  function Members(ws: seq<Word32>): set<nat> {
    set k: nat | k < 32 * |ws| && HasBit(ws, k)
  }

  /** The three searches of bitmap_helper. */
  datatype Action = FindFirstClear | FindFirstSet | FindFirstClearAndSet

  predicate IsFirstClear(ws: seq<Word32>, nbits: nat, r: int) {
    if r == BM_FULL then forall k: nat :: k < nbits ==> HasBit(ws, k)
    else 0 <= r < nbits && !HasBit(ws, r) && forall k: nat :: k < r ==> HasBit(ws, k)
  }

  predicate IsFirstSet(ws: seq<Word32>, nbits: nat, r: int) {
    if r == BM_FULL then forall k: nat :: k < nbits ==> !HasBit(ws, k)
    else 0 <= r < nbits && HasBit(ws, r) && forall k: nat :: k < r ==> !HasBit(ws, k)
  }

  /** First word that is not zero. */
  function FirstNonzero(ws: seq<Word32>, i: nat): (r: nat)
    requires i <= |ws|
    ensures i <= r <= |ws| && (r < |ws| ==> ws[r] != 0) && forall k :: i <= k < r ==> ws[k] == 0
    decreases |ws| - i
  {
    if i == |ws| || ws[i] != 0 then i else FirstNonzero(ws, i + 1)
  }

  function LowestBit(x: nat): nat {
    if x == 0 || x % 2 == 1 then 0 else 1 + LowestBit(x / 2)
  }

  /** What the search for a set bit reports: in a word of all ones it uses the digit counter as
      the previous word left it. */
  function FirstSetReported(ws: seq<Word32>, nbits: nat): int {
    var i := FirstNonzero(ws, 0);
    if i == |ws| then BM_FULL
    else
      var j := if ws[i] != FULL_WORD then LowestBit(ws[i]) else if i == 0 then 0 else 32;
      if 32 * i + j < nbits then 32 * i + j else BM_FULL
  }

  lemma {:induction false} LowestBitIs(x: nat, k: nat)
    requires x != 0
    ensures Bit(x, LowestBit(x)) && (k < LowestBit(x) ==> !Bit(x, k))
  {
    if x % 2 == 0 {
      LowestBitIs(x / 2, if k > 0 then k - 1 else 0);
    }
  }

  /** The search for a set bit is right exactly when the first word with a set bit is the very
      first one or is not all ones; otherwise it reports a later bit or an empty bitmap. */
  lemma FirstSetRightIff(ws: seq<Word32>, nbits: nat)
    requires |ws| == CeilDiv(nbits, 32)
    ensures IsFirstSet(ws, nbits, FirstSetReported(ws, nbits)) <==>
            var i := FirstNonzero(ws, 0); i == 0 || i == |ws| || ws[i] != FULL_WORD
  {
    var i := FirstNonzero(ws, 0);
    WordWidth();
    forall k: nat | k < 32 * i ensures !HasBit(ws, k) {
      BitOfZero(k % 32);
    }
    CeilDivBounds(nbits, 32);
    if i < |ws| {
      var low := LowestBit(ws[i]);
      LowestBitIs(ws[i], 0);
      BitBelow(ws[i], 32, low);
      assert HasBit(ws, 32 * i + low);
      forall k: nat | 32 * i <= k < 32 * i + low ensures !HasBit(ws, k) {
        LowestBitIs(ws[i], k - 32 * i);
      }
      if ws[i] == FULL_WORD {
        assert low == 0;
      }
    }
  }

  /** Two words, the second all ones: the search says that nothing is set. */
  lemma FirstSetMisses()
    ensures FirstSetReported([0, FULL_WORD], 64) == BM_FULL && HasBit([0, FULL_WORD], 32)
  {
    assert FirstNonzero([0, FULL_WORD], 1) == 1;
  }

  /** Marked pools are overlooked, the search answering that no bit is set, exactly when the first
      word that is not zero is all ones, is the last word, and is not the first. */
  lemma MarkedOverlookedIff(ws: seq<Word32>, nbits: nat)
    requires |ws| == CeilDiv(nbits, 32)
    ensures FirstSetReported(ws, nbits) == BM_FULL && (exists k: nat :: k < nbits && HasBit(ws, k)) <==>
            var i := FirstNonzero(ws, 0); 0 < i && i + 1 == |ws| && ws[i] == FULL_WORD
  {
    var i := FirstNonzero(ws, 0);
    CeilDivBounds(nbits, 32);
    FirstSetRightIff(ws, nbits);
    if i < |ws| && ws[i] == FULL_WORD {
      LowestBitIs(ws[i], 0);
      assert LowestBit(ws[i]) == 0;
      assert HasBit(ws, 32 * i) && 32 * i < nbits;
    }
  }

  // ---- Comparing bitmaps word by word ------------------------------------------------------

  lemma {:induction false} SameBits(x: nat, y: nat, n: nat)
    requires x < Pow2(n) && y < Pow2(n) && forall k: nat :: k < n ==> Bit(x, k) == Bit(y, k)
    ensures x == y
  {
    if n > 0 {
      assert Bit(x, 0) == Bit(y, 0);
      forall k: nat | k < n - 1 ensures Bit(x / 2, k) == Bit(y / 2, k) {
        assert Bit(x, k + 1) == Bit(y, k + 1);
      }
      SameBits(x / 2, y / 2, n - 1);
    }
  }

  /** Bitmaps of one length are equal word for word exactly when they stand for the same set. */
  lemma WordsEqualIff(a: seq<Word32>, b: seq<Word32>)
    requires |a| == |b|
    ensures a == b <==> Members(a) == Members(b)
  {
    if Members(a) == Members(b) {
      WordWidth();
      forall i | 0 <= i < |a| ensures a[i] == b[i] {
        forall k: nat | k < 32 ensures Bit(a[i], k) == Bit(b[i], k) {
          assert HasBit(a, 32 * i + k) <==> 32 * i + k in Members(a);
          assert HasBit(b, 32 * i + k) <==> 32 * i + k in Members(b);
        }
        SameBits(a[i], b[i], 32);
      }
    }
  }

  /** get_pool_deletion_bitmap: a copy of the in-use bitmap loses the default pool's bit and is
      compared with the deleted bitmap, which is copied out. */
  method DeletionSnapshot(inUse: WordBitmap, deleted: WordBitmap) returns (ids: seq<Word32>, all: bool)
    requires 0 < inUse.words.Length == deleted.words.Length
    ensures Members(ids) == Members(deleted.words[..])
    ensures all <==> Members(deleted.words[..]) == Members(inUse.words[..]) - {0}
  {
    var tmp := new WordBitmap.Copy(inUse);
    tmp.Clear(0);
    all := tmp.words[..] == deleted.words[..];
    WordsEqualIff(tmp.words[..], deleted.words[..]);
    ids := deleted.words[..];
  }

  class WordBitmap {
    const words: array<Word32>

    constructor Copy(other: WordBitmap)
      ensures fresh(words) && words[..] == other.words[..]
    {
      var size := other.words.Length;
      var copy := new Word32[size](i requires 0 <= i < size reads other.words => other.words[i]);
      words := copy;
    }

    constructor (nbits: nat)
      requires nbits + 31 <= FULL_WORD
      ensures fresh(words) && words.Length == CeilDiv(nbits, 32) && Members(words[..]) == {}
    {
      WordsForIs(nbits);
      words := new Word32[WordsFor(nbits)](_ => 0);
      new;
      forall k: nat ensures !HasBit(words[..], k) {
        BitOfZero(k % 32);
      }
    }

    /** bitmap_set. */
    method Set(index: nat)
      requires index / 32 < words.Length
      modifies words
      ensures Members(words[..]) == old(Members(words[..])) + {index}
    {
      ghost var before := words[..];
      var w := words[index / 32];
      WordWidth();
      OrFits(w, BitMask(index), 32);
      words[index / 32] := BitOr(w, BitMask(index));
      SetsOne(before, words[..], index);
    }

    /** bitmap_clear. */
    method Clear(index: nat)
      requires index / 32 < words.Length
      modifies words
      ensures Members(words[..]) == old(Members(words[..])) - {index}
    {
      ghost var before := words[..];
      var w := words[index / 32];
      AndNoLarger(w, FULL_WORD - BitMask(index));
      words[index / 32] := BitAnd(w, FULL_WORD - BitMask(index));
      ClearsOne(before, words[..], index);
    }

    /** bitmap_test. */
    method Test(index: nat) returns (r: nat)
      requires index / 32 < words.Length
      ensures r != 0 <==> index in Members(words[..])
    {
      r := TestWord(words[index / 32], index);
      MemberIs(words[..], index);
    }

    /** The inner loop: the first digit of the wanted value, 32 if there is none. */
    method ScanWord(word: Word32, wanted: bool) returns (j: nat)
      ensures j <= 32 && (j < 32 ==> Bit(word, j) == wanted)
      ensures forall k: nat :: k < j ==> Bit(word, k) != wanted
    {
      j := 0;
      while j < 32
        invariant j <= 32 && forall k: nat :: k < j ==> Bit(word, k) != wanted
      {
        MaskTests(word, j);
        if (BitAnd(word, BitMask(j)) != 0) == wanted {
          return;
        }
        j := j + 1;
      }
    }

    /** bitmap_helper. */
    method Search(nbits: nat, action: Action) returns (r: int)
      requires nbits + 31 <= FULL_WORD && words.Length == CeilDiv(nbits, 32)
      modifies words
      ensures action.FindFirstSet? ==> r == FirstSetReported(old(words[..]), nbits) && words[..] == old(words[..])
      ensures action.FindFirstClear? ==> IsFirstClear(old(words[..]), nbits, r) && words[..] == old(words[..])
      ensures action.FindFirstClearAndSet? ==>
                IsFirstClear(old(words[..]), nbits, r)
                && Members(words[..]) == old(Members(words[..])) + (if r == BM_FULL then {} else {r})
    {
      WordsForIs(nbits);
      ghost var before := words[..];
      var i, j, done := 0, 0, false;
      while i < WordsFor(nbits)
        invariant i <= words.Length && words[..] == before
        invariant !done && j == if action.FindFirstSet? && i > 0 then 32 else 0
        invariant action.FindFirstSet? ==> forall k :: 0 <= k < i ==> before[k] == 0
        invariant !action.FindFirstSet? ==> forall k :: 0 <= k < i ==> before[k] == FULL_WORD
      {
        if words[i] != FULL_WORD {
          j := ScanWord(words[i], action.FindFirstSet?);
          if j < 32 {
            if action.FindFirstClearAndSet? {
              ClearFoundAt(before, nbits, i, j);
              if 32 * i + j < nbits {
                Set(32 * i + j);
                return 32 * i + j;
              } else {
                return BM_FULL;
              }
            }
            done := true;
            break;
          }
          NothingWanted(words[i], action.FindFirstSet?);
        } else if action.FindFirstSet? {
          done := true;
          break;
        }
        i := i + 1;
      }
      var idx := 32 * i + j;
      r := if done && idx < nbits then idx else BM_FULL;
      if action.FindFirstSet? {
        SetFoundAt(before, nbits, i, j, done);
      } else if done {
        ClearFoundAt(before, nbits, i, j);
      } else {
        AllFull(before, nbits);
      }
    }

    /** bitmap_ffa. */
    method FindFirstAvailable(nbits: nat) returns (r: int)
      requires nbits + 31 <= FULL_WORD && words.Length == CeilDiv(nbits, 32)
      modifies words
      ensures IsFirstClear(old(words[..]), nbits, r)
      ensures Members(words[..]) == old(Members(words[..])) + (if r == BM_FULL then {} else {r})
    {
      r := Search(nbits, FindFirstClearAndSet);
    }
  }

  function TestWord(w: Word32, index: nat): (r: nat)
    ensures r != 0 <==> Bit(w, index % 32)
  {
    MaskTests(w, index % 32);
    BitAnd(w, BitMask(index))
  }

  lemma MemberIs(ws: seq<Word32>, k: nat)
    ensures k in Members(ws) <==> HasBit(ws, k)
  {
  }

  lemma MaskTests(w: Word32, j: nat)
    requires j < 32
    ensures BitAnd(w, BitMask(j)) != 0 <==> Bit(w, j)
  {
    var both := BitAnd(w, BitMask(j));
    BitOfAnd(w, Pow2(j), j);
    BitOfPow(j, j);
    if both != 0 {
      var k := NonzeroHasBit(both);
      BitOfAnd(w, Pow2(j), k);
      BitOfPow(j, k);
    } else {
      BitOfZero(j);
    }
  }

  lemma SetsOne(before: seq<Word32>, after: seq<Word32>, index: nat)
    requires index / 32 < |before| && BitOr(before[index / 32], BitMask(index)) <= FULL_WORD
    requires after == before[index / 32 := BitOr(before[index / 32], BitMask(index))]
    ensures Members(after) == Members(before) + {index}
  {
    forall k: nat ensures HasBit(after, k) <==> HasBit(before, k) || k == index {
      BitOfOr(before[index / 32], BitMask(index), k % 32);
      BitOfPow(index % 32, k % 32);
    }
  }

  lemma ClearsOne(before: seq<Word32>, after: seq<Word32>, index: nat)
    requires index / 32 < |before| && BitAnd(before[index / 32], FULL_WORD - BitMask(index)) <= FULL_WORD
    requires after == before[index / 32 := BitAnd(before[index / 32], FULL_WORD - BitMask(index))]
    ensures Members(after) == Members(before) - {index}
  {
    WordWidth();
    forall k: nat ensures HasBit(after, k) <==> HasBit(before, k) && k != index {
      BitOfAnd(before[index / 32], FULL_WORD - BitMask(index), k % 32);
      BitOfOnesBut(32, index % 32, k % 32);
    }
  }

  lemma NothingWanted(w: Word32, wanted: bool)
    requires forall k: nat :: k < 32 ==> Bit(w, k) != wanted
    ensures w == if wanted then 0 else FULL_WORD
  {
    WordWidth();
    if wanted && w != 0 {
      var k := NonzeroHasBit(w);
      BitBelow(w, 32, k);
    } else if !wanted && w != FULL_WORD {
      var k := NotFullHasClear(w, 32);
    }
  }

  lemma FullBelow(ws: seq<Word32>, i: nat, k: nat)
    requires i <= |ws| && (forall h :: 0 <= h < i ==> ws[h] == FULL_WORD) && k < 32 * i
    ensures HasBit(ws, k)
  {
    WordWidth();
    BitOfOnes(32, k % 32);
  }

  lemma AllFull(ws: seq<Word32>, nbits: nat)
    requires |ws| == CeilDiv(nbits, 32) && forall h :: 0 <= h < |ws| ==> ws[h] == FULL_WORD
    ensures IsFirstClear(ws, nbits, BM_FULL)
  {
    CeilDivBounds(nbits, 32);
    forall k: nat | k < nbits ensures HasBit(ws, k) {
      FullBelow(ws, |ws|, k);
    }
  }

  lemma ClearFoundAt(ws: seq<Word32>, nbits: nat, i: nat, j: nat)
    requires |ws| == CeilDiv(nbits, 32) && i < |ws| && j < 32 && forall h :: 0 <= h < i ==> ws[h] == FULL_WORD
    requires !Bit(ws[i], j) && forall k: nat :: k < j ==> Bit(ws[i], k)
    ensures IsFirstClear(ws, nbits, if 32 * i + j < nbits then 32 * i + j else BM_FULL)
  {
    forall k: nat | k < 32 * i + j ensures HasBit(ws, k) {
      if k < 32 * i {
        FullBelow(ws, i, k);
      }
    }
  }

  lemma SetFoundAt(ws: seq<Word32>, nbits: nat, i: nat, j: nat, done: bool)
    requires |ws| == CeilDiv(nbits, 32) && i <= |ws| && forall h :: 0 <= h < i ==> ws[h] == 0
    requires if done then i < |ws| && ws[i] != 0 else i == |ws|
    requires done && ws[i] == FULL_WORD ==> j == if i == 0 then 0 else 32
    requires done && ws[i] != FULL_WORD ==> Bit(ws[i], j) && forall k: nat :: k < j ==> !Bit(ws[i], k)
    ensures FirstSetReported(ws, nbits) == if done && 32 * i + j < nbits then 32 * i + j else BM_FULL
  {
    if done {
      LowestBitIs(ws[i], j);
      assert FirstNonzero(ws, 0) == i;
    }
  }
}
