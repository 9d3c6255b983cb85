/**
 * The byte permutations of tool64.c: `swap` exchanges two bytes of a
 * buffer, `wordswap` exchanges the bytes of every 16-bit word (ABCD -> BADC)
 * and `dwordswap` reverses every 32-bit word (ABCD -> DCBA), all in place.
 *
 * WordSwapped and DWordSwapped are the specifications of the two loops, as
 * recursive functions on sequences. They are total: a trailing partial word
 * is left as it is. The methods carry the source's unchecked bounds as
 * preconditions instead.
 */
module Swaps {
  import opened Layout

  /** The index whose byte lands at index i after a word swap: i XOR 1. */
  function WordPartner(i: nat): (j: nat)
    ensures i - i % 2 <= j < i - i % 2 + 2 && j != i
  {
    if i % 2 == 0 then i + 1 else i - 1
  }

  /** The index whose byte lands at index i after a double-word swap. */
  function DWordPartner(i: nat): (j: nat)
    ensures i - i % 4 <= j < i - i % 4 + 4 && j % 4 == 3 - i % 4
  {
    i + 3 - 2 * (i % 4)
  }

  /** Every 16-bit word with its two bytes exchanged: ABCD -> BADC. */
  function WordSwapped(s: seq<Byte>): (r: seq<Byte>)
    ensures |r| == |s|
  {
    if |s| < 2 then s else [s[1], s[0]] + WordSwapped(s[2..])
  }

  /** Every 32-bit word with its four bytes reversed: ABCD -> DCBA. */
  function DWordSwapped(s: seq<Byte>): (r: seq<Byte>)
    ensures |r| == |s|
  {
    if |s| < 4 then s else [s[3], s[2], s[1], s[0]] + DWordSwapped(s[4..])
  }

  /** Inside the w-th whole 16-bit word, byte j comes from byte 1 - j. */
  lemma {:induction false} WordSwappedWord(s: seq<Byte>, w: nat, j: nat)
    requires j < 2 && 2 * w + 2 <= |s|
    ensures |WordSwapped(s)| == |s|
    ensures WordSwapped(s)[2 * w + j] == s[2 * w + 1 - j]
  {
    var head, rest := [s[1], s[0]], WordSwapped(s[2..]);
    assert WordSwapped(s) == head + rest;
    if w > 0 {
      WordSwappedWord(s[2..], w - 1, j);
      assert (head + rest)[2 * w + j] == rest[2 * (w - 1) + j];
    }
  }

  /** A trailing odd byte is left where it is. */
  lemma {:induction false} WordSwappedTail(s: seq<Byte>, k: nat)
    requires k < |s| && |s| % 2 == 1 && k == |s| - 1
    ensures |WordSwapped(s)| == |s| && WordSwapped(s)[k] == s[k]
  {
    if |s| >= 2 {
      WordSwappedTail(s[2..], k - 2);
    }
  }

  /**
   * Index by index: inside the whole words byte i comes from its partner
   * i XOR 1; a trailing odd byte stays where it is.
   */
  lemma WordSwappedAt(s: seq<Byte>, i: nat)
    requires i < |s|
    ensures |WordSwapped(s)| == |s|
    ensures WordSwapped(s)[i] == if i < |s| - |s| % 2 then s[WordPartner(i)] else s[i]
  {
    if i < |s| - |s| % 2 {
      WordSwappedWord(s, i / 2, i % 2);
    } else {
      WordSwappedTail(s, i);
    }
  }

  /** Inside the w-th whole 32-bit word, byte j comes from byte 3 - j. */
  lemma {:induction false} DWordSwappedWord(s: seq<Byte>, w: nat, j: nat)
    requires j < 4 && 4 * w + 4 <= |s|
    ensures |DWordSwapped(s)| == |s|
    ensures DWordSwapped(s)[4 * w + j] == s[4 * w + 3 - j]
  {
    var head, rest := [s[3], s[2], s[1], s[0]], DWordSwapped(s[4..]);
    assert DWordSwapped(s) == head + rest;
    if w > 0 {
      DWordSwappedWord(s[4..], w - 1, j);
      assert (head + rest)[4 * w + j] == rest[4 * (w - 1) + j];
    }
  }

  /** The trailing 1..3 bytes after the last whole 32-bit word stay where they are. */
  lemma {:induction false} DWordSwappedTail(s: seq<Byte>, w: nat, k: nat)
    requires 4 * w <= k < |s| < 4 * w + 4
    ensures |DWordSwapped(s)| == |s| && DWordSwapped(s)[k] == s[k]
  {
    if w > 0 {
      DWordSwappedTail(s[4..], w - 1, k - 4);
    }
  }

  /**
   * Index by index: inside the whole 32-bit words byte i comes from its
   * mirror position 4*(i/4) + 3 - i%4; the trailing 1..3 bytes stay where
   * they are.
   */
  lemma DWordSwappedAt(s: seq<Byte>, i: nat)
    requires i < |s|
    ensures |DWordSwapped(s)| == |s|
    ensures DWordSwapped(s)[i] == if i < |s| - |s| % 4 then s[DWordPartner(i)] else s[i]
  {
    if i < |s| - |s| % 4 {
      DWordSwappedWord(s, i / 4, i % 4);
    } else {
      DWordSwappedTail(s, |s| / 4, i);
    }
  }

  /** Swapping the bytes of every word twice restores the buffer. */
  lemma {:induction false} WordSwapInvolution(s: seq<Byte>)
    ensures WordSwapped(WordSwapped(s)) == s
  {
    if |s| >= 2 {
      var t := WordSwapped(s[2..]);
      assert ([s[1], s[0]] + t)[2..] == t;
      WordSwapInvolution(s[2..]);
      assert s == [s[0], s[1]] + s[2..];
    }
  }

  /** Reversing every 32-bit word twice restores the buffer. */
  lemma {:induction false} DWordSwapInvolution(s: seq<Byte>)
    ensures DWordSwapped(DWordSwapped(s)) == s
  {
    if |s| >= 4 {
      var t := DWordSwapped(s[4..]);
      assert ([s[3], s[2], s[1], s[0]] + t)[4..] == t;
      DWordSwapInvolution(s[4..]);
      assert s == [s[0], s[1], s[2], s[3]] + s[4..];
    }
  }

  /** A word swap is a permutation: it keeps every byte, with multiplicity. */
  lemma {:induction false} WordSwapPermutes(s: seq<Byte>)
    ensures multiset(WordSwapped(s)) == multiset(s)
  {
    if |s| >= 2 {
      WordSwapPermutes(s[2..]);
      assert s == [s[0], s[1]] + s[2..];
      PairPermutes(s[0], s[1]);
    }
  }

  /** A double-word swap is a permutation: it keeps every byte, with multiplicity. */
  lemma {:induction false} DWordSwapPermutes(s: seq<Byte>)
    ensures multiset(DWordSwapped(s)) == multiset(s)
  {
    if |s| >= 4 {
      var word, rest := s[..4], s[4..];
      var swapped := [s[3], s[2], s[1], s[0]];
      DWordSwapPermutes(rest);
      assert word == [s[0], s[1], s[2], s[3]];
      assert s == word + rest;
      MultisetConcat(word, rest);
      MultisetConcat(swapped, DWordSwapped(rest));
      ReversedWordPermutes(s[0], s[1], s[2], s[3]);
    }
  }

  /** The bytes of a concatenation are the bytes of its two parts. */
  lemma MultisetConcat(p: seq<Byte>, q: seq<Byte>)
    ensures multiset(p + q) == multiset(p) + multiset(q)
  {
  }

  /** Multiset union does not depend on the order of its operands. */
  lemma UnionCommutes(x: multiset<Byte>, y: multiset<Byte>)
    ensures x + y == y + x
  {
  }

  /** The two bytes of a 16-bit word, exchanged, are the same multiset of bytes. */
  lemma PairPermutes(a: Byte, b: Byte)
    ensures multiset([b, a]) == multiset([a, b])
  {
    assert [a, b] == [a] + [b];
    assert [b, a] == [b] + [a];
  }

  /** The four bytes of a word, reversed, are the same multiset of bytes. */
  lemma ReversedWordPermutes(a: Byte, b: Byte, c: Byte, d: Byte)
    ensures multiset([d, c, b, a]) == multiset([a, b, c, d])
  {
    var p, q := [a, b], [c, d];
    var p', q' := [b, a], [d, c];
    assert [a, b, c, d] == p + q;
    assert [d, c, b, a] == q' + p';
    PairPermutes(a, b);
    PairPermutes(c, d);
    MultisetConcat(p, q);
    MultisetConcat(q', p');
    UnionCommutes(multiset(p), multiset(q));
  }

  /**
   * The magic patterns are one another's images under the two swaps, which
   * is what lets one swap of the whole image both move the data and keep the
   * header self-describing.
   */
  lemma MagicSwaps()
    ensures WordSwapped(Z64Magic) == V64Magic && WordSwapped(V64Magic) == Z64Magic
    ensures DWordSwapped(Z64Magic) == N64Magic && DWordSwapped(N64Magic) == Z64Magic
  {
  }

  /** The first word of a swapped buffer is the swapped first word. */
  lemma PrefixSwapped(s: seq<Byte>)
    requires |s| >= 4
    ensures |WordSwapped(s)| == |s| && WordSwapped(s)[..4] == WordSwapped(s[..4])
    ensures |DWordSwapped(s)| == |s| && DWordSwapped(s)[..4] == DWordSwapped(s[..4])
  {
    forall i | 0 <= i < 4
      ensures WordSwapped(s)[i] == WordSwapped(s[..4])[i]
      ensures DWordSwapped(s)[i] == DWordSwapped(s[..4])[i]
    {
      WordSwappedAt(s, i);
      WordSwappedAt(s[..4], i);
      DWordSwappedAt(s, i);
      DWordSwappedAt(s[..4], i);
    }
  }

  /** Appending one 16-bit word to an even prefix appends it swapped. */
  lemma {:induction false} WordSwappedSnoc(front: seq<Byte>, a: Byte, b: Byte)
    requires |front| % 2 == 0
    ensures WordSwapped(front + [a, b]) == WordSwapped(front) + [b, a]
  {
    var t := front + [a, b];
    if |front| > 0 {
      assert t[2..] == front[2..] + [a, b];
      assert t[0] == front[0] && t[1] == front[1];
      WordSwappedSnoc(front[2..], a, b);
    }
  }

  /** Appending one 32-bit word to a word-aligned prefix appends it reversed. */
  lemma {:induction false} DWordSwappedSnoc(front: seq<Byte>, a: Byte, b: Byte, c: Byte, d: Byte)
    requires |front| % 4 == 0
    ensures DWordSwapped(front + [a, b, c, d]) == DWordSwapped(front) + [d, c, b, a]
  {
    var t := front + [a, b, c, d];
    if |front| > 0 {
      assert t[4..] == front[4..] + [a, b, c, d];
      assert t[0] == front[0] && t[1] == front[1] && t[2] == front[2] && t[3] == front[3];
      DWordSwappedSnoc(front[4..], a, b, c, d);
    }
  }

  /** The bytes s with s[a] and s[b] exchanged. */
  function Exchanged(s: seq<Byte>, a: nat, b: nat): (r: seq<Byte>)
    requires a < |s| && b < |s|
    ensures |r| == |s| && r[a] == s[b] && r[b] == s[a]
    ensures forall k :: 0 <= k < |s| && k != a && k != b ==> r[k] == s[k]
  {
    s[a := s[b]][b := s[a]]
  }

  /** One step of the `wordswap` loop, its call to `swap`, extends the swapped prefix by a word. */
  lemma WordSwapStep(was: seq<Byte>, before: seq<Byte>, after: seq<Byte>, w: nat, i: nat)
    requires i == 2 * w && i + 2 <= |was|
    requires |before| == |was| && before[..i] == WordSwapped(was[..i]) && before[i..] == was[i..]
    requires after == Exchanged(before, i, i + 1)
    ensures after[..i + 2] == WordSwapped(was[..i + 2]) && after[i + 2..] == was[i + 2..]
  {
    assert was[..i + 2] == was[..i] + [was[i], was[i + 1]];
    WordSwappedSnoc(was[..i], was[i], was[i + 1]);
    assert before[i..][..2] == [was[i], was[i + 1]];
    assert after[..i] == before[..i];
    assert after[i + 2..] == before[i..][2..];
    assert after[i..i + 2] == [was[i + 1], was[i]];
    assert after[..i + 2] == after[..i] + after[i..i + 2];
  }

  /**
   * One step of the `dwordswap` loop, its two calls to `swap`, extends the
   * reversed prefix by a word.
   */
  lemma DWordSwapStep(was: seq<Byte>, before: seq<Byte>, mid: seq<Byte>, after: seq<Byte>, w: nat, i: nat)
    requires i == 4 * w && i + 4 <= |was|
    requires |before| == |was| && before[..i] == DWordSwapped(was[..i]) && before[i..] == was[i..]
    requires mid == Exchanged(before, i, i + 3)
    requires after == Exchanged(mid, i + 1, i + 2)
    ensures after[..i + 4] == DWordSwapped(was[..i + 4]) && after[i + 4..] == was[i + 4..]
  {
    assert was[..i + 4] == was[..i] + [was[i], was[i + 1], was[i + 2], was[i + 3]];
    DWordSwappedSnoc(was[..i], was[i], was[i + 1], was[i + 2], was[i + 3]);
    assert before[i..][..4] == [was[i], was[i + 1], was[i + 2], was[i + 3]];
    assert after[..i] == before[..i];
    assert after[i + 4..] == before[i..][4..];
    assert after[i..i + 4] == [was[i + 3], was[i + 2], was[i + 1], was[i]];
    assert after[..i + 4] == after[..i] + after[i..i + 4];
  }

  /**
   * `swap`: exchanges buf[a] and buf[b] and leaves every other byte alone;
   * with a == b nothing changes.
   */
  method Swap(buf: array<Byte>, a: int, b: int)
    requires 0 <= a < buf.Length && 0 <= b < buf.Length
    modifies buf
    ensures buf[..] == Exchanged(old(buf[..]), a, b)
  {
    var x := buf[a];
    buf[a] := buf[b];
    buf[b] := x;
  }

  /**
   * `wordswap`: swaps the bytes of every 16-bit word among the first len
   * bytes. With an odd len the last step would exchange buf[len - 1] with
   * buf[len], past the region, so len must be even.
   */
  method WordSwap(buf: array<Byte>, len: int)
    requires 0 <= len <= buf.Length && len % 2 == 0
    modifies buf
    ensures buf[..len] == WordSwapped(old(buf[..len]))
    ensures buf[len..] == old(buf[len..])
  {
    ghost var was, words, w := buf[..], len / 2, 0;
    var i := 0;
    while i < len
      invariant i == 2 * w && 0 <= w <= words && len == 2 * words
      invariant buf[..i] == WordSwapped(was[..i]) && buf[i..] == was[i..]
    {
      ghost var before := buf[..];
      Swap(buf, i, i + 1);
      WordSwapStep(was, before, buf[..], w, i);
      i, w := i + 2, w + 1;
    }
  }

  /**
   * `dwordswap`: reverses every 32-bit word among the first len bytes. When
   * len is not a multiple of 4 the last step reaches past the region, so it
   * must be one.
   */
  method DWordSwap(buf: array<Byte>, len: int)
    requires 0 <= len <= buf.Length && len % 4 == 0
    modifies buf
    ensures buf[..len] == DWordSwapped(old(buf[..len]))
    ensures buf[len..] == old(buf[len..])
  {
    ghost var was, words, w := buf[..], len / 4, 0;
    var i := 0;
    while i < len
      invariant i == 4 * w && 0 <= w <= words && len == 4 * words
      invariant buf[..i] == DWordSwapped(was[..i]) && buf[i..] == was[i..]
    {
      ghost var before := buf[..];
      Swap(buf, i, i + 3);
      ghost var mid := buf[..];
      Swap(buf, i + 1, i + 2);
      DWordSwapStep(was, before, mid, buf[..], w, i);
      i, w := i + 4, w + 1;
    }
  }
}
