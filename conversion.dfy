/**
 * The conversion pipeline of tool64.c (`convert` and `load_rom`, without
 * their file I/O): bring the image to Z64 order with the swap of its own
 * format, then apply the swap of the target format to the whole image,
 * magic bytes included.
 */
module Conversion {
  import opened Layout
  import opened Swaps
  import opened Header

  /**
   * The one swap that relates Z64 order and the order of `fmt`, in either
   * direction: N64 is a double-word swap, V64 a word swap; Z64 and every
   * unrecognised value need none.
   */
  function Transform(s: seq<Byte>, fmt: nat): (r: seq<Byte>)
    ensures |r| == |s|
  {
    if fmt == N64 then DWordSwapped(s)
    else if fmt == V64 then WordSwapped(s)
    else s
  }

  /** A transform keeps the bytes and the length, and undoes itself. */
  lemma TransformInvolution(s: seq<Byte>, fmt: nat)
    ensures |Transform(s, fmt)| == |s|
    ensures multiset(Transform(s, fmt)) == multiset(s)
    ensures Transform(Transform(s, fmt), fmt) == s
  {
    if fmt == N64 {
      DWordSwapPermutes(s);
      DWordSwapInvolution(s);
    } else if fmt == V64 {
      WordSwapPermutes(s);
      WordSwapInvolution(s);
    }
  }

  /**
   * The image `convert` writes for a source of format `fmt` and a target
   * `dst`: unchanged when they are equal ("Nothing to do"), otherwise
   * normalised to Z64 and then transformed to `dst`.
   */
  function ConvertedImage(s: seq<Byte>, fmt: nat, dst: nat): (r: seq<Byte>)
    ensures |r| == |s|
    ensures multiset(r) == multiset(s)
    ensures fmt == dst ==> r == s
  {
    if fmt == dst then s
    else
      TransformInvolution(s, fmt);
      TransformInvolution(Transform(s, fmt), dst);
      Transform(Transform(s, fmt), dst)
  }

  /**
   * A recognised header brought to Z64 order by its own transform
   * classifies as Z64 (what `load_rom` relies on before reading fields).
   */
  lemma NormaliseToZ64(s: seq<Byte>)
    requires |s| >= 4 && IsKnown(Format(s))
    ensures |Transform(s, Format(s))| == |s|
    ensures Format(Transform(s, Format(s))) == Z64
  {
    var t := Transform(s, Format(s));
    TransformInvolution(s, Format(s));
    PrefixSwapped(s);
    ClassifyMagic(s);
    MagicSwaps();
    ClassifyMagic(t);
  }

  /** A Z64 image transformed to a recognised target classifies as that target. */
  lemma DenormaliseFromZ64(t: seq<Byte>, dst: nat)
    requires |t| >= 4 && Format(t) == Z64 && IsKnown(dst)
    ensures |Transform(t, dst)| == |t|
    ensures Format(Transform(t, dst)) == dst
  {
    var r := Transform(t, dst);
    TransformInvolution(t, dst);
    PrefixSwapped(t);
    ClassifyMagic(t);
    MagicSwaps();
    ClassifyMagic(r);
  }

  /**
   * For a recognised source, the converted image is self-describing: its
   * first four bytes classify as the target format.
   */
  lemma ConvertClassifies(s: seq<Byte>, dst: nat)
    requires |s| >= 4 && IsKnown(Format(s)) && IsKnown(dst)
    ensures Format(ConvertedImage(s, Format(s), dst)) == dst
  {
    if Format(s) != dst {
      NormaliseToZ64(s);
      DenormaliseFromZ64(Transform(s, Format(s)), dst);
    }
  }

  /**
   * Converting from `a` to `b` and back from `b` to `a` restores the image,
   * for every pair of formats (an unrecognised `a` is treated as Z64 both
   * ways, so it round-trips too).
   */
  lemma ConvertRoundTrip(s: seq<Byte>, a: nat, b: nat)
    ensures ConvertedImage(ConvertedImage(s, a, b), b, a) == s
  {
    if a != b {
      var t := Transform(s, a);
      TransformInvolution(s, a);
      TransformInvolution(t, b);
    }
  }

  /**
   * An unrecognised source is not rejected: it gets no normalising swap and
   * only the target's transform.
   */
  lemma ConvertUnknownSource(s: seq<Byte>, fmt: nat, dst: nat)
    requires !IsKnown(fmt) && fmt != dst
    ensures ConvertedImage(s, fmt, dst) == Transform(s, dst)
  {
  }

  /**
   * Converting a Z64 image to N64 reverses each 32-bit header field: a
   * clock rate stored AA BB CC DD is stored DD CC BB AA afterwards.
   */
  lemma ConvertToN64ReversesFields(s: seq<Byte>, f: Field)
    requires |s| >= HeaderSize && Width(f) == 4
    ensures ReadField(ConvertedImage(s, Z64, N64), f)
         == [s[Offset(f) + 3], s[Offset(f) + 2], s[Offset(f) + 1], s[Offset(f)]]
  {
    assert Offset(f) + 4 <= HeaderSize;
    DWordSwapReversesField(s, f);
  }

  /**
   * The lengths for which the swaps `convert` performs stay inside the
   * buffer: a double-word swap needs a multiple of 4, a word swap an even
   * length.
   */
  predicate SwapBoundsHold(len: nat, fmt: nat, dst: nat): (ok: bool)
    ensures len % 4 == 0 ==> ok
  {
    assert len % 4 == 0 ==> len % 2 == 0 by {
      if len % 4 == 0 {
        assert len == 2 * (2 * (len / 4));
      }
    }
    ((fmt == N64 || dst == N64) ==> len % 4 == 0) &&
    ((fmt == V64 || dst == V64) ==> len % 2 == 0)
  }

  /** What `convert` reports: nothing to do, or a conversion performed. */
  datatype Outcome = NothingToDo | Converted

  /**
   * `convert` on an image already in memory, given the format `load_rom`
   * found and the target chosen on the command line.
   */
  method Convert(data: array<Byte>, fmt: nat, dst: nat) returns (outcome: Outcome)
    requires fmt != dst ==> SwapBoundsHold(data.Length, fmt, dst)
    modifies data
    ensures outcome == (if fmt == dst then NothingToDo else Converted)
    ensures data[..] == ConvertedImage(old(data[..]), fmt, dst)
  {
    if fmt == dst {
      return NothingToDo;
    }
    var romsize := data.Length;
    // to Z64 first
    ghost var original := data[..];
    assert original[..romsize] == original;
    if fmt == N64 {
      DWordSwap(data, romsize);
    }
    if fmt == V64 {
      WordSwap(data, romsize);
    }
    assert data[..] == data[..romsize] == Transform(original, fmt);
    // then to the target
    ghost var normal := data[..];
    assert normal[..romsize] == normal;
    if dst == V64 {
      WordSwap(data, romsize);
    }
    if dst == N64 {
      DWordSwap(data, romsize);
    }
    assert data[..] == data[..romsize] == Transform(normal, dst);
    outcome := Converted;
  }

  /**
   * `load_rom` after the header has been read: classify the 64-byte header
   * and bring it to Z64 order in place.
   */
  method LoadRom(h: array<Byte>) returns (fmt: nat)
    requires h.Length == HeaderSize
    modifies h
    ensures fmt == Format(old(h[..]))
    ensures h[..] == Transform(old(h[..]), fmt)
  {
    fmt := Format(h[..]);
    assert h[..][..HeaderSize] == h[..];
    if fmt == N64 {
      DWordSwap(h, HeaderSize);
    }
    if fmt == V64 {
      WordSwap(h, HeaderSize);
    }
    assert h[..] == h[..HeaderSize];
  }
}
