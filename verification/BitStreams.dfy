/** Numbers as fixed-width bit strings, most significant bit first, and streams of them. */
module BitStreams {
  import opened Bits

  /** The low `n` bits of `x`, most significant first. */
  function Word(x: nat, n: nat): (bits: seq<bool>)
    ensures |bits| == n
  {
    if n == 0 then [] else Word(x / 2, n - 1) + [x % 2 == 1]
  }

  function Number(bits: seq<bool>): (x: nat)
    ensures x < Pow2(|bits|)
  {
    if bits == [] then 0 else 2 * Number(bits[..|bits| - 1]) + if bits[|bits| - 1] then 1 else 0
  }

  function Zeros(n: nat): (bits: seq<bool>)
    ensures |bits| == n && forall i :: 0 <= i < n ==> !bits[i]
  {
    seq(n, i => false)
  }

  /** The values as one bit string, `width` bits each. */
  function Stream(values: seq<nat>, width: nat): seq<bool> {
    if values == [] then [] else Stream(values[..|values| - 1], width) + Word(values[|values| - 1], width)
  }

  /** The whole `width`-bit words of a bit string, from its start. */
  function Chunks(bits: seq<bool>, width: nat): (values: seq<nat>)
    requires width > 0
    ensures forall i :: 0 <= i < |values| ==> values[i] < Pow2(width)
    decreases |bits|
  {
    if |bits| < width then [] else [Number(bits[..width])] + Chunks(bits[width..], width)
  }

  lemma {:induction false} WordOfNumber(bits: seq<bool>)
    ensures Word(Number(bits), |bits|) == bits
  {
    if bits == [] {
    } else {
      WordOfNumber(bits[..|bits| - 1]);
    }
  }

  lemma {:induction false} NumberOfWord(x: nat, n: nat)
    requires x < Pow2(n)
    ensures Number(Word(x, n)) == x
  {
    if n > 0 {
      NumberOfWord(x / 2, n - 1);
      assert Word(x, n)[..n - 1] == Word(x / 2, n - 1);
    }
  }

  /** A word splits at any bit into the quotient's bits and the low bits. */
  lemma {:induction false} WordSplits(x: nat, n: nat, low: nat)
    requires low <= n
    ensures Word(x, n) == Word(Shr(x, low), n - low) + Word(x, low)
  {
    NoLowBits(x, n);
    hide Word, Shr, Pow2;
    if low > 0 {
      WordSplits(x / 2, n - 1, low - 1);
      ShrStep(x, low - 1);
      WordStep(x, n);
      WordStep(x, low);
      ConcatAssociates(Word(Shr(x, low), n - low), Word(x / 2, low - 1), [x % 2 == 1]);
    }
  }

  lemma NoLowBits(x: nat, n: nat)
    ensures Word(x, n) == Word(Shr(x, 0), n - 0) + Word(x, 0)
  {
  }

  lemma WordStep(x: nat, n: nat)
    requires n > 0
    ensures Word(x, n) == Word(x / 2, n - 1) + [x % 2 == 1]
  {
  }

  /** Only the low bits of a number show in its word. */
  lemma {:induction false} WordOfMod(x: nat, n: nat, width: nat)
    requires n <= width
    ensures Word(x % Pow2(width), n) == Word(x, n)
  {
    if n == 0 {
    } else {
      ModHalves(x, width);
      WordOfMod(x / 2, n - 1, width - 1);
    }
  }

  lemma {:induction false} StreamLength(values: seq<nat>, width: nat)
    ensures |Stream(values, width)| == |values| * width
  {
    if values == [] {
    } else {
      StreamLength(values[..|values| - 1], width);
      assert |values| * width == (|values| - 1) * width + width;
    }
  }

  lemma StreamAppend(values: seq<nat>, value: nat, width: nat)
    ensures Stream(values + [value], width) == Stream(values, width) + Word(value, width)
  {
    assert (values + [value])[..|values|] == values;
  }

  lemma {:induction false} StreamPrepend(value: nat, values: seq<nat>, width: nat)
    ensures Stream([value] + values, width) == Word(value, width) + Stream(values, width)
  {
    if values == [] {
      assert [value] + values == [] + [value];
      StreamAppend([], value, width);
    } else {
      var early, last := values[..|values| - 1], values[|values| - 1];
      StreamPrepend(value, early, width);
      assert [value] + values == ([value] + early) + [last];
      assert values == early + [last];
      StreamAppend([value] + early, last, width);
      StreamAppend(early, last, width);
    }
  }

  lemma ChunksPrepend(first: seq<bool>, rest: seq<bool>, width: nat)
    requires 0 < width == |first|
    ensures Chunks(first + rest, width) == [Number(first)] + Chunks(rest, width)
  {
    hide Number, Pow2;
    assert (first + rest)[..width] == first && (first + rest)[width..] == rest;
  }

  /** A stream of words followed by less than one more has those words as its chunks. */
  lemma {:induction false} ChunksOfStream(values: seq<nat>, rest: seq<bool>, width: nat)
    requires width > 0 && |rest| < width
    requires forall i :: 0 <= i < |values| ==> values[i] < Pow2(width)
    ensures Chunks(Stream(values, width) + rest, width) == values
    decreases |values|
  {
    if values == [] {
    } else {
      hide Word, Number, Stream, Chunks, Pow2;
      var first, later := values[0], values[1..];
      assert values == [first] + later;
      ChunksOfStream(later, rest, width);
      ChunksPrepend(Word(first, width), Stream(later, width) + rest, width);
      NumberOfWord(first, width);
      StreamPrepend(first, later, width);
      ConcatAssociates(Word(first, width), Stream(later, width), rest);
    }
  }

  lemma ConcatAssociates(a: seq<bool>, b: seq<bool>, c: seq<bool>)
    ensures (a + b) + c == a + (b + c)
  {
  }

  /** The chunks of a bit string spell it again, but for a last part shorter than one of them. */
  lemma {:induction false} StreamOfChunks(bits: seq<bool>, width: nat) returns (rest: seq<bool>)
    requires width > 0
    ensures |rest| < width && bits == Stream(Chunks(bits, width), width) + rest
    decreases |bits|
  {
    if |bits| < width {
      rest := bits;
    } else {
      hide Word, Number, Stream, Chunks, Pow2;
      var first, later := bits[..width], bits[width..];
      assert bits == first + later;
      rest := StreamOfChunks(later, width);
      ChunksPrepend(first, later, width);
      WordOfNumber(first);
      StreamPrepend(Number(first), Chunks(later, width), width);
      ConcatAssociates(first, Stream(Chunks(later, width), width), rest);
    }
  }

  /** Words below the width's bound are told apart by their streams. */
  lemma {:induction false} StreamsDiffer(a: seq<nat>, b: seq<nat>, width: nat)
    requires width > 0 && Stream(a, width) == Stream(b, width)
    requires forall i :: 0 <= i < |a| ==> a[i] < Pow2(width)
    requires forall i :: 0 <= i < |b| ==> b[i] < Pow2(width)
    ensures a == b
  {
    ChunksOfStream(a, [], width);
    ChunksOfStream(b, [], width);
    assert Stream(a, width) + [] == Stream(b, width) + [];
  }
}
