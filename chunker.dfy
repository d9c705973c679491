/**
 * The chunker `split_text` (main.py:70-74): the slices `text[i:i + max_length]`
 * for `i` in `range(0, len(text), max_length)`, cut at fixed offsets with no
 * regard for words or lines.
 */
module Chunker {

  /** The default `max_length` of `split_text`, used by the uploader. */
  const DefaultMaxLength: nat := 2000

  function Min(a: int, b: int): int
  {
    if a <= b then a else b
  }

  /** The slices for the offsets `i`, `i + m`, `i + 2m`, ... below `|text|`; Python clamps a slice at the end. */
  function ChunksFrom(text: string, maxLength: nat, i: nat): seq<string>
    requires maxLength > 0
    decreases |text| - i
  {
    if i >= |text| then []
    else [text[i..Min(i + maxLength, |text|)]] + ChunksFrom(text, maxLength, i + maxLength)
  }

  /** `split_text(text, max_length)`. */
  function SplitText(text: string, maxLength: nat): seq<string>
    requires maxLength > 0
  {
    ChunksFrom(text, maxLength, 0)
  }

  /** `''.join(chunks)`. */
  function Concat(chunks: seq<string>): string
    decreases |chunks|
  {
    if chunks == [] then [] else chunks[0] + Concat(chunks[1..])
  }

  lemma {:induction false} ChunksFromConcat(text: string, maxLength: nat, i: nat)
    requires maxLength > 0 && i <= |text|
    ensures Concat(ChunksFrom(text, maxLength, i)) == text[i..]
    decreases |text| - i
  {
    if i < |text| {
      var c := ChunksFrom(text, maxLength, i);
      assert c[1..] == ChunksFrom(text, maxLength, i + maxLength);
      if i + maxLength <= |text| {
        ChunksFromConcat(text, maxLength, i + maxLength);
        assert text[i..] == text[i..i + maxLength] + text[i + maxLength..];
      } else {
        assert ChunksFrom(text, maxLength, i + maxLength) == [];
      }
    }
  }

  /** Joining the chunks gives back the text exactly. */
  lemma SplitTextRoundTrip(text: string, maxLength: nat)
    requires maxLength > 0
    ensures Concat(SplitText(text, maxLength)) == text
  {
    ChunksFromConcat(text, maxLength, 0);
  }

  lemma {:induction false} ChunksFromShape(text: string, maxLength: nat, i: nat)
    requires maxLength > 0 && i <= |text|
    ensures var c := ChunksFrom(text, maxLength, i);
      (c == [] <==> i == |text|) &&
      (forall k :: 0 <= k < |c| - 1 ==> |c[k]| == maxLength) &&
      (c != [] ==> 0 < |c[|c| - 1]| <= maxLength) &&
      (c != [] ==> (|c| - 1) * maxLength < |text| - i <= |c| * maxLength)
    decreases |text| - i
  {
    var c := ChunksFrom(text, maxLength, i);
    if i < |text| {
      var rest := ChunksFrom(text, maxLength, i + maxLength);
      assert c == [text[i..Min(i + maxLength, |text|)]] + rest;
      if i + maxLength <= |text| {
        ChunksFromShape(text, maxLength, i + maxLength);
        if rest != [] {
          assert |c| * maxLength == |rest| * maxLength + maxLength;
          assert (|c| - 1) * maxLength == |rest| * maxLength;
        }
      } else {
        assert rest == [];
      }
    }
  }

  /**
   * Every chunk but the last has exactly `maxLength` characters, the last has
   * between 1 and `maxLength`, there are ceil(|text| / maxLength) chunks, and
   * none exactly when the text is empty.
   */
  lemma SplitTextShape(text: string, maxLength: nat)
    requires maxLength > 0
    ensures var c := SplitText(text, maxLength);
      (c == [] <==> text == []) &&
      (forall k :: 0 <= k < |c| - 1 ==> |c[k]| == maxLength) &&
      (c != [] ==> 0 < |c[|c| - 1]| <= maxLength) &&
      |c| == (|text| + maxLength - 1) / maxLength
  {
    ChunksFromShape(text, maxLength, 0);
    var c := SplitText(text, maxLength);
    if c != [] {
      DivBetween(|text| + maxLength - 1, maxLength, |c|);
    }
  }

  /** `x / m` is `q` when `x` lies in `[q * m, (q + 1) * m)`. */
  lemma DivBetween(x: nat, m: nat, q: nat)
    requires m > 0 && q * m <= x < q * m + m
    ensures x / m == q
  {
    var d := x / m;
    assert x == d * m + x % m;
    if d < q {
      MulMonotone(d + 1, q, m);
    } else if q < d {
      MulMonotone(q + 1, d, m);
    }
  }

  lemma MulMonotone(a: nat, b: nat, m: nat)
    requires a <= b
    ensures a * m <= b * m
  {
  }

  /** A text of at most `maxLength` characters is a single chunk, unless it is empty. */
  lemma ShortTextOneChunk(text: string, maxLength: nat)
    requires maxLength > 0 && 0 < |text| <= maxLength
    ensures SplitText(text, maxLength) == [text]
  {
    assert ChunksFrom(text, maxLength, maxLength) == [];
    assert text[0..|text|] == text;
  }

  /** The offset `i + k * m`, reached by `k` steps of `m` as `range` counts. */
  function Offset(i: nat, k: nat, m: nat): nat
    decreases k
  {
    if k == 0 then i else Offset(i + m, k - 1, m)
  }

  lemma {:induction false} OffsetIsProduct(i: nat, k: nat, m: nat)
    ensures Offset(i, k, m) == i + k * m
    decreases k
  {
    if k > 0 {
      OffsetIsProduct(i + m, k - 1, m);
      MulStep(k, m);
    }
  }

  lemma MulStep(k: nat, m: nat)
    requires k > 0
    ensures (k - 1) * m + m == k * m
  {
  }

  /** Chunk `k` of `ChunksFrom(text, m, i)` is the slice at offset `i + k * m`. */
  lemma {:induction false} ChunksFromAt(text: string, maxLength: nat, i: nat, k: nat)
    requires maxLength > 0 && k < |ChunksFrom(text, maxLength, i)|
    ensures Offset(i, k, maxLength) < |text|
    ensures ChunksFrom(text, maxLength, i)[k] ==
      text[Offset(i, k, maxLength)..Min(Offset(i, k, maxLength) + maxLength, |text|)]
    decreases k
  {
    var c := ChunksFrom(text, maxLength, i);
    var rest := ChunksFrom(text, maxLength, i + maxLength);
    assert c == [text[i..Min(i + maxLength, |text|)]] + rest;
    if k > 0 {
      assert c[k] == rest[k - 1];
      ChunksFromAt(text, maxLength, i + maxLength, k - 1);
    }
  }

  /** Chunk `k` is the slice `text[k * m : (k + 1) * m]`, at a fixed offset. */
  lemma SplitTextAt(text: string, maxLength: nat, k: nat)
    requires maxLength > 0 && k < |SplitText(text, maxLength)|
    ensures k * maxLength < |text|
    ensures SplitText(text, maxLength)[k] ==
      text[k * maxLength..Min((k + 1) * maxLength, |text|)]
  {
    ChunksFromAt(text, maxLength, 0, k);
    OffsetIsProduct(0, k, maxLength);
    assert k * maxLength + maxLength == (k + 1) * maxLength;
  }
}
