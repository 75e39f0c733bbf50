/** The randomized ink pass (app/page.tsx, the pixel loop of the
    "randomize" branch): every pixel covered by the glyph mask has its red,
    green and blue shifted by one random gain, darker on bright pixels and
    lighter on dark ones, clamped to the byte range. The buffer is RGBA,
    four entries per pixel. */
module RandomizeInk {

  /** `Math.min(255, Math.max(0, v))`. */
  function Clamp(v: int): (r: int)
    ensures 0 <= r <= 255
    ensures 0 <= v <= 255 ==> r == v
    ensures v < 0 ==> r == 0
    ensures v > 255 ==> r == 255
  {
    if v < 0 then 0 else if v > 255 then 255 else v
  }

  /** `0.3 r + 0.59 g + 0.11 b > 160`, in exact integer arithmetic. */
  predicate IsBright(r: int, g: int, b: int) {
    30 * r + 59 * g + 11 * b > 16000
  }

  /** The signed gain of a masked pixel: the draw, negated on a bright pixel. */
  function SignedGain(r: int, g: int, b: int, draw: int): (gain: int)
    ensures 0 <= draw ==> (if IsBright(r, g, b) then -draw <= gain <= 0 else 0 <= gain <= draw)
  {
    if IsBright(r, g, b) then -draw else draw
  }

  predicate ValidBuffers(data: seq<int>, mask: seq<int>, gains: seq<int>) {
    |data| % 4 == 0 && |mask| == |data| && |gains| == |data| / 4
  }

  /** The draws `Math.floor(Math.random() * 100)`. */
  predicate ValidGains(gains: seq<int>) {
    forall p :: 0 <= p < |gains| ==> 0 <= gains[p] <= 99
  }

  predicate IsByteBuffer(data: seq<int>) {
    forall k :: 0 <= k < |data| ==> 0 <= data[k] <= 255
  }

  /** Whether the mask has ink at the pixel that holds entry `k`. */
  predicate Inked(mask: seq<int>, k: nat)
    requires |mask| % 4 == 0 && k < |mask|
  {
    mask[k - k % 4 + 3] > 0
  }

  /** Entry `k` of the buffer after the pass; `gains[p]` is the draw for pixel `p`. */
  function InkedEntry(data: seq<int>, mask: seq<int>, gains: seq<int>, k: nat): (v: int)
    requires ValidBuffers(data, mask, gains) && k < |data|
    ensures 0 <= data[k] <= 255 ==> 0 <= v <= 255
    ensures !Inked(mask, k) ==> v == data[k]
  {
    var base := k - k % 4;
    if k % 4 == 3 || !Inked(mask, k) then data[k]
    else Clamp(data[k] + SignedGain(data[base], data[base + 1], data[base + 2], gains[k / 4]))
  }

  /** The whole buffer after the pass. */
  function Randomized(data: seq<int>, mask: seq<int>, gains: seq<int>): (r: seq<int>)
    requires ValidBuffers(data, mask, gains)
    ensures |r| == |data|
    ensures IsByteBuffer(data) ==> IsByteBuffer(r)
  {
    seq(|data|, k requires 0 <= k < |data| => InkedEntry(data, mask, gains, k))
  }

  /** The buffer part-way through the pass: the first `i` entries done, the rest untouched. */
  function Partial(data: seq<int>, mask: seq<int>, gains: seq<int>, i: nat): (r: seq<int>)
    requires ValidBuffers(data, mask, gains) && i <= |data|
    ensures |r| == |data|
  {
    Randomized(data, mask, gains)[..i] + data[i..]
  }

  /** One iteration of the loop on the buffer `cur`: the pixel at `i`, if
      inked, has its colours moved by the gain its own colours call for. */
  function PixelStep(cur: seq<int>, mask: seq<int>, gains: seq<int>, i: nat): (r: seq<int>)
    requires ValidBuffers(cur, mask, gains) && i % 4 == 0 && i < |cur|
    ensures |r| == |cur|
  {
    var gain := SignedGain(cur[i], cur[i + 1], cur[i + 2], gains[i / 4]);
    seq(|cur|, k requires 0 <= k < |cur| =>
      if i <= k < i + 3 && mask[i + 3] > 0 then Clamp(cur[k] + gain) else cur[k])
  }

  /** The loop over the pixels, updating the image buffer in place. */
  method RandomizePixels(data: array<int>, mask: seq<int>, gains: seq<int>)
    requires ValidBuffers(data[..], mask, gains)
    modifies data
    ensures data[..] == Randomized(old(data[..]), mask, gains)
  {
    ghost var before := data[..];
    var i := 0;
    ghost var p := 0;
    while i < data.Length
      invariant 0 <= i <= data.Length && i == 4 * p
      invariant data[..] == Partial(before, mask, gains, i)
    {
      PartialStep(before, mask, gains, p);
      InkPixel(data, mask, gains, i);
      i := i + 4;
      p := p + 1;
    }
    PartialDone(before, mask, gains);
  }

  /** The body of the loop: the pixel at `i`, if inked, gets the gain its
      brightness calls for on each colour entry. */
  method InkPixel(data: array<int>, mask: seq<int>, gains: seq<int>, i: nat)
    requires ValidBuffers(data[..], mask, gains) && i % 4 == 0 && i < data.Length
    modifies data
    ensures data[..] == PixelStep(old(data[..]), mask, gains, i)
  {
    ghost var cur := data[..];
    assert i + 3 < data.Length;
    if mask[i + 3] > 0 {
      var r := data[i];
      var g := data[i + 1];
      var b := data[i + 2];
      var gain;
      if 30 * r + 59 * g + 11 * b > 16000 {
        gain := -gains[i / 4];
      } else {
        gain := gains[i / 4];
      }
      assert gain == SignedGain(cur[i], cur[i + 1], cur[i + 2], gains[i / 4]);
      data[i] := Clamp(r + gain);
      data[i + 1] := Clamp(g + gain);
      data[i + 2] := Clamp(b + gain);
      assert data[..] == cur[i := Clamp(r + gain)][i + 1 := Clamp(g + gain)][i + 2 := Clamp(b + gain)];
    }
    assert data[..] == PixelStep(cur, mask, gains, i);
  }

  /** Once every pixel is done the pass is complete. */
  lemma {:induction false} PartialDone(data: seq<int>, mask: seq<int>, gains: seq<int>)
    requires ValidBuffers(data, mask, gains)
    ensures Partial(data, mask, gains, |data|) == Randomized(data, mask, gains)
  {
    assert data[|data|..] == [];
  }

  /** One iteration of the loop moves the pass on by one pixel. */
  lemma {:induction false} PartialStep(data: seq<int>, mask: seq<int>, gains: seq<int>, p: nat)
    requires ValidBuffers(data, mask, gains) && 4 * p < |data|
    ensures 4 * p + 4 <= |data| && (4 * p) % 4 == 0
    ensures Partial(data, mask, gains, 4 * p + 4) == PixelStep(Partial(data, mask, gains, 4 * p), mask, gains, 4 * p)
  {
    var i := 4 * p;
    assert i % 4 == 0;
    PixelEntries(data, mask, gains, i);
    var cur, next := Partial(data, mask, gains, i), Partial(data, mask, gains, i + 4);
    var stepped := PixelStep(cur, mask, gains, i);
    assert cur[i] == data[i] && cur[i + 1] == data[i + 1] && cur[i + 2] == data[i + 2] && cur[i + 3] == data[i + 3];
    assert next[i] == stepped[i] && next[i + 1] == stepped[i + 1];
    assert next[i + 2] == stepped[i + 2] && next[i + 3] == stepped[i + 3];
    forall k | 0 <= k < i ensures next[k] == stepped[k] {
      assert next[k] == Randomized(data, mask, gains)[k] == cur[k];
    }
    forall k | i + 4 <= k < |data| ensures next[k] == stepped[k] {
      assert next[k] == data[k] == cur[k];
    }
    assert next == stepped;
  }

  /** The four entries of the pixel that starts at `i`, after the pass. */
  lemma {:induction false} PixelEntries(data: seq<int>, mask: seq<int>, gains: seq<int>, i: nat)
    requires ValidBuffers(data, mask, gains) && i % 4 == 0 && i < |data|
    ensures i + 4 <= |data|
    ensures var gain := SignedGain(data[i], data[i + 1], data[i + 2], gains[i / 4]);
            && InkedEntry(data, mask, gains, i) == (if mask[i + 3] > 0 then Clamp(data[i] + gain) else data[i])
            && InkedEntry(data, mask, gains, i + 1) == (if mask[i + 3] > 0 then Clamp(data[i + 1] + gain) else data[i + 1])
            && InkedEntry(data, mask, gains, i + 2) == (if mask[i + 3] > 0 then Clamp(data[i + 2] + gain) else data[i + 2])
            && InkedEntry(data, mask, gains, i + 3) == data[i + 3]
  {
    assert (i + 1) % 4 == 1 && (i + 2) % 4 == 2 && (i + 3) % 4 == 3;
    assert (i + 1) / 4 == i / 4 && (i + 2) / 4 == i / 4;
  }

  /** A pixel without ink keeps all four entries. */
  lemma {:induction false} UnmaskedPixelKept(data: seq<int>, mask: seq<int>, gains: seq<int>, p: nat)
    requires ValidBuffers(data, mask, gains) && p < |data| / 4 && mask[4 * p + 3] <= 0
    ensures Randomized(data, mask, gains)[4 * p..4 * p + 4] == data[4 * p..4 * p + 4]
  {
    var r := Randomized(data, mask, gains);
    forall k | 4 * p <= k < 4 * p + 4 ensures r[k] == data[k] {
      assert k - k % 4 == 4 * p;
    }
  }

  /** The alpha entry of a pixel is never written. */
  lemma {:induction false} AlphaKept(data: seq<int>, mask: seq<int>, gains: seq<int>, p: nat)
    requires ValidBuffers(data, mask, gains) && p < |data| / 4
    ensures Randomized(data, mask, gains)[4 * p + 3] == data[4 * p + 3]
  {
  }

  /** An inked pixel: all three colour entries move by the same signed gain
      (negative on a bright pixel), are clamped into [0, 255], and move by at most 99,
      never towards the brightness they had. */
  lemma {:induction false} InkedPixelEffect(data: seq<int>, mask: seq<int>, gains: seq<int>, p: nat, c: nat)
    requires ValidBuffers(data, mask, gains) && ValidGains(gains) && IsByteBuffer(data)
    requires p < |data| / 4 && c < 3 && mask[4 * p + 3] > 0
    ensures var r, k := Randomized(data, mask, gains), 4 * p + c;
            var gain := SignedGain(data[4 * p], data[4 * p + 1], data[4 * p + 2], gains[p]);
            && r[k] == Clamp(data[k] + gain)
            && 0 <= r[k] <= 255
            && (IsBright(data[4 * p], data[4 * p + 1], data[4 * p + 2]) ==> data[k] - 99 <= r[k] <= data[k])
            && (!IsBright(data[4 * p], data[4 * p + 1], data[4 * p + 2]) ==> data[k] <= r[k] <= data[k] + 99)
  {
    var k := 4 * p + c;
    assert k - k % 4 == 4 * p && k / 4 == p;
  }
}
