/** The JPEG marker-segment scanner and ICC-profile splicer (lib/hdr-utils.ts).
    A JPEG header is a sequence of marker segments after the two-byte
    start-of-image marker FF D8: a marker FF xx, then (except for SOS) a
    two-byte big-endian length that counts itself but not the marker
    (ITU-T T.81, Annex B, section B.1.1.4). An ICC profile travels in an APP2
    segment whose payload starts with "ICC_PROFILE" and a zero byte (ICC.1,
    Annex B). */
module IccSegments {
  import opened Wrappers

  type Byte = b: int | 0 <= b < 256

  const SOS: int := 0xFFDA
  const APP2: int := 0xFFE2
  /** "ICC_PROFILE\0". */
  const IccSignature: seq<Byte> := [0x49, 0x43, 0x43, 0x5F, 0x50, 0x52, 0x4F, 0x46, 0x49, 0x4C, 0x45, 0x00]

  /** A byte read as an operand of `<<` or `|`: past the end the read is
      `undefined`, which those operators turn into 0. */
  function ByteOrZero(data: seq<Byte>, i: nat): Byte {
    if i < |data| then data[i] else 0
  }

  /** `(data[i] << 8) | data[i + 1]`, a big-endian 16-bit field. */
  function Word16At(data: seq<Byte>, i: nat): (w: int)
    ensures 0 <= w < 65536
    ensures i + 1 < |data| ==> w == data[i] as int * 256 + data[i + 1] as int
  {
    ByteOrZero(data, i) as int * 256 + ByteOrZero(data, i + 1) as int
  }

  /** `data[i] === v`; a read past the end is `undefined` and equals nothing. */
  predicate ByteIs(data: seq<Byte>, i: nat, v: Byte) {
    i < |data| && data[i] == v
  }

  /** The twelve signature bytes sit at `i`; a read past the end is a mismatch. */
  predicate SignatureAt(data: seq<Byte>, i: nat) {
    i + 12 <= |data| && data[i..i + 12] == IccSignature
  }

  function Min(a: nat, b: nat): nat {
    if a <= b then a else b
  }

  /** `data.slice(start, end)` for non-negative bounds: both bounds are clamped
      to the length, and an end before the start gives nothing. */
  function Slice(data: seq<Byte>, start: nat, end: nat): (r: seq<Byte>)
    ensures start <= end <= |data| ==> r == data[start..end]
    ensures |r| <= if end < start then 0 else end - start
    ensures start < |data| ==> start + |r| <= |data| && r == data[start..start + |r|]
    ensures start <= |data| < end ==> r == data[start..]
    ensures |data| <= start ==> r == []
  {
    var s, e := Min(start, |data|), Min(end, |data|);
    if e <= s then [] else data[s..e]
  }

  // ------------------------------------------------------------- extraction

  /** The scan from `offset` on, step for step as the extraction loop runs it:
      stop at a byte that is not FF, stop at SOS, answer the payload of the
      first APP2 segment that carries the signature, otherwise skip the
      segment by its length field. The result never exceeds the largest
      payload a 16-bit length can describe. */
  function ScanFrom(data: seq<Byte>, offset: nat): (r: Option<seq<Byte>>)
    ensures r.Some? ==> |r.value| <= 65533
    decreases |data| - offset
  {
    if offset + 1 >= |data| then None
    else if data[offset] != 0xFF then None
    else
      var marker := data[offset] as int * 256 + data[offset + 1] as int;
      var pos := offset + 2;
      if marker == SOS then None
      else
        var segmentLength := Word16At(data, pos);
        if marker == APP2 && SignatureAt(data, pos + 2) then Some(Slice(data, pos + 2, pos + segmentLength))
        else ScanFrom(data, pos + segmentLength)
  }

  /** `extractICCProfile`: walks the header segments after SOI. */
  method ExtractICCProfile(jpegData: seq<Byte>) returns (profile: Option<seq<Byte>>)
    ensures profile == ScanFrom(jpegData, 2)
  {
    var offset: nat := 2;
    while offset < |jpegData| - 1
      invariant ScanFrom(jpegData, offset) == ScanFrom(jpegData, 2)
      decreases |jpegData| - offset
    {
      if jpegData[offset] != 0xFF {
        break;
      }
      var marker := jpegData[offset] as int * 256 + jpegData[offset + 1] as int;
      offset := offset + 2;
      if marker == SOS {
        break;
      }
      var segmentLength := ByteOrZero(jpegData, offset) as int * 256 + ByteOrZero(jpegData, offset + 1) as int;
      if marker == APP2 {
        var signatureMatch := MatchSignature(jpegData, offset + 2);
        if signatureMatch {
          return Some(Slice(jpegData, offset + 2, offset + segmentLength));
        }
      }
      offset := offset + segmentLength;
    }
    return None;
  }

  /** The signature check of the extraction loop: compares the twelve bytes
      at `pos` one by one and stops at the first that is missing or differs. */
  method MatchSignature(data: seq<Byte>, pos: nat) returns (signatureMatch: bool)
    ensures signatureMatch == SignatureAt(data, pos)
  {
    signatureMatch := true;
    var i := 0;
    while i < |IccSignature|
      invariant 0 <= i <= |IccSignature| && signatureMatch
      invariant i == 0 || (pos + i <= |data| && data[pos..pos + i] == IccSignature[..i])
    {
      if pos + i >= |data| || data[pos + i] != IccSignature[i] {
        SignatureMismatch(data, pos, i);
        signatureMatch := false;
        break;
      }
      SignaturePrefixGrows(data, pos, i);
      i := i + 1;
    }
    if signatureMatch {
      assert IccSignature[..i] == IccSignature;
    }
  }

  /** The inner loop's early exit: one byte that is missing or differs from
      the signature rules the signature out. */
  lemma {:induction false} SignatureMismatch(data: seq<Byte>, pos: nat, i: nat)
    requires i < |IccSignature|
    requires pos + i >= |data| || data[pos + i] != IccSignature[i]
    ensures !SignatureAt(data, pos)
  {
    assert |IccSignature| == 12;
  }

  /** One more matching byte extends the matched prefix of the signature. */
  lemma {:induction false} SignaturePrefixGrows(data: seq<Byte>, pos: nat, i: nat)
    requires i < |IccSignature| && pos + i < |data|
    requires data[pos..pos + i] == IccSignature[..i] && data[pos + i] == IccSignature[i]
    ensures data[pos..pos + i + 1] == IccSignature[..i + 1]
  {
    assert data[pos..pos + i + 1] == data[pos..pos + i] + [data[pos + i]];
    assert IccSignature[..i + 1] == IccSignature[..i] + [IccSignature[i]];
  }

  /** Running out of bytes for a marker, a byte other than FF where a marker
      should start, or an SOS marker ends the scan with no profile. */
  lemma {:induction false} ScanStops(data: seq<Byte>, offset: nat)
    requires offset + 1 >= |data| || data[offset] != 0xFF || data[offset + 1] == 0xDA
    ensures ScanFrom(data, offset) == None
  {
  }

  /** A segment whose length field is below 2 ends the scan: the next marker
      position holds the length's own high byte 00 (or runs off the end). */
  lemma {:induction false} ShortLengthEndsScan(data: seq<Byte>, offset: nat)
    requires offset + 1 < |data| && data[offset] == 0xFF && data[offset + 1] != 0xDA
    requires !(data[offset + 1] == 0xE2 && SignatureAt(data, offset + 4))
    requires Word16At(data, offset + 2) < 2
    ensures ScanFrom(data, offset) == None
  {
    var pos := offset + 2;
    var next := pos + Word16At(data, pos);
    assert ScanFrom(data, offset) == ScanFrom(data, next);
    if next + 1 < |data| {
      assert ByteOrZero(data, pos) == 0;
      assert data[next] != 0xFF;
    }
  }

  /** Any other segment, including an APP2 segment without the signature, is
      skipped as a whole by its length field. */
  lemma {:induction false} ScanSkipsSegment(data: seq<Byte>, offset: nat)
    requires offset + 1 < |data| && data[offset] == 0xFF && data[offset + 1] != 0xDA
    requires !(data[offset + 1] == 0xE2 && SignatureAt(data, offset + 4))
    ensures ScanFrom(data, offset) == ScanFrom(data, offset + 2 + Word16At(data, offset + 2))
  {
  }

  /** An APP2 segment with the signature: the answer is the bytes after its
      length field up to its end, clamped to the buffer; for an intact
      segment that is exactly the payload, signature included. */
  lemma {:induction false} ScanMatchPayload(data: seq<Byte>, offset: nat)
    requires offset + 1 < |data| && data[offset] == 0xFF && data[offset + 1] == 0xE2
    requires SignatureAt(data, offset + 4)
    ensures var len := Word16At(data, offset + 2);
            && ScanFrom(data, offset) == Some(Slice(data, offset + 4, offset + 2 + len))
            && (14 <= len && offset + 2 + len <= |data| ==>
                  && ScanFrom(data, offset).value == data[offset + 4..offset + 2 + len]
                  && ScanFrom(data, offset).value[..12] == IccSignature)
  {
    var len := Word16At(data, offset + 2);
    if 14 <= len && offset + 2 + len <= |data| {
      assert data[offset + 4..offset + 2 + len][..12] == data[offset + 4..offset + 16];
    }
  }

  /** An ICC APP2 segment starts at `o`. */
  predicate IccSegmentAt(data: seq<Byte>, o: nat) {
    o + 1 < |data| && data[o] == 0xFF && data[o + 1] == 0xE2 && SignatureAt(data, o + 4)
  }

  /** What the scan answers is the clamped payload of an ICC APP2 segment
      found at or after where it started, and it begins with as much of the
      signature as it holds. */
  lemma {:induction false} ScanResultOrigin(data: seq<Byte>, offset: nat)
    requires ScanFrom(data, offset).Some?
    ensures exists o: nat :: offset <= o && IccSegmentAt(data, o)
              && ScanFrom(data, offset).value == Slice(data, o + 4, o + 2 + Word16At(data, o + 2))
    ensures var p := ScanFrom(data, offset).value;
            p[..Min(12, |p|)] == IccSignature[..Min(12, |p|)]
    decreases |data| - offset
  {
    if IccSegmentAt(data, offset) {
      MatchedPayload(data, offset);
    } else {
      ScanSkipsSegment(data, offset);
      ScanResultOrigin(data, offset + 2 + Word16At(data, offset + 2));
    }
  }

  /** The answer at an ICC APP2 segment begins with as much of the signature as it holds. */
  lemma {:induction false} MatchedPayload(data: seq<Byte>, o: nat)
    requires IccSegmentAt(data, o)
    ensures ScanFrom(data, o) == Some(Slice(data, o + 4, o + 2 + Word16At(data, o + 2)))
    ensures var p := ScanFrom(data, o).value;
            p[..Min(12, |p|)] == IccSignature[..Min(12, |p|)]
  {
    ScanMatchPayload(data, o);
    var p := Slice(data, o + 4, o + 2 + Word16At(data, o + 2));
    var n := Min(12, |p|);
    assert p == data[o + 4..o + 4 + |p|];
    assert p[..n] == data[o + 4..o + 16][..n];
  }


  // -------------------------------------------------------------- insertion

  datatype InsertError =
    /** `TypedArray.prototype.set` throws a RangeError: the segment would be
        written past the end of the result buffer. */
    OffsetOutOfBounds

  /** The APP2 segment built around a profile: FF E2, the 16-bit big-endian
      length (profile length + 2, wrapped to 16 bits), then the profile. */
  function App2Segment(profile: seq<Byte>): (seg: seq<Byte>)
    ensures |seg| == |profile| + 4
    ensures seg[0] == 0xFF && seg[1] == 0xE2
    ensures seg[2] as int * 256 + seg[3] as int == (|profile| + 2) % 65536
    ensures seg[4..] == profile
  {
    var segmentLength := |profile| + 2;
    ByteSplit(segmentLength);
    var seg := [0xFF, 0xE2, (segmentLength / 256) % 256, segmentLength % 256] + profile;
    assert seg[4..] == profile;
    seg
  }

  /** The two bytes `(n >> 8) & 0xFF` and `n & 0xFF` read back big-endian give `n` mod 2^16. */
  lemma {:induction false} ByteSplit(n: nat)
    ensures ((n / 256) % 256) * 256 + n % 256 == n % 65536
  {
    var q, m := n / 65536, n % 65536;
    assert n == 65536 * q + m;
    assert n / 256 == 256 * q + m / 256;
    assert (n / 256) % 256 == m / 256;
    assert n % 256 == m % 256;
  }

  /** The image starts with SOI followed by an APP0 marker. */
  predicate HasLeadingApp0(jpeg: seq<Byte>) {
    ByteIs(jpeg, 0, 0xFF) && ByteIs(jpeg, 1, 0xD8) && ByteIs(jpeg, 2, 0xFF) && ByteIs(jpeg, 3, 0xE0)
  }

  /** Where the segment goes: after a leading APP0 (whose length field at
      bytes 4-5 counts from byte 4), otherwise at 2, right after SOI. */
  function InsertionIndex(jpeg: seq<Byte>): (k: nat)
    ensures HasLeadingApp0(jpeg) ==> k == 4 + Word16At(jpeg, 4)
    ensures !HasLeadingApp0(jpeg) ==> k == 2
  {
    if HasLeadingApp0(jpeg) then 4 + Word16At(jpeg, 4) else 2
  }

  /** After a leading APP0 the insertion index is exactly where the scanner
      resumes once it has skipped that segment. */
  lemma {:induction false} ScanResumesAtInsertionIndex(jpeg: seq<Byte>)
    requires HasLeadingApp0(jpeg)
    ensures ScanFrom(jpeg, 2) == ScanFrom(jpeg, InsertionIndex(jpeg))
  {
    assert !SignatureAt(jpeg, 6) || jpeg[3] != 0xE2;
    ScanSkipsSegment(jpeg, 2);
  }

  /** The result of splicing the segment of `profile` into `jpeg`: a range
      error, or an image four bytes plus the profile longer. */
  function Inserted(jpeg: seq<Byte>, profile: seq<Byte>): (r: Result<seq<Byte>, InsertError>)
    ensures r.Failure? <==> InsertionIndex(jpeg) > |jpeg|
    ensures r.Success? ==> |r.value| == |jpeg| + |profile| + 4
  {
    var k := InsertionIndex(jpeg);
    if k > |jpeg| then Failure(OffsetOutOfBounds)
    else Success(jpeg[..k] + App2Segment(profile) + jpeg[k..])
  }

  /** `target.set(source, at)`. */
  method SetAt(target: array<Byte>, source: seq<Byte>, at: nat)
    requires at + |source| <= target.Length
    modifies target
    ensures target[..] == old(target[..at]) + source + old(target[at + |source|..])
  {
    var i := 0;
    while i < |source|
      invariant 0 <= i <= |source|
      invariant forall j :: 0 <= j < at ==> target[j] == old(target[j])
      invariant forall j :: 0 <= j < i ==> target[at + j] == source[j]
      invariant forall j :: at + i <= j < target.Length ==> target[j] == old(target[j])
    {
      target[at + i] := source[i];
      i := i + 1;
    }
    assert target[..] == old(target[..at]) + source + old(target[at + |source|..]);
  }

  /** The segment buffer `app2Segment`: allocated, header written by index,
      then the profile copied in at 4. */
  method BuildApp2Segment(profile: seq<Byte>) returns (segment: seq<Byte>)
    ensures segment == App2Segment(profile)
  {
    var segmentLength := |profile| + 2;
    var app2Segment := new Byte[2 + segmentLength];
    app2Segment[0] := 0xFF;
    app2Segment[1] := 0xE2;
    app2Segment[2] := (segmentLength / 256) % 256;
    app2Segment[3] := segmentLength % 256;
    SetAt(app2Segment, profile, 4);
    segment := app2Segment[..];
    assert segment == App2Segment(profile) by {
      assert segment[..4] == App2Segment(profile)[..4];
      assert segment[4..] == App2Segment(profile)[4..];
    }
  }

  /** `insertICCProfile`: a new buffer holding the image with the profile's
      APP2 segment spliced in; the input is left as it was. A missing
      profile gives the image back. */
  method InsertICCProfile(jpegData: seq<Byte>, iccProfile: Option<seq<Byte>>)
    returns (result: Result<seq<Byte>, InsertError>)
    ensures iccProfile.None? ==> result == Success(jpegData)
    ensures iccProfile.Some? ==> result == Inserted(jpegData, iccProfile.value)
  {
    if iccProfile.None? {
      return Success(jpegData);
    }
    var app2Segment := BuildApp2Segment(iccProfile.value);

    var insertionIndex: nat := 2;
    if ByteIs(jpegData, 0, 0xFF) && ByteIs(jpegData, 1, 0xD8) {
      if ByteIs(jpegData, 2, 0xFF) && ByteIs(jpegData, 3, 0xE0) {
        var app0Length := ByteOrZero(jpegData, 4) as int * 256 + ByteOrZero(jpegData, 5) as int;
        insertionIndex := 4 + app0Length;
      }
    }
    assert insertionIndex == InsertionIndex(jpegData);

    var buffer := new Byte[|jpegData| + |app2Segment|];
    SetAt(buffer, jpegData[..Min(insertionIndex, |jpegData|)], 0);
    if insertionIndex > |jpegData| {
      return Failure(OffsetOutOfBounds);
    }
    var head := jpegData[..insertionIndex];
    assert buffer[..insertionIndex] == head;
    SetAt(buffer, app2Segment, insertionIndex);
    assert buffer[..insertionIndex + |app2Segment|] == head + app2Segment by {
      assert buffer[..insertionIndex + |app2Segment|][..insertionIndex] == head;
    }
    SetAt(buffer, jpegData[insertionIndex..], insertionIndex + |app2Segment|);
    assert buffer[..] == head + app2Segment + jpegData[insertionIndex..];
    return Success(buffer[..]);
  }

  /** Splicing fails exactly when the insertion index lies past the end;
      otherwise the result is one segment longer, keeps the bytes before the
      index, holds the segment there, and keeps the rest after it. */
  lemma {:induction false} InsertedLayout(jpeg: seq<Byte>, profile: seq<Byte>)
    ensures Inserted(jpeg, profile).Failure? <==> InsertionIndex(jpeg) > |jpeg|
    ensures Inserted(jpeg, profile).Success? ==>
              var r, k := Inserted(jpeg, profile).value, InsertionIndex(jpeg);
              && |r| == |jpeg| + |profile| + 4
              && r[..k] == jpeg[..k]
              && r[k] == 0xFF && r[k + 1] == 0xE2
              && r[k + 2] as int * 256 + r[k + 3] as int == (|profile| + 2) % 65536
              && r[k + 4..k + 4 + |profile|] == profile
              && r[k + 4 + |profile|..] == jpeg[k..]
  {
    if InsertionIndex(jpeg) <= |jpeg| {
      var r, k := Inserted(jpeg, profile).value, InsertionIndex(jpeg);
      var seg := App2Segment(profile);
      assert r[k..k + |seg|] == seg;
      assert r[k + 4..k + 4 + |profile|] == seg[4..];
    }
  }

  /** The scan finds a freshly spliced segment of a signed profile that fits a 16-bit length. */
  lemma {:induction false} ScanFindsSpliced(r: seq<Byte>, k: nat, profile: seq<Byte>)
    requires |profile| >= 12 && profile[..12] == IccSignature && |profile| + 2 <= 65535
    requires k + |profile| + 4 <= |r| && r[k..k + |profile| + 4] == App2Segment(profile)
    ensures ScanFrom(r, k) == Some(profile)
  {
    var seg, n := App2Segment(profile), |profile| + 4;
    assert r[k] == seg[0] && r[k + 1] == seg[1] && r[k + 2] == seg[2] && r[k + 3] == seg[3];
    assert Word16At(r, k + 2) == |profile| + 2;
    SignedSegment(seg, profile);
    SubSlice(r, k, k + n, 4, 16);
    SubSlice(r, k, k + n, 4, n);
  }

  /** The segment of a signed profile carries the signature right after its length field. */
  lemma {:induction false} SignedSegment(seg: seq<Byte>, profile: seq<Byte>)
    requires |profile| >= 12 && profile[..12] == IccSignature
    requires |seg| == |profile| + 4 && seg[4..] == profile
    ensures seg[4..16] == IccSignature && seg[4..|seg|] == profile
  {
    assert seg[4..16] == seg[4..][..12];
  }

  /** A slice of a slice is a slice of the whole. */
  lemma {:induction false} SubSlice(x: seq<Byte>, a: nat, b: nat, c: nat, d: nat)
    requires a <= b <= |x| && c <= d <= b - a
    ensures x[a..b][c..d] == x[a + c..a + d]
  {
    forall t | 0 <= t < d - c
      ensures x[a..b][c..d][t] == x[a + c..a + d][t]
    {
    }
  }

  /** Round trip: extracting from an image with a profile spliced in gives the
      profile back, when the profile is signed and fits one segment and a
      leading APP0's length field is at least 2. */
  lemma {:induction false} InsertThenExtract(jpeg: seq<Byte>, profile: seq<Byte>)
    requires |profile| >= 12 && profile[..12] == IccSignature && |profile| + 2 <= 65535
    requires HasLeadingApp0(jpeg) ==> Word16At(jpeg, 4) >= 2
    requires InsertionIndex(jpeg) <= |jpeg|
    ensures Inserted(jpeg, profile).Success?
    ensures ScanFrom(Inserted(jpeg, profile).value, 2) == Some(profile)
  {
    var k := InsertionIndex(jpeg);
    var seg := App2Segment(profile);
    var r := jpeg[..k] + seg + jpeg[k..];
    assert Inserted(jpeg, profile) == Success(r);
    SpliceParts(jpeg[..k], seg, jpeg[k..]);
    ScanSpliced(jpeg, profile, r);
  }

  /** The scan over any buffer that agrees with `jpeg` before the insertion
      index and holds the profile's segment there. */
  lemma {:induction false} ScanSpliced(jpeg: seq<Byte>, profile: seq<Byte>, r: seq<Byte>)
    requires |profile| >= 12 && profile[..12] == IccSignature && |profile| + 2 <= 65535
    requires HasLeadingApp0(jpeg) ==> Word16At(jpeg, 4) >= 2
    requires InsertionIndex(jpeg) <= |jpeg|
    requires InsertionIndex(jpeg) + |profile| + 4 <= |r|
    requires r[..InsertionIndex(jpeg)] == jpeg[..InsertionIndex(jpeg)]
    requires r[InsertionIndex(jpeg)..InsertionIndex(jpeg) + |profile| + 4] == App2Segment(profile)
    ensures ScanFrom(r, 2) == Some(profile)
  {
    var k := InsertionIndex(jpeg);
    ScanFindsSpliced(r, k, profile);
    if HasLeadingApp0(jpeg) {
      LeadingApp0Kept(jpeg, r);
      ScanSkipsApp0(r, k);
    }
  }

  /** A leading APP0 whose length leads to `k` is skipped straight to `k`. */
  lemma {:induction false} ScanSkipsApp0(r: seq<Byte>, k: nat)
    requires |r| > 3 && r[2] == 0xFF && r[3] == 0xE0 && 2 + 2 + Word16At(r, 4) == k
    ensures ScanFrom(r, 2) == ScanFrom(r, k)
  {
    ScanSkipsSegment(r, 2);
  }



  /** Where each part of a splice ends up. */
  lemma {:induction false} SpliceParts(a: seq<Byte>, seg: seq<Byte>, b: seq<Byte>)
    ensures (a + seg + b)[..|a|] == a
    ensures (a + seg + b)[|a|..|a| + |seg|] == seg
  {
  }

  /** Splicing after a leading APP0 keeps that segment's header, so the
      scanner still skips it to the insertion index. */
  lemma {:induction false} LeadingApp0Kept(jpeg: seq<Byte>, r: seq<Byte>)
    requires HasLeadingApp0(jpeg) && InsertionIndex(jpeg) <= |jpeg| && Word16At(jpeg, 4) >= 2
    requires |r| >= InsertionIndex(jpeg) && r[..InsertionIndex(jpeg)] == jpeg[..InsertionIndex(jpeg)]
    ensures r[2] == 0xFF && r[3] == 0xE0
    ensures 2 + 2 + Word16At(r, 4) == InsertionIndex(jpeg)
  {
    var k := InsertionIndex(jpeg);
    assert k >= 6;
    assert r[2] == r[..k][2] && r[3] == r[..k][3] && r[4] == r[..k][4] && r[5] == r[..k][5];
  }


  /** A profile read from one image can be spliced into another and read
      back unchanged: what extraction answers always fits one segment. */
  lemma {:induction false} ReinsertExtracted(source: seq<Byte>, jpeg: seq<Byte>)
    requires ScanFrom(source, 2).Some? && |ScanFrom(source, 2).value| >= 12
    requires HasLeadingApp0(jpeg) ==> Word16At(jpeg, 4) >= 2
    requires InsertionIndex(jpeg) <= |jpeg|
    ensures var p := ScanFrom(source, 2).value;
            Inserted(jpeg, p).Success? && ScanFrom(Inserted(jpeg, p).value, 2) == Some(p)
  {
    ScanResultOrigin(source, 2);
    InsertThenExtract(jpeg, ScanFrom(source, 2).value);
  }
}
