# Emblematix watermark and ICC-splicing core in Dafny

This project models the photo-watermarking web app. It covers the
deterministic logic that turns a photo's EXIF data into branded
watermark text. It also models the byte-level JPEG handling used to carry
a colour profile from the original photo to the exported one:

- **Watermark text** (`WatermarkText`, on top of `JsStrings` and
  `AppTypes`) builds three texts from the `ExifData` record and the
  user's `AppConfig` toggles:
  - the device text;
  - the photo-info text, "f/1.8 • 1/125 • 26mm • ISO100";
  - the date/copyright text, "MM/DD HH:MM:SS  Image © YYYY Author.".

  It then arranges them into the two lines of the `normal` or `compact`
  layout. `JsStrings` gives the exact JavaScript meaning of the string
  built-ins involved:
  - `trim`, with the ECMAScript white-space set;
  - `split` on one character, which keeps empty pieces;
  - `join`;
  - `filter(Boolean)`.
- **Font fallback** (`FontResolution`) looks up the font the watermark is
  drawn in. It tries a built-in key first, then the first uploaded font
  with that name, and falls back to Inter.
- **Randomized ink** (`RandomizeInk`) is the in-place pass over the RGBA
  pixel buffer. It applies to every pixel that the glyph mask covers:
  - it shifts red, green and blue by one gain;
  - the gain darkens a bright pixel and lightens a dark one;
  - it clamps each channel to bytes.

  The method works on an `array<int>` and is proved equal to a function of
  the old buffer. The properties of the pass are lemmas about that
  function.
- **ICC profile transport** (`IccSegments`) covers two operations:
  - `extractICCProfile` walks the JPEG marker segments after SOI (ITU-T
    T.81, Annex B, section B.1.1.4). It returns the payload of the first
    APP2 segment signed "ICC_PROFILE\0" (ICC.1, Annex B).
  - `insertICCProfile` builds such a segment and splices it into a new
    buffer, after SOI or after a leading APP0.

  Both are methods with the source's loops and buffer writes, and each is
  proved equal to a specification function. Lemmas cover the layout of the
  spliced image and the round trip: extraction after insertion gives the
  profile back.

The model follows these details of the code:

- The author is always `customCopyright || exif copyright || ""`; the
  `useCustomCopyright` toggle is never read.
- The ink pass calls a pixel bright when `0.3 r + 0.59 g + 0.11 b > 160`.
- The ink pass adds a signed gain from 0 to 99 to each colour channel and
  then clamps it to [0, 255].

Inputs that come from outside the logic are parameters:

- the EXIF record;
- the configuration;
- the uploaded fonts;
- the rasterised glyph mask;
- the random draws: `gains[p]` is the draw `Math.floor(Math.random() * 100)`
  for pixel `p`.

## Model

| member | source | states |
|---|---|---|
| JsStrings.Trim | app/page.tsx:172 | `String.prototype.trim`: the result has no leading or trailing ECMAScript white space |
| JsStrings.TrimInfix | app/page.tsx:172 | trimming removes only white space, and only from the two ends: the result is an infix of the input and what is dropped is all white space |
| JsStrings.TrimRecovers | app/page.tsx:221-226 | white space around a trimmed text is removed exactly: trim(p + r + q) == r |
| JsStrings.TrimKeepsInnerSpace | app/page.tsx:225-226 | a separator between two trimmed non-empty pieces survives the trim untouched |
| JsStrings.TrimDropsBlankHead | app/page.tsx:225 | a blank piece in front of a trimmed text vanishes under trim |
| JsStrings.TrimDropsBlankTail | app/page.tsx:225 | a blank piece after a trimmed text vanishes under trim |
| JsStrings.Split | app/page.tsx:190-192 | `split` on one character: one more piece than occurrences, the first piece runs up to the first occurrence, and no piece holds the separator |
| JsStrings.Join | app/page.tsx:171 | `Array.prototype.join`; its meaning is stated by JsStrings.JoinSplit, JsStrings.SplitJoin, JsStrings.JoinPresentEmptyIff and JsStrings.JoinAroundPresent |
| JsStrings.SplitJoin | app/page.tsx:190-192 | splitting the join of separator-free pieces gives the pieces back |
| JsStrings.JoinSplit | app/page.tsx:190-192 | joining the pieces of a split by the same character gives the original string back |
| JsStrings.Present | app/page.tsx:170-181 | `filter(Boolean)` over optional strings: every surviving entry is a non-empty string |
| JsStrings.PresentEmptyIff | app/page.tsx:170 | `filter(Boolean)` keeps nothing exactly when every entry is absent or empty |
| JsStrings.JoinPresentEmptyIff | app/page.tsx:170-171 | the joined `filter(Boolean)` text is empty exactly when every entry is absent or empty, whatever the separator |
| JsStrings.DropAbsent | app/page.tsx:180-181 | a falsy entry contributes nothing to the joined text, not even a separator |
| JsStrings.JoinAroundPresent | app/page.tsx:180-181 | a present entry between present neighbours is joined with exactly one separator on each side |
| WatermarkText.Shown | app/page.tsx:167-168 | `show && field` is kept exactly when the toggle is on and the field is present and non-empty, and then it is the field; after `filter(Boolean)` an entry whose toggle is off contributes nothing and one whose toggle is on contributes what the bare field would |
| WatermarkText.DeviceText | app/page.tsx:166-172 | the device text has no leading or trailing white space |
| WatermarkText.DeviceTextCases | app/page.tsx:166-172 | the device text is the trimmed join of whichever of manufacturer and model are shown and non-empty, by one space; both toggles off give "" |
| WatermarkText.FormatFNumber | app/page.tsx:175 | the f-number gets "f/" in front unless it already starts with f or F; the result always starts with f or F |
| WatermarkText.FormatFocalLength | app/page.tsx:177 | the focal length gets "mm" after it unless it already ends with "mm" (case-sensitive); the result always ends with "mm" |
| WatermarkText.FormatIso | app/page.tsx:178 | the ISO item "ISO" + value; stated by WatermarkText.PhotoInfoParts and WatermarkText.PhotoInfoAllShown |
| WatermarkText.PhotoInfoParts | app/page.tsx:174-179 | four entries in drawing order: entry 0 is present exactly when the f-number is shown and non-empty and then holds it decorated; entry 1 likewise holds the shutter speed verbatim, entry 2 the decorated focal length, entry 3 "ISO" + the ISO value; every surviving entry is non-empty |
| WatermarkText.PhotoInfoText | app/page.tsx:174-181 | the shown items joined by " • "; stated by WatermarkText.PhotoInfoAllShown, WatermarkText.PhotoInfoSkipsHidden, WatermarkText.PhotoInfoEmptyIff and WatermarkText.PhotoInfoHidden |
| WatermarkText.PhotoInfoAllShown | app/page.tsx:174-181 | with all four items shown and non-empty, the text is the decorated f-number, the verbatim shutter speed, the decorated focal length and the ISO item, separated by single " • " |
| WatermarkText.PhotoInfoSkipsHidden | app/page.tsx:174-181 | a hidden or empty item is dropped together with its separator: the text is the join of the other items |
| WatermarkText.PhotoInfoEmptyIff | app/page.tsx:174-181 | the photo-info text is empty if and only if no item is shown |
| WatermarkText.PhotoInfoHidden | app/page.tsx:174-181 | with the four photo-info toggles off the text is "" |
| WatermarkText.ParseDateTime | app/page.tsx:190-198 | a parsed date yields year, month and day without a colon and a time without a space |
| WatermarkText.ParseDateTimeRejects | app/page.tsx:190-195 | the date is rejected if and only if it has no space, or its part before the first space does not hold exactly two colons |
| WatermarkText.ParseDateTimeWellFormed | app/page.tsx:190-198 | "Y:M:D T" parses into exactly Y, M, D and T |
| WatermarkText.Author | app/page.tsx:206 | the author is empty if and only if the custom copyright is empty and the EXIF copyright is missing or empty |
| WatermarkText.DateFragments | app/page.tsx:184-219 | a time fragment appears only when the date toggle is on and a date is present; a copyright fragment only when the copyright toggle is on and the author is non-empty |
| WatermarkText.DateFragmentsWellFormed | app/page.tsx:187-212 | for a well-formed "Y:M:D T" the time fragment is "M/D T" plus two spaces when shown, and the copyright fragment is "Image © Y Author." when shown with a non-empty author, else "" |
| WatermarkText.DateFragmentsExample | app/page.tsx:187-212 | "2024:03:15 10:20:30" with both toggles on and custom copyright "Jane" gives the time fragment "03/15 10:20:30" plus two spaces and the copyright fragment "Image © 2024 Jane." |
| WatermarkText.DateFragmentsWithoutDate | app/page.tsx:214-219 | a missing or empty date gives no time fragment and a copyright fragment "Image © Author." without a year, when shown with a non-empty author |
| WatermarkText.DateFragmentsMalformed | app/page.tsx:187-221 | a non-empty date that does not parse gives neither fragment, whatever the toggles, and an empty copyright text |
| WatermarkText.CopyrightText | app/page.tsx:221 | the copyright text, the time fragment followed by the copyright fragment after `trim`, has no surrounding white space |
| WatermarkText.CopyrightTextHidden | app/page.tsx:200-219 | with the date and copyright toggles off the copyright text is "" |
| WatermarkText.Layout | app/page.tsx:223-226 | two lines; compact puts the location alone first, untrimmed; every trimmed line has no surrounding white space |
| WatermarkText.LayoutOfPresentPieces | app/page.tsx:223-226 | with every piece present and trimmed, normal gives [device + two spaces + info, location + two spaces + copyright] and compact gives [location, device + two spaces + info + two spaces + copyright] |
| WatermarkText.NormalFirstLineDropsEmptyPiece | app/page.tsx:225 | an empty device or photo-info text leaves the first normal line equal to the other piece, with no stray separator |
| WatermarkText.NormalSecondLineDropsEmptyPiece | app/page.tsx:225 | an empty location or copyright text leaves the second normal line equal to the other piece, with no stray separator |
| WatermarkText.CompactLineKeepsDoubleGap | app/page.tsx:226 | in the compact layout an empty photo-info text between a device and a copyright text leaves both gaps: the second line is device, four spaces, copyright |
| WatermarkText.WatermarkLines | app/page.tsx:223-226 | two lines; in the compact layout the first is the location untouched; every trimmed line has no surrounding white space |
| WatermarkText.WatermarkLinesOfPresentPieces | app/page.tsx:166-226 | the two lines computed from an EXIF record and a configuration whose pieces are all present |
| WatermarkText.AllTogglesOffGivesEmptyLines | app/page.tsx:166-226 | with every show-toggle off and an empty location both lines are "", in either layout |
| FontResolution.LookupBuiltin | app/page.tsx:27-34 | `fonts[key]` holds a built-in font exactly when the key is that font's key |
| FontResolution.FindCustom | app/page.tsx:234 | `customFonts.find` by name: the index of the first font with that name, or none when no font has it |
| FontResolution.ResolveFont | app/page.tsx:231-240 | the chosen font is a built-in font whose key is the requested one, or an uploaded font of that name, or Inter |
| FontResolution.ResolveFontCases | app/page.tsx:231-240 | a built-in key always yields that font; otherwise the first uploaded font of that name; otherwise Inter |
| RandomizeInk.Clamp | app/page.tsx:357-359 | `Math.min(255, Math.max(0, v))` lies in [0, 255], keeps a byte unchanged, and sends values below 0 to 0 and values above 255 to 255 |
| RandomizeInk.IsBright | app/page.tsx:346-349 | the brightness test `0.3 r + 0.59 g + 0.11 b > 160`, written in exact integers as `30 r + 59 g + 11 b > 16000` |
| RandomizeInk.SignedGain | app/page.tsx:345-355 | the signed gain of a draw d lies in [-d, 0] on a bright pixel and in [0, d] on a dark one |
| RandomizeInk.InkedEntry | app/page.tsx:340-359 | an entry of a pixel without ink is unchanged, and a byte stays a byte |
| RandomizeInk.Randomized | app/page.tsx:338-361 | the pass keeps the buffer length and turns a byte buffer into a byte buffer |
| RandomizeInk.RandomizePixels | app/page.tsx:338-361 | the loop leaves the buffer equal to the randomised image of its old contents |
| RandomizeInk.InkPixel | app/page.tsx:340-360 | one iteration of the loop leaves the buffer equal to the one-pixel step of its old contents |
| RandomizeInk.PartialStep | app/page.tsx:338-361 | one pixel step on a buffer whose first pixels are done and whose rest is untouched moves the pass on by exactly one pixel |
| RandomizeInk.UnmaskedPixelKept | app/page.tsx:340 | a pixel whose mask alpha is 0 keeps all four entries |
| RandomizeInk.AlphaKept | app/page.tsx:357-359 | the alpha entry of every pixel is never changed |
| RandomizeInk.InkedPixelEffect | app/page.tsx:341-359 | an inked pixel's three colour entries get the same signed gain before clamping and land in [0, 255]; a bright pixel (30r + 59g + 11b > 16000) does not brighten and drops by at most 99, and a dark one does not darken and rises by at most 99 |
| IccSegments.Word16At | lib/hdr-utils.ts:91-96 | `(d[i] << 8) \| d[i+1]` is a 16-bit value, the big-endian word when both bytes exist |
| IccSegments.Slice | lib/hdr-utils.ts:111 | `slice` clamps both bounds to the buffer: in bounds it is the plain slice, an end past the buffer stops at the end, a start at or past the end or an end before the start gives nothing |
| IccSegments.ScanFrom | lib/hdr-utils.ts:88-116 | a found profile never exceeds the 65533 bytes a 16-bit segment length can describe |
| IccSegments.ExtractICCProfile | lib/hdr-utils.ts:82-119 | the loop, including the inner signature loop with its early break, answers exactly the scan from offset 2 |
| IccSegments.MatchSignature | lib/hdr-utils.ts:100-107 | the inner byte loop with its early break answers true exactly when the twelve signature bytes are all present at the position |
| IccSegments.ScanStops | lib/hdr-utils.ts:88-118 | running out of bytes, a byte other than FF at a marker position, or an SOS marker ends the scan with no profile |
| IccSegments.ShortLengthEndsScan | lib/hdr-utils.ts:89-115 | a skipped segment whose length field is below 2 ends the scan with no profile |
| IccSegments.ScanSkipsSegment | lib/hdr-utils.ts:98-115 | an APP2 segment without the signature, or any other segment, is skipped by its length field |
| IccSegments.ScanMatchPayload | lib/hdr-utils.ts:98-111 | a signed APP2 segment yields the clamped bytes from after its length field to its end; for an intact segment exactly its payload, signature first |
| IccSegments.ScanResultOrigin | lib/hdr-utils.ts:88-118 | any profile found is the clamped payload of a signed APP2 segment at or after the start, and begins with the signature as far as it reaches |
| IccSegments.App2Segment | lib/hdr-utils.ts:136-143 | the segment is FF E2, the big-endian length (profile length + 2) mod 65536, then the profile; four bytes longer than the profile |
| IccSegments.BuildApp2Segment | lib/hdr-utils.ts:136-143 | allocating the segment buffer, writing its header by index and copying the profile in at 4 gives exactly that segment |
| IccSegments.SetAt | lib/hdr-utils.ts:158-160 | `target.set(source, at)` (also at lib/hdr-utils.ts:143): the source is copied in at `at` and the rest of the target is kept; the requires leaves out the RangeError case, which IccSegments.InsertICCProfile handles before its calls |
| IccSegments.InsertionIndex | lib/hdr-utils.ts:146-154 | directly after a leading APP0 segment, else right after SOI; stated by IccSegments.ScanResumesAtInsertionIndex and IccSegments.InsertedLayout |
| IccSegments.ScanResumesAtInsertionIndex | lib/hdr-utils.ts:146-154 | after a leading APP0 the insertion index is exactly where the extraction scan resumes once it has skipped that segment |
| IccSegments.Inserted | lib/hdr-utils.ts:157-162 | the splice fails exactly when the insertion index lies past the end of the image, and otherwise is four bytes plus the profile longer |
| IccSegments.InsertICCProfile | lib/hdr-utils.ts:126-163 | a missing profile gives the image back; otherwise the three buffer copies give exactly the spliced image, or the range error when the index lies past the end |
| IccSegments.InsertedLayout | lib/hdr-utils.ts:137-160 | the splice fails exactly when the index lies past the end; otherwise the result is four bytes plus the profile longer, keeps the bytes before the index, holds the segment at the index, and continues with the rest of the image |
| IccSegments.InsertThenExtract | lib/hdr-utils.ts:82-163 | a signed profile that fits one segment, spliced into an image whose leading APP0 length is at least 2 and whose insertion index lies inside it, is found again by extraction |
| IccSegments.ReinsertExtracted | lib/hdr-utils.ts:82-163 | a profile of at least 12 bytes extracted from one image survives being spliced into another and extracted again |

## Left out

- React state, effects and the cancellation flag, local-storage
  persistence, font upload and IndexedDB storage, drag and drop, download
  and all markup. They are browser plumbing around the modelled logic.
- Canvas drawing, font strings, text geometry (font size, line height,
  positions) and image encoding. They are floating-point graphics with no
  discrete behaviour to state. The glyph mask is a parameter of
  `RandomizePixels`.
- RandomizeInk.IsBright: uses exact integers, `30 r + 59 g + 11 b > 16000`.
  The source compares floating-point products, which can round the other
  way for a weighted sum that lies exactly on 160.
- `Math.random` is not modelled. The draws are the `gains` parameter,
  one per pixel, each in [0, 99]. Draws for pixels without ink are unused.
  The source draws only for inked pixels; this changes which random number
  lands where, not what can happen.
- The EXIF reader, the HEIC check, the gain-map extraction and the HDR
  JPEG encoder are calls into libraries that are not part of this model.
  So are the float normalisation of focal length and shutter speed done
  when EXIF is read. Their outputs appear only as the `ExifData` record
  and the byte sequences.
- FontResolution.LookupBuiltin: only the five keys of the table. A key
  such as "constructor" also finds an inherited object property in the
  source, and that is not modelled. FontResolution.ResolveFont answers
  which font is chosen, not its CSS class name or style string.
- WatermarkText.DateFragmentsExample: states the two fragments of the
  example, not the trimmed copyright text built from them, which is
  WatermarkText.CopyrightText applied to those fragments.
- IccSegments.InsertICCProfile: the `!iccProfile` guard is modelled by an
  `Option` parameter. Only a missing profile is falsy, so an empty profile
  is spliced like any other.
- IccSegments.InsertICCProfile: the source's typed-array buffers become
  fresh arrays whose contents are returned as a sequence. The input is a
  sequence and so cannot be changed.
- The type declarations beyond `ExifData` and `AppConfig`, the page
  metadata, the manifest and the toast component have no behaviour here.
