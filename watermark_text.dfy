/** The two watermark lines drawn on the photo (app/page.tsx, the text
    preparation of the render effect): the device text, the photo-info text,
    the date/copyright text, and their arrangement for the normal and the
    compact layout. */
module WatermarkText {
  import opened Wrappers
  import opened JsStrings
  import opened AppTypes

  /** The separator between photo-info items: space, U+2022 BULLET, space. */
  const Bullet: string := " \U{2022} "
  /** Two spaces separate the pieces of one watermark line. */
  const Gap: string := "  "

  /** `show && field` as a `filter(Boolean)` entry: the field's text when its
      toggle is on and the field is present and non-empty. */
  function Shown(show: bool, field: Option<string>): (r: Option<string>)
    ensures r.Some? <==> show && field.Some? && field.value != ""
    ensures r.Some? ==> r == field
    ensures Present([r]) == if show then Present([field]) else []
  {
    if show && field.Some? && field.value != "" then field else None
  }

  function MapOpt(o: Option<string>, f: string -> string): Option<string> {
    match o
    case None => None
    case Some(v) => Some(f(v))
  }

  // ---------------------------------------------------------------- device

  /** Manufacturer and model, each only when shown and non-empty, joined by one space and trimmed. */
  function DeviceText(exif: ExifData, config: AppConfig): (r: string)
    ensures IsTrimmed(r)
  {
    Trim(Join(Present([Shown(config.showManufacturer, exif.manufacturer),
                       Shown(config.showModel, exif.model)]), " "))
  }

  lemma {:induction false} DeviceTextCases(exif: ExifData, config: AppConfig)
    ensures var make := Shown(config.showManufacturer, exif.manufacturer);
            var model := Shown(config.showModel, exif.model);
            DeviceText(exif, config)
            == if make.Some? && model.Some? then Trim(make.value + " " + model.value)
               else if make.Some? then Trim(make.value)
               else if model.Some? then Trim(model.value)
               else ""
    ensures !config.showManufacturer && !config.showModel ==> DeviceText(exif, config) == ""
  {
    var make := Shown(config.showManufacturer, exif.manufacturer);
    var model := Shown(config.showModel, exif.model);
    assert [make, model][1..] == [model];
    assert [model][1..] == [];
    var tail := if model.Some? then [model.value] else [];
    assert Present([model]) == tail;
    if make.Some? {
      assert Present([make, model]) == [make.value] + tail;
    } else {
      assert Present([make, model]) == tail;
    }
    if make.None? && model.None? {
      assert Join(Present([make, model]), " ") == "";
      TrimOfTrimmed("");
    } else if make.Some? && model.Some? {
      assert Join(Present([make, model]), " ") == make.value + " " + model.value;
    }
  }

  // ------------------------------------------------------------ photo info

  predicate StartsWithF(s: string) {
    |s| > 0 && (s[0] == 'f' || s[0] == 'F')
  }

  predicate EndsWithMm(s: string) {
    |s| >= 2 && s[|s| - 2..] == "mm"
  }

  /** The f-number gets an "f/" prefix unless it already starts with f or F. */
  function FormatFNumber(f: string): (r: string)
    ensures StartsWithF(r)
    ensures StartsWithF(f) ==> r == f
    ensures !StartsWithF(f) ==> r == "f/" + f
  {
    if StartsWithF(f) then f else "f/" + f
  }

  /** The focal length gets an "mm" suffix unless it already ends with "mm". */
  function FormatFocalLength(fl: string): (r: string)
    ensures EndsWithMm(r)
    ensures EndsWithMm(fl) ==> r == fl
    ensures !EndsWithMm(fl) ==> r == fl + "mm"
  {
    if EndsWithMm(fl) then fl else fl + "mm"
  }

  /** The ISO value gets an "ISO" prefix with no space. */
  function FormatIso(iso: string): (r: string)
    ensures |r| == |iso| + 3 && r[..3] == "ISO" && r[3..] == iso
  {
    var r := "ISO" + iso;
    assert r[3..] == iso;
    r
  }

  /** The four photo-info entries in the order they are drawn, falsy when hidden or empty. */
  function PhotoInfoParts(exif: ExifData, config: AppConfig): (r: seq<Option<string>>)
    ensures |r| == 4
    ensures forall k :: 0 <= k < 4 && r[k].Some? ==> r[k].value != ""
    ensures r[0].Some? <==> config.showFNumber && exif.fNumber.Some? && exif.fNumber.value != ""
    ensures r[0].Some? ==> r[0].value == FormatFNumber(exif.fNumber.value)
    ensures r[1].Some? <==> config.showShutterSpeed && exif.shutterSpeed.Some? && exif.shutterSpeed.value != ""
    ensures r[1].Some? ==> r[1].value == exif.shutterSpeed.value
    ensures r[2].Some? <==> config.showFocalLength && exif.focalLength.Some? && exif.focalLength.value != ""
    ensures r[2].Some? ==> r[2].value == FormatFocalLength(exif.focalLength.value)
    ensures r[3].Some? <==> config.showISO && exif.iso.Some? && exif.iso.value != ""
    ensures r[3].Some? ==> r[3].value == "ISO" + exif.iso.value
  {
    [MapOpt(Shown(config.showFNumber, exif.fNumber), FormatFNumber),
     Shown(config.showShutterSpeed, exif.shutterSpeed),
     MapOpt(Shown(config.showFocalLength, exif.focalLength), FormatFocalLength),
     MapOpt(Shown(config.showISO, exif.iso), FormatIso)]
  }

  /** The shown items joined by bullets. */
  function PhotoInfoText(exif: ExifData, config: AppConfig): string {
    Join(Present(PhotoInfoParts(exif, config)), Bullet)
  }

  /** Every photo-info item shown: decorated values joined by single bullets. */
  lemma {:induction false} PhotoInfoAllShown(exif: ExifData, config: AppConfig, f: string, s: string, fl: string, iso: string)
    requires config.showFNumber && config.showShutterSpeed && config.showFocalLength && config.showISO
    requires exif.fNumber == Some(f) && exif.shutterSpeed == Some(s)
    requires exif.focalLength == Some(fl) && exif.iso == Some(iso)
    requires f != "" && s != "" && fl != "" && iso != ""
    ensures PhotoInfoText(exif, config)
         == FormatFNumber(f) + Bullet + s + Bullet + FormatFocalLength(fl) + Bullet + "ISO" + iso
  {
    var a, b, c, d := FormatFNumber(f), s, FormatFocalLength(fl), FormatIso(iso);
    assert PhotoInfoParts(exif, config) == [Some(a), Some(b), Some(c), Some(d)];
    PresentOfFour(a, b, c, d);
    JoinOfFour(a, b, c, d, Bullet);
  }

  /** A hidden or empty item leaves no trace, not even a separator: the text is
      the join of the remaining items. */
  lemma {:induction false} PhotoInfoSkipsHidden(exif: ExifData, config: AppConfig, k: nat)
    requires k < 4 && PhotoInfoParts(exif, config)[k].None?
    ensures var parts := PhotoInfoParts(exif, config);
            PhotoInfoText(exif, config) == Join(Present(parts[..k] + parts[k + 1..]), Bullet)
  {
    var parts := PhotoInfoParts(exif, config);
    assert parts == parts[..k] + [parts[k]] + parts[k + 1..];
    DropAbsent(parts[..k], parts[k], parts[k + 1..], Bullet);
  }

  /** The photo-info text is empty exactly when no item is shown. */
  lemma {:induction false} PhotoInfoEmptyIff(exif: ExifData, config: AppConfig)
    ensures PhotoInfoText(exif, config) == ""
        <==> (forall k :: 0 <= k < 4 ==> PhotoInfoParts(exif, config)[k].None?)
  {
    JoinPresentEmptyIff(PhotoInfoParts(exif, config), Bullet);
  }

  // --------------------------------------------------------- date and time

  /** The pieces of an EXIF date "YYYY:MM:DD HH:MM:SS". */
  datatype DateTimeFields = DateTimeFields(year: string, month: string, day: string, time: string)

  /** Split on " "; at least two pieces are needed, and the first must split
      on ":" into exactly three. */
  function ParseDateTime(dt: string): (r: Option<DateTimeFields>)
    ensures r.Some? ==> ':' !in r.value.year && ':' !in r.value.month && ':' !in r.value.day
    ensures r.Some? ==> ' ' !in r.value.time
  {
    var parts := Split(dt, ' ');
    if |parts| >= 2 then
      var dateParts := Split(parts[0], ':');
      if |dateParts| == 3 then Some(DateTimeFields(dateParts[0], dateParts[1], dateParts[2], parts[1]))
      else None
    else None
  }

  /** A date with no space, or whose part before the first space does not
      hold exactly two colons, is not parsed. */
  lemma {:induction false} ParseDateTimeRejects(dt: string)
    ensures ParseDateTime(dt).None? <==> Count(dt, ' ') == 0 || Count(TakeUntil(dt, ' '), ':') != 2
  {
  }

  /** A well-formed "Y:M:D T" is parsed into exactly its four pieces. */
  lemma {:induction false} ParseDateTimeWellFormed(y: string, m: string, d: string, t: string)
    requires ':' !in y && ':' !in m && ':' !in d
    requires ' ' !in y && ' ' !in m && ' ' !in d && ' ' !in t
    ensures ParseDateTime(y + ":" + m + ":" + d + " " + t) == Some(DateTimeFields(y, m, d, t))
  {
    var date := y + ":" + m + ":" + d;
    assert Join([y, m, d], [':']) == date by {
      assert [y, m, d][1..] == [m, d];
      assert [m, d][1..] == [d];
      assert Join([d], [':']) == d;
      assert Join([m, d], [':']) == m + [':'] + d;
      assert Join([y, m, d], [':']) == y + [':'] + (m + [':'] + d);
    }
    SplitJoin([y, m, d], ':');
    assert ' ' !in date;
    assert Join([date, t], [' ']) == date + " " + t by {
      assert [date, t][1..] == [t];
    }
    SplitJoin([date, t], ' ');
    assert date + " " + t == y + ":" + m + ":" + d + " " + t;
  }

  /** `config.customCopyright || exifData.copyright || ""`. */
  function Author(customCopyright: string, exifCopyright: Option<string>): (r: string)
    ensures customCopyright != "" ==> r == customCopyright
    ensures customCopyright == "" ==> r == exifCopyright.GetOr("")
    ensures r == "" <==> customCopyright == "" && (exifCopyright.None? || exifCopyright.value == "")
  {
    if customCopyright != "" then customCopyright
    else if exifCopyright.Some? && exifCopyright.value != "" then exifCopyright.value
    else ""
  }

  /** The time fragment and the copyright fragment. */
  datatype Fragments = Fragments(time: string, copyright: string)

  /** The two fragments; each appears only when its toggle is on, and the
      copyright fragment only for a non-empty author. */
  function DateFragments(exif: ExifData, config: AppConfig): (r: Fragments)
    ensures r.time != "" ==> config.showDateTime && exif.dateTime.Some?
    ensures r.copyright != "" ==> config.showCopyright && Author(config.customCopyright, exif.copyright) != ""
  {
    var author := Author(config.customCopyright, exif.copyright);
    if exif.dateTime.Some? && exif.dateTime.value != "" then
      match ParseDateTime(exif.dateTime.value)
      case None => Fragments("", "")
      case Some(f) =>
        Fragments(
          if config.showDateTime then f.month + "/" + f.day + " " + f.time + "  " else "",
          if config.showCopyright && author != "" then "Image \U{A9} " + f.year + " " + author + "." else "")
    else if config.showCopyright && author != "" then
      Fragments("", "Image \U{A9} " + author + ".")
    else
      Fragments("", "")
  }

  /** Time fragment followed by copyright fragment, trimmed. */
  function CopyrightText(exif: ExifData, config: AppConfig): (r: string)
    ensures IsTrimmed(r)
  {
    var fr := DateFragments(exif, config);
    Trim(fr.time + fr.copyright)
  }

  /** A well-formed "Y:M:D T": the time fragment is "M/D T" plus two spaces, and
      the copyright fragment names the year and the resolved author. */
  lemma {:induction false} DateFragmentsWellFormed(exif: ExifData, config: AppConfig, y: string, m: string, d: string, t: string)
    requires ':' !in y && ':' !in m && ':' !in d
    requires ' ' !in y && ' ' !in m && ' ' !in d && ' ' !in t
    requires exif.dateTime == Some(y + ":" + m + ":" + d + " " + t)
    ensures var fr := DateFragments(exif, config);
            var author := Author(config.customCopyright, exif.copyright);
            && fr.time == (if config.showDateTime then m + "/" + d + " " + t + "  " else "")
            && fr.copyright == (if config.showCopyright && author != ""
                                then "Image \U{A9} " + y + " " + author + "." else "")
  {
    ParseDateTimeWellFormed(y, m, d, t);
  }

  /** The EXIF date "2024:03:15 10:20:30" with both toggles on and the custom
      author "Jane". The date's pieces are parameters pinned by the requires,
      which keeps the literals from being unfolded. */
  lemma {:induction false} DateFragmentsExample(exif: ExifData, config: AppConfig, y: string, m: string, d: string, t: string)
    requires y == "2024" && m == "03" && d == "15" && t == "10:20:30"
    requires exif.dateTime == Some(y + ":" + m + ":" + d + " " + t)
    requires config.showDateTime && config.showCopyright && config.customCopyright == "Jane"
    ensures DateFragments(exif, config) == Fragments("03/15 10:20:30  ", "Image \U{A9} 2024 Jane.")
  {
    DateFragmentsWellFormed(exif, config, y, m, d, t);
    ExampleTexts(y, m, d, t);
  }

  lemma {:induction false} ExampleTexts(y: string, m: string, d: string, t: string)
    requires y == "2024" && m == "03" && d == "15" && t == "10:20:30"
    ensures m + "/" + d + " " + t + "  " == "03/15 10:20:30  "
    ensures "Image \U{A9} " + y + " " + "Jane" + "." == "Image \U{A9} 2024 Jane."
  {
  }

  /** No date, or an empty one: no time fragment, and the copyright has no year. */
  lemma {:induction false} DateFragmentsWithoutDate(exif: ExifData, config: AppConfig)
    requires exif.dateTime.None? || exif.dateTime == Some("")
    ensures var author := Author(config.customCopyright, exif.copyright);
            DateFragments(exif, config)
            == Fragments("", if config.showCopyright && author != "" then "Image \U{A9} " + author + "." else "")
  {
  }

  /** A non-empty date that does not parse suppresses both fragments, whatever the toggles say. */
  lemma {:induction false} DateFragmentsMalformed(exif: ExifData, config: AppConfig)
    requires exif.dateTime.Some? && exif.dateTime.value != ""
    requires Count(exif.dateTime.value, ' ') == 0 || Count(TakeUntil(exif.dateTime.value, ' '), ':') != 2
    ensures DateFragments(exif, config) == Fragments("", "")
    ensures CopyrightText(exif, config) == ""
  {
    ParseDateTimeRejects(exif.dateTime.value);
    TrimOfTrimmed("");
  }

  // ---------------------------------------------------------------- layout

  /** The arrangement of the pieces: normal puts device and photo info first,
      location and copyright second; compact puts the location alone first and
      everything else second. */
  function Layout(wt: WatermarkType, location: string, device: string, info: string, copyright: string): (r: seq<string>)
    ensures |r| == 2
    ensures wt == Compact ==> r[0] == location
    ensures wt == Normal ==> IsTrimmed(r[0])
    ensures IsTrimmed(r[1])
  {
    match wt
    case Normal => [Trim(device + Gap + info), Trim(location + Gap + copyright)]
    case Compact => [location, Trim(device + Gap + info + Gap + copyright)]
  }

  /** The two watermark lines of a photo. */
  function WatermarkLines(exif: ExifData, config: AppConfig): (r: seq<string>)
    ensures |r| == 2
    ensures config.watermarkType == Compact ==> r[0] == config.location
    ensures config.watermarkType == Normal ==> IsTrimmed(r[0])
    ensures IsTrimmed(r[1])
  {
    Layout(config.watermarkType, config.location,
           DeviceText(exif, config), PhotoInfoText(exif, config), CopyrightText(exif, config))
  }

  /** With every show-toggle off and no location, both lines are empty. */
  lemma {:induction false} AllTogglesOffGivesEmptyLines(exif: ExifData, config: AppConfig)
    requires config.AllShowTogglesOff() && config.location == ""
    ensures WatermarkLines(exif, config) == ["", ""]
  {
    DeviceTextCases(exif, config);
    assert DeviceText(exif, config) == "";
    PhotoInfoHidden(exif, config);
    CopyrightTextHidden(exif, config);
    LayoutOfEmptyPieces(config.watermarkType);
  }

  /** With the four photo-info toggles off there is no photo-info text. */
  lemma {:induction false} PhotoInfoHidden(exif: ExifData, config: AppConfig)
    requires !config.showFNumber && !config.showShutterSpeed && !config.showFocalLength && !config.showISO
    ensures PhotoInfoText(exif, config) == ""
  {
    var parts := PhotoInfoParts(exif, config);
    assert parts == [None, None, None, None];
    PhotoInfoEmptyIff(exif, config);
  }

  /** With the date and copyright toggles off there is no copyright text. */
  lemma {:induction false} CopyrightTextHidden(exif: ExifData, config: AppConfig)
    requires !config.showDateTime && !config.showCopyright
    ensures CopyrightText(exif, config) == ""
  {
    assert DateFragments(exif, config) == Fragments("", "");
    assert "" + "" == "";
    TrimOfTrimmed("");
  }

  lemma {:induction false} LayoutOfEmptyPieces(wt: WatermarkType)
    ensures Layout(wt, "", "", "", "") == ["", ""]
  {
    LayoutOfBlankPieces(wt, "");
  }

  /** The same for pieces named by a variable, which keeps the literal out of the unfolding. */
  lemma {:induction false} LayoutOfBlankPieces(wt: WatermarkType, e: string)
    requires e == ""
    ensures Layout(wt, e, e, e, e) == [e, e]
  {
    var one, two := e + Gap + e, e + Gap + e + Gap + e;
    assert one == Gap && two == Gap + Gap;
    assert AllSpace(one) && AllSpace(two);
    TrimAllSpace(one);
    TrimAllSpace(two);
  }

  /** When every piece is present and the photo info has no surrounding white
      space, the pieces are separated by exactly two spaces and nothing is trimmed away. */
  lemma {:induction false} LayoutOfPresentPieces(wt: WatermarkType, location: string, device: string, info: string, copyright: string)
    requires device != "" && IsTrimmed(device) && copyright != "" && IsTrimmed(copyright)
    requires info != "" && IsTrimmed(info)
    requires location != "" && IsTrimmed(location)
    ensures Layout(wt, location, device, info, copyright)
            == match wt
               case Normal => [device + Gap + info, location + Gap + copyright]
               case Compact => [location, device + Gap + info + Gap + copyright]
  {
    if wt == Normal {
      TrimKeepsInnerSpace(device, Gap, info);
      TrimKeepsInnerSpace(location, Gap, copyright);
    } else {
      var head := device + Gap + info;
      assert head[0] == device[0] && head[|head| - 1] == info[|info| - 1];
      TrimKeepsInnerSpace(head, Gap, copyright);
    }
  }

  /** An empty device or photo-info text leaves no stray separator on the
      normal layout's first line: the line is the other piece alone. */
  lemma {:induction false} NormalFirstLineDropsEmptyPiece(location: string, device: string, info: string, copyright: string)
    requires IsTrimmed(device) && IsTrimmed(info)
    ensures device == "" ==> Layout(Normal, location, device, info, copyright)[0] == info
    ensures info == "" ==> Layout(Normal, location, device, info, copyright)[0] == device
  {
    if device == "" {
      assert device + Gap + info == Gap + info;
      TrimDropsBlankHead(Gap, info);
    }
    if info == "" {
      assert device + Gap + info == device + Gap;
      TrimDropsBlankTail(device, Gap);
    }
  }

  /** An empty location or copyright text leaves no stray separator on the
      normal layout's second line: the line is the other piece alone. */
  lemma {:induction false} NormalSecondLineDropsEmptyPiece(location: string, device: string, info: string, copyright: string)
    requires IsTrimmed(location) && IsTrimmed(copyright)
    ensures location == "" ==> Layout(Normal, location, device, info, copyright)[1] == copyright
    ensures copyright == "" ==> Layout(Normal, location, device, info, copyright)[1] == location
  {
    if location == "" {
      assert location + Gap + copyright == Gap + copyright;
      TrimDropsBlankHead(Gap, copyright);
    }
    if copyright == "" {
      assert location + Gap + copyright == location + Gap;
      TrimDropsBlankTail(location, Gap);
    }
  }

  /** The compact layout joins all three texts on its second line, so an empty
      photo-info text between a device and a copyright text leaves both gaps
      standing: four spaces between them. */
  lemma {:induction false} CompactLineKeepsDoubleGap(location: string, device: string, info: string, copyright: string)
    requires info == "" && device != "" && IsTrimmed(device) && copyright != "" && IsTrimmed(copyright)
    ensures Layout(Compact, location, device, info, copyright)[1] == device + Gap + Gap + copyright
  {
    assert device + Gap + info + Gap + copyright == device + (Gap + Gap) + copyright;
    assert AllSpace(Gap + Gap);
    TrimKeepsInnerSpace(device, Gap + Gap, copyright);
  }

  /** The watermark of a photo with every piece present (see LayoutOfPresentPieces). */
  lemma {:induction false} WatermarkLinesOfPresentPieces(exif: ExifData, config: AppConfig)
    requires DeviceText(exif, config) != "" && CopyrightText(exif, config) != ""
    requires PhotoInfoText(exif, config) != "" && IsTrimmed(PhotoInfoText(exif, config))
    requires config.location != "" && IsTrimmed(config.location)
    ensures var device, info, copyright := DeviceText(exif, config), PhotoInfoText(exif, config), CopyrightText(exif, config);
            WatermarkLines(exif, config)
            == match config.watermarkType
               case Normal => [device + Gap + info, config.location + Gap + copyright]
               case Compact => [config.location, device + Gap + info + Gap + copyright]
  {
    LayoutOfPresentPieces(config.watermarkType, config.location,
      DeviceText(exif, config), PhotoInfoText(exif, config), CopyrightText(exif, config));
  }
}
