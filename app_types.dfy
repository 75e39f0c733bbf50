/** The records the watermark code reads: the EXIF fields delivered by the
    EXIF reader (every field may be missing) and the user's configuration. */
module AppTypes {
  import opened Wrappers

  datatype ExifData = ExifData(
    manufacturer: Option<string>,
    model: Option<string>,
    fNumber: Option<string>,
    shutterSpeed: Option<string>,
    focalLength: Option<string>,
    focalLengthIn35mm: Option<string>,
    iso: Option<string>,
    dateTime: Option<string>,
    copyright: Option<string>,
    isHDR: Option<bool>)

  datatype WatermarkType = Normal | Compact
  datatype Randomization = Randomize | Static
  datatype AlterBrightness = Dim | Brighten
  datatype ExportFormat = Jpeg | Png | Webp
  datatype ColorSpace = Srgb | DisplayP3

  datatype AppConfig = AppConfig(
    showManufacturer: bool,
    showModel: bool,
    showFNumber: bool,
    showShutterSpeed: bool,
    showFocalLength: bool,
    showISO: bool,
    showDateTime: bool,
    showCopyright: bool,
    watermarkType: WatermarkType,
    randomization: Randomization,
    alterBrightness: AlterBrightness,
    location: string,
    customCopyright: string,
    exportFormat: ExportFormat,
    font: string,
    fontWeight: string,
    useCustomCopyright: bool,
    useCustomLocation: bool,
    enableHDR: bool,
    colorSpace: ColorSpace)
  {
    /** Every toggle that puts a field into the watermark is off. */
    predicate AllShowTogglesOff() {
      !showManufacturer && !showModel && !showFNumber && !showShutterSpeed
      && !showFocalLength && !showISO && !showDateTime && !showCopyright
    }
  }
}
