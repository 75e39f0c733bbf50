/** Which font the watermark is drawn in (app/page.tsx, font selection of
    the render effect): a key of the built-in table, else an uploaded font of
    that name, else Inter. */
module FontResolution {
  import opened Wrappers

  /** The five fonts the page ships with. */
  datatype BuiltinFont = Inter | Roboto | GoogleSans | Playfair | SpaceMono {
    /** The key of the built-in table that names the font. */
    function Key(): string {
      match this
      case Inter => "inter"
      case Roboto => "roboto"
      case GoogleSans => "googleSans"
      case Playfair => "playfair"
      case SpaceMono => "spaceMono"
    }

  }

  /** An uploaded font: its CSS family is its name. */
  datatype CustomFont = CustomFont(name: string, style: string)

  /** The font chosen for drawing; an uploaded font is used with an empty class name. */
  datatype Font = Builtin(builtin: BuiltinFont) | Custom(custom: CustomFont)

  /** `fonts[key]`: the built-in font with that key, if any. */
  function LookupBuiltin(key: string): (r: Option<BuiltinFont>)
    ensures forall f: BuiltinFont :: r == Some(f) <==> f.Key() == key
  {
    if key == "inter" then Some(Inter)
    else if key == "roboto" then Some(Roboto)
    else if key == "googleSans" then Some(GoogleSans)
    else if key == "playfair" then Some(Playfair)
    else if key == "spaceMono" then Some(SpaceMono)
    else None
  }

  /** `customFonts.find(f => f.name === name)` as an index: the first font with that name. */
  function FindCustom(customs: seq<CustomFont>, name: string): (r: Option<nat>)
    ensures r.Some? ==> r.value < |customs| && customs[r.value].name == name
    ensures r.Some? ==> forall j :: 0 <= j < r.value ==> customs[j].name != name
    ensures r.None? ==> forall j :: 0 <= j < |customs| ==> customs[j].name != name
  {
    if customs == [] then None
    else if customs[0].name == name then Some(0)
    else match FindCustom(customs[1..], name)
      case None => None
      case Some(i) => Some(i + 1)
  }

  /** `fonts[key]`, else the first uploaded font named `key`, else Inter. */
  function ResolveFont(key: string, customs: seq<CustomFont>): (r: Font)
    ensures r.Builtin? ==> r.builtin.Key() == key || r.builtin == Inter
    ensures r.Custom? ==> r.custom in customs && r.custom.name == key
  {
    match LookupBuiltin(key)
    case Some(f) => Builtin(f)
    case None =>
      match FindCustom(customs, key)
      case Some(i) => Custom(customs[i])
      case None => Builtin(Inter)
  }

  /** A built-in key always wins; otherwise the first uploaded font of that
      name is used; otherwise Inter. */
  lemma {:induction false} ResolveFontCases(key: string, customs: seq<CustomFont>)
    ensures forall f: BuiltinFont :: f.Key() == key ==> ResolveFont(key, customs) == Builtin(f)
    ensures (forall f: BuiltinFont :: f.Key() != key) ==>
              ResolveFont(key, customs)
              == if exists j :: 0 <= j < |customs| && customs[j].name == key
                 then Custom(customs[FindCustom(customs, key).value])
                 else Builtin(Inter)
    ensures ResolveFont(key, customs).Custom? ==>
              exists j :: 0 <= j < |customs| && customs[j] == ResolveFont(key, customs).custom
                          && customs[j].name == key
                          && forall i :: 0 <= i < j ==> customs[i].name != key
  {
    if ResolveFont(key, customs).Custom? {
      var j := FindCustom(customs, key).value;
      assert customs[j] == ResolveFont(key, customs).custom;
    }
  }
}
