/**
 The `ColorPicker` object: the surfaces of the page (the native colour
 picker, the hex text field, three sliders and their value labels, the
 preview swatch and the `0x` output field) as fields, and the handlers that
 rewrite all of them together from one input, or leave all of them alone.
 */
module ColorPickerState {
  import opened JsString
  import opened ColorFormat

  /** What `getCurrentColor` reports. */
  datatype CurrentColor = CurrentColor(hex: string, rgb: Option<Rgb>, ox: string)

  /** The text the hex-field handler checks: the typed text trimmed, with a
      `#` put in front when it is non-empty and does not start with one. */
  function HexFieldText(input: string): (h: string)
    ensures h == [] <==> Trim(input) == []
    ensures h != [] ==> h[0] == '#'
    ensures h != [] ==> StripHash(h) == if Trim(input)[0] == '#' then Trim(input)[1..] else Trim(input)
  {
    var hex := Trim(input);
    if hex != [] && hex[0] != '#' then "#" + hex else hex
  }

  /** The hex field takes typed text exactly when, trimmed and without one
      leading `#`, it is three or six hex digits. */
  lemma HexFieldAccepts(input: string)
    ensures var t := Trim(input);
      var digits := if t != [] && t[0] == '#' then t[1..] else t;
      IsValidHex(HexFieldText(input)) <==> (|digits| == 3 || |digits| == 6) && AllHex(digits)
  {
    var h := HexFieldText(input);
    if h == [] {
      assert StripHash(h) == [];
    }
  }

  /** Empty and blank text is not taken. */
  lemma BlankInputRefused(input: string)
    requires forall i :: 0 <= i < |input| ==> IsJsWhitespace(input[i])
    ensures !IsValidHex(HexFieldText(input))
  {
    HexFieldAccepts(input);
  }

  /** Half-typed text is not taken: once trimmed and without a leading
      `#`, text of fewer than three digits (such as `#ab`), of four or five,
      or of more than six is refused whatever its characters. */
  lemma IncompleteInputRefused(input: string)
    ensures var t := Trim(input);
      var digits := if t != [] && t[0] == '#' then t[1..] else t;
      |digits| != 3 && |digits| != 6 ==> !IsValidHex(HexFieldText(input))
  {
    HexFieldAccepts(input);
  }

  /** The `0x` field shows the digits as they were typed, after `0x`: the
      hex-field path neither expands the shorthand nor lowers the case. */
  lemma OxShowsTypedDigits(input: string)
    requires Trim(input) != []
    ensures var t := Trim(input);
      var digits := if t[0] == '#' then t[1..] else t;
      HexToOx(HexFieldText(input)) == "0x" + digits
  {
    var h := HexFieldText(input);
    HexToOxForm(h);
    assert h[1..] == if Trim(input)[0] == '#' then Trim(input)[1..] else Trim(input);
  }

  /** The colour `setDefaultColor` is given at construction. */
  const DefaultHexColor: string := "#283d46"

  /** `rgbToHex(40, 61, 70)` is the default colour. */
  lemma DefaultHex()
    ensures RgbToHex(40, 61, 70) == DefaultHexColor
  {
    ToHexByte(40);
    ToHexByte(61);
    ToHexByte(70);
    assert HexDigit(2) == '2' && HexDigit(8) == '8';
    assert HexDigit(3) == '3' && HexDigit(13) == 'd';
    assert HexDigit(4) == '4' && HexDigit(6) == '6';
  }

  /** The colour the page starts with: `#283d46` is red 40, green 61,
      blue 70, the canonical text of those channels, and `0x283d46` in the
      output field. */
  lemma DefaultColor()
    ensures Decodable(DefaultHexColor) && HexToRgb(DefaultHexColor) == Some(Rgb(40, 61, 70))
    ensures RgbToHex(40, 61, 70) == DefaultHexColor
    ensures HexToOx(DefaultHexColor) == "0x283d46"
  {
    DefaultHex();
    RoundTrip(40, 61, 70);
    DefaultOx();
  }

  lemma DefaultOx()
    ensures HexToOx(DefaultHexColor) == "0x283d46"
  {
    var digits := DefaultHexColor[1..];
    assert DefaultHexColor == "#" + digits;
    OxOfHashText(DefaultHexColor, digits);
    assert "0x" + digits == "0x283d46";
  }

  class ColorPicker {
    var colorPicker: string   // value of the native colour input
    var hexInput: string      // value of the hex text field
    var redSlider: int
    var greenSlider: int
    var blueSlider: int
    var redValue: int         // text of the label beside each slider
    var greenValue: int
    var blueValue: int
    var colorPreview: string  // background colour of the preview swatch
    var oxOutput: string      // value of the `0x` output field

    /** Every surface shows the colour `hex` whose channels are `rgb`. */
    ghost predicate Synced(hex: string, rgb: Rgb)
      reads this
    {
      && colorPicker == hex && hexInput == hex
      && redSlider == rgb.r && greenSlider == rgb.g && blueSlider == rgb.b
      && redValue == rgb.r && greenValue == rgb.g && blueValue == rgb.b
      && colorPreview == hex && oxOutput == HexToOx(hex)
    }

    /** The object invariant: the picker holds hex text `isValidHex` accepts,
        and every surface shows the colour it decodes to. */
    ghost predicate Valid()
      reads this
    {
      IsValidHex(colorPicker) && Synced(colorPicker, HexToRgb(colorPicker).value)
    }

    /** A new picker shows `#283d46`: red 40, green 61, blue 70. */
    constructor ()
      ensures Valid()
      ensures Synced(DefaultHexColor, Rgb(40, 61, 70))
      ensures oxOutput == "0x283d46"
    {
      colorPicker, hexInput, colorPreview, oxOutput := "", "", "", "";
      redSlider, greenSlider, blueSlider := 0, 0, 0;
      redValue, greenValue, blueValue := 0, 0, 0;
      new;
      DefaultColor();
      SetDefaultColor(DefaultHexColor);
    }

    /** `setDefaultColor`: the picker path, applied to the given colour. */
    method SetDefaultColor(hexColor: string)
      requires Decodable(hexColor)
      modifies this
      ensures HexToRgb(hexColor).None? ==> unchanged(this)
      ensures HexToRgb(hexColor).Some? ==> Synced(hexColor, HexToRgb(hexColor).value) && Valid()
    {
      UpdateFromColorPicker(hexColor);
    }

    /** The native picker changed: decode its text and, if that succeeds,
        show that text verbatim on every surface; otherwise change nothing. */
    method UpdateFromColorPicker(hexColor: string)
      requires Decodable(hexColor)
      modifies this
      ensures HexToRgb(hexColor).None? ==> unchanged(this)
      ensures HexToRgb(hexColor).Some? ==> Synced(hexColor, HexToRgb(hexColor).value) && Valid()
    {
      var rgb := HexToRgb(hexColor);
      if rgb.None? {
        return;
      }
      ValidIffDecodes(hexColor);
      UpdateAllInputs(hexColor, rgb.value);
    }

    /** The hex field changed: trim the text, put `#` in front if missing,
        and, if `isValidHex` takes the result, show it verbatim on every
        surface; otherwise change nothing. */
    method UpdateFromHexInput(input: string)
      modifies this
      ensures var h := HexFieldText(input);
        && (IsValidHex(h) ==> Synced(h, HexToRgb(h).value) && Valid())
        && (!IsValidHex(h) ==> unchanged(this))
    {
      var hex := Trim(input);
      if hex != [] && hex[0] != '#' {
        hex := "#" + hex;
      }
      if IsValidHex(hex) {
        var rgb := HexToRgb(hex);
        if rgb.Some? {
          UpdateAllInputs(hex, rgb.value);
        }
      }
    }

    /** A slider moved: the three slider positions are read together (the
        range inputs keep each in [0, 255]), and every surface shows the
        canonical `#rrggbb` text `rgbToHex` writes for them. This path
        always succeeds. */
    method UpdateFromRgbSliders()
      requires IsByte(redSlider) && IsByte(greenSlider) && IsByte(blueSlider)
      modifies this
      ensures var r, g, b := old(redSlider), old(greenSlider), old(blueSlider);
        Synced(RgbToHex(r, g, b), Rgb(r, g, b)) && Valid()
    {
      var r, g, b := redSlider, greenSlider, blueSlider;
      var hex := RgbToHex(r, g, b);
      RoundTrip(r, g, b);
      ValidIffDecodes(hex);
      UpdateAllInputs(hex, Rgb(r, g, b));
    }

    /** Write one colour to every surface. */
    method UpdateAllInputs(hexColor: string, rgb: Rgb)
      modifies this
      ensures Synced(hexColor, rgb)
    {
      colorPicker := hexColor;
      hexInput := hexColor;
      redSlider, greenSlider, blueSlider := rgb.r, rgb.g, rgb.b;
      redValue, greenValue, blueValue := rgb.r, rgb.g, rgb.b;
      UpdateColorPreview(hexColor);
      UpdateOxOutput(hexColor);
    }

    method UpdateColorPreview(hexColor: string)
      modifies this`colorPreview
      ensures colorPreview == hexColor
    {
      colorPreview := hexColor;
    }

    method UpdateOxOutput(hexColor: string)
      modifies this`oxOutput
      ensures oxOutput == HexToOx(hexColor)
    {
      oxOutput := HexToOx(hexColor);
    }

    /** `getCurrentColor`: the picker's text, its decoded channels and its
        `0x` form. In a valid state these are what the sliders and the
        output field show. */
    method GetCurrentColor() returns (c: CurrentColor)
      requires Decodable(colorPicker)
      ensures c.hex == colorPicker
      ensures c.rgb == HexToRgb(colorPicker) && c.ox == HexToOx(colorPicker)
      ensures c.rgb.Some? <==> IsValidHex(colorPicker)
      ensures Valid() ==> c.rgb == Some(Rgb(redSlider, greenSlider, blueSlider))
      ensures Valid() ==> c.hex == hexInput == colorPreview && c.ox == oxOutput
    {
      var hex := colorPicker;
      var rgb := HexToRgb(hex);
      var ox := HexToOx(hex);
      ValidIffDecodes(hex);
      c := CurrentColor(hex, rgb, ox);
    }
  }
}
