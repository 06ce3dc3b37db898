# Colour picker: format conversions and synchronised surfaces

A model of the colour engine of the `ColorPicker` class of a browser
colour-picker widget. The widget keeps a native colour input, a hex text
field, three RGB sliders with their value labels, a preview swatch and a
`0x…` output field showing one colour.

The project has three modules:

- `JsString` (`js_string.dfy`) states the JavaScript string built-ins the
  engine relies on: `indexOf`, `replace` with a one-character string pattern,
  and `trim` with the ECMAScript whitespace set.
- `ColorFormat` (`color_format.dfy`) holds the pure conversions:
  - `hexToRgb` decodes hex text to channels, doubling out the three-digit
    shorthand as the hex notation of CSS Color Module Level 4, section 5.2,
    does.
  - `rgbToHex` writes `#` and two lower-case digits per channel, via a
    model of `Number.prototype.toString(16)`.
  - `hexToOx` gives the `0x` form.
  - `isValidHex` is the anchored regular-expression test.
- `ColorPickerState` (`color_picker.dfy`) holds the class `ColorPicker`.
  The page's surfaces are its fields. The three update paths (native picker,
  hex field, sliders) either rewrite every surface through `UpdateAllInputs`
  or leave the object untouched. The object invariant `Valid()` says the
  picker holds valid hex text and every surface shows the colour it decodes
  to. Each of the three update paths re-establishes it.

Quirks of the code that the model keeps:

- `replace('#', '')` removes the first `#` wherever it stands, not only a
  leading one.
- `hexToRgb` checks only the length of what is left, never its characters.
- The picker and hex-field paths show the text they were given verbatim.
  Shorthand and upper-case text reach the hex field and the `0x` output
  unchanged (`#ABC` gives `0xABC`). Only the slider path writes the canonical
  lower-case six-digit form.

## Model

| member | source | states |
|---|---|---|
| JsString.IndexOf | app.js:70 | `indexOf` gives -1 or a position inside the text that holds the character |
| JsString.IndexOfFirst | app.js:70 | `indexOf` gives -1 exactly when the character does not occur, and otherwise no earlier position holds it |
| JsString.RemoveFirst | app.js:70 | `replace` with a one-character pattern removes at most one character, and text it does not shorten comes back unchanged |
| JsString.RemoveFirstSplice | app.js:70 | `replace` with a one-character pattern splices out the first occurrence wherever it stands and keeps every later one |
| JsString.RemoveFirstCases | app.js:70 | `replace('#', '')` drops a leading `#` and leaves text without `#` unchanged |
| JsString.Trim | app.js:120 | `trim` gives nothing exactly when the text is all whitespace; otherwise it gives the slice between the leading and trailing whitespace runs, which starts and ends with a non-whitespace character |
| ColorFormat.HexValue | app.js:81-83 | `parseInt(…, 16)` of n hex digits is below 16 to the power n |
| ColorFormat.Base16 | app.js:90 | `toString(16)` of a non-negative number is lower-case digits with no leading zero, one digit exactly below 16 |
| ColorFormat.Base16RoundTrip | app.js:90 | the digits `toString(16)` writes read back (as `parseInt(…, 16)` reads them) to the number |
| ColorFormat.ToString16 | app.js:90 | `toString(16)` writes at least one character, a leading `-` exactly for negative numbers, and a single character exactly for 0 to 15 |
| ColorFormat.ToHex | app.js:89-92 | `toHex` always writes at least two characters, and a leading `0` for 0 to 15 |
| ColorFormat.ToHexByte | app.js:89-92 | `toHex` of a channel in [0, 255] is the high and the low nibble as lower-case digits, `0`-padded below 16, and reads back to the channel |
| ColorFormat.RgbToHex | app.js:88-95 | `rgbToHex` writes at least seven characters and starts with `#`, whatever the channels |
| ColorFormat.RgbToHexDigits | app.js:88-95 | for channels in [0, 255], `rgbToHex` is `#` and six hex digits whose pairs read back as red, green and blue |
| ColorFormat.RgbToHexShape | app.js:88-95 | `rgbToHex` of three channels in [0, 255] is seven characters: `#` then two lower-case zero-padded digits per channel, red, green, blue |
| ColorFormat.SliderExamples | app.js:88-95 | channels 0, 0, 0 give `#000000` and 255, 165, 0 give `#ffa500` |
| ColorFormat.StripHash | app.js:70 | `hex.replace('#', '')` is at most one character shorter than the text, and drops a leading `#` |
| ColorFormat.StripHashNoHash | app.js:70 | text without `#` passes through `replace('#', '')` unchanged |
| ColorFormat.Doubled | app.js:74 | the doubled text is twice as long and its character j is character j/2 of the original |
| ColorFormat.Expanded | app.js:70-75 | the text `hexToRgb` slices is six characters long exactly when the text without its first `#` is three or six long |
| ColorFormat.HexToRgb | app.js:68-86 | `hexToRgb` gives `null` exactly when the text without its first `#` is neither 3 nor 6 long, and otherwise three channels in [0, 255] |
| ColorFormat.PairValues | app.js:81-83 | each two-digit slice of six digits reads as 16 times its first digit plus its second |
| ColorFormat.DecodedChannels | app.js:81-85 | each decoded channel is 16 times its first digit plus its second digit, read from the six-digit expansion |
| ColorFormat.ShorthandExpansion | app.js:72-85 | three digits decode as their digit-doubled six-digit form does, each channel being 17 times its digit |
| ColorFormat.AbcDecodes | app.js:68-86 | any text that is `abc` once its first `#` is gone decodes to 170, 187, 204 |
| ColorFormat.ShorthandExample | app.js:68-86 | `abc`, `#abc` and `aabbcc` all decode to 170, 187, 204 |
| ColorFormat.RoundTrip | app.js:68-95 | decoding the `rgbToHex` text of any channels in [0, 255] gives back exactly those channels |
| ColorFormat.MatchesHexRunIff | app.js:107 | the anchored pattern `^[0-9A-Fa-f]{n}$` matches exactly the texts of n hex digits |
| ColorFormat.IsValidHex | app.js:102-109 | `isValidHex` holds exactly when the text without its first `#` is 3 or 6 hex digits of either case; valid text always decodes to channels in [0, 255] |
| ColorFormat.ValidIffDecodes | app.js:68-109 | on text `hexToRgb` can read, it succeeds exactly when `isValidHex` holds |
| ColorFormat.MatchedAsWritten | app.js:102-109 | text without `#` is taken exactly when it is 3 or 6 hex digits |
| ColorFormat.ValidLengthExamples | app.js:102-109 | `12345` is refused and `123456` taken |
| ColorFormat.ValidCharExamples | app.js:102-109 | `gg0000` is refused and `#fff` taken |
| ColorFormat.CanonicalForm | app.js:68-95 | re-encoding decoded valid text gives `#` and the lower-case six-digit expansion of that text |
| ColorFormat.HexToOx | app.js:97-100 | `hexToOx` starts with `0x` and is two characters longer than the text without its first `#` |
| ColorFormat.HexToOxForm | app.js:97-100 | `hexToOx` puts `0x` in place of a leading `#` and in front of text without `#`; it is one character longer than text holding a `#` and two longer than text without one |
| ColorFormat.OxOfHashText | app.js:97-100 | the `0x` form of `#` and some text is `0x` and that text, and `#` in place of `0x` restores the original |
| ColorFormat.OxOfRgbToHex | app.js:88-100 | the `0x` form of an `rgbToHex` result is `0x` and its six digits, eight characters, and decodes back to the channels |
| ColorPickerState.HexFieldText | app.js:120-125 | the hex-field text is empty exactly when the input is blank; otherwise it starts with `#`, and without that `#` it is the trimmed input without its own leading `#` |
| ColorPickerState.HexFieldAccepts | app.js:119-133 | the hex field takes typed text exactly when, trimmed and without one leading `#`, it is 3 or 6 hex digits |
| ColorPickerState.BlankInputRefused | app.js:119-133 | empty or blank input is refused |
| ColorPickerState.IncompleteInputRefused | app.js:119-133 | input whose digits are not 3 or 6 long (such as `#ab`) is refused, whatever its characters |
| ColorPickerState.OxShowsTypedDigits | app.js:119-133 | on the hex-field path the `0x` output shows the digits as typed, with no expansion and no case change |
| ColorPickerState.DefaultHex | app.js:6 | `rgbToHex(40, 61, 70)` is `#283d46` |
| ColorPickerState.DefaultColor | app.js:6 | `#283d46` decodes to 40, 61, 70, is their canonical text, and has the `0x` form `0x283d46` |
| ColorPickerState.DefaultOx | app.js:6 | the `0x` form of `#283d46` is `0x283d46` |
| ColorPickerState.ColorPicker.constructor | app.js:3-7 | a new picker satisfies the invariant and shows `#283d46`, red 40, green 61, blue 70, `0x283d46` |
| ColorPickerState.ColorPicker.SetDefaultColor | app.js:63-65 | behaves as the picker path on the given colour |
| ColorPickerState.ColorPicker.UpdateFromColorPicker | app.js:112-117 | if `hexToRgb` gives `null` nothing changes; otherwise every surface shows the given text verbatim and its channels, and the invariant holds |
| ColorPickerState.ColorPicker.UpdateFromHexInput | app.js:119-133 | if the trimmed, `#`-prefixed text fails `isValidHex` nothing changes; otherwise every surface shows that text verbatim and its channels, and the invariant holds |
| ColorPickerState.ColorPicker.UpdateFromRgbSliders | app.js:135-142 | always succeeds: every surface shows the slider positions and the `rgbToHex` text of them, and the invariant holds |
| ColorPickerState.ColorPicker.UpdateAllInputs | app.js:145-166 | picker, hex field and preview hold the text; sliders and labels hold the channels; the output field holds `hexToOx` of the text |
| ColorPickerState.ColorPicker.UpdateColorPreview | app.js:168-170 | the preview shows the text and no other field changes |
| ColorPickerState.ColorPicker.UpdateOxOutput | app.js:172-175 | the output field holds `hexToOx` of the text and no other field changes |
| ColorPickerState.ColorPicker.GetCurrentColor | app.js:229-239 | reports the picker text, `hexToRgb` of it (present exactly when the text is valid) and `hexToOx` of it, in every state; in a valid state these equal what the sliders and the output field show |

## Left out

- Looking up the page elements and wiring their event listeners (app.js:9-61) is browser plumbing. The surfaces are fields and the events are method calls.
- Copying to the clipboard, through `navigator.clipboard` or the `execCommand` fallback (app.js:178-217), is an asynchronous host API.
- The copy feedback shown for a while through `setTimeout` (app.js:219-226) is timer-driven UI.
- The `DOMContentLoaded` start-up, the `window.colorPicker` global and the Ctrl/Cmd+C shortcut (app.js:243-268) are event routing on page state.
- The browser's own edits of the surfaces are not modelled: typing into the field, dragging a slider, and sanitising the native colour input's value. The fields hold what the code last wrote, and a caller may assign the slider fields directly.
- The surface values before `setDefaultColor` runs are left to the page; the constructor starts the fields from empty text and zeros.
- ColorFormat.HexToRgb: modelled only on text that, once its first `#` is gone, is hex digits whenever it is 3 or 6 long. `parseInt` giving `NaN` or reading a hex prefix on other characters (app.js:81-83) is not modelled.
- ColorPickerState.ColorPicker.UpdateFromColorPicker: requires decodable text, as `hexToRgb` does. The native input only produces `#rrggbb`, which is decodable.
- ColorPickerState.ColorPicker.SetDefaultColor: requires decodable text for the same reason.
- ColorPickerState.ColorPicker.GetCurrentColor: requires the picker text to be decodable, which the invariant guarantees in every state the update paths produce.
- ColorPickerState.ColorPicker.UpdateFromRgbSliders: requires each slider position in [0, 255], which the range inputs enforce. The slider values are read as integers, so the `parseInt` of their text (app.js:136-138) is not modelled.
- ColorPickerState.ColorPicker.UpdateAllInputs: the value labels hold the channel numbers, not the decimal text `textContent` turns them into.
- ColorFormat.ToString16: covers integers only. `toString(16)` of fractional numbers, `NaN` and infinities is not modelled.
- String length counts Unicode scalar values, not UTF-16 code units. Text with characters outside the Basic Multilingual Plane may have a different `length` in JavaScript, which can change the 3-or-6 length tests.
