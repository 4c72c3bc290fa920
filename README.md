# Capture-at-time timestamp parsing and screenshot naming

This project models the one piece of real logic in the YouTube extractor
extension's popup: the "capture at time" button handler in `popup.js`.
The user types a timestamp such as `1:23` or `01:23:45` into the popup. The handler:

- trims the text and refuses an empty one with "Please enter a timestamp.";
- splits the text on `:` and converts each part with JavaScript's `Number`;
- reads two parts as `minutes * 60 + seconds` and three parts as
  `hours * 3600 + minutes * 60 + seconds`;
- refuses any other number of parts with "Invalid timestamp format. Use MM:SS
  or HH:MM:SS.";
- sends the computed seconds to the page in a `captureAtTime` request;
- when a screenshot comes back, saves it as `screenshot_<timestamp>.png`, with
  every `:` of the trimmed timestamp replaced by `_`.

The model is pure, as the logic is. The modules are:

- `Wrappers` holds `Option` and `Result`.
- `JsString` models the string built-ins the handler uses: `trim` (the
  ECMAScript white-space and line-terminator set), `split` on one character
  (with JavaScript's empty-part behaviour) and a global one-character
  `replace`.
- `JsNumber` models `Number` on decimal numerals with optional surrounding
  white space. As in JavaScript, an empty or all-blank part reads as 0 and
  leading zeros are ignored.
- `Popup` holds the handler itself: `ParseTimestamp` (built from
  `FromParts`), the reaction to the click (`CaptureAtTimeClicked`), the
  label and file name (`Sanitise`, `DownloadName`) and the reply callback
  (`CaptureResponded`).

`ParseTimestamp` follows the code's order of checks:

1. An empty trimmed text is `EmptyTimestamp`.
2. A text with a part count other than 2 or 3 is then `InvalidFormat`, whatever the parts hold.
3. Only then do the parts' contents matter.

`JsNumber.Decimal` writes a natural as its canonical numeral. It is the
reference the parse round-trip lemmas are stated against: every `M:S` and
`H:M:S` written with it reads back as the intended seconds.

`Number` does not reject a non-numeric part. It yields `NaN` or some other
number, and the request is still sent. Such a part gives `UncoercedComponent`
and the reaction `SendUncoercedCapture`: a request goes out with a time this
model does not track, and no error message is shown.

## Model

| member | source | states |
|---|---|---|
| JsString.Trim | popup.js:45 | the trimmed text neither starts nor ends with white space, is no longer than the input, and a text without white space at its ends is left unchanged |
| JsString.TrimStartIsSuffix | popup.js:45 | removing leading white space leaves a suffix of the input, everything removed is white space, and the rest does not start with white space |
| JsString.TrimEndIsPrefix | popup.js:45 | removing trailing white space leaves a prefix of the input, everything removed is white space, and the rest does not end with white space |
| JsString.TrimEmpty | popup.js:45-46 | a text trims to the empty string exactly when every character of it is white space |
| JsString.TrimIsInfix | popup.js:45 | the trimmed text is a contiguous run of the input with only white space before and after it |
| JsString.TrimIdempotent | popup.js:45 | trimming a trimmed text changes nothing |
| JsString.Split | popup.js:51 | splitting gives at least one part and no part contains the separator |
| JsString.SplitCount | popup.js:51 | the number of parts is the number of separators plus one |
| JsString.JoinSplit | popup.js:51 | joining the parts with the separator gives back the original text, so splitting loses nothing |
| JsString.SplitWithoutSeparator | popup.js:51 | a text without the separator splits into itself alone |
| JsString.SplitAfterPart | popup.js:51 | a separator-free prefix followed by the separator becomes the first part, and the rest splits on its own |
| JsString.SplitJoin | popup.js:51 | splitting a join of separator-free parts gives back exactly those parts |
| JsString.ReplaceAll | popup.js:66 | the result has the input's length; every occurrence of the pattern character becomes the replacement and every other character stays in place |
| JsNumber.ToNumber | popup.js:51 | a part converts to a number exactly when its trimmed text is all digits, and the number is the decimal value of that text |
| JsNumber.Decimal | popup.js:50-51 | the canonical numeral of a natural is a non-empty digit string whose decimal value is that natural, with no leading zero except in "0" itself |
| JsNumber.LeadingZeroIgnored | popup.js:50-51 | a leading zero does not change a numeral's value, so "01" reads as 1 |
| JsNumber.LeadingZerosIgnored | popup.js:50-51 | any run of leading zeros leaves a numeral's value unchanged |
| JsNumber.ToNumberOfPaddedDecimal | popup.js:50-51 | a zero-padded numeral such as "01" or "007" converts to the number it pads |
| JsNumber.ToNumberOfDecimal | popup.js:51 | the canonical numeral of every natural converts back to that natural |
| JsNumber.ToNumberOfWhiteSpace | popup.js:51 | an empty or all-blank part converts to 0 |
| Popup.FromParts | popup.js:53-60 | two numeric parts give m*60+s, three give h*3600+m*60+s, any other part count is InvalidFormat whatever the parts hold, and a non-numeral among two or three parts is UncoercedComponent |
| Popup.ParseTimestamp | popup.js:45-60 | the result is EmptyTimestamp exactly when the trimmed text is empty, and InvalidFormat exactly when the trimmed text is non-empty and has neither one nor two colons; a success has one or two colons |
| Popup.EmptyWhenAllWhiteSpace | popup.js:45-49 | the timestamp is refused as empty exactly when the field holds only white space |
| Popup.ColonCountDecidesFormat | popup.js:51-60 | two non-empty timestamps with the same number of colons are both malformed or both not |
| Popup.SplitTwo | popup.js:51 | `m:s` with colon-free m and s splits into exactly [m, s] |
| Popup.SplitThree | popup.js:51 | `h:m:s` with colon-free parts splits into exactly [h, m, s] |
| Popup.MinutesSeconds | popup.js:51-54 | a trimmed timestamp `m:s` parses to Number(m)*60+Number(s) when both are numerals and to UncoercedComponent otherwise |
| Popup.HoursMinutesSeconds | popup.js:51-56 | a trimmed timestamp `h:m:s` parses to Number(h)*3600+Number(m)*60+Number(s) when all are numerals and to UncoercedComponent otherwise |
| Popup.NumeralPart | popup.js:51 | a non-empty numeral has no colon, no white space at its ends, and converts to its decimal value |
| Popup.NumeralMinutesSeconds | popup.js:53-54 | any two non-empty numerals joined by a colon, leading zeros allowed, parse to value*60+value |
| Popup.NumeralHoursMinutesSeconds | popup.js:55-56 | any three non-empty numerals joined by colons parse to value*3600+value*60+value |
| Popup.MinutesSecondsRoundTrip | popup.js:53-54 | for all naturals M and S, the text `M:S` parses back to M*60+S |
| Popup.HoursMinutesSecondsRoundTrip | popup.js:55-56 | for all naturals H, M and S, the text `H:M:S` parses back to H*3600+M*60+S |
| Popup.CaptureAtTimeClicked | popup.js:44-62 | the click shows "Please enter a timestamp." exactly for a blank field and "Invalid timestamp format. Use MM:SS or HH:MM:SS." exactly for a wrong colon count; a request with a tracked time is sent exactly when parsing succeeds, and that time is the parsed seconds |
| Popup.Sanitise | popup.js:66 | the label has the timestamp's length and contains no colon; each colon became an underscore and every other character is unchanged at its position |
| Popup.SanitiseIdempotent | popup.js:66 | sanitising a label again changes nothing |
| Popup.SanitiseInjective | popup.js:66 | two timestamps without underscores that get the same label are equal |
| Popup.DownloadName | popup.js:66 | the file name is "screenshot_", then the sanitised timestamp, then ".png"; it is 15 characters longer than the timestamp and contains no colon |
| Popup.CaptureResponded | popup.js:62-71 | a present, non-empty screenshot is downloaded from its data URL under the name built from the trimmed timestamp; anything else shows "Could not capture screenshot. Ensure video is accessible." |
| Popup.CaptureAtTimeSavesUnderLabel | popup.js:45-66 | a timestamp that parses sends exactly its seconds, and a returned screenshot is saved as "screenshot_" + sanitised trimmed text + ".png" |
| Popup.ExampleMinutesSeconds | popup.js:50 | "1:23" is 83 seconds |
| Popup.ExampleHoursMinutesSeconds | popup.js:45-56 | " 01:23:45 " is 5025 seconds |
| Popup.ExampleEmptySeconds | popup.js:51-54 | "1:" is 60 seconds, since an empty part converts to 0 |
| Popup.ExampleBlank | popup.js:45-49 | a field of blanks is refused as empty |
| Popup.ExampleBareNumber | popup.js:57-60 | "83", with no colon, is malformed |
| Popup.ExampleFourParts | popup.js:57-60 | "1:2:3:4" is malformed |
| Popup.ExampleDownloadName | popup.js:66 | "1:23" is saved as "screenshot_1_23.png" |

## Left out

- ParseTimestamp: a part that is not a decimal numeral gives UncoercedComponent. The source instead computes with whatever `Number` returns: NaN, a fraction, a negative number, an exponent form, hexadecimal or Infinity. That floating-point coercion is not modelled.
- CaptureAtTimeClicked: for such a part it returns SendUncoercedCapture. It does not say which time the request carries.
- ToNumber, FromParts: numbers, and the seconds computed from them, are exact naturals. Past 2^53 the source rounds each `Number` and the sums `parts[0] * 60 + parts[1]` and `parts[0] * 3600 + parts[1] * 60 + parts[2]` (popup.js:54, 56) to the nearest double, and can overflow to Infinity. Neither the rounding nor the overflow is modelled.
- Strings are sequences of Unicode scalar values. JavaScript strings are UTF-16 code units, so lone surrogates cannot be represented.
- The `chrome.tabs.query` and `chrome.tabs.sendMessage` round trip (popup.js:61-62) is asynchronous browser messaging. Only the request's time (`CaptureAtTimeClicked`) and the reply (`CaptureResponded`) are modelled.
- Page access and downloads are UI glue with no logic: `displayError` and clearing the message at the start of each handler (popup.js:2-4, 44), creating and clicking the anchor, and `alert` (popup.js:64-68).
- The "extract transcript" handler (popup.js:6-24) only forwards a page reply to a text download.
- The "capture screenshot now" handler (popup.js:26-41) names its file from `Date.now()`, which depends on the clock.
- CaptureResponded: the reply is left unconstrained. As the repository stands, content.js answers only `extractTranscript` and `captureScreenshot` (content.js:3, 18) and never replies to `captureAtTime`. So the callback at popup.js:62 receives `undefined`, which is `CaptureResponded(timestamp, None)`, and every sent request ends in "Could not capture screenshot. Ensure video is accessible.". The model keeps any reply possible so that it describes the popup alone.
- content.js is not part of this model. Its transcript scraping and canvas frame capture are page and rendering I/O.
